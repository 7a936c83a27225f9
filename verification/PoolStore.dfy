/** The tree of blocks of a pool: pointers read through the vdevs and decoded from
  * the slots of indirect blocks (src/file.rs). */
module PoolStore {
  import opened Base
  import opened Endian
  import opened BlockPointers
  import opened Devices
  import opened IndirectTree
  import BitOps
  import PointerBytes
  import PointerCodec
  import BlockReader

  function StoreOf(pool: Pool, topo: BlockReader.Topology, order: Order): (store: Store<BlockPointer>) {
    Store(bp => BlockReader.ReadPointer(pool, topo, bp),
          slot => if |slot| == POINTER_SIZE then PointerBytes.Decode(order, slot) else None)
  }

  /** Pointers that come back from 128 bytes. */
  predicate Storable(p: Option<BlockPointer>) {
    p.Some? ==>
      && PointerCodec.Shaped(p.value) && PointerCodec.EncodeWords(p.value).Some?
      && p.value != PointerBytes.ZERO_POINTER
  }

  function PointerSlot(order: Order, p: Option<BlockPointer>): (s: seq<byte>)
    requires Storable(p)
    ensures |s| == POINTER_SIZE
  {
    PointerBytes.Encode(order, p).value
  }

  /** An indirect block as written: its pointers one after another. */
  function IndirectBlock(order: Order, pointers: seq<Option<BlockPointer>>): (s: seq<byte>)
    requires forall i :: 0 <= i < |pointers| ==> Storable(pointers[i])
    ensures |s| == |pointers| * POINTER_SIZE
  {
    if pointers == [] then [] else PointerSlot(order, pointers[0]) + IndirectBlock(order, pointers[1..])
  }

  lemma {:induction false} SlotOfBlock(order: Order, pointers: seq<Option<BlockPointer>>, i: nat)
    requires (forall k :: 0 <= k < |pointers| ==> Storable(pointers[k])) && i < |pointers|
    ensures Slot(IndirectBlock(order, pointers), i) == Some(PointerSlot(order, pointers[i]))
    decreases i
  {
    var first, rest := PointerSlot(order, pointers[0]), IndirectBlock(order, pointers[1..]);
    if i == 0 {
      assert (first + rest)[..POINTER_SIZE] == first;
    } else {
      SlotOfBlock(order, pointers[1..], i - 1);
      assert (first + rest)[i * POINTER_SIZE..(i + 1) * POINTER_SIZE] == rest[(i - 1) * POINTER_SIZE..i * POINTER_SIZE];
    }
  }

  /** Each slot of a written indirect block decodes to its pointer, holes included. */
  lemma SlotDecodes(pool: Pool, topo: BlockReader.Topology, order: Order, pointers: seq<Option<BlockPointer>>, i: nat)
    requires (forall k :: 0 <= k < |pointers| ==> Storable(pointers[k])) && i < |pointers|
    ensures var slot := Slot(IndirectBlock(order, pointers), i);
            slot.Some? && StoreOf(pool, topo, order).decode(slot.value) == Some(pointers[i])
  {
    SlotOfBlock(order, pointers, i);
    if pointers[i].Some? {
      PointerBytes.RoundTrip(order, pointers[i].value);
    }
  }

  /** So the tree under an indirect block that reads back as written is the node of its
    * pointers' trees. */
  lemma WrittenNode(pool: Pool, topo: BlockReader.Topology, order: Order, shift: nat, p: BlockPointer,
                    pointers: seq<Option<BlockPointer>>, l: nat)
    requires |pointers| == BitOps.Pow2(shift) && 1 <= l
    requires forall k :: 0 <= k < |pointers| ==> Storable(pointers[k])
    requires BlockReader.ReadPointer(pool, topo, p) == Ok(IndirectBlock(order, pointers))
    ensures var store := StoreOf(pool, topo, order);
            var tree := TreeOf(store, shift, Some(p), l);
            && tree.Node? && |tree.children| == |pointers|
            && forall k :: 0 <= k < |pointers| ==> tree.children[k] == TreeOf(store, shift, pointers[k], l - 1)
  {
    var store := StoreOf(pool, topo, order);
    forall k | 0 <= k < |pointers|
      ensures SlotTree(store, shift, Slot(IndirectBlock(order, pointers), k), l - 1)
           == TreeOf(store, shift, pointers[k], l - 1)
    {
      SlotDecodes(pool, topo, order, pointers, k);
    }
  }
}
