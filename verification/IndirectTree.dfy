/** The tree of indirect blocks under a dnode (src/file.rs), against the flat list
  * of blocks it stands for. */
module IndirectTree {
  import opened Base
  import opened BitOps
  import opened BlockPointers
  import opened Errors

  const MAX_LEVELS := 16

  /** Reading what a pointer names, and decoding a 128-byte slot of an indirect block. */
  datatype Store<!P> = Store(
    fetch: P -> Result<seq<byte>, Error>,
    decode: seq<byte> -> Option<Option<P>>)

  datatype Dnode<P> = Dnode(levels: byte, indirectShift: byte, sectors: u16, pointers: seq<Option<P>>) {
    /** Log of the slots per indirect block, a slot being 2^7 bytes. */
    function Shift(): (s: nat) {
      if indirectShift < 7 then 0 else indirectShift - 7
    }

    /** Every shift of the walk is below 64. */
    predicate Shiftable() {
      0 < levels <= MAX_LEVELS && Shift() * (levels - 1) < 64 && Shift() < 64
    }
  }

  const BAD_LEVELS := Inconsistent("dnode_levels")
  const BAD_SHIFT := Inconsistent("dnode_indshift")
  const OUT_OF_BOUNDS := Inconsistent("indirect_oob")
  const BAD_POINTER := Inconsistent("indirect_bp_decode")

  /** Blocks under one pointer of level `l`: 2^(shift * l). */
  function Span(shift: nat, l: nat): (n: nat)
    ensures 0 < n
  {
    Pow2(Scale(l, shift))
  }

  /** The base-2^shift digit of `id` that selects a slot at level `l`. */
  function Digit(id: nat, shift: nat, l: nat): (d: nat)
    requires 1 <= l
  {
    DivNat(id, Span(shift, l - 1));
    id / Span(shift, l - 1) % Pow2(shift)
  }

  function Slot(block: seq<byte>, i: nat): (s: Option<seq<byte>>) {
    if (i + 1) * POINTER_SIZE <= |block| then Some(block[i * POINTER_SIZE..(i + 1) * POINTER_SIZE]) else None
  }

  /** From the indirect block `current` of level `l` down. */
  function Descend<P>(store: Store<P>, current: seq<byte>, shift: nat, l: nat,
                      id: nat): (r: Result<Option<seq<byte>>, Error>)
    requires 1 <= l
    decreases l
  {
    match Slot(current, Digit(id, shift, l))
    case None => Err(OUT_OF_BOUNDS)
    case Some(slot) =>
      match store.decode(slot)
      case None => Err(BAD_POINTER)
      case Some(None) => Ok(None)
      case Some(Some(child)) =>
        match store.fetch(child)
        case Err(e) => Err(e)
        case Ok(block) => if l == 1 then Ok(Some(block)) else Descend(store, block, shift, l - 1, id)
  }

  function Walk<P>(store: Store<P>, dnode: Dnode<P>, id: nat): (r: Result<Option<seq<byte>>, Error>) {
    if dnode.levels == 0 then Ok(None)
    else if dnode.levels > MAX_LEVELS then Err(BAD_LEVELS)
    else if !dnode.Shiftable() then Err(BAD_SHIFT)
    else
      var top := id / Span(dnode.Shift(), dnode.levels - 1);
      DivNat(id, Span(dnode.Shift(), dnode.levels - 1));
      if top >= |dnode.pointers| || dnode.pointers[top].None? then Ok(None) else
        match store.fetch(dnode.pointers[top].value)
        case Err(e) => Err(e)
        case Ok(block) =>
          if dnode.levels == 1 then Ok(Some(block))
          else Descend(store, block, dnode.Shift(), dnode.levels - 1, id)
  }

  /** An indirect block of 2^indirectShift bytes is exactly 2^shift slots of 128 bytes, and
    * below 128 bytes the shift is 0. */
  lemma ShiftIs<P>(dnode: Dnode<P>)
    ensures dnode.indirectShift < 7 ==> dnode.Shift() == 0
    ensures dnode.indirectShift >= 7 ==> Pow2(dnode.Shift()) * 128 == Pow2(dnode.indirectShift)
  {
    if dnode.indirectShift >= 7 {
      Pow2Add(dnode.indirectShift - 7, 7);
      Pow2Bytes();
    }
  }

  lemma SlotsFill<P>(dnode: Dnode<P>, block: seq<byte>, i: nat)
    requires dnode.indirectShift >= 7 && |block| == Pow2(dnode.indirectShift)
    ensures Slot(block, i).Some? <==> i < Pow2(dnode.Shift())
    ensures i < Pow2(dnode.Shift()) ==>
              128 * i + 128 <= |block| && Slot(block, i) == Some(block[128 * i..128 * i + 128])
  {
    hide Pow2;
    ShiftIs(dnode);
  }

  /** The slot a block id selects at level `l`, and the blocks under a pointer. */
  lemma DigitIs(id: nat, shift: nat, l: nat)
    requires 1 <= l
    ensures Digit(id, shift, l) == id / Pow2(shift * (l - 1)) % Pow2(shift)
    ensures Span(shift, l) == Pow2(shift * l)
  {
    hide Pow2;
    ScaleIs(l - 1, shift);
    ScaleIs(l, shift);
    Commute(shift, l - 1);
    Commute(shift, l);
  }

  /** Which dnodes the walk refuses, on the raw fields. */
  lemma WalkLimits<P>(store: Store<P>, dnode: Dnode<P>, id: nat)
    ensures dnode.levels == 0 ==> Walk(store, dnode, id) == Ok(None)
    ensures dnode.levels > 16 ==> Walk(store, dnode, id) == Err(Inconsistent("dnode_levels"))
    ensures 1 <= dnode.levels <= 16 ==>
              var shift := if dnode.indirectShift > 7 then dnode.indirectShift - 7 else 0;
              && (dnode.Shiftable() <==> shift < 64 && shift * (dnode.levels - 1) < 64)
              && (!dnode.Shiftable() ==> Walk(store, dnode, id) == Err(Inconsistent("dnode_indshift")))
  {
  }

  // The reference: the tree of blocks a pointer is the root of, and the flat list of
  // answers it stands for

  type Answer = Result<Option<seq<byte>>, Error>

  datatype Tree = Hole | Data(block: seq<byte>) | Node(children: seq<Tree>) | Broken(error: Error)

  /** What is under a pointer of level `l`. A block that does not read is broken, and so is
    * a slot that is not there or does not decode. */
  function TreeOf<P>(store: Store<P>, shift: nat, p: Option<P>, l: nat): (tree: Tree)
    decreases l, 1
  {
    match p
    case None => Hole
    case Some(q) =>
      match store.fetch(q)
      case Err(e) => Broken(e)
      case Ok(block) => if l == 0 then Data(block) else Node(SlotTrees(store, shift, block, l - 1))
  }

  function SlotTrees<P>(store: Store<P>, shift: nat, block: seq<byte>, l: nat): (trees: seq<Tree>)
    ensures |trees| == Pow2(shift)
    ensures forall i :: 0 <= i < |trees| ==> trees[i] == SlotTree(store, shift, Slot(block, i), l)
    decreases l, 3
  {
    seq(Pow2(shift), i requires 0 <= i => SlotTree(store, shift, Slot(block, i), l))
  }

  function SlotTree<P>(store: Store<P>, shift: nat, slot: Option<seq<byte>>, l: nat): (tree: Tree)
    decreases l, 2
  {
    match slot
    case None => Broken(OUT_OF_BOUNDS)
    case Some(s) =>
      match store.decode(s)
      case None => Broken(BAD_POINTER)
      case Some(p) => TreeOf(store, shift, p, l)
  }

  /** The answers for the blocks under a tree of level `l`, in order; a hole, or what is
    * broken, stands for a full set. */
  function Flat(tree: Tree, shift: nat, l: nat): (blocks: seq<Answer>)
    decreases l, 0
  {
    match tree
    case Hole => seq(Span(shift, l), _ => Ok(None))
    case Broken(e) => seq(Span(shift, l), _ => Err(e))
    case Data(block) => [Ok(Some(block))]
    case Node(children) => if l == 0 then [] else FlatAll(children, shift, l - 1)
  }

  function FlatAll(trees: seq<Tree>, shift: nat, l: nat): (blocks: seq<Answer>)
    decreases l, 1, |trees|
  {
    if trees == [] then [] else Flat(trees[0], shift, l) + FlatAll(trees[1..], shift, l)
  }

  /** Every tree of level `l` stands for 2^(shift * l) blocks. */
  ghost predicate Full(trees: seq<Tree>, shift: nat, l: nat) {
    forall i :: 0 <= i < |trees| ==> |Flat(trees[i], shift, l)| == Span(shift, l)
  }

  lemma {:induction false} FlatAllAt(trees: seq<Tree>, shift: nat, l: nat, i: nat)
    requires Full(trees, shift, l)
    ensures |FlatAll(trees, shift, l)| == Scale(|trees|, Span(shift, l))
    ensures i / Span(shift, l) < |trees| <==> i < |FlatAll(trees, shift, l)|
    ensures i < |FlatAll(trees, shift, l)| ==>
              && 0 <= i / Span(shift, l) < |trees| && 0 <= i % Span(shift, l)
              && FlatAll(trees, shift, l)[i] == Flat(trees[i / Span(shift, l)], shift, l)[i % Span(shift, l)]
    decreases |trees|
  {
    var p := Span(shift, l);
    if trees != [] {
      if i < p {
        DivModUnique(i, p, 0, i);
        FlatAllAt(trees[1..], shift, l, 0);
      } else {
        FlatAllAt(trees[1..], shift, l, i - p);
        AddMultiple(i - p, 1, p);
      }
    } else {
      DivNat(i, p);
    }
  }

  lemma LevelSplit(shift: nat, l: nat)
    requires 1 <= l
    ensures Span(shift, l) == Pow2(shift) * Span(shift, l - 1)
  {
    PowSplit(shift, Scale(l - 1, shift), Scale(l, shift));
  }

  lemma PowSplit(j: nat, k: nat, n: nat)
    requires n == j + k
    ensures Pow2(n) == Pow2(j) * Pow2(k)
  {
    Pow2Add(j, k);
  }

  lemma {:induction false} FlatSize<P>(store: Store<P>, shift: nat, p: Option<P>, l: nat)
    ensures |Flat(TreeOf(store, shift, p, l), shift, l)| == Span(shift, l)
    decreases l, 1
  {
    if p.Some? && store.fetch(p.value).Ok? && l > 0 {
      var trees := SlotTrees(store, shift, store.fetch(p.value).value, l - 1);
      SlotsFull(store, shift, store.fetch(p.value).value, l - 1);
      FlatAllAt(trees, shift, l - 1, 0);
      ScaleIs(Pow2(shift), Span(shift, l - 1));
      LevelSplit(shift, l);
    }
  }

  lemma {:induction false} SlotsFull<P>(store: Store<P>, shift: nat, block: seq<byte>, l: nat)
    ensures Full(SlotTrees(store, shift, block, l), shift, l)
    decreases l, 2
  {
    var trees := SlotTrees(store, shift, block, l);
    forall i | 0 <= i < |trees|
      ensures |Flat(trees[i], shift, l)| == Span(shift, l)
    {
      var slot := Slot(block, i);
      if slot.Some? && store.decode(slot.value).Some? {
        FlatSize(store, shift, store.decode(slot.value).value, l);
      }
    }
  }

  /** The answer at the low digits of `id` is in the child the next digit selects. */
  lemma FlatChild<P>(store: Store<P>, shift: nat, block: seq<byte>, l: nat, id: nat)
    requires 1 <= l
    ensures var answers := FlatAll(SlotTrees(store, shift, block, l - 1), shift, l - 1);
            var child := SlotTree(store, shift, Slot(block, Digit(id, shift, l)), l - 1);
            && 0 <= id % Span(shift, l) < |answers|
            && 0 <= id % Span(shift, l - 1) < |Flat(child, shift, l - 1)| == Span(shift, l - 1)
            && answers[id % Span(shift, l)] == Flat(child, shift, l - 1)[id % Span(shift, l - 1)]
  {
    hide Pow2, Span, Slot, FlatAll, Flat;
    var trees := SlotTrees(store, shift, block, l - 1);
    LevelSplit(shift, l);
    DigitSplit(id, Pow2(shift), Span(shift, l - 1));
    SlotsFull(store, shift, block, l - 1);
    ScaleIs(Pow2(shift), Span(shift, l - 1));
    FlatAllAt(trees, shift, l - 1, id % Span(shift, l));
    assert trees[Digit(id, shift, l)] == SlotTree(store, shift, Slot(block, Digit(id, shift, l)), l - 1);
  }

  /** Following the digits of `id` finds the answer the flat list has there. */
  lemma {:induction false} DescendIsFlat<P>(store: Store<P>, shift: nat, block: seq<byte>, l: nat, id: nat)
    requires 1 <= l
    ensures var answers := FlatAll(SlotTrees(store, shift, block, l - 1), shift, l - 1);
            && 0 <= id % Span(shift, l) < |answers|
            && Descend(store, block, shift, l, id) == answers[id % Span(shift, l)]
    decreases l
  {
    hide Slot, Digit, Span, FlatAll, SlotTrees;
    FlatChild(store, shift, block, l, id);
    var slot := Slot(block, Digit(id, shift, l));
    if slot.Some? && store.decode(slot.value).Some? {
      var p := store.decode(slot.value).value;
      if p.Some? && store.fetch(p.value).Ok? && l > 1 {
        DescendIsFlat(store, shift, store.fetch(p.value).value, l - 1, id);
      }
    }
  }

  function TreesOf<P>(store: Store<P>, dnode: Dnode<P>): (trees: seq<Tree>)
    requires 0 < dnode.levels
    ensures |trees| == |dnode.pointers|
    ensures forall i :: 0 <= i < |trees| ==>
              trees[i] == TreeOf(store, dnode.Shift(), dnode.pointers[i], dnode.levels - 1)
  {
    seq(|dnode.pointers|, i requires 0 <= i < |dnode.pointers| =>
      TreeOf(store, dnode.Shift(), dnode.pointers[i], dnode.levels - 1))
  }

  /** Main result: whatever blocks read and slots decode, the walk of 1 to 16 levels is the
    * flat list of answers; past its end there is nothing. */
  lemma WalkIsFlat<P>(store: Store<P>, dnode: Dnode<P>, id: nat)
    requires dnode.Shiftable()
    ensures var answers := FlatAll(TreesOf(store, dnode), dnode.Shift(), dnode.levels - 1);
            Walk(store, dnode, id) == if id < |answers| then answers[id] else Ok(None)
  {
    hide Span, FlatAll, SlotTrees;
    var shift, l, trees := dnode.Shift(), dnode.levels - 1, TreesOf(store, dnode);
    forall i | 0 <= i < |trees|
      ensures |Flat(trees[i], shift, l)| == Span(shift, l)
    {
      FlatSize(store, shift, dnode.pointers[i], l);
    }
    FlatAllAt(trees, shift, l, id);
    var top := id / Span(shift, l);
    DivNat(id, Span(shift, l));
    if top < |trees| && dnode.pointers[top].Some? && store.fetch(dnode.pointers[top].value).Ok? && l > 0 {
      DescendIsFlat(store, shift, store.fetch(dnode.pointers[top].value).value, l, id);
    }
  }

  /** The slots an id selects from level `l` down. */
  function Path(id: nat, shift: nat, l: nat): (slots: seq<nat>)
    ensures |slots| == l
  {
    if l == 0 then [] else [Digit(id, shift, l)] + Path(id, shift, l - 1)
  }

  lemma {:induction false} PathMod(id: nat, id': nat, shift: nat, l: nat)
    requires Path(id, shift, l) == Path(id', shift, l)
    ensures id % Span(shift, l) == id' % Span(shift, l)
  {
    if l == 0 {
    } else {
      var slots, slots' := Path(id, shift, l), Path(id', shift, l);
      assert slots[0] == slots'[0] && slots[1..] == slots'[1..];
      PathMod(id, id', shift, l - 1);
      LevelSplit(shift, l);
      DigitSplit(id, Pow2(shift), Span(shift, l - 1));
      DigitSplit(id', Pow2(shift), Span(shift, l - 1));
    }
  }

  /** Distinct ids reach distinct leaf slots. */
  lemma PathsDistinct(id: nat, id': nat, shift: nat, l: nat)
    requires id / Span(shift, l) == id' / Span(shift, l) && Path(id, shift, l) == Path(id', shift, l)
    ensures id == id'
  {
    PathMod(id, id', shift, l);
    SameQuotient(id, id', Span(shift, l));
  }

  lemma SameQuotient(a: nat, b: nat, d: nat)
    requires 0 < d && a / d == b / d && a % d == b % d
    ensures a == b
  {
    assert a == a / d * d + a % d;
    assert b == b / d * d + b % d;
  }

  lemma DigitAtMost(id: nat, shift: nat, l: nat)
    requires 1 <= l
    ensures Digit(id, shift, l) <= id
  {
    var q := id / Span(shift, l - 1);
    DivNat(id, Span(shift, l - 1));
    if q < Pow2(shift) {
      DivModUnique(q, Pow2(shift), 0, q);
    }
  }

  lemma ExponentBound(shift: nat, l: nat, top: nat)
    requires l <= top && shift * top < 64
    ensures shift * l == Scale(l, shift) < 64
  {
    ScaleMono(l, top, shift);
    ScaleIs(l, shift);
    ScaleIs(top, shift);
    Commute(shift, l);
    Commute(shift, top);
  }

  lemma Commute(a: nat, b: nat)
    ensures a * b == b * a
  {
  }

  /** Every id the range reader derives is below 2^55, so slot offsets fit. */
  const ID_LIMIT := 0x80_0000_0000_0000

  method ReadDnodeBlock<P>(store: Store<P>, dnode: Dnode<P>, id: nat) returns (r: Result<Option<seq<byte>>, Error>)
    requires id < ID_LIMIT
    ensures r == Walk(store, dnode, id)
  {
    if dnode.levels == 0 {
      return Ok(None);
    }
    if dnode.levels > MAX_LEVELS {
      return Err(BAD_LEVELS);
    }
    var shift := dnode.Shift();
    var topExp := shift * (dnode.levels - 1);
    if !(topExp < 64 && shift < 64) {
      return Err(BAD_SHIFT);
    }
    var mask := Pow2(shift) - 1;
    ExponentBound(shift, dnode.levels - 1, dnode.levels - 1);
    var top := id / Pow2(topExp);
    DivNat(id, Pow2(topExp));
    if top >= |dnode.pointers| || dnode.pointers[top].None? {
      return Ok(None);
    }
    var current :- store.fetch(dnode.pointers[top].value);
    if dnode.levels == 1 {
      return Ok(Some(current));
    }
    var l := dnode.levels - 1;
    while l >= 1
      invariant 1 <= l < dnode.levels
      invariant Walk(store, dnode, id) == Descend(store, current, shift, l, id)
      decreases l
    {
      ExponentBound(shift, l - 1, dnode.levels - 1);
      var child :- SelectSlot(store, current, shift, shift * (l - 1), mask, l, id);
      if child.None? {
        return Ok(None);
      }
      var block :- store.fetch(child.value);
      if l == 1 {
        return Ok(Some(block));
      }
      current := block;
      l := l - 1;
    }
    assert false;
  }

  /** The pointer in the slot the digit selects; its byte bounds fit 64 bits. */
  method SelectSlot<P>(store: Store<P>, current: seq<byte>, shift: nat, exp: nat, mask: nat, l: nat, id: nat)
    returns (r: Result<Option<P>, Error>)
    requires 1 <= l && mask == Pow2(shift) - 1 && id < ID_LIMIT && exp == Scale(l - 1, shift) < 64
    ensures r == match Slot(current, Digit(id, shift, l))
                 case None => Err(OUT_OF_BOUNDS)
                 case Some(slot) => if store.decode(slot).None? then Err(BAD_POINTER) else Ok(store.decode(slot).value)
  {
    DivNat(id, Pow2(exp));
    AndOnes(id / Pow2(exp), shift);
    DigitAtMost(id, shift, l);
    var idx := And(id / Pow2(exp), mask);
    var start: u64 := idx * POINTER_SIZE;
    var end: u64 := start + POINTER_SIZE;
    if end > |current| {
      return Err(OUT_OF_BOUNDS);
    }
    var child := store.decode(current[start..end]);
    if child.None? {
      return Err(BAD_POINTER);
    }
    return Ok(child.value);
  }
}
