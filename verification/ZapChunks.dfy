/** Chains of array chunks in a fat ZAP leaf: `collect_chunks` of src/walk.rs and
  * the chunk decoder of src/phys/zap.rs. */
module ZapChunks {
  import opened Base
  import opened Endian
  import opened Errors

  const CHUNK_SIZE := 24
  const DATA_SIZE := 21
  const ARRAY_CHUNK := 251
  const END_OF_CHAIN := 0xffff

  const BAD_CHUNK := Inconsistent("zap_array_chunk")

  datatype Chunk = Chunk(data: seq<byte>, next: Option<nat>)

  /** A leaf block and where its chunks are. */
  datatype Leaf = Leaf(block: seq<byte>, base: nat, chunks: nat, order: Order)

  /** A type byte, 21 bytes of data, the index of the next chunk. */
  function DecodeChunk(order: Order, s: seq<byte>): (r: Option<Chunk>)
    requires |s| == CHUNK_SIZE
    ensures r.Some? ==> |r.value.data| == DATA_SIZE
  {
    var next := Value(order, s[22..24]);
    if s[0] != ARRAY_CHUNK then None
    else Some(Chunk(s[1..22], if next == END_OF_CHAIN then None else Some(next)))
  }

  function ReadChunk(leaf: Leaf, i: nat): (r: Option<Chunk>)
    ensures r.Some? ==> |r.value.data| == DATA_SIZE
  {
    var off := leaf.base + i * CHUNK_SIZE;
    if off + CHUNK_SIZE > |leaf.block| then None else DecodeChunk(leaf.order, leaf.block[off..off + CHUNK_SIZE])
  }

  /** The number in two bytes. */
  function Pair(order: Order, x: byte, y: byte): (v: nat) {
    if order == Big then 256 * x + y else x + 256 * y
  }

  lemma PairIs(order: Order, s: seq<byte>)
    requires |s| == 2
    ensures Value(order, s) == Pair(order, s[0], s[1])
  {
    assert Value(order, []) == 0;
    assert s[..1] == [s[0]] && s[1..] == [s[1]] && [s[0]][..0] == [] && [s[1]][1..] == [];
  }

  /** A chunk on the raw bytes of the leaf: 24 bytes, 251 in the first, 21 bytes of data, and
    * two that say which chunk is next, 65535 being none. */
  lemma ChunkIs(leaf: Leaf, i: nat)
    ensures var at := leaf.base + 24 * i;
            && (ReadChunk(leaf, i).Some? <==> at + 24 <= |leaf.block| && leaf.block[at] == 251)
            && (ReadChunk(leaf, i).Some? ==>
                  var chunk, next := ReadChunk(leaf, i).value,
                                     Pair(leaf.order, leaf.block[at + 22], leaf.block[at + 23]);
                  && |chunk.data| == 21 && (forall k :: 0 <= k < 21 ==> chunk.data[k] == leaf.block[at + 1 + k])
                  && chunk.next == if next == 65535 then None else Some(next))
  {
    hide Value;
    var at := leaf.base + 24 * i;
    if at + 24 <= |leaf.block| {
      var s := leaf.block[at..at + 24];
      PairIs(leaf.order, s[22..24]);
    }
  }

  /** The bytes or an error, and how many chunks were read on the way. */
  datatype Collected = Collected(result: Result<seq<byte>, Error>, visits: nat)

  /** From chunk `next` on, with `out` collected and `visits` chunks read. */
  function Collect(leaf: Leaf, next: Option<nat>, length: nat, out: seq<byte>, visits: nat): (r: Collected)
    decreases length - |out|
  {
    if |out| >= length || next.None? then Collected(Ok(out), visits)
    else if next.value >= leaf.chunks || visits > leaf.chunks then Collected(Err(BAD_CHUNK), visits)
    else
      match ReadChunk(leaf, next.value)
      case None => Collected(Err(BAD_CHUNK), visits + 1)
      case Some(chunk) =>
        Collect(leaf, chunk.next, length, out + chunk.data[..Min(length - |out|, DATA_SIZE)], visits + 1)
  }

  method CollectChunks(leaf: Leaf, start: u16, length: nat) returns (r: Result<seq<byte>, Error>, visits: nat)
    ensures Collected(r, visits) == Collect(leaf, Some(start), length, [], 0)
  {
    hide ReadChunk;
    var out, next: Option<nat> := [], Some(start);
    visits := 0;
    while |out| < length
      invariant Collect(leaf, Some(start), length, [], 0) == Collect(leaf, next, length, out, visits)
      decreases length - |out|
    {
      if next.None? {
        break;
      }
      if next.value >= leaf.chunks || visits > leaf.chunks {
        return Err(BAD_CHUNK), visits;
      }
      visits := visits + 1;
      var chunk := ReadChunk(leaf, next.value);
      if chunk.None? {
        return Err(BAD_CHUNK), visits;
      }
      var take := Min(length - |out|, DATA_SIZE);
      out := out + chunk.value.data[..take];
      next := chunk.value.next;
    }
    r := Ok(out);
  }

  /** Main result: on any leaf, cyclic chains included, no more than one chunk more
    * than there are is read, and no more bytes than asked for come back. */
  lemma {:induction false} Bounded(leaf: Leaf, next: Option<nat>, length: nat, out: seq<byte>, visits: nat)
    requires visits <= leaf.chunks + 1 && |out| <= length
    ensures var r := Collect(leaf, next, length, out, visits);
            && r.visits <= leaf.chunks + 1
            && (r.result.Ok? ==> |out| <= |r.result.value| <= length)
            && (r.result.Ok? ==> |r.result.value| <= |out| + DATA_SIZE * (r.visits - visits))
    decreases length - |out|
  {
    if |out| < length && next.Some? && next.value < leaf.chunks && visits <= leaf.chunks {
      match ReadChunk(leaf, next.value)
      case None =>
      case Some(chunk) =>
        Bounded(leaf, chunk.next, length, out + chunk.data[..Min(length - |out|, DATA_SIZE)], visits + 1);
    }
  }

  /** The chunks of `chain` follow one another from `next`. */
  predicate Follows(leaf: Leaf, next: Option<nat>, chain: seq<nat>)
    decreases |chain|
  {
    chain == [] ||
    (&& next == Some(chain[0]) && chain[0] < leaf.chunks && ReadChunk(leaf, chain[0]).Some?
     && Follows(leaf, ReadChunk(leaf, chain[0]).value.next, chain[1..]))
  }

  /** What comes after the chain. */
  function After(leaf: Leaf, next: Option<nat>, chain: seq<nat>): (r: Option<nat>)
    requires Follows(leaf, next, chain)
    decreases |chain|
  {
    if chain == [] then next else After(leaf, ReadChunk(leaf, chain[0]).value.next, chain[1..])
  }

  function ChainBytes(leaf: Leaf, next: Option<nat>, chain: seq<nat>): (s: seq<byte>)
    requires Follows(leaf, next, chain)
    ensures |s| == DATA_SIZE * |chain|
    decreases |chain|
  {
    if chain == [] then [] else
      var chunk := ReadChunk(leaf, chain[0]).value;
      chunk.data + ChainBytes(leaf, chunk.next, chain[1..])
  }

  lemma FirstBytes(out: seq<byte>, data: seq<byte>, rest: seq<byte>, length: nat)
    requires |out| <= length && |data| <= length - |out|
    ensures out + (data + rest)[..Min(length - |out|, |data + rest|)]
         == (out + data) + rest[..Min(length - |out + data|, |rest|)]
  {
  }

  /** A chain that is long enough, or that ends, gives its first bytes in order. */
  lemma {:induction false} CollectsChain(leaf: Leaf, next: Option<nat>, length: nat, out: seq<byte>, visits: nat,
                                         chain: seq<nat>)
    requires |out| <= length && Follows(leaf, next, chain) && visits + |chain| <= leaf.chunks + 1
    requires length <= |out| + DATA_SIZE * |chain| || After(leaf, next, chain) == None
    ensures var bytes := ChainBytes(leaf, next, chain);
            Collect(leaf, next, length, out, visits).result == Ok(out + bytes[..Min(length - |out|, |bytes|)])
    decreases |chain|
  {
    hide ReadChunk;
    if |out| == length || chain == [] {
      assert out + [] == out;
    } else {
      var chunk := ReadChunk(leaf, chain[0]).value;
      var rest := ChainBytes(leaf, chunk.next, chain[1..]);
      if length - |out| >= DATA_SIZE {
        CollectsChain(leaf, chunk.next, length, out + chunk.data, visits + 1, chain[1..]);
        assert chunk.data[..DATA_SIZE] == chunk.data;
        FirstBytes(out, chunk.data, rest, length);
      } else {
        var n := length - |out|;
        assert (chunk.data + rest)[..n] == chunk.data[..n];
      }
    }
  }

  function Below(n: nat): (s: set<nat>)
    ensures |s| == n && forall k: nat :: k in s <==> k < n
  {
    if n == 0 then {} else Below(n - 1) + {n - 1}
  }

  /** Distinct chunks of a leaf are no more than it has. */
  lemma DistinctInRange(chain: seq<nat>, n: nat)
    requires Distinct(chain) && forall i :: 0 <= i < |chain| ==> chain[i] < n
    ensures |chain| <= n
  {
    DistinctSize(chain);
    SubsetSize((set k | k in chain), Below(n));
  }

  lemma {:induction false} FollowsInRange(leaf: Leaf, next: Option<nat>, chain: seq<nat>, i: nat)
    requires Follows(leaf, next, chain) && i < |chain|
    ensures chain[i] < leaf.chunks
    decreases i
  {
    if i == 0 {
    } else {
      FollowsInRange(leaf, ReadChunk(leaf, chain[0]).value.next, chain[1..], i - 1);
    }
  }

  /** Main result: a chain of distinct, decodable chunks holding at least `length`
    * bytes gives exactly its first `length` bytes. */
  lemma DistinctChain(leaf: Leaf, start: nat, length: nat, chain: seq<nat>)
    requires Follows(leaf, Some(start), chain) && length <= DATA_SIZE * |chain|
    requires Distinct(chain)
    ensures Collect(leaf, Some(start), length, [], 0).result == Ok(ChainBytes(leaf, Some(start), chain)[..length])
  {
    forall i | 0 <= i < |chain|
      ensures chain[i] < leaf.chunks
    {
      FollowsInRange(leaf, Some(start), chain, i);
    }
    DistinctInRange(chain, leaf.chunks);
    CollectsChain(leaf, Some(start), length, [], 0, chain);
    var bytes := ChainBytes(leaf, Some(start), chain);
    assert [] + bytes[..length] == bytes[..length];
  }
}
