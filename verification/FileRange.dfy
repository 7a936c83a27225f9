/** Byte ranges of an object (src/file.rs), against a sparse array of bytes. */
module FileRange {
  import opened Base
  import opened BitOps
  import opened Errors
  import opened IndirectTree

  const NO_BLOCK_SIZE := Inconsistent("dnode_dbsz0")
  const RANGE_OVERFLOW := Inconsistent("range_overflow")
  const BLOCK_SHORT := Inconsistent("block_short")

  /** The blocks of an object by id: a block, a hole, or why neither can be told. */
  type Blocks = nat -> Result<Option<seq<byte>>, Error>

  function BlocksOf<P(!new)>(store: Store<P>, dnode: Dnode<P>): (blocks: Blocks) {
    id => Walk(store, dnode, id)
  }

  /** The next bytes of a block are in it as far as it goes. */
  lemma SameBlock(pos: nat, size: nat, k: nat)
    requires 0 < size && Divide(pos, size).rem + k < size
    ensures Divide(pos + k, size) == QuotRem(Divide(pos, size).quot, Divide(pos, size).rem + k)
  {
    DivideUnique(QuotRem(Divide(pos, size).quot, Divide(pos, size).rem + k), size);
  }

  /** A position that fits 64 bits is in a block whose id fits 55. */
  lemma IdBound(pos: nat, size: nat)
    requires pos < U64_SIZE && 512 <= size
    ensures Divide(pos, size).quot < ID_LIMIT
  {
    var q := Divide(pos, size).quot;
    ScaleUnitMono(q, 512, size);
    ScaleIs(q, 512);
  }

  /** The object as a sparse byte array: byte `pos`, zero in a hole, nothing where a
    * block cannot be read or is too short. */
  function ByteAt(blocks: Blocks, size: nat, pos: nat): (b: Option<byte>)
    requires 0 < size
  {
    var p := Divide(pos, size);
    ByteOf(blocks(p.quot), p.rem)
  }

  function ByteOf(block: Result<Option<seq<byte>>, Error>, i: nat): (b: Option<byte>) {
    match block
    case Err(_) => None
    case Ok(None) => Some(0)
    case Ok(Some(bytes)) => if i < |bytes| then Some(bytes[i]) else None
  }

  /** `data` is the stretch of the array from `off`. */
  predicate Shows(blocks: Blocks, size: nat, off: nat, data: seq<byte>)
    requires 0 < size
    decreases |data|
  {
    data == [] || (ByteAt(blocks, size, off) == Some(data[0]) && Shows(blocks, size, off + 1, data[1..]))
  }

  lemma {:induction false} ShowsEach(blocks: Blocks, size: nat, off: nat, data: seq<byte>, i: nat)
    requires 0 < size && Shows(blocks, size, off, data) && i < |data|
    ensures ByteAt(blocks, size, off + i) == Some(data[i])
    decreases i
  {
    if i == 0 {
    } else {
      ShowsEach(blocks, size, off + 1, data[1..], i - 1);
    }
  }

  function Prepend(a: seq<byte>, r: Result<seq<byte>, Error>): (r': Result<seq<byte>, Error>) {
    match r
    case Ok(b) => Ok(a + b)
    case Err(e) => Err(e)
  }

  /** The part of one block, `want` bytes from `within`. */
  function Chunk(block: Result<Option<seq<byte>>, Error>, within: nat, want: nat): (r: Result<seq<byte>, Error>)
    ensures r.Ok? ==> |r.value| == want
  {
    match block
    case Err(e) => Err(e)
    case Ok(None) => Ok(Zeros(want))
    case Ok(Some(bytes)) =>
      if within + want <= |bytes| then Ok(bytes[within..within + want]) else Err(BLOCK_SHORT)
  }

  function Want(within: nat, size: nat, left: nat): (n: nat)
    requires within < size && 0 < left
    ensures 0 < n <= left && within + n <= size
  {
    Min(size - within, left)
  }

  /** `left` bytes from `pos`, block by block. */
  function ReadFrom(blocks: Blocks, size: nat, pos: nat, left: nat): (r: Result<seq<byte>, Error>)
    requires 0 < size
    ensures r.Ok? ==> |r.value| == left
    decreases left
  {
    if left == 0 then Ok([])
    else if pos >= U64_SIZE then Err(RANGE_OVERFLOW)
    else
      var p := Divide(pos, size);
      var want := Want(p.rem, size, left);
      match Chunk(blocks(p.quot), p.rem, want)
      case Err(e) => Err(e)
      case Ok(part) => Prepend(part, ReadFrom(blocks, size, pos + want, left - want))
  }

  function ReadRange(blocks: Blocks, size: nat, off: nat, len: nat): (r: Result<seq<byte>, Error>)
    ensures r.Ok? ==> |r.value| == len
  {
    if size == 0 then Err(NO_BLOCK_SIZE) else ReadFrom(blocks, size, off, len)
  }

  /** `part` is in one block from `within`. */
  predicate BlockShows(block: Result<Option<seq<byte>>, Error>, within: nat, part: seq<byte>)
    decreases |part|
  {
    part == [] || (ByteOf(block, within) == Some(part[0]) && BlockShows(block, within + 1, part[1..]))
  }

  lemma {:induction false} SliceShows(bytes: seq<byte>, within: nat, part: seq<byte>)
    requires part != []
    ensures BlockShows(Ok(Some(bytes)), within, part)
            <==> within + |part| <= |bytes| && bytes[within..within + |part|] == part
    decreases |part|
  {
    var rest := part[1..];
    assert part == [part[0]] + rest;
    if rest != [] {
      SliceShows(bytes, within + 1, rest);
    }
    if within + |part| <= |bytes| {
      assert bytes[within..within + |part|] == [bytes[within]] + bytes[within + 1..within + 1 + |rest|];
    }
  }

  lemma {:induction false} HoleShows(within: nat, part: seq<byte>)
    ensures BlockShows(Ok(None), within, part) <==> part == Zeros(|part|)
    decreases |part|
  {
    if part == [] {
    } else {
      HoleShows(within + 1, part[1..]);
      assert part == [part[0]] + part[1..];
      assert Zeros(|part|) == [0] + Zeros(|part| - 1);
    }
  }

  /** A chunk is good exactly when each of its bytes is there. */
  lemma ChunkBytes(block: Result<Option<seq<byte>>, Error>, within: nat, part: seq<byte>)
    requires part != []
    ensures Chunk(block, within, |part|) == Ok(part) <==> BlockShows(block, within, part)
  {
    match block
    case Err(_) =>
    case Ok(None) => HoleShows(within, part);
    case Ok(Some(bytes)) => SliceShows(bytes, within, part);
  }

  lemma {:induction false} ChunkShows(blocks: Blocks, size: nat, pos: nat, p: QuotRem, part: seq<byte>)
    requires 0 < size && p == Divide(pos, size) && p.rem + |part| <= size
    ensures Shows(blocks, size, pos, part) <==> BlockShows(blocks(p.quot), p.rem, part)
    decreases |part|
  {
    if |part| > 1 {
      SameBlock(pos, size, 1);
      ChunkShows(blocks, size, pos + 1, QuotRem(p.quot, p.rem + 1), part[1..]);
    }
  }

  lemma {:induction false} ShowsConcat(blocks: Blocks, size: nat, off: nat, a: seq<byte>, b: seq<byte>)
    requires 0 < size
    ensures Shows(blocks, size, off, a + b) <==> Shows(blocks, size, off, a) && Shows(blocks, size, off + |a|, b)
    decreases |a|
  {
    if a == [] {
      assert a + b == b;
    } else {
      assert (a + b)[1..] == a[1..] + b;
      ShowsConcat(blocks, size, off + 1, a[1..], b);
    }
  }

  /** One step of the reader. */
  lemma FromStep(blocks: Blocks, size: nat, pos: nat, left: nat, p: QuotRem, want: nat)
    requires 0 < left && 0 < size && pos < U64_SIZE && p == Divide(pos, size) && want == Want(p.rem, size, left)
    ensures var chunk := Chunk(blocks(p.quot), p.rem, want);
            ReadFrom(blocks, size, pos, left)
            == if chunk.Err? then chunk else Prepend(chunk.value, ReadFrom(blocks, size, pos + want, left - want))
  {
  }

  lemma PrependSplits(x: Result<seq<byte>, Error>, y: Result<seq<byte>, Error>, part: seq<byte>, rest: seq<byte>)
    requires x.Ok? ==> |x.value| == |part|
    ensures (x.Ok? && Prepend(x.value, y) == Ok(part + rest)) <==> x == Ok(part) && y == Ok(rest)
  {
    if x.Ok? && Prepend(x.value, y) == Ok(part + rest) {
      assert x.value == (x.value + y.value)[..|part|] == (part + rest)[..|part|] == part;
      assert y.value == (x.value + y.value)[|part|..] == (part + rest)[|part|..] == rest;
    }
  }

  /** The end of the block that holds the last 64-bit position. */
  function Limit(size: nat): (n: nat)
    requires 0 < size
    ensures U64_SIZE <= n
  {
    Scale(Divide(U64_SIZE - 1, size).quot + 1, size)
  }

  /** Only the start of each chunk is tested against 64 bits, so a range may run past
    * 2^64 inside the block it is in, and no further. */
  predicate Reachable(size: nat, pos: nat, n: nat)
    requires 0 < size
  {
    n == 0 || (pos < U64_SIZE && pos + n <= Limit(size))
  }

  lemma BlockEnd(pos: nat, size: nat)
    requires 0 < size && pos < U64_SIZE
    ensures pos - Divide(pos, size).rem + size <= Limit(size)
    ensures pos - Divide(pos, size).rem + size < Limit(size) ==> pos - Divide(pos, size).rem + size < U64_SIZE
  {
    var q, last := Divide(pos, size).quot, Divide(U64_SIZE - 1, size).quot;
    if last < q {
      ScaleMono(last + 1, q, size);
    } else if q == last {
    } else {
      ScaleMono(q + 1, last, size);
    }
  }

  /** A range is reachable when its first chunk starts in 64 bits and the rest is. */
  lemma ReachStep(size: nat, pos: nat, n: nat, p: QuotRem, want: nat)
    requires 0 < size && 0 < n && p == Divide(pos, size) && want == Want(p.rem, size, n)
    ensures Reachable(size, pos, n) <==> pos < U64_SIZE && Reachable(size, pos + want, n - want)
  {
    if pos < U64_SIZE {
      BlockEnd(pos, size);
    }
  }

  lemma FromShowsStep(blocks: Blocks, size: nat, pos: nat, data: seq<byte>, p: QuotRem, want: nat)
    requires 0 < size && pos < U64_SIZE && data != [] && p == Divide(pos, size) && want == Want(p.rem, size, |data|)
    requires ReadFrom(blocks, size, pos + want, |data| - want) == Ok(data[want..])
             <==> Reachable(size, pos + want, |data| - want) && Shows(blocks, size, pos + want, data[want..])
    ensures ReadFrom(blocks, size, pos, |data|) == Ok(data)
            <==> Reachable(size, pos + want, |data| - want) && Shows(blocks, size, pos, data)
  {
    hide ReadFrom, Shows, Chunk, Reachable, Divide, Prepend;
    SplitData(data, want);
    StepShows(blocks, size, pos, p, data[..want], data[want..], Reachable(size, pos + want, |data| - want),
              ReadFrom(blocks, size, pos + want, |data| - want));
    FromStep(blocks, size, pos, |data|, p, want);
  }

  lemma {:induction false} FromShows(blocks: Blocks, size: nat, pos: nat, data: seq<byte>)
    requires 0 < size
    ensures ReadFrom(blocks, size, pos, |data|) == Ok(data)
            <==> Reachable(size, pos, |data|) && Shows(blocks, size, pos, data)
    decreases |data|
  {
    hide Divide, Chunk;
    if data == [] {
    } else {
      var p := Divide(pos, size);
      var want := Want(p.rem, size, |data|);
      ReachStep(size, pos, |data|, p, want);
      if pos < U64_SIZE {
        FromShows(blocks, size, pos + want, data[want..]);
        FromShowsStep(blocks, size, pos, data, p, want);
      }
    }
  }

  lemma SplitData(data: seq<byte>, n: nat)
    requires n <= |data|
    ensures data == data[..n] + data[n..]
  {
  }

  lemma StepShows(blocks: Blocks, size: nat, pos: nat, p: QuotRem, part: seq<byte>, rest: seq<byte>, reach: bool,
                  r: Result<seq<byte>, Error>)
    requires 0 < size && p == Divide(pos, size) && part != [] && p.rem + |part| <= size
    requires r == Ok(rest) <==> reach && Shows(blocks, size, pos + |part|, rest)
    ensures var chunk := Chunk(blocks(p.quot), p.rem, |part|);
            (chunk.Ok? && Prepend(chunk.value, r) == Ok(part + rest))
            <==> reach && Shows(blocks, size, pos, part + rest)
  {
    ChunkShows(blocks, size, pos, p, part);
    ChunkBytes(blocks(p.quot), p.rem, part);
    ShowsConcat(blocks, size, pos, part, rest);
    PrependSplits(Chunk(blocks(p.quot), p.rem, |part|), r, part, rest);
  }

  /** Main result: a range reads as `data` exactly when it is reachable and `data` is
    * that stretch of the sparse byte array. */
  lemma RangeIsSparse(blocks: Blocks, size: nat, off: nat, len: nat, data: seq<byte>)
    ensures ReadRange(blocks, size, off, len) == Ok(data)
            <==> 0 < size && |data| == len && Reachable(size, off, len) && Shows(blocks, size, off, data)
  {
    if size > 0 && |data| == len {
      FromShows(blocks, size, off, data);
    }
  }

  /** Two adjacent ranges read exactly when their union does and the second starts in
    * 64 bits; they concatenate to it. */
  lemma RangesConcat(blocks: Blocks, size: nat, off: nat, a: seq<byte>, b: seq<byte>)
    ensures ReadRange(blocks, size, off, |a|) == Ok(a) && ReadRange(blocks, size, off + |a|, |b|) == Ok(b)
            <==> ReadRange(blocks, size, off, |a| + |b|) == Ok(a + b) && (a == [] || b == [] || off + |a| < U64_SIZE)
  {
    RangeIsSparse(blocks, size, off, |a| + |b|, a + b);
    RangeIsSparse(blocks, size, off, |a|, a);
    RangeIsSparse(blocks, size, off + |a|, |b|, b);
    if size > 0 {
      ShowsConcat(blocks, size, off, a, b);
    }
  }

  /** A block of `n` holes reads as zeros. */
  lemma {:induction false} HolesShow(blocks: Blocks, size: nat, off: nat, n: nat)
    requires 0 < size && forall id :: blocks(id) == Ok(None)
    ensures Shows(blocks, size, off, Zeros(n))
    decreases n
  {
    if n == 0 {
      assert Zeros(n) == [];
    } else {
      HolesShow(blocks, size, off + 1, n - 1);
      assert Zeros(n)[1..] == Zeros(n - 1);
    }
  }

  /** Where the condition fails: three-sector blocks do not divide 2^64, and the last
    * 64-bit byte and the one after it read together but not apart. */
  lemma UnionReadsPartsDoNot(blocks: Blocks)
    requires forall id :: blocks(id) == Ok(None)
    ensures ReadRange(blocks, 1536, U64_SIZE - 1, 2) == Ok([0, 0])
    ensures ReadRange(blocks, 1536, U64_SIZE - 1, 1) == Ok([0]) && ReadRange(blocks, 1536, U64_SIZE, 1).Err?
  {
    DivideIs(U64_SIZE - 1, 1536);
    ScaleIs(Divide(U64_SIZE - 1, 1536).quot + 1, 1536);
    HolesShow(blocks, 1536, U64_SIZE - 1, 2);
    HolesShow(blocks, 1536, U64_SIZE - 1, 1);
    assert Zeros(2) == [0, 0] && Zeros(1) == [0];
    RangeIsSparse(blocks, 1536, U64_SIZE - 1, 2, [0, 0]);
    RangeIsSparse(blocks, 1536, U64_SIZE - 1, 1, [0]);
  }

  lemma RangesJoin(blocks: Blocks, size: nat, off: nat, n: nat, m: nat)
    requires ReadRange(blocks, size, off, n).Ok? && ReadRange(blocks, size, off + n, m).Ok?
    ensures ReadRange(blocks, size, off, n + m)
         == Prepend(ReadRange(blocks, size, off, n).value, ReadRange(blocks, size, off + n, m))
  {
    RangesConcat(blocks, size, off, ReadRange(blocks, size, off, n).value, ReadRange(blocks, size, off + n, m).value);
  }

  lemma RangesPart(blocks: Blocks, size: nat, off: nat, n: nat, m: nat)
    requires off + n < U64_SIZE && ReadRange(blocks, size, off, n + m).Ok?
    ensures ReadRange(blocks, size, off, n).Ok? && ReadRange(blocks, size, off + n, m).Ok?
  {
    var data := ReadRange(blocks, size, off, n + m).value;
    assert data == data[..n] + data[n..];
    RangesConcat(blocks, size, off, data[..n], data[n..]);
  }

  function BlockSize<P>(dnode: Dnode<P>): (n: nat) {
    dnode.sectors * 512
  }

  lemma {:induction false} ShowsAll(blocks: Blocks, size: nat, off: nat, data: seq<byte>)
    requires 0 < size
    ensures Shows(blocks, size, off, data) <==>
              forall i :: 0 <= i < |data| ==> ByteAt(blocks, size, off + i) == Some(data[i])
    decreases |data|
  {
    hide ByteAt;
    if data == [] {
    } else {
      var rest := data[1..];
      ShowsAll(blocks, size, off + 1, rest);
      assert forall i :: 0 <= i < |rest| ==> off + 1 + i == off + (i + 1) && rest[i] == data[i + 1];
      if forall i :: 0 <= i < |data| ==> ByteAt(blocks, size, off + i) == Some(data[i]) {
        assert ByteAt(blocks, size, off + 0) == Some(data[0]);
        forall i | 0 <= i < |rest|
          ensures ByteAt(blocks, size, off + 1 + i) == Some(rest[i])
        {
          assert ByteAt(blocks, size, off + (i + 1)) == Some(data[i + 1]);
        }
      }
      if Shows(blocks, size, off, data) {
        forall i | 0 <= i < |data|
          ensures ByteAt(blocks, size, off + i) == Some(data[i])
        {
          if i > 0 {
            assert ByteAt(blocks, size, off + 1 + (i - 1)) == Some(rest[i - 1]);
          }
        }
      }
    }
  }

  /** Byte `i` of what the walk answers: zero in a hole. */
  predicate IsByte(answer: Result<Option<seq<byte>>, Error>, i: int, b: byte) {
    match answer
    case Err(_) => false
    case Ok(None) => b == 0
    case Ok(Some(bytes)) => 0 <= i < |bytes| && bytes[i] == b
  }

  lemma ByteAtIs<P(!new)>(store: Store<P>, dnode: Dnode<P>, pos: nat, b: byte)
    requires 0 < dnode.sectors
    ensures ByteAt(BlocksOf(store, dnode), BlockSize(dnode), pos) == Some(b) <==> ObjectByte(store, dnode, pos, b)
  {
    hide Walk;
    DivideIs(pos, BlockSize(dnode));
    assert BlockSize(dnode) == 512 * dnode.sectors;
  }

  lemma LimitIs(size: nat)
    requires 0 < size
    ensures Limit(size) == ((U64_SIZE - 1) / size + 1) * size
  {
    DivideIs(U64_SIZE - 1, size);
    ScaleIs((U64_SIZE - 1) / size + 1, size);
  }

  /** Byte `pos` of the object: byte `pos` modulo 512 times its sectors of the block of that
    * quotient. */
  predicate ObjectByte<P>(store: Store<P>, dnode: Dnode<P>, pos: nat, b: byte)
    requires 0 < dnode.sectors
  {
    DivNat(pos, 512 * dnode.sectors);
    IsByte(Walk(store, dnode, pos / (512 * dnode.sectors)), pos % (512 * dnode.sectors), b)
  }

  /** The end of the block that the last 64-bit position is in. */
  predicate InReach(size: nat, off: nat, len: nat)
    requires 0 < size
  {
    len == 0 || (off < U64_SIZE && off + len <= ((U64_SIZE - 1) / size + 1) * size)
  }

  lemma ObjectShows<P(!new)>(store: Store<P>, dnode: Dnode<P>, off: nat, data: seq<byte>)
    requires 0 < dnode.sectors
    ensures Shows(BlocksOf(store, dnode), BlockSize(dnode), off, data)
            <==> forall i :: 0 <= i < |data| ==> ObjectByte(store, dnode, off + i, data[i])
  {
    hide Walk, Shows, ByteAt, ObjectByte, IsByte, BlocksOf;
    ShowsAll(BlocksOf(store, dnode), BlockSize(dnode), off, data);
    forall i | 0 <= i < |data|
      ensures ByteAt(BlocksOf(store, dnode), BlockSize(dnode), off + i) == Some(data[i])
              <==> ObjectByte(store, dnode, off + i, data[i])
    {
      ByteAtIs(store, dnode, off + i, data[i]);
    }
  }

  lemma ReachIs(size: nat, off: nat, len: nat)
    requires 0 < size
    ensures Reachable(size, off, len) <==> InReach(size, off, len)
  {
    hide Limit;
    LimitIs(size);
  }

  /** Main result, on the raw fields: exactly which bytes any range of an object reads as. */
  lemma ObjectBytes<P(!new)>(store: Store<P>, dnode: Dnode<P>, off: nat, len: nat, data: seq<byte>)
    ensures ReadRange(BlocksOf(store, dnode), BlockSize(dnode), off, len) == Ok(data)
            <==> && 0 < dnode.sectors && |data| == len && InReach(512 * dnode.sectors, off, len)
                 && forall i :: 0 <= i < len ==> ObjectByte(store, dnode, off + i, data[i])
  {
    hide Walk, Shows, ReadRange, ObjectByte, Reachable, InReach, BlocksOf;
    RangeIsSparse(BlocksOf(store, dnode), BlockSize(dnode), off, len, data);
    if 0 < dnode.sectors && |data| == len {
      ReachIs(512 * dnode.sectors, off, len);
      ObjectShows(store, dnode, off, data);
    }
  }

  /** With `written` done, `left` bytes from `pos` complete `goal`. */
  ghost predicate Completes(goal: Result<seq<byte>, Error>, written: seq<byte>, blocks: Blocks, size: nat, pos: nat,
                            left: nat)
    requires 0 < size
  {
    goal == Prepend(written, ReadFrom(blocks, size, pos, left))
  }

  lemma CompletesStep(goal: Result<seq<byte>, Error>, written: seq<byte>, blocks: Blocks, size: nat, pos: nat,
                      left: nat,
                      p: QuotRem, want: nat)
    requires 0 < left && 0 < size && pos < U64_SIZE && p == Divide(pos, size) && want == Want(p.rem, size, left)
    requires Completes(goal, written, blocks, size, pos, left)
    ensures var chunk := Chunk(blocks(p.quot), p.rem, want);
            if chunk.Err? then goal == Err(chunk.error)
            else Completes(goal, written + chunk.value, blocks, size, pos + want, left - want)
  {
    FromStep(blocks, size, pos, left, p, want);
    var chunk := Chunk(blocks(p.quot), p.rem, want);
    if chunk.Ok? {
      PrependTwice(written, chunk.value, ReadFrom(blocks, size, pos + want, left - want));
    }
  }

  lemma CompletesStart(written: seq<byte>, blocks: Blocks, size: nat, pos: nat, left: nat)
    requires 0 < size && written == []
    ensures Completes(ReadFrom(blocks, size, pos, left), written, blocks, size, pos, left)
  {
    PrependNone(written, ReadFrom(blocks, size, pos, left));
  }

  lemma CompletesEnds(goal: Result<seq<byte>, Error>, written: seq<byte>, blocks: Blocks, size: nat, pos: nat,
                      left: nat)
    requires 0 < size && Completes(goal, written, blocks, size, pos, left)
    ensures left == 0 ==> goal == Ok(written)
    ensures 0 < left && pos >= U64_SIZE ==> goal == Err(RANGE_OVERFLOW)
  {
    PrependEmpty(written);
  }

  /** The loop of the reader: every block it asks for has an id the walk accepts. */
  method ReadDnodeRange<P(!new)>(store: Store<P>, dnode: Dnode<P>, off: u64, len: nat)
    returns (r: Result<seq<byte>, Error>)
    ensures r == ReadRange(BlocksOf(store, dnode), BlockSize(dnode), off, len)
  {
    var size := BlockSize(dnode);
    if size == 0 {
      return Err(NO_BLOCK_SIZE);
    }
    ghost var blocks := BlocksOf(store, dnode);
    ghost var goal := ReadFrom(blocks, size, off, len);
    r := FillRange(store, dnode, size, off, len, blocks, goal);
  }

  method FillRange<P(!new)>(store: Store<P>, dnode: Dnode<P>, size: nat, off: u64, len: nat, ghost blocks: Blocks,
                            ghost goal: Result<seq<byte>, Error>)
    returns (r: Result<seq<byte>, Error>)
    requires 512 <= size && blocks == BlocksOf(store, dnode) && goal == ReadFrom(blocks, size, off, len)
    ensures r == goal
  {
    hide ReadFrom, BlocksOf, Completes, Divide;
    var out := new byte[len](_ => 0);
    var filled := 0;
    CompletesStart(out[..0], blocks, size, off, len);
    while filled < len
      invariant filled <= len && out[filled..] == Zeros(len - filled)
      invariant Completes(goal, out[..filled], blocks, size, off + filled, len - filled)
      decreases len - filled
    {
      var pos := off + filled;
      CompletesEnds(goal, out[..filled], blocks, size, pos, len - filled);
      if pos >= U64_SIZE {
        return Err(RANGE_OVERFLOW);
      }
      var id, within := Locate(pos, size);
      var want := Min(size - within, len - filled);
      CompletesStep(goal, out[..filled], blocks, size, pos, len - filled, QuotRem(id, within), want);
      var block :- FetchBlock(store, dnode, id, blocks);
      var short := Fill(out, filled, block, within, want);
      if short {
        return Err(BLOCK_SHORT);
      }
      filled := filled + want;
    }
    CompletesEnds(goal, out[..filled], blocks, size, off + filled, len - filled);
    assert out[..] == out[..filled];
    r := Ok(out[..]);
  }

  method FetchBlock<P(!new)>(store: Store<P>, dnode: Dnode<P>, id: nat, ghost blocks: Blocks)
    returns (r: Result<Option<seq<byte>>, Error>)
    requires id < ID_LIMIT && blocks == BlocksOf(store, dnode)
    ensures r == blocks(id)
  {
    r := ReadDnodeBlock(store, dnode, id);
  }

  method Locate(pos: u64, size: nat) returns (id: nat, within: nat)
    requires 512 <= size
    ensures QuotRem(id, within) == Divide(pos, size) && id < ID_LIMIT
  {
    DivideIs(pos, size);
    IdBound(pos, size);
    id, within := pos / size, pos % size;
  }

  /** Copies the chunk; a hole leaves the zeros. */
  method Fill(out: array<byte>, filled: nat, block: Option<seq<byte>>, within: nat, want: nat) returns (short: bool)
    requires filled + want <= out.Length && out[filled..] == Zeros(out.Length - filled)
    modifies out
    ensures short <==> Chunk(Ok(block), within, want).Err?
    ensures !short ==> out[..filled + want] == old(out[..filled]) + Chunk(Ok(block), within, want).value
    ensures !short ==> out[filled + want..] == Zeros(out.Length - filled - want)
  {
    if block.None? {
      HoleStays(out[..], filled, want);
      return false;
    }
    if within + want > |block.value| {
      return true;
    }
    CopyInto(out, filled, block.value[within..within + want]);
    return false;
  }

  lemma PrependNone(a: seq<byte>, r: Result<seq<byte>, Error>)
    requires a == []
    ensures Prepend(a, r) == r
  {
    if r.Ok? {
      assert a + r.value == r.value;
    }
  }

  lemma PrependEmpty(a: seq<byte>)
    ensures Prepend(a, Ok([])) == Ok(a)
  {
    assert a + [] == a;
  }

  lemma PrependTwice(a: seq<byte>, b: seq<byte>, r: Result<seq<byte>, Error>)
    ensures Prepend(a, Prepend(b, r)) == Prepend(a + b, r)
  {
    if r.Ok? {
      assert a + (b + r.value) == a + b + r.value;
    }
  }

  lemma HoleStays(out: seq<byte>, filled: nat, want: nat)
    requires filled + want <= |out| && out[filled..] == Zeros(|out| - filled)
    ensures out[..filled + want] == out[..filled] + Zeros(want)
    ensures out[filled + want..] == Zeros(|out| - filled - want)
  {
    assert out[..filled + want] == out[..filled] + out[filled..][..want];
    assert out[filled + want..] == out[filled..][want..];
  }

  method CopyInto(out: array<byte>, filled: nat, part: seq<byte>)
    requires filled + |part| <= out.Length && out[filled..] == Zeros(out.Length - filled)
    modifies out
    ensures out[..filled + |part|] == old(out[..filled]) + part
    ensures out[filled + |part|..] == Zeros(out.Length - filled - |part|)
  {
    HoleStays(out[..], filled, |part|);
    ghost var tail := out[filled + |part|..];
    forall i | 0 <= i < |part| { out[filled + i] := part[i]; }
    assert out[filled + |part|..] == tail;
  }
}
