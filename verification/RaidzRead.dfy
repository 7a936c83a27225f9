/** Degraded reads of a single-parity RAID-Z block (src/vdev.rs). */
module RaidzRead {
  import opened Base
  import opened BitOps
  import opened Errors
  import opened BlockPointers
  import opened Devices
  import opened RaidzGeometry
  import opened RaidzMap

  type Buffers = seq<Option<seq<byte>>>

  function XorByte(a: byte, b: byte): (r: byte)
    ensures r == Xor(a, b)
  {
    XorBound(a, b, 8);
    Pow2Bytes();
    Xor(a, b)
  }

  /** A column padded with zeros, absent columns counting as zeros. */
  function At(buf: Option<seq<byte>>, k: nat): (b: byte) {
    if buf.Some? && k < |buf.value| then buf.value[k] else 0
  }

  /** XOR at byte `k` of the first `n` columns but column `skip`. */
  function XorBut(bufs: Buffers, skip: nat, n: nat, k: nat): (b: byte)
    requires n <= |bufs|
  {
    if n == 0 then 0
    else if n - 1 == skip then XorBut(bufs, skip, n - 1, k)
    else XorByte(XorBut(bufs, skip, n - 1, k), At(bufs[n - 1], k))
  }

  predicate PresentBut(bufs: Buffers, skip: nat, n: nat)
    requires n <= |bufs|
  {
    forall i :: 0 <= i < n && i != skip ==> bufs[i].Some?
  }

  /** A column from the others. The parity column is never left out: asked for column
    * 0 the code XORs them all. */
  function Rebuilt(cols: seq<Col>, bufs: Buffers, target: nat): (r: Option<seq<byte>>)
    requires |cols| == |bufs|
    ensures r.Some? ==> target < |cols| && |r.value| == cols[target].size
  {
    var skip := if target == 0 then |bufs| else target;
    if target < |cols| && PresentBut(bufs, skip, |bufs|)
    then Some(seq(cols[target].size, k requires 0 <= k => XorBut(bufs, skip, |bufs|, k)))
    else None
  }

  /** The data columns up to `n` in order, when all are there. */
  function Gathered(cols: seq<Col>, bufs: Buffers, n: nat): (r: Option<seq<byte>>)
    requires |cols| == |bufs| && n <= |cols|
  {
    if n == 0 then Some([]) else
      var before := Gathered(cols, bufs, n - 1);
      if before.None? || cols[n - 1].parity then before
      else if bufs[n - 1].None? then None
      else Some(before.value + bufs[n - 1].value)
  }

  function Cut(data: Option<seq<byte>>, psize: nat): (r: Option<seq<byte>>)
    ensures r.Some? ==> |r.value| == psize
  {
    if data.None? || |data.value| < psize then None else Some(data.value[..psize])
  }

  function Assembled(cols: seq<Col>, bufs: Buffers, psize: nat): (r: Option<seq<byte>>)
    requires |cols| == |bufs|
    ensures r.Some? ==> |r.value| == psize
  {
    Cut(Gathered(cols, bufs, |cols|), psize)
  }

  /** Candidate 0 takes the columns as read; candidate `i` rebuilds data column `i`. */
  function Candidate(cols: seq<Col>, bufs: Buffers, psize: nat, i: nat): (r: Option<seq<byte>>)
    requires |cols| == |bufs| && i < |cols|
    ensures r.Some? ==> |r.value| == psize
  {
    if i == 0 then Assembled(cols, bufs, psize)
    else if cols[i].parity || Rebuilt(cols, bufs, i).None? then None
    else Assembled(cols, bufs[i := Rebuilt(cols, bufs, i)], psize)
  }

  /** The first accepted candidate from `i` on. */
  function FirstAccepted(pool: Pool, bp: BlockPointer, cols: seq<Col>, bufs: Buffers, i: nat): (r: Option<seq<byte>>)
    requires bp.Regular? && |cols| == |bufs| && i <= |cols|
    ensures r.Some? ==> Accepts(pool, bp, r.value) && |r.value| == PhysicalSize(bp)
    decreases |cols| - i
  {
    if i == |cols| then None else
      var raw := Candidate(cols, bufs, PhysicalSize(bp), i);
      if raw.Some? && Accepts(pool, bp, raw.value) then raw
      else FirstAccepted(pool, bp, cols, bufs, i + 1)
  }

  /** The device behind child `i`, if there is one. */
  function DeviceOf(pool: Pool, children: seq<Option<nat>>, i: nat): (r: Option<Device>) {
    if i < |children| && children[i].Some? then Member(pool, children[i].value) else None
  }

  predicate Fills(bytes: Option<seq<byte>>, size: nat) {
    bytes.Some? && |bytes.value| == size
  }

  /** A column is read exactly when its child has a device, the offset fits 64 bits and the
    * device fills the whole of it. */
  function ReadColumn(pool: Pool, children: seq<Option<nat>>, col: Col): (r: Option<seq<byte>>)
    ensures r.Some? ==> |r.value| == col.size
    ensures var device, byte := DeviceOf(pool, children, col.devidx), LABEL_RESERVE + col.offset;
            && (r.Some? ==> device.Some? && byte < U64_SIZE && r == device.value.read(byte, col.size))
            && (r.None? ==> device.None? || byte >= U64_SIZE || !Fills(device.value.read(byte, col.size), col.size))
  {
    if col.devidx >= |children| || children[col.devidx].None? || LABEL_RESERVE + col.offset >= U64_SIZE then None else
      var member := Member(pool, children[col.devidx].value);
      if member.None? then None else ReadExact(member.value, LABEL_RESERVE + col.offset, col.size)
  }

  function ReadColumns(pool: Pool, children: seq<Option<nat>>, cols: seq<Col>): (bufs: Buffers)
    ensures |bufs| == |cols| && forall c :: 0 <= c < |cols| ==> bufs[c] == ReadColumn(pool, children, cols[c])
  {
    seq(|cols|, c requires 0 <= c < |cols| => ReadColumn(pool, children, cols[c]))
  }

  predicate Mappable(children: seq<Option<nat>>, ashift: nat, psize: nat) {
    1 < |children| && 9 <= ashift <= ASHIFT_MAX && 0 < psize
  }

  function ColumnsOf(children: seq<Option<nat>>, ashift: nat, offset: nat, psize: nat): (cols: seq<Col>)
    requires Mappable(children, ashift, psize)
  {
    Layout(GeomOf(offset, ashift, |children|, 1, psize), Pow2(ashift))
  }

  /** One copy: the accepted bytes or the reason there are none. */
  function ReadCopy(pool: Pool, children: seq<Option<nat>>, ashift: nat, bp: BlockPointer,
                    dva: Dva): (r: Result<seq<byte>, Error>)
    requires bp.Regular?
    ensures r.Ok? ==> Accepts(pool, bp, r.value) && |r.value| == PhysicalSize(bp)
  {
    if !Mappable(children, ashift, PhysicalSize(bp)) then Err(GEOM) else
      var cols := ColumnsOf(children, ashift, dva.offset, PhysicalSize(bp));
      match FirstAccepted(pool, bp, cols, ReadColumns(pool, children, cols), 0)
      case Some(raw) => Ok(raw)
      case None => Err(ChecksumMismatch(dva.vdev, dva.offset, "raidz_unrecoverable"))
  }

  /** The copies from the first of `dvas` on, `last` being the error so far. */
  function ReadCopies(pool: Pool, children: seq<Option<nat>>, ashift: nat, bp: BlockPointer, dvas: seq<Dva>,
                      last: Error): (r: Result<seq<byte>, Error>)
    requires bp.Regular?
    ensures r.Ok? ==> Accepts(pool, bp, r.value) && |r.value| == PhysicalSize(bp)
    decreases |dvas|
  {
    if dvas == [] then Err(last) else
      match ReadCopy(pool, children, ashift, bp, dvas[0])
      case Ok(raw) => Ok(raw)
      case Err(e) => ReadCopies(pool, children, ashift, bp, dvas[1..], e)
  }

  const NO_COPY := Inconsistent("raidz_no_copy")

  /** The block: accepted bytes, inflated. */
  function ReadBlock(pool: Pool, children: seq<Option<nat>>, ashift: nat, bp: BlockPointer,
                     dvas: seq<Dva>): (r: Result<seq<byte>, Error>)
    requires bp.Regular?
  {
    match ReadCopies(pool, children, ashift, bp, dvas, NO_COPY)
    case Ok(raw) => Inflate(pool, bp, raw)
    case Err(e) => Err(e)
  }

  // The parity law

  function DataXor(orig: seq<seq<byte>>, n: nat, k: nat): (b: byte)
    requires 1 <= n <= |orig|
  {
    if n == 1 then 0 else XorByte(DataXor(orig, n - 1, k), At(Some(orig[n - 1]), k))
  }

  /** Columns as written: sized by the map, column 0 the XOR of the zero-padded others. */
  ghost predicate Stripe(cols: seq<Col>, orig: seq<seq<byte>>) {
    && |orig| == |cols| >= 1
    && (forall c :: 0 <= c < |cols| ==> |orig[c]| == cols[c].size <= cols[0].size)
    && (forall k :: 0 <= k < |orig[0]| ==> orig[0][k] == DataXor(orig, |orig|, k))
  }

  /** How many of the data columns before `n` have bit `j` of byte `k` set. */
  function Ones(orig: seq<seq<byte>>, n: nat, k: nat, j: nat): (count: nat)
    requires 1 <= n <= |orig|
  {
    if n == 1 then 0
    else Ones(orig, n - 1, k, j) + if k < |orig[n - 1]| && BitOf(orig[n - 1][k], j) == 1 then 1 else 0
  }

  lemma {:induction false} ZeroBits(j: nat)
    ensures BitOf(0, j) == 0
  {
    if j == 0 {
    } else {
      ZeroBits(j - 1);
    }
  }

  lemma {:induction false} DataXorBits(orig: seq<seq<byte>>, n: nat, k: nat, j: nat)
    requires 1 <= n <= |orig|
    ensures BitOf(DataXor(orig, n, k), j) == Ones(orig, n, k, j) % 2
    decreases n
  {
    if n == 1 {
      ZeroBits(j);
    } else {
      ZeroBits(j);
      DataXorBits(orig, n - 1, k, j);
      XorBit(DataXor(orig, n - 1, k), At(Some(orig[n - 1]), k), j);
    }
  }

  /** Parity, bit by bit: set when an odd number of the data columns have it set. */
  lemma ParityBits(cols: seq<Col>, orig: seq<seq<byte>>, k: nat, j: nat)
    requires Stripe(cols, orig) && k < |orig[0]|
    ensures orig[0][k] / Pow2(j) % 2 == Ones(orig, |orig|, k, j) % 2
  {
    DataXorBits(orig, |orig|, k, j);
    BitOfIs(orig[0][k], j);
  }

  /** The buffers are the stripe but for column `x`, absent or altered. */
  ghost predicate AllBut(bufs: Buffers, orig: seq<seq<byte>>, x: nat) {
    && |bufs| == |orig|
    && forall c :: 0 <= c < |bufs| && c != x ==> bufs[c] == Some(orig[c])
  }

  lemma XorZero(a: nat)
    ensures Xor(0, a) == a
  {
    XorSelf(a);
    XorAssoc(a, a, a);
    XorCancel(a, a);
  }

  lemma {:induction false} XorRegroup(bufs: Buffers, orig: seq<seq<byte>>, x: nat, n: nat, k: nat)
    requires AllBut(bufs, orig, x) && 1 <= n <= |orig| && 0 < x < |orig|
    ensures n <= x ==> XorBut(bufs, x, n, k) == Xor(At(Some(orig[0]), k), DataXor(orig, n, k))
    ensures n > x ==> Xor(XorBut(bufs, x, n, k), At(Some(orig[x]), k)) == Xor(At(Some(orig[0]), k), DataXor(orig, n, k))
    decreases n
  {
    if n == 1 {
      XorZero(At(Some(orig[0]), k));
      XorComm(0, At(Some(orig[0]), k));
    } else {
      XorRegroup(bufs, orig, x, n - 1, k);
      var p, d, a := At(Some(orig[0]), k), DataXor(orig, n - 1, k), At(Some(orig[n - 1]), k);
      XorAssoc(p, d, a);
      if n - 1 > x {
        var y, z := XorBut(bufs, x, n - 1, k), At(Some(orig[x]), k);
        XorAssoc(y, a, z);
        XorComm(a, z);
        XorAssoc(y, z, a);
      }
    }
  }

  /** One lost column is the XOR of the others. */
  lemma RebuildsLost(cols: seq<Col>, bufs: Buffers, orig: seq<seq<byte>>, x: nat)
    requires Stripe(cols, orig) && AllBut(bufs, orig, x) && 0 < x < |cols|
    ensures Rebuilt(cols, bufs, x) == Some(orig[x])
  {
    var r := Rebuilt(cols, bufs, x);
    forall k | 0 <= k < cols[x].size
      ensures r.value[k] == orig[x][k]
    {
      XorRegroup(bufs, orig, x, |orig|, k);
      var y, z, p := XorBut(bufs, x, |orig|, k), orig[x][k], orig[0][k];
      XorSelf(p);
      XorCancel(y, z);
      XorZero(z);
    }
    assert r.value == orig[x];
  }

  function Somes(orig: seq<seq<byte>>): (bufs: Buffers)
    ensures |bufs| == |orig| && forall c :: 0 <= c < |orig| ==> bufs[c] == Some(orig[c])
  {
    seq(|orig|, c requires 0 <= c < |orig| => Some(orig[c]))
  }

  lemma {:induction false} GatheredSame(cols: seq<Col>, bufs: Buffers, bufs': Buffers, n: nat)
    requires |cols| == |bufs| == |bufs'| && n <= |cols|
    requires forall c :: 0 <= c < n && !cols[c].parity ==> bufs[c] == bufs'[c]
    ensures Gathered(cols, bufs, n) == Gathered(cols, bufs', n)
  {
    if n == 0 {
    } else {
      GatheredSame(cols, bufs, bufs', n - 1);
    }
  }

  lemma {:induction false} GatheredLength(cols: seq<Col>, orig: seq<seq<byte>>, n: nat)
    requires |orig| == |cols| && n <= |cols| && forall c :: 0 <= c < |cols| ==> |orig[c]| == cols[c].size
    ensures Gathered(cols, Somes(orig), n).Some? && |Gathered(cols, Somes(orig), n).value| == DataBytes(cols, n)
  {
    if n == 0 {
    } else {
      GatheredLength(cols, orig, n - 1);
    }
  }

  /** Some candidate is the block as written. */
  lemma CandidateIsBlock(cols: seq<Col>, bufs: Buffers, orig: seq<seq<byte>>, x: nat, psize: nat)
    requires Stripe(cols, orig) && AllBut(bufs, orig, x) && x < |cols|
    requires forall c :: 0 <= c < |cols| ==> (cols[c].parity <==> c == 0)
    ensures Candidate(cols, bufs, psize, x) == Assembled(cols, Somes(orig), psize)
  {
    if x == 0 {
      GatheredSame(cols, bufs, Somes(orig), |cols|);
    } else {
      RebuildsLost(cols, bufs, orig, x);
      GatheredSame(cols, bufs[x := Some(orig[x])], Somes(orig), |cols|);
    }
  }

  // Which candidate is returned

  predicate Passes(pool: Pool, bp: BlockPointer, raw: Option<seq<byte>>)
    requires bp.Regular?
  {
    raw.Some? && Accepts(pool, bp, raw.value)
  }

  /** The first of the candidates that passes. */
  function FirstOf(pool: Pool, bp: BlockPointer, tries: Buffers): (r: Option<seq<byte>>)
    requires bp.Regular?
    ensures r.Some? ==> Passes(pool, bp, r) && r in tries
  {
    if tries == [] then None
    else if Passes(pool, bp, tries[0]) then tries[0]
    else FirstOf(pool, bp, tries[1..])
  }

  /** Every candidate of one copy, in the order they are tried. */
  function TriesOf(pool: Pool, children: seq<Option<nat>>, ashift: nat, bp: BlockPointer, dva: Dva): (tries: Buffers)
    requires bp.Regular?
  {
    if !Mappable(children, ashift, PhysicalSize(bp)) then [] else
      var cols := ColumnsOf(children, ashift, dva.offset, PhysicalSize(bp));
      var bufs := ReadColumns(pool, children, cols);
      seq(|cols|, i requires 0 <= i < |cols| => Candidate(cols, bufs, PhysicalSize(bp), i))
  }

  /** Every candidate of every copy. */
  function Tries(pool: Pool, children: seq<Option<nat>>, ashift: nat, bp: BlockPointer,
                 dvas: seq<Dva>): (tries: Buffers)
    requires bp.Regular?
  {
    if dvas == [] then []
    else TriesOf(pool, children, ashift, bp, dvas[0]) + Tries(pool, children, ashift, bp, dvas[1..])
  }

  /** None of the candidates that pass comes before the first that is `block`. */
  ghost predicate Unrivalled(pool: Pool, bp: BlockPointer, tries: Buffers, block: seq<byte>)
    requires bp.Regular?
  {
    forall m :: 0 <= m < |tries| && Passes(pool, bp, tries[m]) ==> Some(block) in tries[..m + 1]
  }

  lemma {:induction false} FirstOfConcat(pool: Pool, bp: BlockPointer, a: Buffers, b: Buffers)
    requires bp.Regular?
    ensures FirstOf(pool, bp, a + b)
         == if FirstOf(pool, bp, a).Some? then FirstOf(pool, bp, a) else FirstOf(pool, bp, b)
  {
    if a == [] {
      assert a + b == b;
    } else {
      assert (a + b)[1..] == a[1..] + b;
      FirstOfConcat(pool, bp, a[1..], b);
    }
  }

  /** Of candidates that end in the block, it is the one returned exactly when it passes
    * and is unrivalled. */
  lemma {:induction false} FirstIsBlock(pool: Pool, bp: BlockPointer, before: Buffers, block: seq<byte>, after: Buffers)
    requires bp.Regular?
    ensures FirstOf(pool, bp, before + [Some(block)] + after) == Some(block)
            <==> Accepts(pool, bp, block) && Unrivalled(pool, bp, before, block)
    decreases |before|
  {
    var all := before + [Some(block)] + after;
    if before == [] {
      assert all[0] == Some(block);
      assert !Accepts(pool, bp, block) ==> FirstOf(pool, bp, all) != Some(block);
    } else {
      assert all[0] == before[0] && all[1..] == before[1..] + [Some(block)] + after;
      if Passes(pool, bp, before[0]) {
        assert before[..1] == [before[0]];
        if before[0] == Some(block) {
          forall m | 0 <= m < |before| && Passes(pool, bp, before[m])
            ensures Some(block) in before[..m + 1]
          {
            assert before[..m + 1][0] == before[0];
          }
        }
      } else {
        FirstIsBlock(pool, bp, before[1..], block, after);
        if Accepts(pool, bp, block) {
          RivalsLater(pool, bp, before, block);
        }
      }
    }
  }

  lemma RivalsLater(pool: Pool, bp: BlockPointer, tries: Buffers, block: seq<byte>)
    requires bp.Regular? && tries != [] && !Passes(pool, bp, tries[0]) && tries[0] != Some(block)
    ensures Unrivalled(pool, bp, tries, block) <==> Unrivalled(pool, bp, tries[1..], block)
  {
    var rest := tries[1..];
    forall m | 0 <= m < |rest|
      ensures tries[m + 1] == rest[m] && tries[..m + 2] == [tries[0]] + rest[..m + 1]
    {
    }
    if Unrivalled(pool, bp, tries, block) {
      forall m | 0 <= m < |rest| && Passes(pool, bp, rest[m])
        ensures Some(block) in rest[..m + 1]
      {
        assert Passes(pool, bp, tries[m + 1]);
      }
    }
    if Unrivalled(pool, bp, rest, block) {
      forall m | 0 <= m < |tries| && Passes(pool, bp, tries[m])
        ensures Some(block) in tries[..m + 1]
      {
        assert Passes(pool, bp, rest[m - 1]);
      }
    }
  }

  lemma {:induction false} SearchTries(pool: Pool, bp: BlockPointer, cols: seq<Col>, bufs: Buffers, i: nat,
                                       tries: Buffers)
    requires bp.Regular? && |cols| == |bufs| == |tries| && i <= |cols|
    requires forall k :: 0 <= k < |cols| ==> tries[k] == Candidate(cols, bufs, PhysicalSize(bp), k)
    ensures FirstAccepted(pool, bp, cols, bufs, i) == FirstOf(pool, bp, tries[i..])
    decreases |cols| - i
  {
    if i == |cols| {
    } else {
      SearchTries(pool, bp, cols, bufs, i + 1, tries);
      assert tries[i..][0] == tries[i] && tries[i..][1..] == tries[i + 1..];
    }
  }

  /** The copies are read to the first candidate that passes. */
  lemma {:induction false} CopiesTry(pool: Pool, children: seq<Option<nat>>, ashift: nat, bp: BlockPointer,
                                     dvas: seq<Dva>, last: Error)
    requires bp.Regular?
    ensures var r, first := ReadCopies(pool, children, ashift, bp, dvas, last),
                            FirstOf(pool, bp, Tries(pool, children, ashift, bp, dvas));
            (r.Ok? <==> first.Some?) && (r.Ok? ==> first == Some(r.value))
    decreases |dvas|
  {
    if dvas == [] {
    } else {
      var tries := TriesOf(pool, children, ashift, bp, dvas[0]);
      FirstOfConcat(pool, bp, tries, Tries(pool, children, ashift, bp, dvas[1..]));
      if Mappable(children, ashift, PhysicalSize(bp)) {
        var cols := ColumnsOf(children, ashift, dvas[0].offset, PhysicalSize(bp));
        SearchTries(pool, bp, cols, ReadColumns(pool, children, cols), 0, tries);
        assert tries[0..] == tries;
      }
      var r := ReadCopy(pool, children, ashift, bp, dvas[0]);
      if r.Err? {
        CopiesTry(pool, children, ashift, bp, dvas[1..], r.error);
      }
    }
  }

  /** The candidates tried before candidate `x` of copy `j`. */
  function Before(pool: Pool, children: seq<Option<nat>>, ashift: nat, bp: BlockPointer, dvas: seq<Dva>, j: nat,
                  x: nat): (tries: Buffers)
    requires bp.Regular? && j < |dvas|
  {
    var tries := TriesOf(pool, children, ashift, bp, dvas[j]);
    Tries(pool, children, ashift, bp, dvas[..j]) + if x <= |tries| then tries[..x] else tries
  }

  lemma {:induction false} TriesConcat(pool: Pool, children: seq<Option<nat>>, ashift: nat, bp: BlockPointer,
                                       a: seq<Dva>, b: seq<Dva>)
    requires bp.Regular?
    ensures Tries(pool, children, ashift, bp, a + b)
         == Tries(pool, children, ashift, bp, a) + Tries(pool, children, ashift, bp, b)
  {
    if a == [] {
      assert a + b == b;
    } else {
      assert (a + b)[1..] == a[1..] + b;
      TriesConcat(pool, children, ashift, bp, a[1..], b);
    }
  }

  lemma TriesAround(pool: Pool, children: seq<Option<nat>>, ashift: nat, bp: BlockPointer, dvas: seq<Dva>, j: nat,
                    x: nat) returns (after: Buffers)
    requires bp.Regular? && j < |dvas| && x < |TriesOf(pool, children, ashift, bp, dvas[j])|
    ensures Tries(pool, children, ashift, bp, dvas)
         == Before(pool, children, ashift, bp, dvas, j, x) + [TriesOf(pool, children, ashift, bp, dvas[j])[x]] + after
  {
    hide TriesOf;
    var tries, rest := TriesOf(pool, children, ashift, bp, dvas[j]), Tries(pool, children, ashift, bp, dvas[j + 1..]);
    assert dvas == dvas[..j] + dvas[j..] && dvas[j..][0] == dvas[j] && dvas[j..][1..] == dvas[j + 1..];
    TriesConcat(pool, children, ashift, bp, dvas[..j], dvas[j..]);
    after := tries[x + 1..] + rest;
    assert tries + rest == tries[..x] + [tries[x]] + after;
  }

  lemma LayoutParity(g: Geom, sec: nat, c: nat)
    requires g.Valid() && g.p == 1 && c < g.Columns()
    ensures Layout(g, sec)[c].parity <==> c == 0
  {
  }

  /** The data columns hold `block` one after another, with anything after its end. */
  ghost predicate Holds(cols: seq<Col>, orig: seq<seq<byte>>, block: seq<byte>) {
    && |orig| == |cols|
    && forall c, k :: 0 <= c < |cols| && !cols[c].parity && 0 <= k < |orig[c]| && DataBytes(cols, c) + k < |block| ==>
         orig[c][k] == block[DataBytes(cols, c) + k]
  }

  /** The columns of a block as written: its bytes in the data columns, and parity. */
  ghost predicate Written(cols: seq<Col>, orig: seq<seq<byte>>, block: seq<byte>) {
    Stripe(cols, orig) && Holds(cols, orig, block)
  }

  /** Put together, the data columns are the block as far as it goes. */
  lemma {:induction false} GatheredIs(cols: seq<Col>, orig: seq<seq<byte>>, block: seq<byte>, n: nat, m: nat)
    requires Holds(cols, orig, block) && n <= |cols| && forall c :: 0 <= c < |cols| ==> |orig[c]| == cols[c].size
    requires m < DataBytes(cols, n) && m < |block|
    ensures var all := Gathered(cols, Somes(orig), n);
            all.Some? && |all.value| == DataBytes(cols, n) && all.value[m] == block[m]
    decreases n
  {
    GatheredLength(cols, orig, n);
    GatheredLength(cols, orig, n - 1);
    if m < DataBytes(cols, n - 1) {
      GatheredIs(cols, orig, block, n - 1, m);
    } else {
      assert orig[n - 1][m - DataBytes(cols, n - 1)] == block[m];
    }
  }

  /** A block written in columns laid out for it is put together again. */
  lemma StripeHoldsBlock(children: seq<Option<nat>>, ashift: nat, offset: nat, orig: seq<seq<byte>>, block: seq<byte>)
    requires Mappable(children, ashift, |block|) && Written(ColumnsOf(children, ashift, offset, |block|), orig, block)
    ensures Assembled(ColumnsOf(children, ashift, offset, |block|), Somes(orig), |block|) == Some(block)
  {
    var cols := ColumnsOf(children, ashift, offset, |block|);
    DataBytesRoundUp(offset, ashift, |children|, 1, |block|);
    GatheredLength(cols, orig, |cols|);
    var all := Gathered(cols, Somes(orig), |cols|).value;
    forall m | 0 <= m < |block|
      ensures all[m] == block[m]
    {
      GatheredIs(cols, orig, block, |cols|, m);
    }
    assert all[..|block|] == block;
  }

  /** Of a copy of which at most column `x` is absent or altered, candidate `x` is the
    * block as written. */
  lemma CopyHoldsBlock(pool: Pool, children: seq<Option<nat>>, ashift: nat, bp: BlockPointer, dva: Dva,
                       orig: seq<seq<byte>>, block: seq<byte>, x: nat)
    requires bp.Regular? && Mappable(children, ashift, PhysicalSize(bp)) && |block| == PhysicalSize(bp)
    requires var cols := ColumnsOf(children, ashift, dva.offset, PhysicalSize(bp));
             && Written(cols, orig, block) && x < |cols|
             && AllBut(ReadColumns(pool, children, cols), orig, x)
    ensures var cols, tries := ColumnsOf(children, ashift, dva.offset, PhysicalSize(bp)),
                               TriesOf(pool, children, ashift, bp, dva);
            |tries| == |cols| && tries[x] == Some(block)
  {
    var psize := PhysicalSize(bp);
    var cols := ColumnsOf(children, ashift, dva.offset, psize);
    StripeHoldsBlock(children, ashift, dva.offset, orig, block);
    var g := GeomOf(dva.offset, ashift, |children|, 1, psize);
    forall c | 0 <= c < |cols|
      ensures cols[c].parity <==> c == 0
    {
      LayoutParity(g, Pow2(ashift), c);
    }
    CandidateIsBlock(cols, ReadColumns(pool, children, cols), orig, x, psize);
  }

  lemma BlockOfCopies(pool: Pool, children: seq<Option<nat>>, ashift: nat, bp: BlockPointer, dvas: seq<Dva>)
    requires bp.Regular?
    ensures var r := ReadCopies(pool, children, ashift, bp, dvas, NO_COPY);
            ReadBlock(pool, children, ashift, bp, dvas) == if r.Ok? then Inflate(pool, bp, r.value) else Err(r.error)
  {
  }

  /** Main result: if in copy `j` at most column `x` is absent or altered, the copies read
    * as the block written, whatever the others hold, exactly when the checksum accepts
    * it and none of the candidates tried before rivals it. */
  lemma DegradedReadIsTransparent(pool: Pool, children: seq<Option<nat>>, ashift: nat, bp: BlockPointer,
                                  dvas: seq<Dva>, j: nat, orig: seq<seq<byte>>, block: seq<byte>, x: nat)
    requires bp.Regular? && Mappable(children, ashift, PhysicalSize(bp)) && j < |dvas| && |block| == PhysicalSize(bp)
    requires var cols := ColumnsOf(children, ashift, dvas[j].offset, PhysicalSize(bp));
             && Written(cols, orig, block) && x < |cols|
             && AllBut(ReadColumns(pool, children, cols), orig, x)
    ensures && (ReadCopies(pool, children, ashift, bp, dvas, NO_COPY) == Ok(block)
                <==> && Accepts(pool, bp, block)
                     && Unrivalled(pool, bp, Before(pool, children, ashift, bp, dvas, j, x), block))
            && (ReadCopies(pool, children, ashift, bp, dvas, NO_COPY) == Ok(block)
                ==> ReadBlock(pool, children, ashift, bp, dvas) == Inflate(pool, bp, block))
  {
    hide *;
    CopyHoldsBlock(pool, children, ashift, bp, dvas[j], orig, block, x);
    CopiesTry(pool, children, ashift, bp, dvas, NO_COPY);
    var after := TriesAround(pool, children, ashift, bp, dvas, j, x);
    FirstIsBlock(pool, bp, Before(pool, children, ashift, bp, dvas, j, x), block, after);
    BlockOfCopies(pool, children, ashift, bp, dvas);
  }

  /** So a damaged pool answers as the whole one does exactly when nothing rivals the
    * block there either. */
  lemma DegradedReadAsHealthy(healthy: Pool, damaged: Pool, children: seq<Option<nat>>, children': seq<Option<nat>>,
                              ashift: nat, bp: BlockPointer, dvas: seq<Dva>, j: nat, orig: seq<seq<byte>>,
                              block: seq<byte>, x: nat)
    requires bp.Regular? && Mappable(children, ashift, PhysicalSize(bp)) && j < |dvas| && |block| == PhysicalSize(bp)
    requires |children'| == |children|
    requires damaged.sum == healthy.sum && damaged.inflate == healthy.inflate
    requires var cols := ColumnsOf(children, ashift, dvas[j].offset, PhysicalSize(bp));
             && Written(cols, orig, block) && x < |cols|
             && AllBut(ReadColumns(damaged, children', cols), orig, x)
             && ReadCopies(healthy, children, ashift, bp, dvas, NO_COPY) == Ok(block)
    ensures && (ReadCopies(damaged, children', ashift, bp, dvas, NO_COPY)
                == ReadCopies(healthy, children, ashift, bp, dvas, NO_COPY)
                <==> Unrivalled(damaged, bp, Before(damaged, children', ashift, bp, dvas, j, x), block))
            && (Unrivalled(damaged, bp, Before(damaged, children', ashift, bp, dvas, j, x), block)
                ==> ReadBlock(damaged, children', ashift, bp, dvas) == ReadBlock(healthy, children, ashift, bp, dvas))
  {
    hide Before, ReadCopies, Unrivalled, Written, AllBut;
    DegradedReadIsTransparent(damaged, children', ashift, bp, dvas, j, orig, block, x);
  }

  /** A child holds at most one column of a block. */
  lemma OneColumnPerChild(g: Geom, sec: nat, c: nat, c': nat)
    requires g.Valid() && c < g.Columns() && c' < g.Columns()
    requires Layout(g, sec)[c].devidx == Layout(g, sec)[c'].devidx
    ensures c == c'
  {
  }

  /** The column on child `y`, or the first when it holds none. */
  ghost function ColumnOn(cols: seq<Col>, y: nat): (x: nat) {
    if exists c :: 0 <= c < |cols| && cols[c].devidx == y
    then var c :| 0 <= c < |cols| && cols[c].devidx == y; c
    else 0
  }

  /** Every device but that of child `y` is as it was. */
  ghost predicate SameBut(pool: Pool, children: seq<Option<nat>>, pool': Pool, children': seq<Option<nat>>, y: nat) {
    && |children'| == |children| && pool'.sum == pool.sum && pool'.inflate == pool.inflate
    && forall i :: 0 <= i < |children| && i != y ==> DeviceOf(pool', children', i) == DeviceOf(pool, children, i)
  }

  lemma OneColumnChanged(pool: Pool, children: seq<Option<nat>>, pool': Pool, children': seq<Option<nat>>, y: nat,
                         ashift: nat, psize: nat, offset: nat, orig: seq<seq<byte>>)
    requires Mappable(children, ashift, psize) && SameBut(pool, children, pool', children', y)
    requires ReadColumns(pool, children, ColumnsOf(children, ashift, offset, psize)) == Somes(orig)
    ensures var cols := ColumnsOf(children, ashift, offset, psize);
            ColumnOn(cols, y) < |cols| && AllBut(ReadColumns(pool', children', cols), orig, ColumnOn(cols, y))
  {
    var cols := ColumnsOf(children, ashift, offset, psize);
    var x := ColumnOn(cols, y);
    forall c | 0 <= c < |cols| && c != x
      ensures ReadColumn(pool', children', cols[c]) == ReadColumn(pool, children, cols[c])
    {
      if cols[c].devidx == y {
        OneColumnPerChild(GeomOf(offset, ashift, |children|, 1, psize), Pow2(ashift), c, x);
        assert false;
      }
      SameColumn(pool, children, pool', children', cols[c]);
    }
  }

  /** Main result: when the device of child `y` is lost or comes to hold anything at all, a
    * block the pool could read, whole in copy `j`, reads as before exactly when none of
    * the candidates now tried before the right one passes the checksum in its place. */
  lemma OneDeviceLost(pool: Pool, children: seq<Option<nat>>, pool': Pool, children': seq<Option<nat>>, y: nat,
                      ashift: nat, bp: BlockPointer, dvas: seq<Dva>, j: nat, orig: seq<seq<byte>>, block: seq<byte>)
    requires bp.Regular? && Mappable(children, ashift, PhysicalSize(bp)) && j < |dvas| && |block| == PhysicalSize(bp)
    requires SameBut(pool, children, pool', children', y)
    requires var cols := ColumnsOf(children, ashift, dvas[j].offset, PhysicalSize(bp));
             && Written(cols, orig, block) && ReadColumns(pool, children, cols) == Somes(orig)
             && ReadCopies(pool, children, ashift, bp, dvas, NO_COPY) == Ok(block)
    ensures var cols := ColumnsOf(children, ashift, dvas[j].offset, PhysicalSize(bp));
            var tries := Before(pool', children', ashift, bp, dvas, j, ColumnOn(cols, y));
            var unrivalled := Unrivalled(pool', bp, tries, block);
            && (ReadCopies(pool', children', ashift, bp, dvas, NO_COPY)
                == ReadCopies(pool, children, ashift, bp, dvas, NO_COPY)
                <==> unrivalled)
            && (unrivalled ==>
                  ReadBlock(pool', children', ashift, bp, dvas) == ReadBlock(pool, children, ashift, bp, dvas))
  {
    hide Before, ReadCopies, Unrivalled, Written, AllBut, ColumnOn;
    OneColumnChanged(pool, children, pool', children', y, ashift, PhysicalSize(bp), dvas[j].offset, orig);
    var x := ColumnOn(ColumnsOf(children, ashift, dvas[j].offset, PhysicalSize(bp)), y);
    DegradedReadAsHealthy(pool, pool', children, children', ashift, bp, dvas, j, orig, block, x);
  }

  /** With column `x` absent no other candidate is made. */
  lemma OnlyOneCandidate(cols: seq<Col>, bufs: Buffers, psize: nat, x: nat, i: nat)
    requires |cols| == |bufs| && x < |cols| && bufs[x].None? && !cols[x].parity && i < |cols| && i != x
    ensures Candidate(cols, bufs, psize, i) == None
  {
    if i == 0 {
      GatheredStops(cols, bufs, x + 1, |cols|);
    } else {
      assert !PresentBut(bufs, i, |bufs|);
    }
  }

  /** Main result: a block whole in its first copy and accepted reads the same after any
    * one device is lost, whatever else the checksum might accept. */
  lemma OneDeviceMissing(pool: Pool, children: seq<Option<nat>>, pool': Pool, children': seq<Option<nat>>, y: nat,
                         ashift: nat, bp: BlockPointer, dvas: seq<Dva>, orig: seq<seq<byte>>, block: seq<byte>)
    requires bp.Regular? && Mappable(children, ashift, PhysicalSize(bp)) && dvas != [] && |block| == PhysicalSize(bp)
    requires SameBut(pool, children, pool', children', y) && DeviceOf(pool', children', y) == None
    requires var cols := ColumnsOf(children, ashift, dvas[0].offset, PhysicalSize(bp));
             && Written(cols, orig, block) && ReadColumns(pool, children, cols) == Somes(orig)
             && Accepts(pool, bp, block)
    ensures ReadBlock(pool, children, ashift, bp, dvas) == Inflate(pool, bp, block)
    ensures ReadBlock(pool', children', ashift, bp, dvas) == Inflate(pool, bp, block)
  {
    hide *;
    var cols := ColumnsOf(children, ashift, dvas[0].offset, PhysicalSize(bp));
    var x := ColumnOn(cols, y);
    OneColumnChanged(pool, children, pool', children', y, ashift, PhysicalSize(bp), dvas[0].offset, orig);
    WholeCopy(cols, ReadColumns(pool, children, cols), orig, block);
    SameFunctions(pool, children, pool', children', y, bp, block);
    SameLayout(children, children', ashift, dvas[0].offset, PhysicalSize(bp));
    DegradedReadIsTransparent(pool, children, ashift, bp, dvas, 0, orig, block, 0);
    DegradedReadIsTransparent(pool', children', ashift, bp, dvas, 0, orig, block, x);
    NothingBefore(pool, bp, children, ashift, dvas, 0, block);
    MissingNoRival(pool', children', ashift, bp, dvas, y, block);
  }

  lemma WholeCopy(cols: seq<Col>, bufs: Buffers, orig: seq<seq<byte>>, block: seq<byte>)
    requires Written(cols, orig, block) && bufs == Somes(orig)
    ensures AllBut(bufs, orig, 0) && 0 < |cols|
  {
  }

  lemma SameLayout(children: seq<Option<nat>>, children': seq<Option<nat>>, ashift: nat, offset: nat, psize: nat)
    requires |children'| == |children| && Mappable(children, ashift, psize)
    ensures Mappable(children', ashift, psize)
    ensures ColumnsOf(children', ashift, offset, psize) == ColumnsOf(children, ashift, offset, psize)
  {
  }

  lemma NothingBefore(pool: Pool, bp: BlockPointer, children: seq<Option<nat>>, ashift: nat, dvas: seq<Dva>, x: nat,
                      block: seq<byte>)
    requires bp.Regular? && dvas != []
    requires x == 0 || forall i :: 0 <= i < Min(x, |TriesOf(pool, children, ashift, bp, dvas[0])|) ==>
               TriesOf(pool, children, ashift, bp, dvas[0])[i].None?
    ensures Unrivalled(pool, bp, Before(pool, children, ashift, bp, dvas, 0, x), block)
  {
    hide TriesOf;
    assert dvas[..0] == [];
  }

  lemma SameFunctions(pool: Pool, children: seq<Option<nat>>, pool': Pool, children': seq<Option<nat>>, y: nat,
                      bp: BlockPointer, raw: seq<byte>)
    requires bp.Regular? && SameBut(pool, children, pool', children', y)
    ensures |children'| == |children| && (Accepts(pool', bp, raw) <==> Accepts(pool, bp, raw))
    ensures Inflate(pool', bp, raw) == Inflate(pool, bp, raw)
  {
  }

  lemma MissingNoRival(pool: Pool, children: seq<Option<nat>>, ashift: nat, bp: BlockPointer, dvas: seq<Dva>, y: nat,
                       block: seq<byte>)
    requires bp.Regular? && Mappable(children, ashift, PhysicalSize(bp)) && dvas != []
    requires DeviceOf(pool, children, y) == None
    ensures var cols := ColumnsOf(children, ashift, dvas[0].offset, PhysicalSize(bp));
            Unrivalled(pool, bp, Before(pool, children, ashift, bp, dvas, 0, ColumnOn(cols, y)), block)
  {
    hide Unrivalled, Before, Candidate, Layout;
    var cols := ColumnsOf(children, ashift, dvas[0].offset, PhysicalSize(bp));
    var x, bufs := ColumnOn(cols, y), ReadColumns(pool, children, cols);
    if 0 < x {
      LayoutParity(GeomOf(dvas[0].offset, ashift, |children|, 1, PhysicalSize(bp)), Pow2(ashift), x);
      forall i | 0 <= i < x
        ensures Candidate(cols, bufs, PhysicalSize(bp), i) == None
      {
        OnlyOneCandidate(cols, bufs, PhysicalSize(bp), x, i);
      }
    }
    NothingBefore(pool, bp, children, ashift, dvas, x, block);
  }

  lemma SameColumn(pool: Pool, children: seq<Option<nat>>, pool': Pool, children': seq<Option<nat>>, col: Col)
    requires DeviceOf(pool', children', col.devidx) == DeviceOf(pool, children, col.devidx)
    ensures ReadColumn(pool', children', col) == ReadColumn(pool, children, col)
  {
  }

  /** With checksumming on, only bytes that carry the pointer's digest are inflated. */
  lemma NothingUnverified(pool: Pool, children: seq<Option<nat>>, ashift: nat, bp: BlockPointer, dvas: seq<Dva>)
    returns (raw: seq<byte>)
    requires bp.Regular? && bp.props.checksum != CHECKSUM_OFF
    requires ReadBlock(pool, children, ashift, bp, dvas).Ok?
    ensures pool.sum(bp.props.checksum, bp.props.order, raw) == Some(bp.digest)
    ensures ReadBlock(pool, children, ashift, bp, dvas) == Inflate(pool, bp, raw)
  {
    raw := ReadCopies(pool, children, ashift, bp, dvas, NO_COPY).value;
  }

  // The imperative code

  method XorInto(rebuilt: array<byte>, other: seq<byte>)
    modifies rebuilt
    ensures forall k :: 0 <= k < rebuilt.Length ==> rebuilt[k] == XorByte(old(rebuilt[k]), At(Some(other), k))
  {
    var n := Min(|other|, rebuilt.Length);
    for k := 0 to n
      invariant forall i :: 0 <= i < k ==> rebuilt[i] == XorByte(old(rebuilt[i]), At(Some(other), i))
      invariant forall i :: k <= i < rebuilt.Length ==> rebuilt[i] == old(rebuilt[i])
    {
      rebuilt[k] := XorByte(rebuilt[k], other[k]);
    }
    forall k | n <= k < rebuilt.Length
      ensures XorByte(rebuilt[k], 0) == rebuilt[k]
    {
      XorZero(rebuilt[k]);
      XorComm(rebuilt[k], 0);
    }
  }

  /** Column `target` from the parity column and the others. */
  method Reconstruct(cols: seq<Col>, bufs: Buffers, target: nat) returns (r: Option<seq<byte>>)
    requires |cols| == |bufs|
    ensures r == Rebuilt(cols, bufs, target)
  {
    if |bufs| == 0 || bufs[0].None? || target >= |cols| {
      return None;
    }
    ghost var skip := if target == 0 then |bufs| else target;
    var size := cols[target].size;
    var rebuilt := new byte[size](k => At(bufs[0], k));
    forall k | 0 <= k < size
      ensures rebuilt[k] == XorBut(bufs, skip, 1, k)
    {
      XorZero(At(bufs[0], k));
    }
    for i := 1 to |cols|
      invariant PresentBut(bufs, skip, i)
      invariant forall k :: 0 <= k < size ==> rebuilt[k] == XorBut(bufs, skip, i, k)
    {
      if i != target {
        if bufs[i].None? {
          return None;
        }
        XorInto(rebuilt, bufs[i].value);
      }
    }
    r := Some(rebuilt[..]);
    assert rebuilt[..] == Rebuilt(cols, bufs, target).value;
  }

  method Assemble(cols: seq<Col>, bufs: Buffers, psize: nat, replaceIdx: Option<nat>, replacement: Option<seq<byte>>)
    returns (r: Option<seq<byte>>)
    requires |cols| == |bufs| && (replaceIdx.Some? ==> replaceIdx.value < |bufs|)
    ensures r == Assembled(cols, if replaceIdx.Some? then bufs[replaceIdx.value := replacement] else bufs, psize)
  {
    ghost var bufs' := if replaceIdx.Some? then bufs[replaceIdx.value := replacement] else bufs;
    var data := [];
    for i := 0 to |cols|
      invariant Gathered(cols, bufs', i) == Some(data)
    {
      if !cols[i].parity {
        var part := if Some(i) == replaceIdx then replacement else bufs[i];
        if part.None? {
          GatheredStops(cols, bufs', i + 1, |cols|);
          return None;
        }
        data := data + part.value;
      }
    }
    r := Cut(Some(data), psize);
  }

  lemma {:induction false} GatheredStops(cols: seq<Col>, bufs: Buffers, m: nat, n: nat)
    requires |cols| == |bufs| && m <= n <= |cols| && Gathered(cols, bufs, m) == None
    ensures Gathered(cols, bufs, n) == None
    decreases n
  {
    if m == n {
    } else {
      GatheredStops(cols, bufs, m, n - 1);
    }
  }

  /** Healthy assembly first, then each data column rebuilt in turn. */
  method Search(pool: Pool, bp: BlockPointer, dva: Dva, cols: seq<Col>, bufs: Buffers) returns (r: Option<seq<byte>>)
    requires bp.Regular? && |cols| == |bufs| > 0 && cols[0].parity
    ensures r == FirstAccepted(pool, bp, cols, bufs, 0)
  {
    hide Accepts, Refusal;
    var psize := PhysicalSize(bp);
    var raw := Assemble(cols, bufs, psize, None, None);
    if raw.Some? {
      AcceptsIsNoRefusal(pool, bp, dva, raw.value);
      if Refusal(pool, bp, dva, raw.value).None? {
        return raw;
      }
    }
    for i := 1 to |cols|
      invariant FirstAccepted(pool, bp, cols, bufs, 0) == FirstAccepted(pool, bp, cols, bufs, i)
    {
      if !cols[i].parity {
        var rebuilt := Reconstruct(cols, bufs, i);
        if rebuilt.Some? {
          raw := Assemble(cols, bufs, psize, Some(i), rebuilt);
          if raw.Some? {
            AcceptsIsNoRefusal(pool, bp, dva, raw.value);
            if Refusal(pool, bp, dva, raw.value).None? {
              return raw;
            }
          }
        }
      }
    }
    r := None;
  }

  method Read(pool: Pool, children: seq<Option<nat>>, ashift: byte, bp: BlockPointer, dvas: seq<Dva>)
    returns (r: Result<seq<byte>, Error>)
    requires bp.Regular? && PhysicalSize(bp) <= MAX_BLOCK && |children| < 0x8000_0000_0000_0000
    ensures r == ReadBlock(pool, children, ashift, bp, dvas)
  {
    var last := NO_COPY;
    for i := 0 to |dvas|
      invariant ReadCopies(pool, children, ashift, bp, dvas, NO_COPY)
             == ReadCopies(pool, children, ashift, bp, dvas[i..], last)
    {
      var dva := dvas[i];
      assert dvas[i..][0] == dva && dvas[i..][1..] == dvas[i + 1..];
      var mapped := RaidzColumns(dva.offset, ashift, |children|, 1, PhysicalSize(bp));
      if mapped.Err? {
        last := mapped.error;
      } else {
        var cols := mapped.value;
        var bufs := ReadColumns(pool, children, cols);
        LayoutParity(GeomOf(dva.offset, ashift, |children|, 1, PhysicalSize(bp)), Pow2(ashift), 0);
        var raw := Search(pool, bp, dva, cols, bufs);
        if raw.Some? {
          return Inflate(pool, bp, raw.value);
        }
        last := ChecksumMismatch(dva.vdev, dva.offset, "raidz_unrecoverable");
      }
    }
    r := Err(last);
  }
}
