/** Degraded reads of blocks with a Fletcher-4 checksum (src/vdev.rs, src/cksum.rs): the
  * checksum accepts other blocks of the same size, so the condition under which a damaged
  * pool reads as before cannot be left out. */
module RaidzFletcher {
  import opened Base
  import opened BitOps
  import opened Endian
  import opened BlockPointers
  import opened Devices
  import opened BlockVerify
  import opened FletcherSpec
  import opened RaidzGeometry
  import opened RaidzMap
  import opened RaidzRead

  function Word(v: nat): (u: Unit) {
    Unit(v, 0)
  }

  function Words5(a: nat, b: nat, c: nat, d: nat, e: nat): (us: seq<Unit>) {
    [Word(a), Word(b), Word(c), Word(d), Word(e)]
  }

  /** The sums after five words. */
  lemma FiveSteps(s: Sums, a: nat, b: nat, c: nat, d: nat, e: nat)
    ensures var r := FoldExact(Fletcher4, s, Words5(a, b, c, d, e));
            && r.a == s.a + a + b + c + d + e
            && r.b == s.b + 5 * s.a + 5 * a + 4 * b + 3 * c + 2 * d + e
            && r.c == s.c + 5 * s.b + 15 * s.a + 15 * a + 10 * b + 6 * c + 3 * d + e
            && r.d == s.d + 5 * s.c + 15 * s.b + 35 * s.a + 35 * a + 20 * b + 10 * c + 4 * d + e
  {
    var us := Words5(a, b, c, d, e);
    assert us[1..] == [Word(b), Word(c), Word(d), Word(e)];
    assert us[1..][1..] == [Word(c), Word(d), Word(e)];
    assert us[1..][1..][1..] == [Word(d), Word(e)];
    assert us[1..][1..][1..][1..] == [Word(e)];
    assert us[1..][1..][1..][1..][1..] == [];
    var s1 := Step(Fletcher4, s, Word(a));
    var s2 := Step(Fletcher4, s1, Word(b));
    var s3 := Step(Fletcher4, s2, Word(c));
    var s4 := Step(Fletcher4, s3, Word(d));
    assert FoldExact(Fletcher4, s, us) == FoldExact(Fletcher4, s1, us[1..]);
    assert FoldExact(Fletcher4, s1, us[1..]) == FoldExact(Fletcher4, s2, us[1..][1..]);
    assert FoldExact(Fletcher4, s2, us[1..][1..]) == FoldExact(Fletcher4, s3, us[1..][1..][1..]);
    assert FoldExact(Fletcher4, s3, us[1..][1..][1..]) == FoldExact(Fletcher4, s4, [Word(e)]);
  }

  /** Adding the fourth difference of a unit to five words in a row changes no sum. */
  lemma FiveWordsRival(s: Sums, a: nat, b: nat, c: nat, d: nat, e: nat)
    requires 4 <= b && 4 <= d
    ensures Fold(Fletcher4, Wrap(s), Words5(a, b, c, d, e))
         == Fold(Fletcher4, Wrap(s), Words5(a + 1, b - 4, c + 6, d - 4, e + 1))
  {
    hide Fold, FoldExact;
    FiveSteps(s, a, b, c, d, e);
    FiveSteps(s, a + 1, b - 4, c + 6, d - 4, e + 1);
    FoldWraps(Fletcher4, s, Words5(a, b, c, d, e));
    FoldWraps(Fletcher4, s, Words5(a + 1, b - 4, c + 6, d - 4, e + 1));
  }

  /** Word `i` of a byte sequence. */
  function At32(order: Order, s: seq<byte>, i: nat): (v: nat)
    requires 4 * i + 4 <= |s|
  {
    Value(order, s[4 * i..4 * i + 4])
  }

  function Bytes5(order: Order, a: nat, b: nat, c: nat, d: nat, e: nat): (s: seq<byte>)
    ensures |s| == 20
  {
    Bytes(order, a, 4) + Bytes(order, b, 4) + Bytes(order, c, 4) + Bytes(order, d, 4) + Bytes(order, e, 4)
  }

  lemma Units5(order: Order, s: seq<byte>)
    requires |s| == 20
    ensures Units(Fletcher4, order, s)
         == Words5(At32(order, s, 0), At32(order, s, 1), At32(order, s, 2), At32(order, s, 3), At32(order, s, 4))
  {
    hide Value;
    var s1, s2, s3, s4 := s[4..], s[8..], s[12..], s[16..];
    assert s1[4..] == s2 && s2[4..] == s3 && s3[4..] == s4 && s4[4..] == [];
    assert s1[..4] == s[4..8] && s2[..4] == s[8..12] && s3[..4] == s[12..16] && s4[..4] == s[16..20];
    assert Units(Fletcher4, order, s4) == [DecodeUnit(Fletcher4, order, s4[..4])] + Units(Fletcher4, order, []);
    assert Units(Fletcher4, order, s3) == [DecodeUnit(Fletcher4, order, s3[..4])] + Units(Fletcher4, order, s4);
    assert Units(Fletcher4, order, s2) == [DecodeUnit(Fletcher4, order, s2[..4])] + Units(Fletcher4, order, s3);
    assert Units(Fletcher4, order, s1) == [DecodeUnit(Fletcher4, order, s1[..4])] + Units(Fletcher4, order, s2);
  }

  lemma UnitsOfBytes5(order: Order, a: u32, b: u32, c: u32, d: u32, e: u32)
    ensures Units(Fletcher4, order, Bytes5(order, a, b, c, d, e)) == Words5(a, b, c, d, e)
  {
    hide Value, Bytes, Units;
    var s := Bytes5(order, a, b, c, d, e);
    Units5(order, s);
    Pow2Bytes();
    assert Pow2(32) == U32_SIZE by { Pow2Add(16, 16); Pow2Add(8, 8); }
    assert s[0..4] == Bytes(order, a, 4) && s[4..8] == Bytes(order, b, 4) && s[8..12] == Bytes(order, c, 4);
    assert s[12..16] == Bytes(order, d, 4) && s[16..20] == Bytes(order, e, 4);
    ValueOfBytes(order, a, 4);
    ValueOfBytes(order, b, 4);
    ValueOfBytes(order, c, 4);
    ValueOfBytes(order, d, 4);
    ValueOfBytes(order, e, 4);
  }

  lemma SumAround(order: Order, pre: seq<byte>, mid: seq<byte>, post: seq<byte>)
    requires Whole(|pre|, 4) && |mid| == 20
    ensures Checksum(Fletcher4, order, pre + mid + post)
         == Fold(Fletcher4,
                 Fold(Fletcher4, Fold(Fletcher4, ZERO, Units(Fletcher4, order, pre)), Units(Fletcher4, order, mid)),
                 Units(Fletcher4, order, post))
  {
    hide Fold, Units;
    assert pre + mid + post == pre + (mid + post);
    UnitsConcat(Fletcher4, order, pre, mid + post);
    UnitsConcat(Fletcher4, order, mid, post);
    FoldConcat(Fletcher4, ZERO, Units(Fletcher4, order, pre), Units(Fletcher4, order, mid + post));
    FoldConcat(Fletcher4, Fold(Fletcher4, ZERO, Units(Fletcher4, order, pre)),
               Units(Fletcher4, order, mid), Units(Fletcher4, order, post));
  }

  /** Any five words in a row, clear of overflow, can be exchanged for others with the
    * same checksum. */
  lemma SameChecksum(order: Order, pre: seq<byte>, mid: seq<byte>, post: seq<byte>) returns (mid': seq<byte>)
    requires Whole(|pre|, 4) && |mid| == 20
    requires At32(order, mid, 0) + 1 < U32_SIZE && At32(order, mid, 2) + 6 < U32_SIZE
    requires At32(order, mid, 4) + 1 < U32_SIZE && 4 <= At32(order, mid, 1) && 4 <= At32(order, mid, 3)
    ensures |mid'| == 20 && mid' != mid
    ensures Checksum(Fletcher4, order, pre + mid' + post) == Checksum(Fletcher4, order, pre + mid + post)
  {
    hide Fold, Units, Value, Bytes, Checksum, Bytes5, At32;
    var a, b, c, d, e := At32(order, mid, 0), At32(order, mid, 1), At32(order, mid, 2), At32(order, mid, 3),
                         At32(order, mid, 4);
    Below32(order, mid, 1);
    Below32(order, mid, 3);
    mid' := Bytes5(order, a + 1, b - 4, c + 6, d - 4, e + 1);
    Units5(order, mid);
    UnitsOfBytes5(order, a + 1, b - 4, c + 6, d - 4, e + 1);
    assert Units(Fletcher4, order, mid)[0] != Units(Fletcher4, order, mid')[0];
    SumAround(order, pre, mid, post);
    SumAround(order, pre, mid', post);
    var before := FoldExact(Fletcher4, ZERO, Units(Fletcher4, order, pre));
    assert Wrap(ZERO) == ZERO;
    FoldWraps(Fletcher4, ZERO, Units(Fletcher4, order, pre));
    FiveWordsRival(before, a, b, c, d, e);
  }

  lemma Below32(order: Order, s: seq<byte>, i: nat)
    requires 4 * i + 4 <= |s|
    ensures At32(order, s, i) < U32_SIZE
  {
    hide Value;
    Pow2Bytes();
    assert Pow2(32) == U32_SIZE by { Pow2Add(16, 16); Pow2Add(8, 8); }
  }

  /** Two devices that hold one sector each, wherever it is read. */
  function Twins(first: seq<byte>, second: seq<byte>): (members: seq<Device>) {
    [Device((_, _) => Some(first)), Device((_, _) => Some(second))]
  }

  const CHILDREN: seq<Option<nat>> := [Some(0), Some(1)]

  lemma TwinPlaces()
    ensures PlaceOf(1, 1) == Place(0, 1) && PlaceOf(0, 2) == Place(0, 0)
  {
    hide PlaceOf;
    PlaceUnique(Place(0, 1), 1);
    PlaceUnique(Place(0, 0), 2);
    assert Scale(1, 1) == 1 && Scale(0, 2) == 0;
  }

  /** On two children a block of one sector is a parity column that repeats it and a data
    * column. */
  lemma TwinLayout(g: Geom)
    requires g == Geom(0, 1, 2, 1)
    ensures g.Valid() && Layout(g, 512) == [Col(0, 0, 512, true), Col(1, 0, 512, false)]
  {
    hide PlaceOf;
    TwinPlaces();
    assert Scale(1, 512) == 512 && Scale(0, 512) == 0;
    assert g.Quota() == 1 && g.Columns() == 2;
    assert Column(g, 512, 0) == Col(0, 0, 512, true) && Column(g, 512, 1) == Col(1, 0, 512, false);
  }

  lemma TwinColumns()
    ensures Mappable(CHILDREN, 9, 512)
    ensures ColumnsOf(CHILDREN, 9, 0, 512) == [Col(0, 0, 512, true), Col(1, 0, 512, false)]
  {
    hide Layout, Scale;
    Pow2Bytes();
    assert FirstSector(0, 9) == 0 && SectorsFor(512, 512) == 1;
    TwinLayout(GeomOf(0, 9, 2, 1, 512));
  }

  lemma TwinBuffers(pool: Pool, first: seq<byte>, second: seq<byte>, cols: seq<Col>)
    requires |first| == |second| == 512 && pool.members == Twins(first, second)
    requires cols == [Col(0, 0, 512, true), Col(1, 0, 512, false)]
    ensures ReadColumns(pool, CHILDREN, cols) == [Some(first), Some(second)]
  {
    assert ReadColumn(pool, CHILDREN, cols[0]) == Some(first) && ReadColumn(pool, CHILDREN, cols[1]) == Some(second);
  }

  lemma TwinCandidate(first: seq<byte>, second: seq<byte>, cols: seq<Col>, bufs: Buffers)
    requires |first| == |second| == 512 && bufs == [Some(first), Some(second)]
    requires cols == [Col(0, 0, 512, true), Col(1, 0, 512, false)]
    ensures Candidate(cols, bufs, 512, 0) == Some(second)
  {
    assert Gathered(cols, bufs, 1) == Some([]) && Gathered(cols, bufs, 2) == Some([] + second);
    assert [] + second == second && second[..512] == second;
  }

  lemma TwinRead(pool: Pool, bp: BlockPointer, dva: Dva, first: seq<byte>, second: seq<byte>)
    requires bp.Regular? && PhysicalSize(bp) == 512 && dva.offset == 0 && |first| == |second| == 512
    requires pool.members == Twins(first, second) && Accepts(pool, bp, second)
    ensures ReadCopies(pool, CHILDREN, 9, bp, [dva], NO_COPY) == Ok(second)
  {
    hide Accepts, Candidate, ColumnsOf, Mappable, ReadColumns, Twins;
    TwinColumns();
    var cols := ColumnsOf(CHILDREN, 9, 0, 512);
    TwinBuffers(pool, first, second, cols);
    TwinCandidate(first, second, cols, ReadColumns(pool, CHILDREN, cols));
  }

  /** A pool for which the condition of `OneDeviceLost` fails: with one device changed to
    * hold the rival of a block, the rival is read. */
  lemma RivalIsRead(other: Algorithm, inflate: Inflater, bp: BlockPointer, dva: Dva, block: seq<byte>, rival: seq<byte>)
    requires bp.Regular? && bp.props.checksum == FLETCHER4 && PhysicalSize(bp) == 512 && dva.offset == 0
    requires |block| == |rival| == 512
    requires var order := bp.props.order; Checksum(Fletcher4, order, rival) == Checksum(Fletcher4, order, block)
    requires bp.digest == SumWords(Checksum(Fletcher4, bp.props.order, block))
    ensures ReadCopies(PoolOf(Twins(block, block), other, inflate), CHILDREN, 9, bp, [dva], NO_COPY) == Ok(block)
    ensures ReadCopies(PoolOf(Twins(block, rival), other, inflate), CHILDREN, 9, bp, [dva], NO_COPY) == Ok(rival)
  {
    hide Checksum, ReadCopies, Accepts;
    AcceptsFletcher4(Twins(block, block), other, inflate, bp, block);
    AcceptsFletcher4(Twins(block, rival), other, inflate, bp, rival);
    TwinRead(PoolOf(Twins(block, block), other, inflate), bp, dva, block, block);
    TwinRead(PoolOf(Twins(block, rival), other, inflate), bp, dva, block, rival);
  }

  /** Main result: every block of one sector with five such words in a row has a rival that
    * is read in its place. */
  lemma ReadsItsRival(other: Algorithm, inflate: Inflater, bp: BlockPointer, dva: Dva,
                      pre: seq<byte>, mid: seq<byte>, post: seq<byte>) returns (rival: seq<byte>)
    requires bp.Regular? && bp.props.checksum == FLETCHER4 && PhysicalSize(bp) == 512 && dva.offset == 0
    requires |pre + mid + post| == 512 && Whole(|pre|, 4) && |mid| == 20
    requires var order := bp.props.order;
             && At32(order, mid, 0) + 1 < U32_SIZE && At32(order, mid, 2) + 6 < U32_SIZE
             && At32(order, mid, 4) + 1 < U32_SIZE && 4 <= At32(order, mid, 1) && 4 <= At32(order, mid, 3)
    requires bp.digest == SumWords(Checksum(Fletcher4, bp.props.order, pre + mid + post))
    ensures var block := pre + mid + post;
            && rival != block
            && ReadCopies(PoolOf(Twins(block, block), other, inflate), CHILDREN, 9, bp, [dva], NO_COPY) == Ok(block)
            && ReadCopies(PoolOf(Twins(block, rival), other, inflate), CHILDREN, 9, bp, [dva], NO_COPY) == Ok(rival)
  {
    hide *;
    var mid' := SameChecksum(bp.props.order, pre, mid, post);
    rival := pre + mid' + post;
    assert rival[|pre|..|pre| + 20] == mid' && (pre + mid + post)[|pre|..|pre| + 20] == mid;
    RivalIsRead(other, inflate, bp, dva, pre + mid + post, rival);
  }
}
