/** Encoding and decoding of block pointers (src/phys/block_pointer.rs) and data
  * virtual addresses (src/phys/dva.rs). A pointer is sixteen 64-bit words. */
module PointerCodec {
  import opened Base
  import opened BitOps
  import opened BitFields
  import opened Endian
  import opened Cursors
  import opened BlockPointers

  // The packed words

  const DVA_A := [FieldAt(0, 24), FieldAt(24, 8), FieldAt(32, 24), FieldAt(56, 8)]   // asize, grid, vdev, padding
  const DVA_B := [FieldAt(0, 63), FieldAt(63, 1)]                                    // offset, gang
  const IV_FILL := [FieldAt(0, 32), FieldAt(32, 32)]                                 // fill count, rest of the iv
  const FLAGS := [FieldAt(0, 16), FieldAt(16, 16), FieldAt(32, 5), FieldAt(37, 2),   // sizes, compression, unused
                  FieldAt(39, 1), FieldAt(40, 8), FieldAt(48, 8), FieldAt(56, 5),    // embedded, checksum, type, level
                  FieldAt(61, 1), FieldAt(62, 1), FieldAt(63, 1)]                    // encrypted, dedup, little-endian

  lemma Widths()
    ensures Pow2(1) == 2 && Pow2(2) == 4 && Pow2(5) == 32 && Pow2(8) == 0x100
    ensures Pow2(16) == 0x1_0000 && Pow2(24) == 0x100_0000
    ensures Pow2(32) == U32_SIZE && Pow2(63) == 0x8000_0000_0000_0000 && Pow2(64) == U64_SIZE
  {
    Pow2Bytes();
    Pow2Add(8, 8);
    Pow2Add(8, 16);
    Pow2Add(16, 16);
    Pow2Add(32, 32);
  }

  function Bit(flag: bool): (v: nat) {
    if flag then 1 else 0
  }

  function DvaA(d: Dva): (values: seq<nat>) {
    [d.asize, 0, d.vdev, 0]
  }

  function DvaB(d: Dva): (values: seq<nat>) {
    [d.offset, Bit(d.gang)]
  }

  /** An address the encoder takes. */
  predicate DvaFits(d: Dva) {
    d.vdev < 0x100_0000 && 1 <= d.asize < 0x100_0000 && d.offset < 0x8000_0000_0000_0000
  }

  lemma DvaFit(d: Dva)
    requires DvaFits(d)
    ensures Disjoint(DVA_A) && Fit(DVA_A, DvaA(d))
    ensures Disjoint(DVA_B) && Fit(DVA_B, DvaB(d))
  {
    DvaWidths(d);
  }

  lemma DvaWidths(d: Dva)
    requires DvaFits(d)
    ensures Fit(DVA_A, DvaA(d)) && Fit(DVA_B, DvaB(d))
  {
    Widths();
  }

  /** A packed word of up to 64 bits. */
  lemma PackFits(layout: seq<FieldAt>, values: seq<nat>)
    requires Disjoint(layout) && Fit(layout, values) && layout != []
    requires layout[|layout| - 1].at + layout[|layout| - 1].width == 64
    ensures Packed(layout, values) < U64_SIZE
  {
    PackBound(layout, values, |layout|);
    Widths();
  }

  function EncodeDva(dva: Option<Dva>): (words: Option<seq<u64>>)
    ensures words.Some? ==> |words.value| == 2
    ensures words.None? <==> dva.Some? && !DvaFits(dva.value)
  {
    match dva
    case None => Some([0, 0])
    case Some(d) =>
      if !DvaFits(d) then None else
        DvaFit(d);
        PackFits(DVA_A, DvaA(d));
        PackFits(DVA_B, DvaB(d));
        Some([Packed(DVA_A, DvaA(d)), Packed(DVA_B, DvaB(d))])
  }

  function DecodeDva(a: u64, b: u64): (r: Option<Option<Dva>>) {
    if a == 0 && b == 0 then Some(None) else
      var d := DvaOf(Fields(a, DVA_A), Fields(b, DVA_B));
      if d.None? then None else Some(d)
  }

  /** Grid and padding bits must be clear. */
  function DvaOf(a: seq<nat>, b: seq<nat>): (r: Option<Dva>)
    requires Fit(DVA_A, a) && Fit(DVA_B, b)
  {
    Widths();
    if a[1] != 0 || a[3] != 0 then None else Some(Dva(a[2], a[0], b[0], b[1] == 1))
  }

  lemma ZeroField(f: FieldAt)
    ensures Field(0, f) == 0
  {
    DivModUnique(0, Pow2(f.at), 0, 0);
    DivModUnique(0, Pow2(f.width), 0, 0);
  }

  lemma DvaRoundTrip(dva: Option<Dva>)
    requires EncodeDva(dva).Some?
    ensures var w := EncodeDva(dva).value; DecodeDva(w[0], w[1]) == Some(dva)
  {
    if dva.Some? {
      var d := dva.value;
      DvaFit(d);
      UnpacksAll(DVA_A, DvaA(d));
      UnpacksAll(DVA_B, DvaB(d));
      Unpacks(DVA_A, DvaA(d), |DVA_A|, 0);
      ZeroField(DVA_A[0]);
    }
  }

  // The flags word

  predicate PropsFit(p: Props) {
    1 <= p.logicalSectors <= 0x1_0000 && 1 <= p.physicalSectors <= 0x1_0000 && p.level < 32
  }

  function FlagValues(p: Props, encrypted: bool): (values: seq<nat>)
    requires PropsFit(p)
  {
    [p.logicalSectors - 1, p.physicalSectors - 1, p.compression, 0, 0, p.checksum, p.dmu, p.level,
     Bit(encrypted), Bit(p.dedup), Bit(p.order == Little)]
  }

  lemma FlagsFit(p: Props, encrypted: bool)
    requires PropsFit(p)
    ensures Disjoint(FLAGS) && Fit(FLAGS, FlagValues(p, encrypted))
  {
    Widths();
  }

  function Flags(p: Props, encrypted: bool): (word: u64)
    requires PropsFit(p)
  {
    FlagsFit(p, encrypted);
    PackFits(FLAGS, FlagValues(p, encrypted));
    Packed(FLAGS, FlagValues(p, encrypted))
  }

  /** The shared fields; none when an enumeration has no such value. */
  function PropsOf(v: seq<nat>): (r: Option<Props>)
    requires Fit(FLAGS, v)
  {
    Widths();
    if !IsDmuType(v[6]) || v[5] > 14 || v[2] > 16 then None else
      Some(Props(v[0] + 1, v[1] + 1, v[2], v[5], v[6], v[7], v[9] == 1, if v[10] == 1 then Little else Big))
  }

  lemma PropsBack(p: Props, encrypted: bool)
    requires PropsFit(p)
    ensures Fit(FLAGS, FlagValues(p, encrypted)) && PropsOf(FlagValues(p, encrypted)) == Some(p)
  {
    FlagsFit(p, encrypted);
  }

  lemma FlagsUnpack(p: Props, encrypted: bool)
    requires PropsFit(p)
    ensures Fields(Flags(p, encrypted), FLAGS) == FlagValues(p, encrypted)
  {
    FlagsFit(p, encrypted);
    UnpacksAll(FLAGS, FlagValues(p, encrypted));
  }

  // Sixteen words

  function EncodeDvas(dvas: seq<Option<Dva>>): (r: Option<seq<u64>>)
    ensures r.Some? ==> |r.value| == 2 * |dvas|
  {
    if dvas == [] then Some([]) else
      var first, rest := EncodeDva(dvas[0]), EncodeDvas(dvas[1..]);
      if first.None? || rest.None? then None else Some(first.value + rest.value)
  }

  function DecodeDvas(words: seq<u64>): (r: Option<seq<Option<Dva>>>)
    ensures r.Some? ==> |r.value| == |words| / 2
  {
    if |words| < 2 then Some([]) else
      var first, rest := DecodeDva(words[0], words[1]), DecodeDvas(words[2..]);
      if first.None? || rest.None? then None else Some([first.value] + rest.value)
  }

  lemma {:induction false} DvasRoundTrip(dvas: seq<Option<Dva>>)
    requires EncodeDvas(dvas).Some?
    ensures DecodeDvas(EncodeDvas(dvas).value) == Some(dvas)
  {
    if dvas == [] {
    } else {
      var first, rest := EncodeDva(dvas[0]).value, EncodeDvas(dvas[1..]).value;
      DvaRoundTrip(dvas[0]);
      DvasRoundTrip(dvas[1..]);
      assert (first + rest)[2..] == rest;
      assert dvas == [dvas[0]] + dvas[1..];
    }
  }

  /** The array lengths of the two kinds of pointer that encode. */
  predicate Shaped(bp: BlockPointer) {
    || (bp.Regular? && |bp.dvas| == 3 && |bp.digest| == 4)
    || (bp.Encrypted? && |bp.dvas| == 2 && |bp.digest| == 2 && |bp.mac| == 2)
  }

  function IvFill(fill: u32, iv: u32): (word: u64) {
    Widths();
    PackFits(IV_FILL, [fill, iv]);
    Packed(IV_FILL, [fill, iv])
  }

  function EncodeWords(bp: BlockPointer): (r: Option<seq<u64>>)
    requires Shaped(bp)
    ensures r.Some? ==> |r.value| == 16
    ensures r.Some? <==> PropsFit(bp.props) && EncodeDvas(bp.dvas).Some?
  {
    var dvas := EncodeDvas(bp.dvas);
    if dvas.None? || !PropsFit(bp.props) then None else
      match bp
      case Regular(props, _, physicalTxg, logicalTxg, fill, digest) =>
        Some(dvas.value + [Flags(props, false), 0, 0, physicalTxg, logicalTxg, fill] + digest)
      case Encrypted(props, _, salt, iv1, iv2, fill32, physicalTxg, logicalTxg, digest, mac) =>
        Some(dvas.value + [salt, iv1, Flags(props, true), 0, 0, physicalTxg, logicalTxg, IvFill(fill32, iv2)]
             + digest + mac)
  }

  function DecodeRegular(w: seq<u64>): (r: Option<BlockPointer>)
    requires |w| == 16
  {
    var dvas, props := DecodeDvas(w[..6]), PropsOf(Fields(w[6], FLAGS));
    if dvas.None? || props.None? || w[7] != 0 || w[8] != 0 then None
    else Some(Regular(props.value, dvas.value, w[9], w[10], w[11], w[12..16]))
  }

  function DecodeEncrypted(w: seq<u64>): (r: Option<BlockPointer>)
    requires |w| == 16
  {
    var dvas, props, iv := DecodeDvas(w[..4]), PropsOf(Fields(w[6], FLAGS)), Fields(w[11], IV_FILL);
    Widths();
    if dvas.None? || props.None? || w[7] != 0 || w[8] != 0 then None
    else Some(Encrypted(props.value, dvas.value, w[4], w[5], iv[1], iv[0], w[9], w[10], w[12..14], w[14..16]))
  }

  predicate IsEmbedded(flags: u64) { Field(flags, FLAGS[4]) == 1 }

  predicate IsEncrypted(flags: u64) { Field(flags, FLAGS[8]) == 1 }

  /** The bits that tell the kinds apart. */
  lemma KindBits(p: Props, encrypted: bool)
    requires PropsFit(p)
    ensures !IsEmbedded(Flags(p, encrypted)) && (IsEncrypted(Flags(p, encrypted)) <==> encrypted)
  {
    FlagsFit(p, encrypted);
    Unpacks(FLAGS, FlagValues(p, encrypted), |FLAGS|, 4);
    Unpacks(FLAGS, FlagValues(p, encrypted), |FLAGS|, 8);
  }

  lemma PropsRoundTrip(p: Props, encrypted: bool)
    requires PropsFit(p)
    ensures PropsOf(Fields(Flags(p, encrypted), FLAGS)) == Some(p)
  {
    FlagsUnpack(p, encrypted);
    PropsBack(p, encrypted);
  }

  lemma RegularAssembled(props: Props, dvas: seq<Option<Dva>>, dw: seq<u64>, flags: u64, pt: u64, lt: u64, fill: u64,
                         digest: seq<u64>)
    requires |dw| == 6 && |digest| == 4 && DecodeDvas(dw) == Some(dvas) && PropsOf(Fields(flags, FLAGS)) == Some(props)
    ensures DecodeRegular(dw + [flags, 0, 0, pt, lt, fill] + digest) == Some(Regular(props, dvas, pt, lt, fill, digest))
  {
    SixSixFour(dw, [flags, 0, 0, pt, lt, fill], digest);
  }

  lemma SixSixFour(a: seq<u64>, b: seq<u64>, c: seq<u64>)
    requires |a| == |b| == 6 && |c| == 4
    ensures var w := a + b + c;
            && w[..6] == a && w[12..16] == c
            && w[6] == b[0] && w[7] == b[1] && w[8] == b[2] && w[9] == b[3] && w[10] == b[4] && w[11] == b[5]
  {
  }

  lemma RegularRoundTrip(bp: BlockPointer)
    requires bp.Regular? && Shaped(bp) && EncodeWords(bp).Some?
    ensures var w := EncodeWords(bp).value;
            DecodeRegular(w) == Some(bp) && w[6] == Flags(bp.props, false)
  {
    DvasRoundTrip(bp.dvas);
    PropsRoundTrip(bp.props, false);
    RegularAssembled(bp.props, bp.dvas, EncodeDvas(bp.dvas).value, Flags(bp.props, false), bp.physicalTxg,
                     bp.logicalTxg, bp.fill, bp.digest);
  }

  lemma EncryptedAssembled(props: Props, dvas: seq<Option<Dva>>, dw: seq<u64>, salt: u64, iv1: u64, flags: u64,
                           pt: u64, lt: u64,
                           ivFill: u64, fill: u32, iv2: u32, digest: seq<u64>, mac: seq<u64>)
    requires |dw| == 4 && |digest| == |mac| == 2
    requires DecodeDvas(dw) == Some(dvas) && PropsOf(Fields(flags, FLAGS)) == Some(props)
    requires Fields(ivFill, IV_FILL) == [fill, iv2]
    ensures DecodeEncrypted(dw + [salt, iv1, flags, 0, 0, pt, lt, ivFill] + digest + mac)
         == Some(Encrypted(props, dvas, salt, iv1, iv2, fill, pt, lt, digest, mac))
  {
    FourEightTwoTwo(dw, [salt, iv1, flags, 0, 0, pt, lt, ivFill], digest, mac);
  }

  lemma FourEightTwoTwo(a: seq<u64>, b: seq<u64>, c: seq<u64>, d: seq<u64>)
    requires |a| == 4 && |b| == 8 && |c| == |d| == 2
    ensures var w := a + b + c + d;
            && w[..4] == a && w[12..14] == c && w[14..16] == d
            && w[4] == b[0] && w[5] == b[1] && w[6] == b[2] && w[7] == b[3] && w[8] == b[4] && w[9] == b[5]
            && w[10] == b[6] && w[11] == b[7]
  {
  }

  lemma EncryptedRoundTrip(bp: BlockPointer)
    requires bp.Encrypted? && Shaped(bp) && EncodeWords(bp).Some?
    ensures var w := EncodeWords(bp).value;
            DecodeEncrypted(w) == Some(bp) && w[6] == Flags(bp.props, true)
  {
    DvasRoundTrip(bp.dvas);
    PropsRoundTrip(bp.props, true);
    IvFillBack(bp.fill32, bp.iv2);
    EncryptedAssembled(bp.props, bp.dvas, EncodeDvas(bp.dvas).value, bp.salt, bp.iv1, Flags(bp.props, true),
                       bp.physicalTxg, bp.logicalTxg, IvFill(bp.fill32, bp.iv2), bp.fill32, bp.iv2, bp.digest, bp.mac);
  }

  lemma IvFillBack(fill: u32, iv: u32)
    ensures Fields(IvFill(fill, iv), IV_FILL) == [fill, iv]
  {
    Widths();
    UnpacksAll(IV_FILL, [fill, iv]);
  }

  // A hundred and twenty-eight bytes

  function Flat(order: Order, words: seq<u64>): (s: seq<byte>)
    ensures |s| == 8 * |words|
  {
    if words == [] then [] else Bytes(order, words[0], 8) + Flat(order, words[1..])
  }

  function Words(order: Order, s: seq<byte>): (words: seq<u64>)
    ensures |words| == |s| / 8
  {
    if |s| < 8 then [] else
      Widths();
      [Value(order, s[..8])] + Words(order, s[8..])
  }

  lemma {:induction false} WordsOfFlat(order: Order, words: seq<u64>)
    ensures Words(order, Flat(order, words)) == words
  {
    if words == [] {
    } else {
      var first, rest := Bytes(order, words[0], 8), Flat(order, words[1..]);
      assert (first + rest)[..8] == first && (first + rest)[8..] == rest;
      Widths();
      ValueOfBytes(order, words[0], 8);
      WordsOfFlat(order, words[1..]);
    }
  }

  lemma {:induction false} ZeroBytes(order: Order, v: nat, n: nat)
    requires v < Pow2(8 * n)
    ensures AllZero(Bytes(order, v, n)) <==> v == 0
    decreases n
  {
    if n == 0 {
    } else {
      Shift8(n - 1);
      ZeroBytes(order, v / 0x100, n - 1);
      var rest := Bytes(order, v / 0x100, n - 1);
      ZeroOne(v % 0x100);
      if order == Big {
        ZeroConcat(rest, [v % 0x100]);
      } else {
        ZeroConcat([v % 0x100], rest);
      }
    }
  }

  lemma ZeroOne(b: byte)
    ensures AllZero([b]) <==> b == 0
  {
    if AllZero([b]) {
      assert [b][0] == 0;
    }
  }

  lemma ZeroConcat(a: seq<byte>, b: seq<byte>)
    ensures AllZero(a + b) <==> AllZero(a) && AllZero(b)
  {
    if AllZero(a + b) {
      forall i | 0 <= i < |a| ensures a[i] == 0 { assert (a + b)[i] == 0; }
      forall i | 0 <= i < |b| ensures b[i] == 0 { assert (a + b)[|a| + i] == 0; }
    }
  }

  lemma {:induction false} ZeroFlat(order: Order, words: seq<u64>)
    ensures AllZero(Flat(order, words)) <==> forall i :: 0 <= i < |words| ==> words[i] == 0
  {
    if words == [] {
    } else {
      Widths();
      ZeroBytes(order, words[0], 8);
      ZeroConcat(Bytes(order, words[0], 8), Flat(order, words[1..]));
      ZeroFlat(order, words[1..]);
      assert words == [words[0]] + words[1..];
    }
  }

  // The other way round: words that encode again to themselves

  lemma DvaBack(a: u64, b: u64)
    requires DecodeDva(a, b).Some?
    ensures var dva := DecodeDva(a, b).value;
            EncodeDva(dva) == Some([a, b]) <==> (dva.Some? ==> dva.value.asize != 0)
  {
    var dva := DecodeDva(a, b).value;
    if dva.Some? {
      var d, va, vb := dva.value, Fields(a, DVA_A), Fields(b, DVA_B);
      Widths();
      assert DvaA(d) == va && DvaB(d) == vb;
      RepacksAll(DVA_A, a);
      RepacksAll(DVA_B, b);
    }
  }

  predicate NoEmptyDva(dvas: seq<Option<Dva>>) {
    forall i :: 0 <= i < |dvas| && dvas[i].Some? ==> dvas[i].value.asize != 0
  }

  lemma {:induction false} DvasBack(words: seq<u64>)
    requires |words| % 2 == 0 && DecodeDvas(words).Some?
    ensures EncodeDvas(DecodeDvas(words).value) == Some(words) <==> NoEmptyDva(DecodeDvas(words).value)
    decreases |words|
  {
    hide EncodeDva, DecodeDva;
    if words == [] {
    } else {
      var dvas, a, b, rest := DecodeDvas(words).value, words[0], words[1], words[2..];
      DvaBack(a, b);
      DvasBack(rest);
      assert words == [a, b] + rest;
      assert dvas == [dvas[0]] + dvas[1..];
      assert NoEmptyDva(dvas) <==> NoEmptyDva([dvas[0]]) && NoEmptyDva(dvas[1..]);
      if EncodeDvas(dvas) == Some(words) {
        assert EncodeDva(dvas[0]).value == words[..2] && EncodeDvas(dvas[1..]).value == words[2..];
      }
    }
  }

  /** The bits no field of the pointer uses. */
  const UNUSED := FLAGS[3]

  lemma ValuesBack(v: seq<nat>, x: bool)
    requires Fit(FLAGS, v) && PropsOf(v).Some? && v[4] == 0 && x == (v[8] == 1)
    ensures PropsFit(PropsOf(v).value) && FlagValues(PropsOf(v).value, x) == v[3 := 0]
  {
    Widths();
  }

  lemma FlagsRepack(flags: u64)
    ensures Packed(FLAGS, Fields(flags, FLAGS)) == flags
  {
    Widths();
    RepacksAll(FLAGS, flags);
  }

  lemma FlagsBack(flags: u64)
    requires PropsOf(Fields(flags, FLAGS)).Some? && !IsEmbedded(flags)
    ensures var p := PropsOf(Fields(flags, FLAGS)).value;
            PropsFit(p) && (Flags(p, IsEncrypted(flags)) == flags <==> Field(flags, UNUSED) == 0)
  {
    Widths();
    hide PropsOf, FlagValues, PropsFit, Pow2, Packed;
    var v := Fields(flags, FLAGS);
    var p, x := PropsOf(v).value, IsEncrypted(flags);
    assert v[4] == Field(flags, FLAGS[4]) && v[4] < Pow2(1);
    ValuesBack(v, x);
    FlagsRepack(flags);
    FlagsUnpack(p, x);
    if v[3] == 0 {
      assert v[3 := 0] == v;
    }
  }

  lemma IvFillPacked(word: u64)
    ensures var v := Fields(word, IV_FILL);
            v[0] < U32_SIZE && v[1] < U32_SIZE && IvFill(v[0], v[1]) == word
  {
    Widths();
    RepacksAll(IV_FILL, word);
    var v := Fields(word, IV_FILL);
    assert v == [v[0], v[1]];
  }

  lemma RegularBack(w: seq<u64>)
    requires |w| == 16 && !IsEmbedded(w[6]) && !IsEncrypted(w[6]) && DecodeRegular(w).Some?
    ensures var bp := DecodeRegular(w).value;
            Shaped(bp) && (EncodeWords(bp) == Some(w) <==> Field(w[6], UNUSED) == 0 && NoEmptyDva(bp.dvas))
  {
    hide EncodeDvas, DecodeDvas, Flags, PropsOf;
    var bp := DecodeRegular(w).value;
    var mid := [w[6], 0, 0, w[9], w[10], w[11]];
    assert w == w[..6] + mid + w[12..16];
    DvasBack(w[..6]);
    FlagsBack(w[6]);
    if EncodeWords(bp) == Some(w) {
      SixSixFour(EncodeDvas(bp.dvas).value, [Flags(bp.props, false), 0, 0, w[9], w[10], w[11]], w[12..16]);
    }
  }

  lemma EncryptedBack(w: seq<u64>)
    requires |w| == 16 && !IsEmbedded(w[6]) && IsEncrypted(w[6]) && DecodeEncrypted(w).Some?
    ensures var bp := DecodeEncrypted(w).value;
            Shaped(bp) && (EncodeWords(bp) == Some(w) <==> Field(w[6], UNUSED) == 0 && NoEmptyDva(bp.dvas))
  {
    hide EncodeDvas, DecodeDvas, Flags, PropsOf, IvFill;
    var bp := DecodeEncrypted(w).value;
    var mid := [w[4], w[5], w[6], 0, 0, w[9], w[10], w[11]];
    assert w == w[..4] + mid + w[12..14] + w[14..16];
    DvasBack(w[..4]);
    FlagsBack(w[6]);
    IvFillPacked(w[11]);
    if EncodeWords(bp) == Some(w) {
      FourEightTwoTwo(EncodeDvas(bp.dvas).value,
                      [w[4], w[5], Flags(bp.props, true), 0, 0, w[9], w[10], w[11]], w[12..14], w[14..16]);
    }
  }

  lemma {:induction false} FlatOfWords(order: Order, s: seq<byte>)
    requires |s| % 8 == 0
    ensures Flat(order, Words(order, s)) == s
    decreases |s|
  {
    if s == [] {
    } else {
      Widths();
      BytesOfValue(order, s[..8]);
      FlatOfWords(order, s[8..]);
      assert Words(order, s)[1..] == Words(order, s[8..]);
      assert s == s[..8] + s[8..];
    }
  }
}
