/** What the 128 bytes of a block pointer mean, as quotients and remainders of their
  * words (src/phys/block_pointer.rs, src/phys/dva.rs). */
module PointerFormat {
  import opened Base
  import opened BitOps
  import opened BitFields
  import opened Endian
  import opened Cursors
  import opened BlockPointers
  import opened PointerCodec
  import opened PointerBytes

  /** Eight bytes to a word. */
  function WordAt(order: Order, s: seq<byte>, i: nat): (v: nat)
    requires 8 * i + 8 <= |s|
  {
    Value(order, s[8 * i..8 * i + 8])
  }

  lemma {:induction false} WordsAre(order: Order, s: seq<byte>, i: nat)
    requires 8 * i + 8 <= |s|
    ensures i < |Words(order, s)| && Words(order, s)[i] == WordAt(order, s, i)
    decreases i
  {
    hide Value;
    if i == 0 {
    } else {
      var rest := s[8..];
      WordsAre(order, rest, i - 1);
      assert rest[8 * (i - 1)..8 * (i - 1) + 8] == s[8 * i..8 * i + 8];
    }
  }

  lemma Powers()
    ensures Pow2(0) == 1 && Pow2(1) == 2 && Pow2(5) == 32 && Pow2(7) == 128 && Pow2(8) == 256 && Pow2(16) == 0x1_0000
    ensures Pow2(24) == 0x100_0000 && Pow2(25) == 0x200_0000 && Pow2(32) == 0x1_0000_0000
    ensures Pow2(39) == 0x80_0000_0000 && Pow2(40) == 0x100_0000_0000 && Pow2(48) == 0x1_0000_0000_0000
    ensures Pow2(56) == 0x100_0000_0000_0000 && Pow2(61) == 0x2000_0000_0000_0000
    ensures Pow2(62) == 0x4000_0000_0000_0000 && Pow2(63) == 0x8000_0000_0000_0000
  {
    Widths();
    Pow2Bytes();
    assert Pow2(25) == 2 * Pow2(24);
    Pow2Add(7, 32);
    Pow2Add(8, 32);
    Pow2Add(16, 32);
    Pow2Add(24, 32);
    Pow2Add(5, 56);
    assert Pow2(62) == 2 * Pow2(61);
  }

  // Flags

  lemma FlagFields(f: nat)
    ensures var v := Fields(f, FLAGS);
            && |v| == 11
            && v[0] == f % 0x1_0000 && v[1] == f / 0x1_0000 % 0x1_0000 && v[2] == f / 0x1_0000_0000 % 32
            && v[4] == f / 0x80_0000_0000 % 2 && v[5] == f / 0x100_0000_0000 % 256
            && v[6] == f / 0x1_0000_0000_0000 % 256 && v[7] == f / 0x100_0000_0000_0000 % 32
            && v[8] == f / 0x2000_0000_0000_0000 % 2 && v[9] == f / 0x4000_0000_0000_0000 % 2
            && v[10] == f / 0x8000_0000_0000_0000 % 2
  {
    hide Pow2;
    Powers();
  }

  /** Bit 39 marks an embedded pointer, bit 61 an encrypted one. */
  lemma Kinds(f: u64)
    ensures IsEmbedded(f) <==> f / 0x80_0000_0000 % 2 == 1
    ensures IsEncrypted(f) <==> f / 0x2000_0000_0000_0000 % 2 == 1
  {
    hide Pow2;
    Powers();
  }

  /** Object types: the first 54, and from 128 on the first five of each 32. */
  lemma TypesAre(t: byte)
    ensures IsDmuType(t) <==> t <= 53 || (t >= 128 && t % 32 <= 4)
  {
  }

  /** Type, checksum and compression that there are. */
  predicate Known(f: nat) {
    var t := f / 0x1_0000_0000_0000 % 256;
    && (t <= 53 || (t >= 128 && t % 32 <= 4))
    && f / 0x100_0000_0000 % 256 <= 14 && f / 0x1_0000_0000 % 32 <= 16
  }

  predicate AreProps(f: nat, p: Props) {
    && p.logicalSectors == f % 0x1_0000 + 1 && p.physicalSectors == f / 0x1_0000 % 0x1_0000 + 1
    && p.compression == f / 0x1_0000_0000 % 32 && p.checksum == f / 0x100_0000_0000 % 256
    && p.dmu == f / 0x1_0000_0000_0000 % 256 && p.level == f / 0x100_0000_0000_0000 % 32
    && (p.dedup <==> f / 0x4000_0000_0000_0000 % 2 == 1)
    && (p.order == Little <==> f / 0x8000_0000_0000_0000 % 2 == 1)
  }

  lemma PropsAre(f: u64)
    ensures var r := PropsOf(Fields(f, FLAGS)); (r.Some? <==> Known(f)) && (r.Some? ==> AreProps(f, r.value))
  {
    hide Fields;
    FlagFields(f);
    TypesAre(Fields(f, FLAGS)[6]);
  }

  // Addresses

  /** Grid and padding are clear. */
  predicate Clear(a: nat) {
    a / 0x100_0000 % 256 == 0 && a / 0x100_0000_0000_0000 % 256 == 0
  }

  predicate IsDva(a: nat, b: nat, dva: Option<Dva>) {
    if a == 0 && b == 0 then dva == None else
      && dva.Some?
      && dva.value.asize == a % 0x100_0000 && dva.value.vdev == a / 0x1_0000_0000 % 0x100_0000
      && dva.value.offset == b % 0x8000_0000_0000_0000
      && (dva.value.gang <==> b / 0x8000_0000_0000_0000 % 2 == 1)
  }

  lemma DvaFields(a: nat, b: nat)
    ensures var v := Fields(a, DVA_A);
            && |v| == 4 && v[0] == a % 0x100_0000 && v[1] == a / 0x100_0000 % 256
            && v[2] == a / 0x1_0000_0000 % 0x100_0000 && v[3] == a / 0x100_0000_0000_0000 % 256
    ensures var v := Fields(b, DVA_B);
            && |v| == 2 && v[0] == b % 0x8000_0000_0000_0000 && v[1] == b / 0x8000_0000_0000_0000 % 2
  {
    hide Pow2;
    Powers();
  }

  lemma ZeroIsClear()
    ensures Clear(0)
  {
  }

  lemma DvaIs(a: u64, b: u64)
    ensures DecodeDva(a, b).Some? <==> Clear(a)
    ensures DecodeDva(a, b).Some? ==> IsDva(a, b, DecodeDva(a, b).value)
  {
    hide Fields;
    DvaFields(a, b);
    ZeroIsClear();
  }

  lemma {:induction false} DvasAre(w: seq<u64>, k: nat)
    requires 2 * k + 2 <= |w|
    ensures DecodeDvas(w).Some? ==> k < |DecodeDvas(w).value| && IsDva(w[2 * k], w[2 * k + 1], DecodeDvas(w).value[k])
    ensures DecodeDvas(w).Some? ==> Clear(w[2 * k])
    decreases k
  {
    hide DecodeDva, IsDva, Clear;
    DvaIs(w[0], w[1]);
    ZeroIsClear();
    if k == 0 {
    } else {
      DvasAre(w[2..], k - 1);
      assert w[2..][2 * (k - 1)] == w[2 * k] && w[2..][2 * (k - 1) + 1] == w[2 * k + 1];
    }
  }

  lemma {:induction false} DvasDecode(w: seq<u64>)
    requires |w| % 2 == 0 && forall k :: 0 <= k < |w| && k % 2 == 0 ==> Clear(w[k])
    ensures DecodeDvas(w).Some?
    decreases |w|
  {
    hide Clear, DecodeDva;
    if |w| < 2 {
    } else {
      DvaIs(w[0], w[1]);
      assert Clear(w[0]);
      forall k | 0 <= k < |w[2..]| && k % 2 == 0
        ensures Clear(w[2..][k])
      {
        assert w[2..][k] == w[k + 2] && (k + 2) % 2 == 0;
      }
      DvasDecode(w[2..]);
    }
  }

  // Sixteen words

  lemma RegularWords(w: seq<u64>)
    requires |w| == 16
    ensures DecodeRegular(w).Some? <==> && Known(w[6]) && w[7] == 0 && w[8] == 0
                                        && Clear(w[0]) && Clear(w[2]) && Clear(w[4])
    ensures DecodeRegular(w).Some? ==>
              var bp := DecodeRegular(w).value;
              && bp.Regular? && AreProps(w[6], bp.props) && |bp.dvas| == 3
              && IsDva(w[0], w[1], bp.dvas[0]) && IsDva(w[2], w[3], bp.dvas[1]) && IsDva(w[4], w[5], bp.dvas[2])
              && bp.physicalTxg == w[9] && bp.logicalTxg == w[10] && bp.fill == w[11]
              && bp.digest == [w[12], w[13], w[14], w[15]]
  {
    hide Known, AreProps, Clear, IsDva, DecodeDvas, PropsOf, Fields;
    var dvas := w[..6];
    PropsAre(w[6]);
    DvasAre(dvas, 0);
    DvasAre(dvas, 1);
    DvasAre(dvas, 2);
    if Clear(w[0]) && Clear(w[2]) && Clear(w[4]) {
      DvasDecode(dvas);
    }
  }

  lemma EncryptedWords(w: seq<u64>)
    requires |w| == 16
    ensures DecodeEncrypted(w).Some? <==> Known(w[6]) && w[7] == 0 && w[8] == 0 && Clear(w[0]) && Clear(w[2])
    ensures DecodeEncrypted(w).Some? ==>
              var bp := DecodeEncrypted(w).value;
              && bp.Encrypted? && AreProps(w[6], bp.props) && |bp.dvas| == 2
              && IsDva(w[0], w[1], bp.dvas[0]) && IsDva(w[2], w[3], bp.dvas[1])
              && bp.salt == w[4] && bp.iv1 == w[5]
              && bp.iv2 == w[11] / 0x1_0000_0000 % 0x1_0000_0000 && bp.fill32 == w[11] % 0x1_0000_0000
              && bp.physicalTxg == w[9] && bp.logicalTxg == w[10]
              && bp.digest == [w[12], w[13]] && bp.mac == [w[14], w[15]]
  {
    hide Known, AreProps, Clear, IsDva, DecodeDvas, PropsOf, Fields;
    var dvas := w[..4];
    PropsAre(w[6]);
    IvFields(w[11]);
    DvasAre(dvas, 0);
    DvasAre(dvas, 1);
    if Clear(w[0]) && Clear(w[2]) {
      DvasDecode(dvas);
    }
  }

  lemma IvFields(f: nat)
    ensures var v := Fields(f, IV_FILL);
            |v| == 2 && v[0] == f % 0x1_0000_0000 && v[1] == f / 0x1_0000_0000 % 0x1_0000_0000
  {
    hide Pow2;
    Powers();
  }

  // The bytes

  /** Main result: which bytes are a regular pointer, and which. */
  lemma RegularIs(order: Order, s: seq<byte>)
    requires |s| == 128
    ensures var r, f := Decode(order, s), WordAt(order, s, 6);
            var regular := r.Some? && r.value.Some? && r.value.value.Regular?;
            && (regular <==> && !AllZero(s) && f / 0x80_0000_0000 % 2 == 0 && f / 0x2000_0000_0000_0000 % 2 == 0
                             && Known(f) && WordAt(order, s, 7) == 0 && WordAt(order, s, 8) == 0
                             && Clear(WordAt(order, s, 0)) && Clear(WordAt(order, s, 2)) && Clear(WordAt(order, s, 4)))
            && (regular ==>
                  var bp := r.value.value;
                  && AreProps(f, bp.props) && |bp.dvas| == 3
                  && (forall k :: 0 <= k < 3 ==>
                        IsDva(WordAt(order, s, 2 * k), WordAt(order, s, 2 * k + 1), bp.dvas[k]))
                  && bp.physicalTxg == WordAt(order, s, 9) && bp.logicalTxg == WordAt(order, s, 10)
                  && bp.fill == WordAt(order, s, 11)
                  && bp.digest == [WordAt(order, s, 12), WordAt(order, s, 13),
                                   WordAt(order, s, 14), WordAt(order, s, 15)])
  {
    hide Known, AreProps, Clear, IsDva, Words, WordAt, AllZero, DecodeRegular, DecodeEncrypted, DecodeEmbedded;
    Kinds(Words(order, s)[6]);
    SixteenWords(order, s);
    RegularWords(Words(order, s));
    EncryptedWords(Words(order, s));
    EmbeddedKind(order, s);
  }

  lemma SixteenWords(order: Order, s: seq<byte>)
    requires |s| == 128
    ensures |Words(order, s)| == 16
    ensures forall i {:trigger Words(order, s)[i]} :: 0 <= i < 16 ==> Words(order, s)[i] == WordAt(order, s, i)
  {
    hide WordAt;
    forall i | 0 <= i < 16
      ensures Words(order, s)[i] == WordAt(order, s, i)
    {
      WordsAre(order, s, i);
    }
  }

  lemma EmbeddedKind(order: Order, s: seq<byte>)
    requires |s| == 128
    ensures DecodeEmbedded(order, s).Some? ==> DecodeEmbedded(order, s).value.Embedded?
  {
    hide Words, Fields;
  }

  /** The same for an encrypted pointer. */
  lemma EncryptedIs(order: Order, s: seq<byte>)
    requires |s| == 128
    ensures var r, f := Decode(order, s), WordAt(order, s, 6);
            var encrypted := r.Some? && r.value.Some? && r.value.value.Encrypted?;
            && (encrypted <==> && !AllZero(s) && f / 0x80_0000_0000 % 2 == 0 && f / 0x2000_0000_0000_0000 % 2 == 1
                               && Known(f) && WordAt(order, s, 7) == 0 && WordAt(order, s, 8) == 0
                               && Clear(WordAt(order, s, 0)) && Clear(WordAt(order, s, 2)))
            && (encrypted ==>
                  var bp, w11 := r.value.value, WordAt(order, s, 11);
                  && AreProps(f, bp.props) && |bp.dvas| == 2
                  && (forall k :: 0 <= k < 2 ==>
                        IsDva(WordAt(order, s, 2 * k), WordAt(order, s, 2 * k + 1), bp.dvas[k]))
                  && bp.salt == WordAt(order, s, 4) && bp.iv1 == WordAt(order, s, 5)
                  && bp.iv2 == w11 / 0x1_0000_0000 % 0x1_0000_0000 && bp.fill32 == w11 % 0x1_0000_0000
                  && bp.physicalTxg == WordAt(order, s, 9) && bp.logicalTxg == WordAt(order, s, 10)
                  && bp.digest == [WordAt(order, s, 12), WordAt(order, s, 13)]
                  && bp.mac == [WordAt(order, s, 14), WordAt(order, s, 15)])
  {
    hide Known, AreProps, Clear, IsDva, Words, WordAt, AllZero, DecodeRegular, DecodeEncrypted, DecodeEmbedded;
    Kinds(Words(order, s)[6]);
    SixteenWords(order, s);
    RegularWords(Words(order, s));
    EncryptedWords(Words(order, s));
    EmbeddedKind(order, s);
  }

  lemma EmbeddedFields(f: nat)
    ensures var v := Fields(f, EMBEDDED_SIZES);
            |v| == 2 && v[0] == f % 0x200_0000 && v[1] == f / 0x200_0000 % 128
  {
    hide Pow2;
    Powers();
  }

  /** Byte `i` of the payload goes around the flags word and the birth word. */
  function PayloadAt(s: seq<byte>, i: nat): (b: byte)
    requires |s| == 128 && i < 112
  {
    if i < 48 then s[i] else if i < 72 then s[i + 8] else s[i + 16]
  }

  lemma EmbeddedBytes(order: Order, s: seq<byte>)
    requires |s| == 128
    ensures var r, f := DecodeEmbedded(order, s), Words(order, s)[6];
            var t := f / 0x1_0000_0000_0000 % 256;
            && (r.Some? <==> && f / 0x4000_0000_0000_0000 % 2 == 0 && (t <= 53 || (t >= 128 && t % 32 <= 4))
                             && f / 0x100_0000_0000 % 256 <= 2 && f / 0x1_0000_0000 % 32 <= 16
                             && f / 0x200_0000 % 128 + 1 <= 112)
            && (r.Some? ==>
                  var bp := r.value;
                  && bp.Embedded? && bp.compression == f / 0x1_0000_0000 % 32
                  && bp.logicalSize == f % 0x200_0000 + 1 && bp.physicalSize == f / 0x200_0000 % 128 + 1
                  && |bp.payload| == 112 && forall i :: 0 <= i < 112 ==> bp.payload[i] == PayloadAt(s, i))
  {
    hide Words, Fields;
    var f := Words(order, s)[6];
    FlagFields(f);
    EmbeddedFields(f);
    TypesAre(Fields(f, FLAGS)[6]);
  }

  /** And for an embedded pointer: sizes are stored less one. */
  lemma EmbeddedIs(order: Order, s: seq<byte>)
    requires |s| == 128
    ensures var r, f := Decode(order, s), WordAt(order, s, 6);
            var embedded, t := r.Some? && r.value.Some? && r.value.value.Embedded?, f / 0x1_0000_0000_0000 % 256;
            && (embedded <==> && !AllZero(s) && f / 0x80_0000_0000 % 2 == 1 && f / 0x2000_0000_0000_0000 % 2 == 0
                              && f / 0x4000_0000_0000_0000 % 2 == 0 && (t <= 53 || (t >= 128 && t % 32 <= 4))
                              && f / 0x100_0000_0000 % 256 <= 2 && f / 0x1_0000_0000 % 32 <= 16
                              && f / 0x200_0000 % 128 + 1 <= 112)
            && (embedded ==>
                  var bp := r.value.value;
                  && bp.compression == f / 0x1_0000_0000 % 32
                  && bp.logicalSize == f % 0x200_0000 + 1 && bp.physicalSize == f / 0x200_0000 % 128 + 1
                  && |bp.payload| == 112 && forall i :: 0 <= i < 112 ==> bp.payload[i] == PayloadAt(s, i))
  {
    hide Words, WordAt, AllZero, DecodeRegular, DecodeEncrypted, DecodeEmbedded, PayloadAt;
    Kinds(Words(order, s)[6]);
    SixteenWords(order, s);
    RegularWords(Words(order, s));
    EncryptedWords(Words(order, s));
    EmbeddedBytes(order, s);
  }
}
