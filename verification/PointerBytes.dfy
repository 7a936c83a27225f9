/** A block pointer as 128 bytes in either byte order (src/phys/block_pointer.rs). */
module PointerBytes {
  import opened Base
  import opened BitFields
  import opened Endian
  import opened Cursors
  import opened BlockPointers
  import opened PointerCodec

  const EMBEDDED_SIZES := [FieldAt(0, 25), FieldAt(25, 7)]
  const PAYLOAD_SIZE := 112

  /** The payload fills what is left around the flags and the birth group. */
  function DecodeEmbedded(order: Order, s: seq<byte>): (r: Option<BlockPointer>)
    requires |s| == POINTER_SIZE
  {
    var flags := Words(order, s)[6];
    var v, sizes := Fields(flags, FLAGS), Fields(flags, EMBEDDED_SIZES);
    if v[9] == 1 || !IsDmuType(v[6]) || v[5] > 2 || v[2] > 16 || sizes[1] + 1 > PAYLOAD_SIZE then None
    else Some(Embedded(v[2], sizes[0] + 1, sizes[1] + 1, s[..48] + s[56..80] + s[88..]))
  }

  /** The pointer, a hole when all is zero, or nothing when the bytes are no pointer. */
  function Decode(order: Order, s: seq<byte>): (r: Option<Option<BlockPointer>>)
    requires |s| == POINTER_SIZE
  {
    if AllZero(s) then Some(None) else
      var words := Words(order, s);
      var flags := words[6];
      var bp := if IsEmbedded(flags) && IsEncrypted(flags) then None
                else if IsEmbedded(flags) then DecodeEmbedded(order, s)
                else if IsEncrypted(flags) then DecodeEncrypted(words)
                else DecodeRegular(words);
      if bp.None? then None else Some(bp)
  }

  /** An embedded pointer begins with a variable-length byte string, which the encoders
    * of either order refuse. */
  function Encode(order: Order, bp: Option<BlockPointer>): (r: Option<seq<byte>>)
    requires bp.Some? ==> Shaped(bp.value) || bp.value.Embedded?
    ensures r.Some? ==> |r.value| == POINTER_SIZE
  {
    match bp
    case None => Some(Zeros(POINTER_SIZE))
    case Some(p) =>
      if p.Embedded? || EncodeWords(p).None? then None else Some(Flat(order, EncodeWords(p).value))
  }

  /** The one regular pointer whose every word is zero. */
  const ZERO_POINTER := Regular(Props(1, 1, 0, 0, 0, 0, false, Big), [None, None, None], 0, 0, 0, [0, 0, 0, 0])

  lemma ZeroProps(p: Props)
    requires PropsFit(p)
    ensures Flags(p, false) == 0 <==> p == Props(1, 1, 0, 0, 0, 0, false, Big)
  {
    if Flags(p, false) == 0 {
      FlagsUnpack(p, false);
      ZeroFields();
      NoFlags(p);
    } else if p == Props(1, 1, 0, 0, 0, 0, false, Big) {
      PackZeros(FLAGS, FlagValues(p, false), |FLAGS|);
      assert false;
    }
  }

  lemma NoFlags(p: Props)
    requires PropsFit(p) && FlagValues(p, false) == [0, 0, 0, 0, 0, 0, 0, 0, 0, 0, 0]
    ensures p == Props(1, 1, 0, 0, 0, 0, false, Big)
  {
    var v := FlagValues(p, false);
    assert v[0] == 0 && v[1] == 0 && v[2] == 0 && v[5] == 0 && v[6] == 0 && v[7] == 0 && v[9] == 0 && v[10] == 0;
  }

  lemma ZeroFields()
    ensures Fields(0, FLAGS) == [0, 0, 0, 0, 0, 0, 0, 0, 0, 0, 0]
  {
    forall i | 0 <= i < |FLAGS|
      ensures Fields(0, FLAGS)[i] == 0
    {
      ZeroField(FLAGS[i]);
    }
  }

  lemma {:induction false} PackZeros(layout: seq<FieldAt>, values: seq<nat>, n: nat)
    requires n <= |layout| == |values| && forall i :: 0 <= i < |values| ==> values[i] == 0
    ensures Pack(layout, values, n) == 0
  {
    if n == 0 {
    } else {
      PackZeros(layout, values, n - 1);
    }
  }

  lemma ZeroDva(dva: Option<Dva>)
    requires EncodeDva(dva).Some?
    ensures EncodeDva(dva).value == [0, 0] <==> dva == None
  {
    DvaRoundTrip(dva);
  }

  lemma {:induction false} ZeroDvas(dvas: seq<Option<Dva>>)
    requires EncodeDvas(dvas).Some?
    ensures (forall i :: 0 <= i < |EncodeDvas(dvas).value| ==> EncodeDvas(dvas).value[i] == 0)
            <==> forall i :: 0 <= i < |dvas| ==> dvas[i] == None
  {
    if dvas == [] {
    } else {
      var first, rest := EncodeDva(dvas[0]).value, EncodeDvas(dvas[1..]).value;
      ZeroDva(dvas[0]);
      ZeroDvas(dvas[1..]);
      var all := first + rest;
      if forall i :: 0 <= i < |all| ==> all[i] == 0 {
        assert all[0] == 0 && all[1] == 0;
        assert first == [0, 0];
        forall i | 0 <= i < |rest| ensures rest[i] == 0 { assert all[2 + i] == 0; }
        forall i | 0 <= i < |dvas| ensures dvas[i] == None { if i > 0 { assert dvas[1..][i - 1] == None; } }
      }
      if forall i :: 0 <= i < |dvas| ==> dvas[i] == None {
        assert dvas[0] == None;
        forall i | 0 <= i < |dvas[1..]| ensures dvas[1..][i] == None { assert dvas[i + 1] == None; }
      }
    }
  }

  predicate ZeroWords(words: seq<u64>) {
    forall i :: 0 <= i < |words| ==> words[i] == 0
  }

  lemma ZeroWordsConcat(a: seq<u64>, b: seq<u64>)
    ensures ZeroWords(a + b) <==> ZeroWords(a) && ZeroWords(b)
  {
    if ZeroWords(a + b) {
      forall i | 0 <= i < |a| ensures a[i] == 0 { assert (a + b)[i] == 0; }
      forall i | 0 <= i < |b| ensures b[i] == 0 { assert (a + b)[|a| + i] == 0; }
    }
  }

  lemma ZeroSix(a: u64, b: u64, c: u64, d: u64, e: u64, f: u64)
    ensures ZeroWords([a, b, c, d, e, f]) <==> a == 0 && b == 0 && c == 0 && d == 0 && e == 0 && f == 0
  {
    var w := [a, b, c, d, e, f];
    if ZeroWords(w) {
      assert w[0] == 0 && w[1] == 0 && w[2] == 0 && w[3] == 0 && w[4] == 0 && w[5] == 0;
    }
  }

  lemma ZeroRegular(bp: BlockPointer)
    requires bp.Regular? && Shaped(bp) && EncodeWords(bp).Some?
    ensures ZeroWords(EncodeWords(bp).value) <==> bp == ZERO_POINTER
  {
    var dw, flags := EncodeDvas(bp.dvas).value, Flags(bp.props, false);
    var mid := [flags, 0, 0, bp.physicalTxg, bp.logicalTxg, bp.fill];
    ZeroWordsConcat(dw + mid, bp.digest);
    ZeroWordsConcat(dw, mid);
    ZeroSix(flags, 0, 0, bp.physicalTxg, bp.logicalTxg, bp.fill);
    ZeroDvas(bp.dvas);
    ZeroProps(bp.props);
    if ZeroWords(EncodeWords(bp).value) {
      assert bp.dvas == [None, None, None] && bp.digest == [0, 0, 0, 0];
    }
  }

  /** Main result: every regular or encrypted pointer that encodes is 128 bytes and
    * decodes to itself in either order, but for the one that encodes to zeros, which
    * decodes as a hole. */
  lemma RoundTrip(order: Order, bp: BlockPointer)
    requires Shaped(bp) && EncodeWords(bp).Some?
    ensures Decode(order, Encode(order, Some(bp)).value) == Some(if bp == ZERO_POINTER then None else Some(bp))
  {
    hide DecodeRegular, DecodeEncrypted, DecodeEmbedded, EncodeWords, Flags, Words, Flat, Field;
    var w := EncodeWords(bp).value;
    WordsOfFlat(order, w);
    ZeroFlat(order, w);
    KindBits(bp.props, bp.Encrypted?);
    if bp.Regular? {
      ZeroRegular(bp);
      RegularRoundTrip(bp);
    } else {
      EncryptedRoundTrip(bp);
      ZeroField(FLAGS[8]);
      assert w[6] != 0;
    }
  }

  /** The converse: bytes that decode encode again to themselves when they are a hole,
    * never when they are an embedded pointer, and for the other pointers exactly when the
    * two unused flag bits are clear and no address is of size 0. */
  lemma ReEncodes(order: Order, s: seq<byte>)
    requires |s| == POINTER_SIZE && Decode(order, s).Some?
    ensures match Decode(order, s).value
            case None => Encode(order, None) == Some(s)
            case Some(bp) =>
              && (bp.Embedded? || Shaped(bp))
              && (Encode(order, Some(bp)) == Some(s)
                  <==> !bp.Embedded? && Field(Words(order, s)[6], UNUSED) == 0 && NoEmptyDva(bp.dvas))
  {
    hide DecodeRegular, DecodeEncrypted, EncodeWords, Words, Flat, Field;
    var w := Words(order, s);
    FlatOfWords(order, s);
    match Decode(order, s).value
    case None =>
      assert s == Zeros(POINTER_SIZE);
    case Some(bp) =>
      if bp.Embedded? {
        return;
      }
      if IsEncrypted(w[6]) {
        EncryptedBack(w);
      } else {
        RegularBack(w);
      }
      if Encode(order, Some(bp)) == Some(s) {
        WordsOfFlat(order, EncodeWords(bp).value);
      }
  }

  /** Which pointers encode: sizes in range, level in five bits, addresses in range. */
  lemma {:induction false} WhatEncodes(dvas: seq<Option<Dva>>)
    ensures EncodeDvas(dvas).Some? <==> forall i :: 0 <= i < |dvas| && dvas[i].Some? ==> DvaFits(dvas[i].value)
  {
    if dvas == [] {
    } else {
      WhatEncodes(dvas[1..]);
      assert dvas == [dvas[0]] + dvas[1..];
    }
  }

  // The imperative code

  method GetWord(decoder: Decoder, order: Order) returns (r: Option<u64>)
    requires decoder.Valid()
    modifies decoder
    ensures decoder.Valid() && (r.Some? <==> 8 <= |old(decoder.Rest())|)
    ensures r.Some? ==> decoder.Rest() == old(decoder.Rest())[8..] && r.value == Value(order, old(decoder.Rest())[..8])
    ensures decoder.offset == old(decoder.offset) + (if r.Some? then 8 else 0)
  {
    var bytes := decoder.Get(8);
    if bytes.None? {
      return None;
    }
    Widths();
    r := Some(Value(order, bytes.value));
  }

  method GetWords(decoder: Decoder, order: Order, n: nat) returns (words: seq<u64>)
    requires decoder.Valid() && 8 * n <= |decoder.Rest()|
    modifies decoder
    ensures decoder.Valid() && decoder.offset == old(decoder.offset) + 8 * n
    ensures words == Words(order, old(decoder.Rest())[..8 * n])
  {
    words := [];
    ghost var s := decoder.Rest();
    for i := 0 to n
      invariant decoder.Valid() && decoder.offset == old(decoder.offset) + 8 * i && decoder.Rest() == s[8 * i..]
      invariant words == Words(order, s[..8 * i])
    {
      var w := GetWord(decoder, order);
      assert s[8 * i..][..8] == s[8 * i..8 * i + 8] && s[8 * i..][8..] == s[8 * (i + 1)..];
      WordsSnoc(order, s[..8 * i], s[8 * i..8 * i + 8]);
      assert s[..8 * i] + s[8 * i..8 * i + 8] == s[..8 * (i + 1)];
      words := words + [w.value];
    }
  }

  lemma {:induction false} WordsSnoc(order: Order, s: seq<byte>, t: seq<byte>)
    requires |s| % 8 == 0 && |t| == 8
    ensures Value(order, t) < U64_SIZE && Words(order, s + t) == Words(order, s) + [Value(order, t)]
    decreases |s|
  {
    Widths();
    if s == [] {
      assert s + t == t && t[..8] == t && t[8..] == [];
    } else {
      assert (s + t)[..8] == s[..8] && (s + t)[8..] == s[8..] + t;
      WordsSnoc(order, s[8..], t);
    }
  }

  /** Peeks at the flags to tell the kind, and rewinds. */
  method FromDecoder(decoder: Decoder, order: Order) returns (r: Option<Option<BlockPointer>>)
    requires decoder.Valid()
    modifies decoder
    ensures decoder.Valid()
    ensures |old(decoder.Rest())| < POINTER_SIZE ==> r == None
    ensures |old(decoder.Rest())| >= POINTER_SIZE ==> r == Decode(order, old(decoder.Rest())[..POINTER_SIZE])
    ensures r.Some? ==> decoder.offset == old(decoder.offset) + POINTER_SIZE
  {
    hide Words, Value, DecodeRegular, DecodeEncrypted, DecodeEmbedded, Field;
    ghost var s := decoder.Rest();
    var zero := decoder.IsSkipZeros(POINTER_SIZE);
    if zero.None? {
      return None;
    }
    if zero.value {
      return Some(None);
    }
    ghost var p := s[..POINTER_SIZE];
    var start := decoder.offset;
    var skipped := decoder.Skip(48);
    var flags := GetWord(decoder, order);
    var back := decoder.Seek(start);
    WordAt(order, p, 6);
    assert s[48..][..8] == p[48..56];
    if IsEmbedded(flags.value) && IsEncrypted(flags.value) {
      return None;
    }
    var bp;
    if IsEmbedded(flags.value) {
      var bytes := decoder.Get(POINTER_SIZE);
      bp := DecodeEmbedded(order, bytes.value);
    } else {
      var words := GetWords(decoder, order, 16);
      bp := if IsEncrypted(flags.value) then DecodeEncrypted(words) else DecodeRegular(words);
    }
    r := if bp.None? then None else Some(bp);
  }

  lemma {:induction false} WordAt(order: Order, s: seq<byte>, i: nat)
    requires 8 * i + 8 <= |s|
    ensures Words(order, s)[i] == Value(order, s[8 * i..8 * i + 8])
    decreases i
  {
    if i == 0 {
    } else {
      WordAt(order, s[8..], i - 1);
      assert s[8..][8 * (i - 1)..8 * (i - 1) + 8] == s[8 * i..8 * i + 8];
    }
  }

  method ToEncoder(encoder: Encoder, order: Order, bp: Option<BlockPointer>) returns (ok: bool)
    requires encoder.Valid() && (bp.Some? ==> Shaped(bp.value) || bp.value.Embedded?)
    modifies encoder, encoder.data
    ensures encoder.Valid()
    ensures ok <==> Encode(order, bp).Some? && POINTER_SIZE <= encoder.data.Length - old(encoder.offset)
    ensures ok ==> encoder.Written() == old(encoder.Written()) + Encode(order, bp).value
  {
    if bp.None? {
      ok := encoder.PutZeros(POINTER_SIZE);
      return;
    }
    if bp.value.Embedded? {
      return false;
    }
    var words := EncodeWords(bp.value);
    if words.None? {
      return false;
    }
    ok := PutWords(encoder, order, words.value);
  }

  method PutWords(encoder: Encoder, order: Order, words: seq<u64>) returns (ok: bool)
    requires encoder.Valid()
    modifies encoder, encoder.data
    ensures encoder.Valid() && (ok <==> 8 * |words| <= encoder.data.Length - old(encoder.offset))
    ensures ok ==> encoder.Written() == old(encoder.Written()) + Flat(order, words)
  {
    ghost var before := encoder.Written();
    assert before + Flat(order, words[..0]) == before;
    hide Flat, Bytes;
    for i := 0 to |words|
      invariant encoder.Valid() && encoder.Written() == before + Flat(order, words[..i])
    {
      ok := encoder.Put(Bytes(order, words[i], 8));
      if !ok {
        return false;
      }
      FlatMore(order, before, words, i);
    }
    assert words[..|words|] == words;
    ok := true;
  }

  lemma FlatMore(order: Order, before: seq<byte>, words: seq<u64>, i: nat)
    requires i < |words|
    ensures before + Flat(order, words[..i]) + Bytes(order, words[i], 8) == before + Flat(order, words[..i + 1])
  {
    hide Flat, Bytes;
    FlatSnoc(order, words[..i], words[i]);
    assert words[..i] + [words[i]] == words[..i + 1];
  }

  lemma {:induction false} FlatSnoc(order: Order, words: seq<u64>, w: u64)
    ensures Flat(order, words + [w]) == Flat(order, words) + Bytes(order, w, 8)
    decreases |words|
  {
    if words == [] {
      assert words + [w] == [w] && [w][1..] == [];
    } else {
      assert (words + [w])[1..] == words[1..] + [w];
      FlatSnoc(order, words[1..], w);
    }
  }
}
