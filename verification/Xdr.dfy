/** External data representation (RFC 4506) with the 8- and 16-bit extensions ZFS
  * uses (src/phys/binary.rs). */
module Xdr {
  import opened Base
  import opened BitOps
  import opened Endian
  import opened Cursors

  type i8 = x: int | -0x80 <= x < 0x80
  type i16 = x: int | -0x8000 <= x < 0x8000
  type i32 = x: int | -0x8000_0000 <= x < 0x8000_0000
  type i64 = x: int | -0x8000_0000_0000_0000 <= x < 0x8000_0000_0000_0000

  datatype Item =
    | Bool(flag: bool)
    | U8(u8: byte) | U16(u16: u16) | U32(u32: u32) | U64(u64: u64)
    | I8(i8: i8) | I16(i16: i16) | I32(i32: i32) | I64(i64: i64)
    | Fixed(bytes: seq<byte>)      // fixed-length opaque
    | Opaque(bytes: seq<byte>)     // variable-length opaque
    | FixedText(bytes: seq<byte>)  // a string of known length
    | Text(bytes: seq<byte>)       // a string

  /** What a get asks for. */
  datatype Kind =
    | BoolKind | U8Kind | U16Kind | U32Kind | U64Kind | I8Kind | I16Kind | I32Kind | I64Kind
    | FixedKind(n: nat) | OpaqueKind | FixedTextKind(n: nat) | TextKind

  function KindOf(item: Item): (k: Kind) {
    match item
    case Bool(_) => BoolKind
    case U8(_) => U8Kind
    case U16(_) => U16Kind
    case U32(_) => U32Kind
    case U64(_) => U64Kind
    case I8(_) => I8Kind
    case I16(_) => I16Kind
    case I32(_) => I32Kind
    case I64(_) => I64Kind
    case Fixed(bytes) => FixedKind(|bytes|)
    case Opaque(_) => OpaqueKind
    case FixedText(bytes) => FixedTextKind(|bytes|)
    case Text(_) => TextKind
  }

  /** Zero bytes up to the next multiple of four. */
  function Pad(n: nat): (p: nat)
    ensures p < 4
  {
    if n % 4 == 0 then 0 else 4 - n % 4
  }

  lemma PadAligns(n: nat)
    ensures (n + Pad(n)) % 4 == 0
  {
  }

  function Word(v: u32): (s: seq<byte>)
    ensures |s| == 4
  {
    Bytes(Big, v, 4)
  }

  function Long(v: u64): (s: seq<byte>)
    ensures |s| == 8
  {
    Bytes(Big, v, 8)
  }

  function Padded(bytes: seq<byte>): (s: seq<byte>)
    ensures |s| == |bytes| + Pad(|bytes|)
  {
    bytes + Zeros(Pad(|bytes|))
  }

  /** The 32-bit number of an item that is one. */
  function Number(item: Item): (v: Option<u32>) {
    match item
    case Bool(flag) => Some(if flag then 1 else 0)
    case U8(v) => Some(if v > 127 then v + 0xffff_ff00 else v)
    case U16(v) => Some(v)
    case U32(v) => Some(v)
    case I8(v) => Some(if v < 0 then v + U32_SIZE else v)
    case I16(v) => Some(if v < 0 then v + U32_SIZE else v)
    case I32(v) => Some(if v < 0 then v + U32_SIZE else v)
    case _ => None
  }

  /** The bytes of an item; none when a length does not fit 32 bits. */
  function Encode(item: Item): (r: Option<seq<byte>>) {
    match item
    case U64(v) => Some(Long(v))
    case I64(v) => Some(Long(if v < 0 then v + U64_SIZE else v))
    case Fixed(bytes) => Some(Padded(bytes))
    case FixedText(bytes) => Some(Padded(bytes))
    case Opaque(bytes) => if |bytes| < U32_SIZE then Some(Word(|bytes|) + Padded(bytes)) else None
    case Text(bytes) => if |bytes| < U32_SIZE then Some(Word(|bytes|) + Padded(bytes)) else None
    case _ => Some(Word(Number(item).value))
  }

  /** What a get returns, and how far it moves the cursor, also when it fails. */
  datatype Step = Step(item: Option<Item>, used: nat)

  function Signed(v: u32): (i: i32) {
    if v >= 0x8000_0000 then v - U32_SIZE else v
  }

  predicate IsNumber(kind: Kind) {
    kind.BoolKind? || kind.U8Kind? || kind.U16Kind? || kind.U32Kind? || kind.I8Kind? || kind.I16Kind? || kind.I32Kind?
  }

  function FromNumber(kind: Kind, v: u32): (r: Option<Item>)
    requires IsNumber(kind)
  {
    match kind
    case BoolKind => if v == 0 then Some(Bool(false)) else if v == 1 then Some(Bool(true)) else None
    case U8Kind =>
      var low := if v >= 0xffff_ff80 then v - 0xffff_ff00 else v;
      if low < 0x100 then Some(U8(low)) else None
    case U16Kind => if v < U16_SIZE then Some(U16(v)) else None
    case U32Kind => Some(U32(v))
    case I8Kind => if -0x80 <= Signed(v) < 0x80 then Some(I8(Signed(v))) else None
    case I16Kind => if -0x8000 <= Signed(v) < 0x8000 then Some(I16(Signed(v))) else None
    case I32Kind => Some(I32(Signed(v)))
  }

  function FromLong(signed: bool, v: u64): (item: Item) {
    if signed then I64(if v >= 0x8000_0000_0000_0000 then v - U64_SIZE else v) else U64(v)
  }

  function FromBytes(kind: Kind, bytes: seq<byte>): (item: Item)
    requires kind.FixedKind? || kind.OpaqueKind? || kind.FixedTextKind? || kind.TextKind?
  {
    match kind
    case FixedKind(_) => Fixed(bytes)
    case OpaqueKind => Opaque(bytes)
    case FixedTextKind(_) => FixedText(bytes)
    case TextKind => Text(bytes)
  }

  type Utf8 = seq<byte> -> bool

  /** `n` bytes and their padding. A string that is not UTF-8 is put back. */
  function DecodeBody(kind: Kind, utf8: Utf8, n: nat, s: seq<byte>): (r: Step)
    requires kind.FixedKind? || kind.OpaqueKind? || kind.FixedTextKind? || kind.TextKind?
    ensures r.used <= |s|
  {
    if |s| < n then Step(None, 0)
    else if (kind.FixedTextKind? || kind.TextKind?) && !utf8(s[..n]) then Step(None, 0)
    else if |s| < n + Pad(n) then Step(None, n)
    else if !AllZero(s[n..n + Pad(n)]) then Step(None, n + Pad(n))
    else Step(Some(FromBytes(kind, s[..n])), n + Pad(n))
  }

  function WordOf(s: seq<byte>): (v: u32)
    requires |s| == 4
  {
    WordBound(s);
    Value(Big, s)
  }

  function LongOf(s: seq<byte>): (v: u64)
    requires |s| == 8
  {
    LongBound(s);
    Value(Big, s)
  }

  function Decode(kind: Kind, utf8: Utf8, s: seq<byte>): (r: Step)
    ensures r.used <= |s|
  {
    match kind
    case U64Kind => if |s| < 8 then Step(None, 0) else Step(Some(FromLong(false, LongOf(s[..8]))), 8)
    case I64Kind => if |s| < 8 then Step(None, 0) else Step(Some(FromLong(true, LongOf(s[..8]))), 8)
    case FixedKind(n) => DecodeBody(kind, utf8, n, s)
    case FixedTextKind(n) => DecodeBody(kind, utf8, n, s)
    case OpaqueKind => DecodeCounted(kind, utf8, s)
    case TextKind => DecodeCounted(kind, utf8, s)
    case _ => if |s| < 4 then Step(None, 0) else Step(FromNumber(kind, WordOf(s[..4])), 4)
  }

  function DecodeCounted(kind: Kind, utf8: Utf8, s: seq<byte>): (r: Step)
    requires kind.OpaqueKind? || kind.TextKind?
    ensures r.used <= |s|
  {
    if |s| < 4 then Step(None, 0) else
      var body := DecodeBody(kind, utf8, WordOf(s[..4]), s[4..]);
      Step(body.item, 4 + body.used)
  }

  // Values of bytes

  lemma PowersOfWords()
    ensures Pow2(8 * 4) == U32_SIZE && Pow2(8 * 8) == U64_SIZE
  {
    Pow2Bytes();
    Pow2Add(8, 8);
    Pow2Add(16, 16);
    Pow2Add(32, 32);
  }

  lemma WordBound(s: seq<byte>)
    requires |s| == 4
    ensures Value(Big, s) < U32_SIZE
  {
    PowersOfWords();
  }

  lemma LongBound(s: seq<byte>)
    requires |s| == 8
    ensures Value(Big, s) < U64_SIZE
  {
    PowersOfWords();
  }

  lemma WordBack(v: u32)
    ensures WordOf(Word(v)) == v
  {
    PowersOfWords();
    ValueOfBytes(Big, v, 4);
  }

  lemma LongBack(v: u64)
    ensures LongOf(Long(v)) == v
  {
    PowersOfWords();
    ValueOfBytes(Big, v, 8);
  }

  lemma TakeDrop(a: seq<byte>, b: seq<byte>)
    ensures (a + b)[..|a|] == a && (a + b)[|a|..] == b
  {
  }

  /** Sign extension above 127 comes back, as do the signed forms. */
  lemma NumberBack(item: Item)
    requires Number(item).Some?
    ensures IsNumber(KindOf(item)) && FromNumber(KindOf(item), Number(item).value) == Some(item)
  {
  }

  lemma BodyBack(kind: Kind, utf8: Utf8, bytes: seq<byte>, rest: seq<byte>)
    requires kind.FixedKind? || kind.OpaqueKind? || kind.FixedTextKind? || kind.TextKind?
    requires kind.FixedTextKind? || kind.TextKind? ==> utf8(bytes)
    ensures DecodeBody(kind, utf8, |bytes|, Padded(bytes) + rest) == Step(Some(FromBytes(kind, bytes)), |Padded(bytes)|)
  {
    var s, n := Padded(bytes) + rest, |bytes|;
    assert s[..n] == bytes;
    assert s[n..n + Pad(n)] == Zeros(Pad(n));
  }

  /** A Rust string is UTF-8. */
  ghost predicate WellFormed(utf8: Utf8, item: Item) {
    item.FixedText? || item.Text? ==> utf8(item.bytes)
  }

  /** One put and the matching get, whatever follows. */
  lemma ItemRoundTrip(utf8: Utf8, item: Item, rest: seq<byte>)
    requires Encode(item).Some? && WellFormed(utf8, item)
    ensures Decode(KindOf(item), utf8, Encode(item).value + rest) == Step(Some(item), |Encode(item).value|)
  {
    hide Bytes, Value, Pad, Padded, DecodeBody, DecodeCounted;
    TakeDrop(Encode(item).value, rest);
    match item
    case U64(v) => LongBack(v);
    case I64(v) => LongBack(if v < 0 then v + U64_SIZE else v);
    case Fixed(bytes) => BodyBack(KindOf(item), utf8, bytes, rest);
    case FixedText(bytes) => BodyBack(KindOf(item), utf8, bytes, rest);
    case Opaque(bytes) => CountedBack(item, utf8, rest);
    case Text(bytes) => CountedBack(item, utf8, rest);
    case _ =>
      WordBack(Number(item).value);
      NumberBack(item);
  }

  lemma CountedBack(item: Item, utf8: Utf8, rest: seq<byte>)
    requires (item.Opaque? || item.Text?) && Encode(item).Some? && WellFormed(utf8, item)
    ensures DecodeCounted(KindOf(item), utf8, Encode(item).value + rest) == Step(Some(item), |Encode(item).value|)
  {
    var bytes := item.bytes;
    assert Encode(item).value + rest == Word(|bytes|) + (Padded(bytes) + rest);
    TakeDrop(Word(|bytes|), Padded(bytes) + rest);
    WordBack(|bytes|);
    BodyBack(KindOf(item), utf8, bytes, rest);
  }

  lemma EncodeAligned(item: Item)
    requires Encode(item).Some?
    ensures |Encode(item).value| % 4 == 0
  {
    match item
    case Fixed(bytes) => PadAligns(|bytes|);
    case FixedText(bytes) => PadAligns(|bytes|);
    case Opaque(bytes) => PadAligns(|bytes|); FourMore(|Padded(bytes)|);
    case Text(bytes) => PadAligns(|bytes|); FourMore(|Padded(bytes)|);
    case _ =>
  }

  lemma FourMore(n: nat)
    requires n % 4 == 0
    ensures (4 + n) % 4 == 0
  {
  }

  // Runs of puts and gets, for any pair of a put and a get

  type Putter = Item -> Option<seq<byte>>
  type Getter = (Kind, seq<byte>) -> Step

  function PutAll(put: Putter, items: seq<Item>): (r: Option<seq<byte>>) {
    if items == [] then Some([]) else
      var first, rest := put(items[0]), PutAll(put, items[1..]);
      if first.None? || rest.None? then None else Some(first.value + rest.value)
  }

  function Kinds(items: seq<Item>): (kinds: seq<Kind>) {
    if items == [] then [] else [KindOf(items[0])] + Kinds(items[1..])
  }

  /** The items, and the bytes used; none once a get fails. */
  function GetAll(get: Getter, kinds: seq<Kind>, s: seq<byte>): (r: Option<(seq<Item>, nat)>)
    decreases |kinds|
  {
    if kinds == [] then Some(([], 0)) else
      var step := get(kinds[0], s);
      if step.item.None? || step.used > |s| then None else
        var rest := GetAll(get, kinds[1..], s[step.used..]);
        if rest.None? then None else Some(([step.item.value] + rest.value.0, step.used + rest.value.1))
  }

  ghost predicate Recovers(put: Putter, get: Getter, item: Item) {
    put(item).Some? ==>
      forall rest :: get(KindOf(item), put(item).value + rest) == Step(Some(item), |put(item).value|)
  }

  lemma {:induction false} RunRecovered(put: Putter, get: Getter, items: seq<Item>, rest: seq<byte>)
    requires PutAll(put, items).Some? && forall i :: 0 <= i < |items| ==> Recovers(put, get, items[i])
    ensures GetAll(get, Kinds(items), PutAll(put, items).value + rest) == Some((items, |PutAll(put, items).value|))
    decreases |items|
  {
    hide KindOf;
    if items == [] {
    } else {
      var first, more := put(items[0]).value, PutAll(put, items[1..]).value;
      assert Recovers(put, get, items[0]);
      assert first + more + rest == first + (more + rest);
      TakeDrop(first, more + rest);
      RunRecovered(put, get, items[1..], rest);
      assert Kinds(items)[1..] == Kinds(items[1..]);
      assert items == [items[0]] + items[1..];
    }
  }

  function EncodeAll(items: seq<Item>): (r: Option<seq<byte>>) {
    PutAll(item => Encode(item), items)
  }

  function DecodeAll(kinds: seq<Kind>, utf8: Utf8, s: seq<byte>): (r: Option<(seq<Item>, nat)>) {
    GetAll((kind, s) => Decode(kind, utf8, s), kinds, s)
  }

  /** Main result: any sequence of puts is recovered by the matching gets, which use
    * exactly the bytes written, a multiple of four. */
  lemma RoundTrip(utf8: Utf8, items: seq<Item>, rest: seq<byte>)
    requires EncodeAll(items).Some? && forall i :: 0 <= i < |items| ==> WellFormed(utf8, items[i])
    ensures DecodeAll(Kinds(items), utf8, EncodeAll(items).value + rest) == Some((items, |EncodeAll(items).value|))
    ensures |EncodeAll(items).value| % 4 == 0
  {
    var put: Putter := item => Encode(item);
    var get: Getter := (kind, s) => Decode(kind, utf8, s);
    forall i | 0 <= i < |items|
      ensures Recovers(put, get, items[i])
    {
      ItemRecovered(utf8, items[i]);
    }
    RunRecovered(put, get, items, rest);
    EncodeAllAligned(items);
  }

  lemma {:induction false} EncodeAllAligned(items: seq<Item>)
    requires EncodeAll(items).Some?
    ensures |EncodeAll(items).value| % 4 == 0
    decreases |items|
  {
    hide Encode;
    if items == [] {
    } else {
      EncodeAligned(items[0]);
      EncodeAllAligned(items[1..]);
      assert |EncodeAll(items).value| == |Encode(items[0]).value| + |EncodeAll(items[1..]).value|;
    }
  }

  lemma ItemRecovered(utf8: Utf8, item: Item)
    requires WellFormed(utf8, item)
    ensures Recovers(item => Encode(item), (kind, s) => Decode(kind, utf8, s), item)
  {
    if Encode(item).Some? {
      forall rest
        ensures Decode(KindOf(item), utf8, Encode(item).value + rest) == Step(Some(item), |Encode(item).value|)
      {
        ItemRoundTrip(utf8, item, rest);
      }
    }
  }

  /** The body of an opaque value or string is a multiple of four exactly unless the
    * input ends inside its padding. */
  lemma AlignedUnlessCut(kind: Kind, utf8: Utf8, n: nat, s: seq<byte>)
    requires kind.FixedKind? || kind.OpaqueKind? || kind.FixedTextKind? || kind.TextKind?
    ensures DecodeBody(kind, utf8, n, s).used % 4 != 0
            <==> n <= |s| < n + Pad(n) && ((kind.FixedTextKind? || kind.TextKind?) ==> utf8(s[..n]))
  {
  }

  /** The input ends inside the padding of what a get asks for. */
  predicate CutOff(kind: Kind, utf8: Utf8, s: seq<byte>) {
    match kind
    case FixedKind(n) => n <= |s| < n + Pad(n)
    case FixedTextKind(n) => n <= |s| < n + Pad(n) && utf8(s[..n])
    case OpaqueKind => 4 <= |s| && WordOf(s[..4]) <= |s| - 4 < WordOf(s[..4]) + Pad(WordOf(s[..4]))
    case TextKind =>
      && 4 <= |s| && WordOf(s[..4]) <= |s| - 4 < WordOf(s[..4]) + Pad(WordOf(s[..4]))
      && utf8(s[4..][..WordOf(s[..4])])
    case _ => false
  }

  /** A get, failed or not, leaves the cursor off a multiple of four if and only if its
    * padding is cut off. */
  lemma GetAlignedUnlessCut(kind: Kind, utf8: Utf8, s: seq<byte>)
    ensures Decode(kind, utf8, s).used % 4 != 0 <==> CutOff(kind, utf8, s)
  {
    hide Pad, Value;
    match kind
    case FixedKind(n) => AlignedUnlessCut(kind, utf8, n, s);
    case FixedTextKind(n) => AlignedUnlessCut(kind, utf8, n, s);
    case OpaqueKind => if 4 <= |s| { AlignedUnlessCut(kind, utf8, WordOf(s[..4]), s[4..]); }
    case TextKind => if 4 <= |s| { AlignedUnlessCut(kind, utf8, WordOf(s[..4]), s[4..]); }
    case _ =>
  }

  lemma BodyAligned(kind: Kind, utf8: Utf8, n: nat, s: seq<byte>)
    requires (kind.FixedKind? || kind.OpaqueKind? || kind.FixedTextKind? || kind.TextKind?) && |s| % 4 == 0
    ensures DecodeBody(kind, utf8, n, s).used % 4 == 0
  {
    AlignedUnlessCut(kind, utf8, n, s);
  }

  lemma CountedAligned(kind: Kind, utf8: Utf8, s: seq<byte>)
    requires (kind.OpaqueKind? || kind.TextKind?) && |s| % 4 == 0
    ensures DecodeCounted(kind, utf8, s).used % 4 == 0
  {
    if |s| >= 4 {
      BodyAligned(kind, utf8, WordOf(s[..4]), s[4..]);
      FourMore(DecodeBody(kind, utf8, WordOf(s[..4]), s[4..]).used);
    }
  }

  /** On input whose length is a multiple of four the cursor stays aligned, also
    * when a get fails. */
  lemma StaysAligned(kind: Kind, utf8: Utf8, s: seq<byte>)
    requires |s| % 4 == 0
    ensures Decode(kind, utf8, s).used % 4 == 0
  {
    match kind
    case FixedKind(n) => BodyAligned(kind, utf8, n, s);
    case FixedTextKind(n) => BodyAligned(kind, utf8, n, s);
    case OpaqueKind => CountedAligned(kind, utf8, s);
    case TextKind => CountedAligned(kind, utf8, s);
    case _ =>
  }

  /** Bytes above 127 have two accepted forms; a put writes the sign-extended one. */
  lemma U8Forms(v: u32)
    ensures FromNumber(U8Kind, v).Some? <==> v < 0x100 || v >= 0xffff_ff80
    ensures FromNumber(U8Kind, v).Some? ==>
              (Number(FromNumber(U8Kind, v).value) == Some(v) <==> v < 0x80 || v >= 0xffff_ff80)
  {
  }

  // The imperative code

  method Put(encoder: Encoder, item: Item) returns (ok: bool)
    requires encoder.Valid()
    modifies encoder, encoder.data
    ensures encoder.Valid()
    ensures ok <==> Encode(item).Some? && |Encode(item).value| <= encoder.data.Length - old(encoder.offset)
    ensures ok ==> encoder.Written() == old(encoder.Written()) + Encode(item).value
  {
    hide Bytes, Pad, Padded;
    match item
    case U64(v) => ok := encoder.Put(Long(v));
    case I64(v) => ok := encoder.Put(Long(if v < 0 then v + U64_SIZE else v));
    case Fixed(bytes) => ok := PutPadded(encoder, bytes);
    case FixedText(bytes) => ok := PutPadded(encoder, bytes);
    case Opaque(bytes) => ok := PutCounted(encoder, bytes);
    case Text(bytes) => ok := PutCounted(encoder, bytes);
    case _ => ok := encoder.Put(Word(Number(item).value));
  }

  method PutPadded(encoder: Encoder, bytes: seq<byte>) returns (ok: bool)
    requires encoder.Valid()
    modifies encoder, encoder.data
    ensures encoder.Valid() && (ok <==> |Padded(bytes)| <= encoder.data.Length - old(encoder.offset))
    ensures ok ==> encoder.Written() == old(encoder.Written()) + Padded(bytes)
  {
    ok := encoder.Put(bytes);
    if !ok {
      return;
    }
    var remainder := |bytes| % 4;
    if remainder != 0 {
      ghost var before := old(encoder.Written());
      ok := encoder.PutZeros(4 - remainder);
      assert before + bytes + Zeros(4 - remainder) == before + Padded(bytes);
    } else {
      assert Padded(bytes) == bytes;
    }
  }

  method PutCounted(encoder: Encoder, bytes: seq<byte>) returns (ok: bool)
    requires encoder.Valid()
    modifies encoder, encoder.data
    ensures encoder.Valid()
    ensures ok <==> |bytes| < U32_SIZE && 4 + |Padded(bytes)| <= encoder.data.Length - old(encoder.offset)
    ensures ok ==> encoder.Written() == old(encoder.Written()) + (Word(|bytes|) + Padded(bytes))
  {
    if |bytes| >= U32_SIZE {
      return false;
    }
    ok := encoder.Put(Word(|bytes|));
    if ok {
      ok := PutPadded(encoder, bytes);
      ghost var before := old(encoder.Written());
      assert before + Word(|bytes|) + Padded(bytes) == before + (Word(|bytes|) + Padded(bytes));
    }
  }

  method Get(decoder: Decoder, kind: Kind, utf8: Utf8) returns (r: Option<Item>)
    requires decoder.Valid()
    modifies decoder
    ensures var step := Decode(kind, utf8, old(decoder.Rest()));
            decoder.Valid() && r == step.item && decoder.offset == old(decoder.offset) + step.used
  {
    match kind
    case U64Kind => r := GetLong(decoder, false);
    case I64Kind => r := GetLong(decoder, true);
    case FixedKind(n) => r := GetBody(decoder, kind, utf8, n);
    case FixedTextKind(n) => r := GetBody(decoder, kind, utf8, n);
    case OpaqueKind => r := GetCounted(decoder, kind, utf8);
    case TextKind => r := GetCounted(decoder, kind, utf8);
    case _ =>
      var bytes := decoder.Get(4);
      r := if bytes.None? then None else FromNumber(kind, WordOf(bytes.value));
  }

  method GetLong(decoder: Decoder, signed: bool) returns (r: Option<Item>)
    requires decoder.Valid()
    modifies decoder
    ensures var s := old(decoder.Rest());
            && decoder.Valid() && decoder.offset == old(decoder.offset) + (if |s| < 8 then 0 else 8)
            && r == if |s| < 8 then None else Some(FromLong(signed, LongOf(s[..8])))
  {
    var bytes := decoder.Get(8);
    r := if bytes.None? then None else Some(FromLong(signed, LongOf(bytes.value)));
  }

  method GetBody(decoder: Decoder, kind: Kind, utf8: Utf8, n: nat) returns (r: Option<Item>)
    requires decoder.Valid() && (kind.FixedKind? || kind.OpaqueKind? || kind.FixedTextKind? || kind.TextKind?)
    modifies decoder
    ensures var step := DecodeBody(kind, utf8, n, old(decoder.Rest()));
            decoder.Valid() && r == step.item && decoder.offset == old(decoder.offset) + step.used
  {
    var start := decoder.offset;
    var bytes := decoder.Get(n);
    if bytes.None? {
      return None;
    }
    if (kind.FixedTextKind? || kind.TextKind?) && !utf8(bytes.value) {
      decoder.offset := start;
      return None;
    }
    var remainder := n % 4;
    if remainder != 0 {
      ghost var m := Min(|decoder.Rest()|, Pad(n));
      assert decoder.Rest()[..m] == old(decoder.Rest())[n..n + m];
      var padding := decoder.SkipZeros(4 - remainder);
      if !padding {
        return None;
      }
    }
    r := Some(FromBytes(kind, bytes.value));
  }

  method GetCounted(decoder: Decoder, kind: Kind, utf8: Utf8) returns (r: Option<Item>)
    requires decoder.Valid() && (kind.OpaqueKind? || kind.TextKind?)
    modifies decoder
    ensures var step := DecodeCounted(kind, utf8, old(decoder.Rest()));
            decoder.Valid() && r == step.item && decoder.offset == old(decoder.offset) + step.used
  {
    var length := decoder.Get(4);
    if length.None? {
      return None;
    }
    r := GetBody(decoder, kind, utf8, WordOf(length.value));
  }
}
