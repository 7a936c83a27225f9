/** The bytes of XDR items, in plain numbers (RFC 4506, src/phys/binary.rs). */
module XdrFormat {
  import opened Base
  import opened Endian
  import opened Xdr

  /** Four bytes, the high one first. */
  function Big32(s: seq<byte>): (v: int)
    requires |s| >= 4
  {
    var a: int, b: int, c: int := s[0], s[1], s[2];
    0x100_0000 * a + 0x1_0000 * b + 0x100 * c + s[3]
  }

  lemma Big32Is(s: seq<byte>)
    requires |s| == 4
    ensures Value(Big, s) == Big32(s)
  {
    Big4(s);
  }

  /** `s` is `bytes` and then up to three zeros, a multiple of four in all. */
  predicate ArePadded(s: seq<byte>, bytes: seq<byte>) {
    && |bytes| <= |s| < |bytes| + 4 && |s| % 4 == 0 && s[..|bytes|] == bytes
    && forall i :: |bytes| <= i < |s| ==> s[i] == 0
  }

  lemma PaddedIs(bytes: seq<byte>)
    ensures ArePadded(Padded(bytes), bytes)
  {
    PadAligns(|bytes|);
  }

  /** A number in 32 bits: negative ones from the top, and a byte above 127 as if it were
    * negative. */
  function Plain(item: Item): (v: int) {
    match item
    case Bool(flag) => if flag then 1 else 0
    case U8(v) => if v <= 127 then v else v - 256 + 4294967296
    case U16(v) => v
    case U32(v) => v
    case I8(v) => if v >= 0 then v else v + 4294967296
    case I16(v) => if v >= 0 then v else v + 4294967296
    case I32(v) => if v >= 0 then v else v + 4294967296
    case U64(v) => v
    case I64(v) => if v >= 0 then v else v + 18446744073709551616
    case _ => 0
  }

  predicate IsLong(r: Option<seq<byte>>, v: int) {
    r.Some? && |r.value| == 8 && Value(Big, r.value) == v
  }

  /** Main result: what a put writes. */
  lemma PutIs(item: Item)
    ensures match item
            case U64(_) => IsLong(Encode(item), Plain(item))
            case I64(_) => IsLong(Encode(item), Plain(item))
            case Fixed(bytes) => Encode(item).Some? && ArePadded(Encode(item).value, bytes)
            case FixedText(bytes) => Encode(item).Some? && ArePadded(Encode(item).value, bytes)
            case Opaque(bytes) => IsCounted(Encode(item), bytes)
            case Text(bytes) => IsCounted(Encode(item), bytes)
            case _ => Encode(item).Some? && |Encode(item).value| == 4 && Big32(Encode(item).value) == Plain(item)
  {
    hide Value, Bytes, Padded, ArePadded, Big32;
    match item
    case U64(v) => LongBack(v);
    case I64(v) => LongBack(if v < 0 then v + U64_SIZE else v);
    case Fixed(bytes) => PaddedIs(bytes);
    case FixedText(bytes) => PaddedIs(bytes);
    case Opaque(bytes) => CountedIs(item, bytes);
    case Text(bytes) => CountedIs(item, bytes);
    case _ =>
      WordBack(Number(item).value);
      Big32Is(Encode(item).value);
  }

  /** The length in four bytes, then the bytes; nothing when it needs more than 32 bits. */
  predicate IsCounted(r: Option<seq<byte>>, bytes: seq<byte>) {
    if |bytes| >= 4294967296 then r == None
    else r.Some? && 4 <= |r.value| && Big32(r.value[..4]) == |bytes| && ArePadded(r.value[4..], bytes)
  }

  lemma CountedIs(item: Item, bytes: seq<byte>)
    requires (item.Opaque? || item.Text?) && item.bytes == bytes
    ensures IsCounted(Encode(item), bytes)
  {
    hide Value, Bytes, Padded, ArePadded, Big32;
    if |bytes| < U32_SIZE {
      TakeDrop(Word(|bytes|), Padded(bytes));
      WordBack(|bytes|);
      Big32Is(Word(|bytes|));
      PaddedIs(bytes);
    }
  }

  /** Which 32-bit numbers a get of a number takes, and as what. */
  function Taken(kind: Kind, v: int): (r: Option<Item>)
    requires IsNumber(kind) && 0 <= v < 4294967296
  {
    match kind
    case BoolKind => if v <= 1 then Some(Bool(v == 1)) else None
    case U8Kind => if v <= 255 then Some(U8(v)) else if v >= 4294967168 then Some(U8(v - 4294967040)) else None
    case U16Kind => if v <= 65535 then Some(U16(v)) else None
    case U32Kind => Some(U32(v))
    case I8Kind => if v <= 127 then Some(I8(v)) else if v >= 4294967168 then Some(I8(v - 4294967296)) else None
    case I16Kind => if v <= 32767 then Some(I16(v)) else if v >= 4294934528 then Some(I16(v - 4294967296)) else None
    case I32Kind => if v <= 2147483647 then Some(I32(v)) else Some(I32(v - 4294967296))
  }

  /** Main result: what a get of a number returns for any bytes. */
  lemma GetNumberIs(kind: Kind, utf8: Utf8, s: seq<byte>)
    requires IsNumber(kind)
    ensures |s| < 4 ==> Decode(kind, utf8, s) == Step(None, 0)
    ensures |s| >= 4 ==> 0 <= Big32(s) < 4294967296 && Decode(kind, utf8, s) == Step(Taken(kind, Big32(s)), 4)
  {
    if |s| >= 4 {
      hide Value;
      Big4(s[..4]);
    }
  }

  /** `n` bytes and then zeros to a multiple of four, and UTF-8 for a string. */
  ghost predicate IsBody(r: Step, text: bool, utf8: Utf8, n: nat, s: seq<byte>, item: seq<byte> -> Item) {
    var whole := (n + 3) / 4 * 4;
    && (r.item.Some? <==> && whole <= |s| && (forall i :: n <= i < whole ==> s[i] == 0) && (text ==> utf8(s[..n])))
    && (r.item.Some? ==> r.used == whole && r.item.value == item(s[..n]))
  }

  lemma BodyIs(kind: Kind, utf8: Utf8, n: nat, s: seq<byte>)
    requires kind.FixedKind? || kind.OpaqueKind? || kind.FixedTextKind? || kind.TextKind?
    ensures IsBody(DecodeBody(kind, utf8, n, s), kind.FixedTextKind? || kind.TextKind?, utf8, n, s,
                   bytes => FromBytes(kind, bytes))
  {
    assert (n + 3) / 4 * 4 == n + Pad(n);
    if n + Pad(n) <= |s| {
      var pad := s[n..n + Pad(n)];
      assert forall i :: n <= i < n + Pad(n) ==> s[i] == pad[i - n];
      assert forall i :: 0 <= i < |pad| ==> pad[i] == s[n + i];
    }
  }

  /** Main result: what a get of bytes or of a string returns, for any bytes. A length in
    * four bytes comes first when it is not known. */
  lemma GetBytesIs(kind: Kind, utf8: Utf8, n: nat, s: seq<byte>)
    ensures kind == FixedKind(n) ==> IsBody(Decode(kind, utf8, s), false, utf8, n, s, bytes => Fixed(bytes))
    ensures kind == FixedTextKind(n) ==> IsBody(Decode(kind, utf8, s), true, utf8, n, s, bytes => FixedText(bytes))
    ensures kind == OpaqueKind || kind == TextKind ==>
              if |s| < 4 then Decode(kind, utf8, s) == Step(None, 0) else
                && 0 <= Big32(s) && 4 <= Decode(kind, utf8, s).used
                && var body := Step(Decode(kind, utf8, s).item, Decode(kind, utf8, s).used - 4);
                   if kind == OpaqueKind then IsBody(body, false, utf8, Big32(s), s[4..], bytes => Opaque(bytes))
                   else IsBody(body, true, utf8, Big32(s), s[4..], bytes => Text(bytes))
  {
    hide Value, DecodeBody;
    if kind == FixedKind(n) || kind == FixedTextKind(n) {
      BodyIs(kind, utf8, n, s);
    } else if (kind == OpaqueKind || kind == TextKind) && |s| >= 4 {
      Big4(s[..4]);
      BodyIs(kind, utf8, Big32(s), s[4..]);
    }
  }

  /** Eight bytes, read as two's complement when signed. */
  lemma GetLongIs(kind: Kind, utf8: Utf8, s: seq<byte>)
    requires kind == U64Kind || kind == I64Kind
    ensures |s| < 8 ==> Decode(kind, utf8, s) == Step(None, 0)
    ensures |s| >= 8 ==>
              var r, v := Decode(kind, utf8, s), Value(Big, s[..8]);
              && r.used == 8 && r.item.Some?
              && (kind == U64Kind ==> r.item.value.U64? && r.item.value.u64 == v)
              && (kind == I64Kind ==>
                    && r.item.value.I64?
                    && r.item.value.i64 == if v < 9223372036854775808 then v else v - 18446744073709551616)
  {
    hide Value;
  }
}
