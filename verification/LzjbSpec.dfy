/** The LZJB format and the parse the encoder chooses, on values.
  *
  * A compressed stream is a sequence of groups: one map byte, then up to eight
  * blocks. A block is a literal byte or a two-byte copy of earlier output.
  */
module LzjbSpec {
  import opened Base
  import opened BitOps

  const LENGTH_MIN := 3
  const LENGTH_MAX := 66
  const OFFSETS := 1024
  const TABLE_LENGTH := 1024
  const GROUP := 8
  const GROUP_ROOM := 17

  type CopyLength = n: int | LENGTH_MIN <= n <= LENGTH_MAX witness LENGTH_MIN
  type CopyOffset = n: int | 1 <= n < OFFSETS witness 1

  datatype Token = Literal(value: byte) | Copy(length: CopyLength, offset: CopyOffset) {
    /** Number of bytes the token stands for. */
    function Span(): (n: nat)
      ensures 1 <= n
    {
      if Copy? then length else 1
    }
  }

  /** The parameters that differ between pool versions: how many table slots are
    * in use, and how three bytes select one. */
  datatype Params = Params(slots: nat, hash: (byte, byte, byte) -> nat) {
    ghost predicate Valid() {
      slots <= TABLE_LENGTH && forall x: byte, y: byte, z: byte :: hash(x, y, z) < slots
    }
  }

  datatype DecodeError =
    | EndOfInput(offset: nat, capacity: nat, count: nat)
    | InvalidInput(offset: nat)

  //// Format

  /** Bit `k` of a map byte. */
  predicate BitAt(m: byte, k: nat) {
    m / Pow2(k) % 2 == 1
  }

  /** The bits of a map byte in block order, least significant first. */
  function MapBits(m: byte): (bits: seq<bool>)
    ensures |bits| == GROUP
  {
    seq(GROUP, k requires 0 <= k < GROUP => BitAt(m, k))
  }

  /** The map byte of a group: the bits of its copies. */
  function MapByte(g: seq<Token>): (m: byte)
    requires |g| <= GROUP
    ensures m < Pow2(|g|)
  {
    if g == [] then 0
    else
      var n := |g| - 1;
      Pow2Mono(|g|, GROUP);
      MapByte(g[..n]) + (if g[n].Copy? then Pow2(n) else 0)
  }

  /** Six bits of biased length above ten bits of offset. */
  function LengthOffset(length: CopyLength, offset: CopyOffset): (w: u16) {
    (length - LENGTH_MIN) * OFFSETS + offset
  }

  function Block(t: Token): (b: seq<byte>)
    ensures |b| == if t.Copy? then 2 else 1
  {
    match t
    case Literal(v) => [v]
    case Copy(length, offset) =>
      var w := LengthOffset(length, offset);
      [w / 0x100, w % 0x100]
  }

  function Blocks(g: seq<Token>): (b: seq<byte>)
    ensures |g| <= |b| <= 2 * |g|
  {
    if g == [] then [] else Blocks(g[..|g| - 1]) + Block(g[|g| - 1])
  }

  function Group(g: seq<Token>): (b: seq<byte>)
    requires 0 < |g| <= GROUP
    ensures |b| == 1 + |Blocks(g)|
  {
    [MapByte(g)] + Blocks(g)
  }

  function Serialize(ts: seq<Token>): (b: seq<byte>) {
    if ts == [] then []
    else
      var n := Min(GROUP, |ts|);
      Group(ts[..n]) + Serialize(ts[n..])
  }

  //// Meaning of a token sequence

  /** `length` bytes appended one at a time, each read `offset` back, so that
    * a copy may read bytes it has itself written. */
  function CopyBytes(out: seq<byte>, offset: nat, length: nat): (r: seq<byte>)
    requires 1 <= offset <= |out|
    ensures |r| == |out| + length && out <= r
    decreases length
  {
    if length == 0 then out
    else CopyBytes(out + [out[|out| - offset]], offset, length - 1)
  }

  predicate Applies(out: seq<byte>, t: Token) {
    t.Copy? ==> t.offset <= |out|
  }

  function Apply(out: seq<byte>, t: Token): (r: seq<byte>)
    requires Applies(out, t)
    ensures |r| == |out| + t.Span() && out <= r
  {
    match t
    case Literal(v) => out + [v]
    case Copy(length, offset) => CopyBytes(out, offset, length)
  }

  ghost predicate Expandable(out: seq<byte>, ts: seq<Token>)
    decreases |ts|
  {
    ts == [] || (Applies(out, ts[0]) && Expandable(Apply(out, ts[0]), ts[1..]))
  }

  ghost function Expand(out: seq<byte>, ts: seq<Token>): (r: seq<byte>)
    requires Expandable(out, ts)
    ensures |out| + |ts| <= |r| && out <= r
    decreases |ts|
  {
    if ts == [] then out else Expand(Apply(out, ts[0]), ts[1..])
  }

  //// The decoder, as a state machine over the buffer it fills

  /** Output and input indices, and the bits left of the current map. */
  datatype Decoder = Decoder(dst: seq<byte>, di: nat, si: nat, bits: seq<bool>) {
    ghost predicate Valid(src: seq<byte>) {
      di <= |dst| && si <= |src|
    }
  }

  datatype Step = Next(state: Decoder) | Fail(error: DecodeError)

  /** `length` bytes copied within `dst` from `from` to `to`, in ascending order. */
  function CopyWithin(dst: seq<byte>, from: nat, to: nat, length: nat): (r: seq<byte>)
    requires from <= to && to + length <= |dst|
    ensures |r| == |dst|
    decreases length
  {
    if length == 0 then dst
    else CopyWithin(dst[to := dst[from]], from + 1, to + 1, length - 1)
  }

  /** Fetches a new map once all bits of the last are used. */
  function FetchMap(d: Decoder, src: seq<byte>): (r: Step)
    requires d.Valid(src)
    ensures r.Next? ==> r.state.Valid(src) && r.state.bits != [] && r.state.dst == d.dst && r.state.di == d.di
  {
    if d.bits != [] then Next(d)
    else if d.si == |src| then Fail(EndOfInput(d.si, |src|, 1))
    else Next(d.(si := d.si + 1, bits := MapBits(src[d.si])))
  }

  function Word(src: seq<byte>, si: nat): (w: u16)
    requires si + 2 <= |src|
  {
    (src[si] as int) * 0x100 + src[si + 1]
  }

  function DecodeCopy(d: Decoder, src: seq<byte>): (r: Step)
    requires d.Valid(src) && d.di < |d.dst| && d.bits != []
    ensures r.Next? ==> r.state.Valid(src) && |r.state.dst| == |d.dst| && r.state.di > d.di
  {
    if |src| - d.si < 2 then Fail(EndOfInput(d.si, |src|, 2))
    else
      var w := Word(src, d.si);
      var length := Min(w / OFFSETS + LENGTH_MIN, |d.dst| - d.di);
      var offset := w % OFFSETS;
      if d.di < offset then Fail(InvalidInput(d.si))
      else Next(Decoder(CopyWithin(d.dst, d.di - offset, d.di, length), d.di + length, d.si + 2, d.bits[1..]))
  }

  function DecodeLiteral(d: Decoder, src: seq<byte>): (r: Step)
    requires d.Valid(src) && d.di < |d.dst| && d.bits != []
    ensures r.Next? ==> r.state.Valid(src) && |r.state.dst| == |d.dst| && r.state.di > d.di
  {
    if d.si == |src| then Fail(EndOfInput(d.si, |src|, 1))
    else Next(Decoder(d.dst[d.di := src[d.si]], d.di + 1, d.si + 1, d.bits[1..]))
  }

  function DecodeBlock(d: Decoder, src: seq<byte>): (r: Step)
    requires d.Valid(src) && d.di < |d.dst| && d.bits != []
    ensures r.Next? ==> r.state.Valid(src) && |r.state.dst| == |d.dst| && r.state.di > d.di
  {
    if d.bits[0] then DecodeCopy(d, src) else DecodeLiteral(d, src)
  }

  /** Decodes until the output is full. */
  function Decode(d: Decoder, src: seq<byte>): (r: Result<seq<byte>, DecodeError>)
    requires d.Valid(src)
    ensures r.Ok? ==> |r.value| == |d.dst|
    decreases |d.dst| - d.di
  {
    if d.di == |d.dst| then Ok(d.dst)
    else
      match FetchMap(d, src)
      case Fail(e) => Err(e)
      case Next(d') =>
        match DecodeBlock(d', src)
        case Fail(e) => Err(e)
        case Next(d'') => Decode(d'', src)
  }

  function Start(dst: seq<byte>): (d: Decoder) {
    Decoder(dst, 0, 0, [])
  }

  //// The parse the encoder chooses

  function HashV21(x: byte, y: byte, z: byte): (h: nat)
    ensures h < TABLE_LENGTH
  {
    var h0 := x * 0x1_0000 + y * 0x100 + z as int;
    var h1 := h0 + h0 / 512;
    var h2 := h1 + h1 / 32;
    h2 % TABLE_LENGTH
  }

  function HashPreV21(x: byte, y: byte, z: byte): (h: nat)
    ensures h < 256
  {
    var x' := (x as int + 13) % 0x100;
    var y' := (y as int - 13) % 0x100;
    Pow2Bytes();
    XorBound(x', y', 8);
    XorBound(Xor(x', y'), z, 8);
    Xor(Xor(x', y'), z)
  }

  function V21(): (p: Params)
    ensures p.Valid()
  {
    Params(TABLE_LENGTH, (x, y, z) => HashV21(x, y, z))
  }

  function PreV21(): (p: Params)
    ensures p.Valid()
  {
    Params(256, (x, y, z) => HashPreV21(x, y, z))
  }

  /** Every slot in use holds a truncated position no later than `si`. */
  ghost predicate TableBelow(p: Params, table: seq<u16>, si: nat) {
    p.Valid() && |table| == TABLE_LENGTH && forall k :: 0 <= k < p.slots ==> table[k] <= si
  }

  /** The source agrees with itself over `n` bytes at two positions. */
  ghost predicate Agree(src: seq<byte>, si: nat, ci: nat, n: nat) {
    ci <= si && si + n <= |src| && src[si..si + n] == src[ci..ci + n]
  }

  lemma AgreeMore(src: seq<byte>, si: nat, ci: nat, n: nat)
    requires Agree(src, si, ci, n) && si + n < |src| && src[si + n] == src[ci + n]
    ensures Agree(src, si, ci, n + 1)
  {
    assert src[si..si + n + 1] == src[si..si + n] + [src[si + n]];
    assert src[ci..ci + n + 1] == src[ci..ci + n] + [src[ci + n]];
  }

  /** The longest match, at most LENGTH_MAX. */
  ghost predicate IsMatch(src: seq<byte>, si: nat, ci: nat, n: nat) {
    && n <= LENGTH_MAX && si + LENGTH_MAX <= |src| && Agree(src, si, ci, n)
    && (n < LENGTH_MAX ==> src[si + n] != src[ci + n])
  }

  lemma AgreeAt(src: seq<byte>, si: nat, ci: nat, n: nat, k: nat)
    requires Agree(src, si, ci, n) && k < n
    ensures src[si + k] == src[ci + k]
  {
    assert src[si..si + n][k] == src[ci..ci + n][k];
  }

  lemma MatchUnique(src: seq<byte>, si: nat, ci: nat, m: nat, n: nat)
    requires IsMatch(src, si, ci, m) && IsMatch(src, si, ci, n)
    ensures m <= n
  {
    if n < m {
      AgreeAt(src, si, ci, m, n);
      assert false;
    }
  }

  function MatchLength(src: seq<byte>, si: nat, ci: nat, length: nat): (n: nat)
    requires si + LENGTH_MAX <= |src| && length <= LENGTH_MAX && Agree(src, si, ci, length)
    ensures length <= n && IsMatch(src, si, ci, n)
    decreases LENGTH_MAX - length
  {
    if length < LENGTH_MAX && src[si + length] == src[ci + length] then
      AgreeMore(src, si, ci, length);
      MatchLength(src, si, ci, length + 1)
    else length
  }

  predicate Match3(src: seq<byte>, si: nat, ci: nat)
    requires ci <= si && si + LENGTH_MIN <= |src|
    ensures Match3(src, si, ci) ==> Agree(src, si, ci, LENGTH_MIN)
  {
    src[si] == src[ci] && src[si + 1] == src[ci + 1] && src[si + 2] == src[ci + 2]
  }

  /** Position `si` hashed with its next two bytes. */
  function HashAt(p: Params, src: seq<byte>, si: nat): (h: nat)
    requires p.Valid() && si + 3 <= |src|
    ensures h < p.slots
  {
    p.hash(src[si], src[si + 1], src[si + 2])
  }

  /** The token stands for the source bytes at `si`. */
  ghost predicate Covers(src: seq<byte>, si: nat, t: Token) {
    && si + t.Span() <= |src|
    && (t.Literal? ==> t.value == src[si])
    && (t.Copy? ==> t.offset <= si && Agree(src, si, si - t.offset, t.length))
  }

  ghost predicate Covering(src: seq<byte>, si: nat, ts: seq<Token>)
    decreases |ts|
  {
    if ts == [] then si == |src|
    else Covers(src, si, ts[0]) && Covering(src, si + ts[0].Span(), ts[1..])
  }

  function TokenAt(p: Params, src: seq<byte>, si: nat, table: seq<u16>): (t: Token)
    requires si < |src| && TableBelow(p, table, si)
    ensures Covers(src, si, t)
  {
    if |src| - si < LENGTH_MAX then Literal(src[si]) else TokenFrom(src, si, table[HashAt(p, src, si)])
  }

  /** The token when the table proposes position `entry`. */
  function TokenFrom(src: seq<byte>, si: nat, entry: u16): (t: Token)
    requires si + LENGTH_MAX <= |src| && entry <= si
    ensures Covers(src, si, t)
  {
    var offset := (si - entry) % OFFSETS;
    if offset != 0 && Match3(src, si, si - offset) then
      Copy(MatchLength(src, si, si - offset, LENGTH_MIN), offset)
    else
      Literal(src[si])
  }

  function TableAfter(p: Params, src: seq<byte>, si: nat, table: seq<u16>): (t: seq<u16>)
    requires si < |src| && TableBelow(p, table, si)
    ensures TableBelow(p, t, si)
  {
    if |src| - si < LENGTH_MAX then table else table[HashAt(p, src, si) := si % U16_SIZE]
  }

  /** The greedy parse of the source from `si` on. */
  function Parse(p: Params, src: seq<byte>, si: nat, table: seq<u16>): (ts: seq<Token>)
    requires si <= |src| && TableBelow(p, table, si)
    ensures Covering(src, si, ts)
    decreases |src| - si
  {
    if si == |src| then []
    else
      var t := TokenAt(p, src, si, table);
      var rest := Parse(p, src, si + t.Span(), TableAfter(p, src, si, table));
      assert ([t] + rest)[1..] == rest;
      [t] + rest
  }

  lemma ParseStep(p: Params, src: seq<byte>, si: nat, table: seq<u16>, t: Token, table': seq<u16>)
    requires si < |src| && TableBelow(p, table, si)
    requires t == TokenAt(p, src, si, table) && table' == TableAfter(p, src, si, table)
    ensures si + t.Span() <= |src| && TableBelow(p, table', si + t.Span())
    ensures Parse(p, src, si, table) == [t] + Parse(p, src, si + t.Span(), table')
  {
    hide TokenAt, TableAfter, HashAt, Covering;
  }

  function ZeroTable(): (t: seq<u16>)
    ensures |t| == TABLE_LENGTH && forall k :: 0 <= k < TABLE_LENGTH ==> t[k] == 0
  {
    seq(TABLE_LENGTH, _ => 0)
  }

  /** The tokens a fresh encoder chooses. */
  function TokensOf(p: Params, src: seq<byte>): (ts: seq<Token>)
    requires p.Valid()
    ensures Covering(src, 0, ts)
  {
    Parse(p, src, 0, ZeroTable())
  }

  /** Room for a whole worst-case group at every group start before token `n`. */
  ghost predicate FitsUpTo(ts: seq<Token>, capacity: nat, n: nat)
    requires n <= |ts|
    decreases n
  {
    n == 0 ||
    (&& FitsUpTo(ts, capacity, n - 1)
     && ((n - 1) % GROUP == 0 ==> |Serialize(ts[..n - 1])| + GROUP_ROOM <= capacity))
  }

  lemma {:induction false} FitsMono(ts: seq<Token>, capacity: nat, m: nat, n: nat)
    requires m <= n <= |ts| && FitsUpTo(ts, capacity, n)
    ensures FitsUpTo(ts, capacity, m)
    decreases n
  {
    if m == n {
    } else {
      FitsMono(ts, capacity, m, n - 1);
    }
  }

  ghost predicate Fits(ts: seq<Token>, capacity: nat) {
    FitsUpTo(ts, capacity, |ts|)
  }
}
