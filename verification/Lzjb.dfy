/** The LZJB encoder and decoder: in-place loops over buffers, proved against the
  * parse and the decoder state machine of LzjbSpec. */
module Lzjb {
  import opened Base
  import opened BitOps
  import opened LzjbSpec
  import opened LzjbProofs

  datatype CompressError = NotCompressable

  /** Shift left by one in a u8. */
  function Shl(m: byte): (r: byte) {
    2 * m % 256
  }

  /** What the encoder has written: whole groups `full`, then the group `g` whose
    * map byte at `mapIdx` is still being patched, with room for eight blocks. */
  ghost predicate Open(dst: seq<byte>, mapIdx: nat, di: nat, full: seq<Token>, g: seq<Token>) {
    && |full| % GROUP == 0 && |g| <= GROUP
    && mapIdx == |Serialize(full)| && mapIdx + GROUP_ROOM <= |dst|
    && Layout(dst, di, Serialize(full), MapByte(g), Blocks(g))
  }

  /** The first `di` bytes are `done`, a map byte and blocks. */
  ghost predicate Layout(dst: seq<byte>, di: nat, done: seq<byte>, m: byte, blocks: seq<byte>) {
    di == |done| + 1 + |blocks| <= |dst| && dst[..di] == done + ([m] + blocks)
  }

  lemma OpenIsSerialized(dst: seq<byte>, mapIdx: nat, di: nat, full: seq<Token>, g: seq<Token>)
    requires Open(dst, mapIdx, di, full, g) && g != []
    ensures dst[..di] == Serialize(full + g)
  {
    SerializeSnoc(full, g);
  }

  lemma LayoutAt(dst: seq<byte>, di: nat, done: seq<byte>, m: byte, blocks: seq<byte>)
    requires Layout(dst, di, done, m, blocks)
    ensures dst[|done|] == m
  {
    assert dst[|done|] == dst[..di][|done|];
  }

  /** Patching the map byte and appending to the blocks. */
  lemma LayoutExtends(dst: seq<byte>, dst': seq<byte>, di: nat, done: seq<byte>, m: byte, m': byte, blocks: seq<byte>,
                      b: seq<byte>)
    requires Layout(dst, di, done, m, blocks) && |dst'| == |dst| && di + |b| <= |dst|
    requires 1 <= |b| <= 2
    requires dst' == if |b| == 1 then dst[|done| := m'][di := b[0]] else dst[|done| := m'][di := b[0]][di + 1 := b[1]]
    ensures Layout(dst', di + |b|, done, m', blocks + b)
  {
    var r := done + ([m'] + (blocks + b));
    forall i | 0 <= i < di + |b| ensures dst'[..di + |b|][i] == r[i] {
      if i < di { assert dst[..di][i] == (done + ([m] + blocks))[i]; }
    }
    assert dst'[..di + |b|] == r;
  }

  lemma BlocksSnoc(g: seq<Token>, t: Token)
    ensures Blocks(g + [t]) == Blocks(g) + Block(t)
  {
    assert (g + [t])[..|g|] == g;
  }

  lemma MapByteSnoc(g: seq<Token>, t: Token)
    requires |g| < GROUP
    ensures MapByte(g + [t]) == if t.Copy? then Or(MapByte(g), Pow2(|g|)) else MapByte(g)
  {
    assert (g + [t])[..|g|] == g;
    OrDisjoint(MapByte(g), 1, |g|);
  }

  /** One block of the compressed stream: literals leave the map byte alone, copies
    * set the mask's bit in it. */
  method PutBlock(dst: array<byte>, mapIdx: nat, di: nat, mask: byte, t: Token, ghost full: seq<Token>,
                  ghost g: seq<Token>)
    returns (di': nat)
    requires Open(dst[..], mapIdx, di, full, g) && |g| < GROUP && mask == Pow2(|g|)
    modifies dst
    ensures di' == di + |Block(t)| <= dst.Length
    ensures Open(dst[..], mapIdx, di', full, g + [t])
  {
    ghost var before: seq<byte> := dst[..];
    ghost var done, m, m', blocks := Serialize(full), MapByte(g), MapByte(g + [t]), Blocks(g);
    MapByteSnoc(g, t);
    BlocksSnoc(g, t);
    LayoutAt(before, di, done, m, blocks);
    if t.Literal? {
      dst[di] := t.value;
      di' := di + 1;
      assert dst[..] == before[mapIdx := m'][di := t.value];
    } else {
      dst[mapIdx] := Or(dst[mapIdx], mask);
      var w := LengthOffset(t.length, t.offset);
      dst[di], dst[di + 1] := w / 0x100, w % 0x100;
      di' := di + 2;
      assert dst[..] == before[mapIdx := m'][di := w / 0x100][di + 1 := w % 0x100];
    }
    LayoutExtends(before, dst[..], di, done, m, m', blocks, Block(t));
  }

  /** How far two positions agree, given that they agree on LENGTH_MIN bytes. */
  method MatchFrom(src: seq<byte>, si: nat, ci: nat) returns (length: nat)
    requires si + LENGTH_MAX <= |src| && Agree(src, si, ci, LENGTH_MIN)
    ensures length == MatchLength(src, si, ci, LENGTH_MIN)
  {
    length := LENGTH_MIN;
    while length < LENGTH_MAX
      invariant LENGTH_MIN <= length <= LENGTH_MAX && Agree(src, si, ci, length)
    {
      if src[si + length] == src[ci + length] {
        AgreeMore(src, si, ci, length);
        length := length + 1;
      } else {
        break;
      }
    }
    MatchUnique(src, si, ci, length, MatchLength(src, si, ci, LENGTH_MIN));
    MatchUnique(src, si, ci, MatchLength(src, si, ci, LENGTH_MIN), length);
  }

  /** The encoder between two blocks of the stream `ts`: `full + g` is written,
    * `rest` is not, and every group so far had room. */
  ghost predicate Between(dst: seq<byte>, mapIdx: nat, di: nat, mask: byte, full: seq<Token>, g: seq<Token>,
                          rest: seq<Token>, ts: seq<Token>) {
    && ts == full + g + rest
    && FitsUpTo(ts, |dst|, |full + g|)
    && if g == [] then full == [] && di == 0 && mask == 0
       else Open(dst, mapIdx, di, full, g) && mask == Pow2(|g| - 1)
  }

  /** The encoder about to write a block: its group is open, and the mask selects
    * the block's map bit. */
  ghost predicate Ready(dst: seq<byte>, mapIdx: nat, di: nat, mask: byte, full: seq<Token>, g: seq<Token>,
                        rest: seq<Token>, ts: seq<Token>) {
    && ts == full + g + rest && rest != []
    && FitsUpTo(ts, |dst|, |full + g| + 1)
    && |g| < GROUP && Open(dst, mapIdx, di, full, g) && mask == Pow2(|g|)
  }

  lemma MaskShift(k: nat)
    requires k < GROUP
    ensures Pow2(k) < 256
    ensures Shl(Pow2(k)) == if k == GROUP - 1 then 0 else Pow2(k + 1)
  {
    Pow2Bytes();
    if k < GROUP - 1 { Pow2Mono(k + 1, 7); }
  }

  lemma WholeGroups(n: nat)
    requires n % GROUP == 0
    ensures (n + GROUP) % GROUP == 0
  {
  }

  /** One more group start: with room the tokens fit so far, without they do not fit. */
  lemma RoomAt(ts: seq<Token>, capacity: nat, n: nat)
    requires n < |ts| && n % GROUP == 0 && FitsUpTo(ts, capacity, n)
    ensures if |Serialize(ts[..n])| + GROUP_ROOM <= capacity then FitsUpTo(ts, capacity, n + 1) else !Fits(ts, capacity)
  {
    if Fits(ts, capacity) {
      FitsMono(ts, capacity, n + 1, |ts|);
    }
  }

  lemma GroupClosed(dst: seq<byte>, mapIdx: nat, di: nat, mask: byte, full: seq<Token>, g: seq<Token>,
                    rest: seq<Token>, ts: seq<Token>)
    requires Between(dst, mapIdx, di, mask, full, g, rest, ts) && Shl(mask) == 0
    ensures di <= |dst| && dst[..di] == Serialize(full + g) && |full + g| % GROUP == 0
  {
    if g != [] {
      MaskShift(|g| - 1);
      OpenIsSerialized(dst, mapIdx, di, full, g);
      WholeGroups(|full|);
    }
  }

  lemma CloseGroup(dst: seq<byte>, mapIdx: nat, di: nat, mask: byte, full: seq<Token>, g: seq<Token>,
                   rest: seq<Token>, ts: seq<Token>)
    requires Between(dst, mapIdx, di, mask, full, g, rest, ts) && rest != [] && Shl(mask) == 0
    ensures di <= |dst| && dst[..di] == Serialize(full + g) && |full + g| % GROUP == 0
    ensures |dst| - di < GROUP_ROOM ==> !Fits(ts, |dst|)
    ensures |dst| - di >= GROUP_ROOM ==> FitsUpTo(ts, |dst|, |full + g| + 1)
  {
    GroupClosed(dst, mapIdx, di, mask, full, g, rest, ts);
    assert ts[..|full + g|] == full + g;
    RoomAt(ts, |dst|, |full + g|);
  }

  lemma SameGroup(dst: seq<byte>, mapIdx: nat, di: nat, mask: byte, full: seq<Token>, g: seq<Token>, rest: seq<Token>,
                  ts: seq<Token>)
    requires Between(dst, mapIdx, di, mask, full, g, rest, ts) && rest != [] && Shl(mask) != 0
    ensures Ready(dst, mapIdx, di, Shl(mask), full, g, rest, ts)
  {
    hide Serialize, Blocks, MapByte, Pow2, Layout;
    MaskShift(|g| - 1);
    assert |full + g| % GROUP == |g|;
  }

  lemma GroupOpened(before: seq<byte>, after: seq<byte>, di: nat, full: seq<Token>, rest: seq<Token>, ts: seq<Token>)
    requires di + GROUP_ROOM <= |before| && after == before[di := 0] && before[..di] == Serialize(full)
    requires |full| % GROUP == 0 && ts == full + rest && rest != [] && FitsUpTo(ts, |before|, |full| + 1)
    ensures Ready(after, di, di + 1, 1, full, [], rest, ts)
  {
    assert full + [] == full;
    assert after[..di + 1] == Serialize(full) + ([0] + Blocks([]));
  }

  /** Moves the mask to the next map bit, opening a new group after eight blocks. */
  method NextBit(dst: array<byte>, mapIdx: nat, di: nat, mask: byte,
                 ghost full: seq<Token>, ghost g: seq<Token>, ghost rest: seq<Token>, ghost ts: seq<Token>)
    returns (ok: bool, mapIdx': nat, di': nat, mask': byte, ghost full': seq<Token>, ghost g': seq<Token>)
    requires Between(dst[..], mapIdx, di, mask, full, g, rest, ts) && rest != []
    modifies dst
    ensures if ok then Ready(dst[..], mapIdx', di', mask', full', g', rest, ts) else !Fits(ts, dst.Length)
  {
    ok, mapIdx', di', full', g' := true, mapIdx, di, full, g;
    mask' := Shl(mask);
    if mask' == 0 {
      CloseGroup(dst[..], mapIdx, di, mask, full, g, rest, ts);
      mask' := 1;
      if dst.Length - di < GROUP_ROOM {
        ok := false;
        return;
      }
      full', g' := full + g, [];
      mapIdx' := di;
      ghost var before := dst[..];
      dst[mapIdx'] := 0;
      di' := di + 1;
      assert full + g + rest == ts;
      GroupOpened(before, dst[..], di, full', rest, ts);
    } else {
      SameGroup(dst[..], mapIdx, di, mask, full, g, rest, ts);
    }
  }

  lemma Advance(dst: seq<byte>, mapIdx: nat, di: nat, mask: byte, full: seq<Token>, g: seq<Token>, rest: seq<Token>,
                ts: seq<Token>)
    requires ts == full + g + rest && rest != [] && FitsUpTo(ts, |dst|, |full + g| + 1)
    requires |g| < GROUP && Open(dst, mapIdx, di, full, g + [rest[0]]) && mask == Pow2(|g|)
    ensures Between(dst, mapIdx, di, mask, full, g + [rest[0]], rest[1..], ts)
  {
    var g' := g + [rest[0]];
    assert full + g' + rest[1..] == full + g + rest;
    assert |full + g'| == |full + g| + 1 && g' != [] && |g'| - 1 == |g|;
  }

  /** What is left to encode once the encoder stands at `si` with this table. */
  ghost predicate Remaining(p: Params, src: seq<byte>, si: nat, table: seq<u16>, rest: seq<Token>) {
    si <= |src| && TableBelow(p, table, si) && rest == Parse(p, src, si, table)
  }

  lemma RemainingNext(p: Params, src: seq<byte>, si: nat, table: seq<u16>, rest: seq<Token>, t: Token, table': seq<u16>)
    requires si < |src| && Remaining(p, src, si, table, rest)
    requires t == TokenAt(p, src, si, table) && table' == TableAfter(p, src, si, table)
    ensures rest != [] && t == rest[0] && Remaining(p, src, si + t.Span(), table', rest[1..])
  {
    ParseStep(p, src, si, table, t, table');
    assert rest[1..] == Parse(p, src, si + t.Span(), table');
  }

  lemma Finished(dst: seq<byte>, mapIdx: nat, di: nat, mask: byte, full: seq<Token>, g: seq<Token>, ts: seq<Token>)
    requires Between(dst, mapIdx, di, mask, full, g, [], ts)
    ensures Fits(ts, |dst|) && di <= |dst| && dst[..di] == Serialize(ts)
  {
    assert ts == full + g;
    if g != [] { OpenIsSerialized(dst, mapIdx, di, full, g); }
  }

  /** An encoder owns its hash table. */
  class LzjbEncoder {
    const table: array<u16>

    ghost predicate Valid()
      reads this
    {
      table.Length == TABLE_LENGTH
    }

    constructor ()
      ensures Valid() && fresh(table)
    {
      table := new u16[TABLE_LENGTH](_ => 0);
    }

    /** The token at `si`: a table lookup that also records `si`, then a match. */
    method NextToken(p: Params, src: seq<byte>, si: nat) returns (t: Token)
      requires Valid() && si < |src| && TableBelow(p, table[..], si)
      modifies table
      ensures t == TokenAt(p, src, si, old(table[..]))
      ensures table[..] == TableAfter(p, src, si, old(table[..]))
    {
      if |src| - si < LENGTH_MAX {
        return Literal(src[si]);
      }
      var h := HashAt(p, src, si);
      var offset := (si - table[h]) % OFFSETS;
      table[h] := si % U16_SIZE;
      var ci := si - offset;
      if ci != si && Match3(src, si, ci) {
        var length := MatchFrom(src, si, ci);
        return Copy(length, offset);
      }
      return Literal(src[si]);
    }

    method TakeToken(p: Params, src: seq<byte>, si: nat, ghost rest: seq<Token>) returns (t: Token)
      requires Valid() && si < |src| && Remaining(p, src, si, table[..], rest)
      modifies table
      ensures rest != [] && t == rest[0] && Remaining(p, src, si + t.Span(), table[..], rest[1..])
    {
      ghost var before := table[..];
      t := NextToken(p, src, si);
      RemainingNext(p, src, si, before, rest, t, table[..]);
    }

    /** One pass of the loop after the map bit is chosen. */
    method EncodeBlock(p: Params, dst: array<byte>, src: seq<byte>, si: nat, mapIdx: nat, di: nat, mask: byte,
                       ghost full: seq<Token>, ghost g: seq<Token>, ghost rest: seq<Token>, ghost ts: seq<Token>)
      returns (si': nat, di': nat)
      requires Valid() && table as object != dst && si < |src| && Remaining(p, src, si, table[..], rest)
      requires Ready(dst[..], mapIdx, di, mask, full, g, rest, ts)
      modifies table, dst
      ensures si < si' && Remaining(p, src, si', table[..], rest[1..])
      ensures Between(dst[..], mapIdx, di', mask, full, g + [rest[0]], rest[1..], ts)
    {
      var t := TakeToken(p, src, si, rest);
      ghost var table' := table[..];
      di' := PutBlock(dst, mapIdx, di, mask, t, full, g);
      Advance(dst[..], mapIdx, di', mask, full, g, rest, ts);
      assert table[..] == table';
      si' := si + t.Span();
    }

    /** The loop shared by compress and compress_pre_v21, over a table whose slots
      * in use are zero: on success the output begins with the serialized parse;
      * it fails exactly when some group would start with too little room. */
    method CompressWith(p: Params, dst: array<byte>, src: seq<byte>) returns (r: Result<nat, CompressError>)
      requires Valid() && table as object != dst && TableBelow(p, table[..], 0)
      modifies table, dst
      ensures r.Ok? <==> Fits(Parse(p, src, 0, old(table[..])), dst.Length)
      ensures r.Ok? ==> r.value <= dst.Length && dst[..r.value] == Serialize(Parse(p, src, 0, old(table[..])))
    {
      var si, di, mapIdx: nat := 0, 0, 0;
      var mask: byte := 0;
      ghost var ts := Parse(p, src, 0, table[..]);
      ghost var full, g, rest: seq<Token> := [], [], ts;
      while si < |src|
        invariant Remaining(p, src, si, table[..], rest)
        invariant Between(dst[..], mapIdx, di, mask, full, g, rest, ts)
        decreases |src| - si
      {
        ghost var before := table[..];
        RemainingNext(p, src, si, before, rest, TokenAt(p, src, si, before), TableAfter(p, src, si, before));
        var ok;
        ok, mapIdx, di, mask, full, g := NextBit(dst, mapIdx, di, mask, full, g, rest, ts);
        if !ok {
          return Err(NotCompressable);
        }
        assert table[..] == before;
        si, di := EncodeBlock(p, dst, src, si, mapIdx, di, mask, full, g, rest, ts);
        g, rest := g + [rest[0]], rest[1..];
      }
      Finished(dst[..], mapIdx, di, mask, full, g, ts);
      return Ok(di);
    }

    /** Success writes exactly the encoding of the source; failure happens exactly
      * when the buffer lacks room for a group; earlier use of the encoder has no
      * effect. Decompressing the bytes written gives back the source, as much as there is
      * room for. */
    method Compress(dst: array<byte>, src: seq<byte>) returns (r: Result<nat, CompressError>)
      requires Valid() && table as object != dst
      modifies table, dst
      ensures r.Ok? <==> Fits(TokensOf(V21(), src), dst.Length)
      ensures r.Ok? ==> r.value <= dst.Length && dst[..r.value] == Serialize(TokensOf(V21(), src))
      ensures r.Ok? ==> forall out :: Decode(Start(out), dst[..r.value]) == Restored(src, dst[..r.value], |out|)
    {
      forall k | 0 <= k < table.Length { table[k] := 0; }
      ParseIgnoresUnused(V21(), src, 0, table[..], ZeroTable());
      r := CompressWith(V21(), dst, src);
      if r.Ok? { EncodingDecodes(V21(), src, dst[..r.value]); }
    }

    method CompressPreV21(dst: array<byte>, src: seq<byte>) returns (r: Result<nat, CompressError>)
      requires Valid() && table as object != dst
      modifies table, dst
      ensures r.Ok? <==> Fits(TokensOf(PreV21(), src), dst.Length)
      ensures r.Ok? ==> r.value <= dst.Length && dst[..r.value] == Serialize(TokensOf(PreV21(), src))
      ensures r.Ok? ==> forall out :: Decode(Start(out), dst[..r.value]) == Restored(src, dst[..r.value], |out|)
    {
      forall k | 0 <= k < 256 { table[k] := 0; }
      ParseIgnoresUnused(PreV21(), src, 0, table[..], ZeroTable());
      r := CompressWith(PreV21(), dst, src);
      if r.Ok? { EncodingDecodes(PreV21(), src, dst[..r.value]); }
    }
  }

  /** `mask` selects the first of `bits`, the unused bits of `map_`. */
  ghost predicate AtBit(bits: seq<bool>, mask: byte, map_: byte) {
    0 < |bits| <= GROUP && mask == Pow2(GROUP - |bits|) && bits == MapBits(map_)[GROUP - |bits|..]
  }

  /** One shift of the mask selects the first of `bits`, or drops out of the byte. */
  ghost predicate BeforeBit(bits: seq<bool>, mask: byte, map_: byte) {
    if bits == [] then Shl(mask) == 0 else AtBit(bits, Shl(mask), map_)
  }

  lemma UseBit(bits: seq<bool>, mask: byte, map_: byte)
    requires AtBit(bits, mask, map_)
    ensures mask != 0 && (And(map_, mask) != 0) == bits[0] && BeforeBit(bits[1..], mask, map_)
  {
    var k := GROUP - |bits|;
    assert bits[0] == MapBits(map_)[k];
    AndBit(map_, k);
    MaskShift(k);
    if k + 1 < GROUP {
      assert bits[1..] == MapBits(map_)[k + 1..];
    }
  }

  lemma DecodeUnfolds(d: Decoder, src: seq<byte>)
    requires d.Valid(src) && d.di < |d.dst|
    ensures var fetch := FetchMap(d, src);
            if fetch.Fail? then Decode(d, src) == Err(fetch.error) else
              var block := DecodeBlock(fetch.state, src);
              Decode(d, src) == if block.Fail? then Err(block.error) else Decode(block.state, src)
  {
  }

  lemma DecodeDone(d: Decoder, src: seq<byte>)
    requires d.Valid(src) && d.di == |d.dst|
    ensures Decode(d, src) == Ok(d.dst)
  {
  }

  method Decompress(dst: array<byte>, src: seq<byte>) returns (r: Result<(), DecodeError>)
    modifies dst
    ensures r.Ok? <==> old(Decode(Start(dst[..]), src)).Ok?
    ensures r.Ok? ==> dst[..] == old(Decode(Start(dst[..]), src)).value
    ensures r.Err? ==> r.error == old(Decode(Start(dst[..]), src)).error
  {
    var si, di: nat := 0, 0;
    var mask: byte := 0;
    var map_: byte := 0;
    ghost var bits := [];
    hide Decode, DecodeCopy, MapBits;
    while di < dst.Length
      invariant di <= dst.Length && si <= |src|
      invariant Decode(Decoder(dst[..], di, si, bits), src) == old(Decode(Start(dst[..]), src))
      invariant BeforeBit(bits, mask, map_)
    {
      ghost var d := Decoder(dst[..], di, si, bits);
      DecodeUnfolds(d, src);
      mask := Shl(mask);
      if bits != [] { UseBit(bits, mask, map_); }
      if mask == 0 {
        mask := 1;
        if si == |src| {
          return Err(EndOfInput(si, |src|, 1));
        }
        map_ := src[si];
        bits := MapBits(src[si]);
        si := si + 1;
      }
      ghost var d' := Decoder(dst[..], di, si, bits);
      assert FetchMap(d, src) == Next(d');
      UseBit(bits, mask, map_);
      if And(map_, mask) != 0 {
        var step := CopyBlock(dst, di, src, si, bits);
        if step.Err? {
          return Err(step.error);
        }
        di, si := di + step.value, si + 2;
      } else {
        if si == |src| {
          return Err(EndOfInput(si, |src|, 1));
        }
        dst[di] := src[si];
        di, si := di + 1, si + 1;
      }
      bits := bits[1..];
      assert DecodeBlock(d', src) == Next(Decoder(dst[..], di, si, bits));
    }
    DecodeDone(Decoder(dst[..], di, si, bits), src);
    return Ok(());
  }

  /** The copy branch of Decompress: returns how many bytes it produced. */
  method CopyBlock(dst: array<byte>, di: nat, src: seq<byte>, si: nat, ghost bits: seq<bool>)
    returns (r: Result<nat, DecodeError>)
    requires di < dst.Length && si <= |src| && bits != []
    modifies dst
    ensures match old(DecodeCopy(Decoder(dst[..], di, si, bits), src))
            case Fail(e) => r == Err(e)
            case Next(d) => r.Ok? && d == Decoder(dst[..], di + r.value, si + 2, bits[1..])
  {
    if |src| - si < 2 {
      return Err(EndOfInput(si, |src|, 2));
    }
    var w := Word(src, si);
    var offset := w % OFFSETS;
    if di < offset {
      return Err(InvalidInput(si));
    }
    var length := Min(w / OFFSETS + LENGTH_MIN, dst.Length - di);
    CopyForward(dst, di - offset, di, length);
    return Ok(length);
  }

  /** The byte-at-a-time copy inside Decompress. */
  method CopyForward(dst: array<byte>, from: nat, to: nat, length: nat)
    requires from <= to && to + length <= dst.Length
    modifies dst
    ensures dst[..] == CopyWithin(old(dst[..]), from, to, length)
  {
    var f, t := from, to;
    for i := 0 to length
      invariant f == from + i && t == to + i
      invariant CopyWithin(dst[..], f, t, length - i) == CopyWithin(old(dst[..]), from, to, length)
    {
      ghost var before := dst[..];
      dst[t] := dst[f];
      assert dst[..] == before[t := before[f]];
      f, t := f + 1, t + 1;
    }
  }
}
