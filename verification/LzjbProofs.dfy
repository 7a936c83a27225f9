/** The LZJB round trip, proved on values: the parse expands to the source, and
  * decoding a serialized token sequence expands it. */
module LzjbProofs {
  import opened Base
  import opened BitOps
  import opened LzjbSpec

  //// The parse stands for the source

  lemma {:induction false} CopyMatches(src: seq<byte>, si: nat, offset: nat, length: nat)
    requires 1 <= offset <= si && Agree(src, si, si - offset, length)
    ensures CopyBytes(src[..si], offset, length) == src[..si + length]
    decreases length
  {
    if length == 0 {
    } else {
      assert src[si] == src[si..si + length][0] == src[si - offset];
      assert src[..si] + [src[si - offset]] == src[..si + 1];
      assert src[si + 1..si + length] == src[si..si + length][1..];
      assert src[si + 1 - offset..si - offset + length] == src[si - offset..si - offset + length][1..];
      CopyMatches(src, si + 1, offset, length - 1);
    }
  }

  /** Any covering token sequence expands to the source, overlapping copies included. */
  lemma {:induction false} CoveringExpands(src: seq<byte>, si: nat, ts: seq<Token>)
    requires si <= |src| && Covering(src, si, ts)
    ensures Expandable(src[..si], ts) && Expand(src[..si], ts) == src
    decreases |ts|
  {
    if ts == [] {
      assert src[..si] == src;
    } else {
      var t := ts[0];
      if t.Copy? {
        CopyMatches(src, si, t.offset, t.length);
      } else {
        assert src[..si] + [src[si]] == src[..si + 1];
      }
      CoveringExpands(src, si + t.Span(), ts[1..]);
    }
  }

  //// Groups

  lemma {:induction false} MapByteBit(g: seq<Token>, k: nat)
    requires k < |g| <= GROUP
    ensures BitAt(MapByte(g), k) == g[k].Copy?
  {
    var n := |g| - 1;
    var m := MapByte(g[..n]);
    if k < n {
      MapByteBit(g[..n], k);
      HighBit(m, n, k);
    } else {
      TopBit(m, n);
    }
  }

  lemma TopBit(m: nat, n: nat)
    requires m < Pow2(n)
    ensures (m + Pow2(n)) / Pow2(n) % 2 == 1 && m / Pow2(n) % 2 == 0
  {
    DivModUnique(m + Pow2(n), Pow2(n), 1, m);
    DivModUnique(m, Pow2(n), 0, m);
  }

  /** A higher bit does not disturb a lower one. */
  lemma HighBit(m: nat, n: nat, k: nat)
    requires k < n
    ensures (m + Pow2(n)) / Pow2(k) % 2 == m / Pow2(k) % 2
  {
    Pow2Add(n - k, k);
    AddMultiple(m, Pow2(n - k), Pow2(k));
    AddMultiple(m / Pow2(k), Pow2(n - k - 1), 2);
  }

  lemma {:induction false} BlocksConcat(a: seq<Token>, b: seq<Token>)
    ensures Blocks(a + b) == Blocks(a) + Blocks(b)
  {
    if b == [] {
      assert a + b == a;
    } else {
      assert (a + b)[..|a + b| - 1] == a + b[..|b| - 1];
      BlocksConcat(a, b[..|b| - 1]);
    }
  }

  lemma BlocksFirst(h: seq<Token>)
    requires h != []
    ensures Blocks(h) == Block(h[0]) + Blocks(h[1..])
  {
    assert h == [h[0]] + h[1..];
    BlocksConcat([h[0]], h[1..]);
    assert Blocks([h[0]]) == Blocks([]) + Block(h[0]) == Block(h[0]);
  }

  /** Appending one group after whole groups. */
  lemma {:induction false} SerializeSnoc(full: seq<Token>, g: seq<Token>)
    requires |full| % GROUP == 0 && 0 < |g| <= GROUP
    ensures Serialize(full + g) == Serialize(full) + Group(g)
  {
    if full == [] {
      assert full + g == g && g[..|g|] == g && g[|g|..] == [];
    } else {
      assert (full + g)[..GROUP] == full[..GROUP];
      assert (full + g)[GROUP..] == full[GROUP..] + g;
      SerializeSnoc(full[GROUP..], g);
    }
  }

  //// Decoding a serialized token sequence

  lemma {:induction false} CopyWithinCopies(dst: seq<byte>, out: seq<byte>, offset: nat, length: nat)
    requires 1 <= offset <= |out| && |out| + length <= |dst| && out <= dst
    ensures CopyBytes(out, offset, length) <= CopyWithin(dst, |out| - offset, |out|, length)
    decreases length
  {
    if length == 0 {
    } else {
      var b := out[|out| - offset];
      assert dst[|out| - offset] == b;
      assert out + [b] <= dst[|out| := b];
      CopyWithinCopies(dst[|out| := b], out + [b], offset, length - 1);
    }
  }

  lemma WordOfBlock(src: seq<byte>, si: nat, t: Token)
    requires t.Copy? && si <= |src| && Block(t) <= src[si..]
    ensures si + 2 <= |src| && Word(src, si) / OFFSETS + LENGTH_MIN == t.length && Word(src, si) % OFFSETS == t.offset
  {
    var w := LengthOffset(t.length, t.offset);
    assert src[si] == src[si..][0] == w / 0x100 && src[si + 1] == src[si..][1] == w % 0x100;
    assert Word(src, si) == w;
  }

  /** One pass of the decoder's loop body undoes one block. */
  lemma DecodeOneBlock(d: Decoder, out: seq<byte>, t: Token, src: seq<byte>)
    requires d.Valid(src) && d.di == |out| && out <= d.dst && Block(t) <= src[d.si..]
    requires Applies(out, t) && |Apply(out, t)| <= |d.dst|
    requires d.bits != [] && d.bits[0] == t.Copy?
    ensures var r := DecodeBlock(d, src);
            && r.Next? && r.state.bits == d.bits[1..]
            && r.state.si == d.si + |Block(t)| && r.state.di == |Apply(out, t)|
            && |r.state.dst| == |d.dst| && Apply(out, t) <= r.state.dst
  {
    hide CopyWithin, CopyBytes, Word;
    match t
    case Literal(v) =>
      assert src[d.si] == src[d.si..][0] == v;
      assert out + [v] <= d.dst[d.di := v];
    case Copy(length, offset) =>
      WordOfBlock(src, d.si, t);
      CopyWithinCopies(d.dst, out, offset, length);
  }

  /** The bits are the block kinds of `h`, with zeros after them. */
  ghost predicate BitsOf(bits: seq<bool>, h: seq<Token>) {
    |h| <= |bits| && forall j :: 0 <= j < |bits| ==> bits[j] == (j < |h| && h[j].Copy?)
  }

  /** The decoder has produced `out`; blocks `h` of its group remain, before the
    * groups of `rest`. */
  ghost predicate InGroup(d: Decoder, out: seq<byte>, h: seq<Token>, rest: seq<Token>, src: seq<byte>) {
    && d.Valid(src) && d.di == |out| && out <= d.dst
    && BitsOf(d.bits, h) && (rest != [] ==> |d.bits| == |h|)
    && Blocks(h) + Serialize(rest) <= src[d.si..]
    && Expandable(out, h + rest)
  }

  lemma GroupBits(g: seq<Token>)
    requires |g| <= GROUP
    ensures BitsOf(MapBits(MapByte(g)), g)
  {
    forall j | 0 <= j < GROUP
      ensures MapBits(MapByte(g))[j] == (j < |g| && g[j].Copy?)
    {
      if j < |g| {
        MapByteBit(g, j);
      } else {
        Pow2Mono(|g|, j);
        TopBit(MapByte(g), j);
      }
    }
  }

  lemma SerializeGroup(g: seq<Token>, rest: seq<Token>)
    requires 0 < |g| <= GROUP && (rest != [] ==> |g| == GROUP)
    ensures Serialize(g + rest) == [MapByte(g)] + (Blocks(g) + Serialize(rest))
  {
    assert (g + rest)[..|g|] == g && (g + rest)[|g|..] == rest;
  }

  lemma GroupBytes(g: seq<Token>, rest: seq<Token>, src: seq<byte>, si: nat)
    requires 0 < |g| <= GROUP && (rest != [] ==> |g| == GROUP)
    requires si <= |src| && Serialize(g + rest) <= src[si..]
    ensures si < |src| && src[si] == MapByte(g) && Blocks(g) + Serialize(rest) <= src[si + 1..]
  {
    var m := MapByte(g);
    SerializeGroup(g, rest);
    PrefixSplit([m], Blocks(g) + Serialize(rest), src, si);
    assert src[si] == src[si..][0];
  }

  lemma BlockBytes(h: seq<Token>, rest: seq<Token>, src: seq<byte>, si: nat)
    requires h != [] && si <= |src| && Blocks(h) + Serialize(rest) <= src[si..]
    ensures Block(h[0]) <= src[si..] && si + |Block(h[0])| <= |src|
    ensures Blocks(h[1..]) + Serialize(rest) <= src[si + |Block(h[0])|..]
  {
    BlocksFirst(h);
    PrefixSplit3(Block(h[0]), Blocks(h[1..]), Serialize(rest), src, si);
  }

  lemma NoBlocks()
    ensures Blocks([]) == [] && Serialize([]) == []
  {
  }

  lemma FirstGroup(ts: seq<Token>, src: seq<byte>, si: nat) returns (g: seq<Token>, rest: seq<Token>)
    requires ts != [] && si <= |src| && Blocks([]) + Serialize(ts) <= src[si..]
    ensures ts == g + rest && 0 < |g| <= GROUP && (rest != [] ==> |g| == GROUP)
    ensures si < |src| && src[si] == MapByte(g) && Blocks(g) + Serialize(rest) <= src[si + 1..]
    ensures |Serialize(ts)| == 1 + |Blocks(g)| + |Serialize(rest)|
  {
    hide Blocks, Serialize, MapByte;
    var n := Min(GROUP, |ts|);
    g, rest := ts[..n], ts[n..];
    assert ts == g + rest;
    NoBlocks();
    assert [] + Serialize(ts) == Serialize(ts);
    SerializeGroup(g, rest);
    GroupBytes(g, rest, src, si);
  }

  lemma EnterGroup(d: Decoder, out: seq<byte>, ts: seq<Token>, src: seq<byte>)
    returns (d': Decoder, g: seq<Token>, rest: seq<Token>)
    requires InGroup(d, out, [], ts, src) && ts != []
    ensures ts == g + rest && g != [] && FetchMap(d, src) == Next(d') && InGroup(d', out, g, rest, src)
    ensures d'.si + |Blocks(g)| + |Serialize(rest)| == d.si + |Serialize(ts)|
  {
    g, rest := FirstGroup(ts, src, d.si);
    d' := d.(si := d.si + 1, bits := MapBits(MapByte(g)));
    assert [] + ts == ts;
    GroupBits(g);
  }

  lemma ExpandFirst(out: seq<byte>, h: seq<Token>, rest: seq<Token>)
    requires h != [] && Expandable(out, h + rest)
    ensures Applies(out, h[0])
    ensures var out' := Apply(out, h[0]);
            && Expandable(out', h[1..] + rest)
            && Expand(out, h + rest) == Expand(out', h[1..] + rest)
            && out' <= Expand(out, h + rest)
  {
    assert (h + rest)[1..] == h[1..] + rest;
  }

  lemma StepGroup(d: Decoder, out: seq<byte>, h: seq<Token>, rest: seq<Token>, src: seq<byte>)
    returns (d': Decoder, out': seq<byte>)
    requires InGroup(d, out, h, rest, src) && h != [] && Applies(out, h[0]) && |Apply(out, h[0])| <= |d.dst|
    ensures d.di < |d.dst| && DecodeBlock(d, src) == Next(d') && |d'.dst| == |d.dst|
    ensures InGroup(d', out', h[1..], rest, src)
    ensures Expand(out', h[1..] + rest) == Expand(out, h + rest)
    ensures d'.si + |Blocks(h[1..])| == d.si + |Blocks(h)|
  {
    var t := h[0];
    ExpandFirst(out, h, rest);
    out' := Apply(out, t);
    BlockBytes(h, rest, src, d.si);
    BlocksFirst(h);
    DecodeOneBlock(d, out, t, src);
    d' := DecodeBlock(d, src).state;
  }

  lemma {:induction false} ShorterCopy(out: seq<byte>, offset: nat, m: nat, n: nat)
    requires 1 <= offset <= |out| && m <= n
    ensures CopyBytes(out, offset, m) == CopyBytes(out, offset, n)[..|out| + m]
    decreases m
  {
    if m == 0 {
    } else {
      ShorterCopy(out + [out[|out| - offset]], offset, m - 1, n - 1);
    }
  }

  lemma CutCopy(dst: seq<byte>, out: seq<byte>, offset: nat, length: nat)
    requires 1 <= offset <= |out| <= |dst| < |out| + length && out <= dst
    ensures CopyWithin(dst, |out| - offset, |out|, |dst| - |out|) == CopyBytes(out, offset, length)[..|dst|]
  {
    hide CopyWithin, CopyBytes;
    CopyWithinCopies(dst, out, offset, |dst| - |out|);
    ShorterCopy(out, offset, |dst| - |out|, length);
  }

  /** The last copy is cut to the end of the buffer. */
  lemma CutBlock(d: Decoder, out: seq<byte>, t: Token, src: seq<byte>)
    requires d.Valid(src) && d.di == |out| && out <= d.dst && Block(t) <= src[d.si..]
    requires Applies(out, t) && |out| < |d.dst| < |Apply(out, t)|
    requires d.bits != [] && d.bits[0] == t.Copy?
    ensures var r := DecodeBlock(d, src);
            r.Next? && r.state.di == |r.state.dst| && r.state.dst == Apply(out, t)[..|d.dst|]
  {
    hide CopyWithin, CopyBytes, Block, Word;
    WordOfBlock(src, d.si, t);
    CutCopy(d.dst, out, t.offset, t.length);
  }

  lemma CutGroup(d: Decoder, out: seq<byte>, h: seq<Token>, rest: seq<Token>, src: seq<byte>)
    requires InGroup(d, out, h, rest, src) && h != [] && Applies(out, h[0])
    requires d.di < |d.dst| < |Apply(out, h[0])| <= |Expand(out, h + rest)|
    requires Apply(out, h[0]) <= Expand(out, h + rest)
    ensures Decode(d, src) == Ok(Expand(out, h + rest)[..|d.dst|])
  {
    hide Apply, Expand, Expandable, Serialize, Blocks, Block, DecodeBlock;
    BlockBytes(h, rest, src, d.si);
    CutBlock(d, out, h[0], src);
    assert Apply(out, h[0])[..|d.dst|] == Expand(out, h + rest)[..|d.dst|];
  }

  /** With nothing left to read and room in the buffer, the zero bits after the last block
    * ask for a byte that is not there. */
  lemma OutOfInput(d: Decoder, out: seq<byte>, src: seq<byte>)
    requires InGroup(d, out, [], [], src) && d.di < |d.dst| && d.si == |src|
    ensures Decode(d, src) == Err(EndOfInput(|src|, |src|, 1))
  {
  }

  /** What decoding makes of tokens that stand for `goal`: as much of it as there is room
    * for, or, with more room and no more input, an error. */
  ghost predicate DecodesTo(d: Decoder, src: seq<byte>, goal: seq<byte>, left: nat)
    requires d.Valid(src)
  {
    && (|d.dst| <= |goal| ==> Decode(d, src) == Ok(goal[..|d.dst|]))
    && (|d.dst| > |goal| && |src| == d.si + left ==> Decode(d, src) == Err(EndOfInput(|src|, |src|, 1)))
  }

  lemma FullBuffer(d: Decoder, out: seq<byte>, src: seq<byte>, goal: seq<byte>, left: nat)
    requires d.Valid(src) && d.di == |d.dst| == |out| && out <= d.dst && out <= goal
    ensures DecodesTo(d, src, goal, left)
  {
    assert d.dst == out == goal[..|out|];
  }

  lemma DecodesOn(d: Decoder, d': Decoder, d'': Decoder, src: seq<byte>, goal: seq<byte>, left: nat, left': nat)
    requires d.Valid(src) && d.di < |d.dst| && FetchMap(d, src) == Next(d')
    requires d'' == d' || DecodeBlock(d', src) == Next(d'')
    requires |d''.dst| == |d.dst| && d.si + left == d''.si + left' && d''.Valid(src) && DecodesTo(d'', src, goal, left')
    ensures DecodesTo(d, src, goal, left)
  {
  }

  /** Decoding a serialized token sequence, from anywhere inside it and into a buffer of any
    * length, expands it. */
  lemma {:induction false} DecodeTokens(d: Decoder, out: seq<byte>, h: seq<Token>, rest: seq<Token>, src: seq<byte>)
    requires InGroup(d, out, h, rest, src)
    ensures DecodesTo(d, src, Expand(out, h + rest), |Blocks(h)| + |Serialize(rest)|)
    decreases |rest|, |h|
  {
    hide *;
    Facts(d, out, h, rest, src);
    var goal, left := Expand(out, h + rest), |Blocks(h)| + |Serialize(rest)|;
    if d.di == |d.dst| {
      FullBuffer(d, out, src, goal, left);
    } else if h != [] {
      ExpandFirst(out, h, rest);
      if |Apply(out, h[0])| <= |d.dst| {
        var d', out' := StepGroup(d, out, h, rest, src);
        DecodeTokens(d', out', h[1..], rest, src);
        MidGroup(d, h, src);
        DecodesOn(d, d, d', src, goal, left, |Blocks(h[1..])| + |Serialize(rest)|);
      } else {
        CutGroup(d, out, h, rest, src);
        CutDecodes(d, src, goal, left);
      }
    } else if rest != [] {
      var d', g, rest' := EnterGroup(d, out, rest, src);
      assert h + rest == g + rest';
      DecodeTokens(d', out, g, rest', src);
      NoBlocks();
      DecodesOn(d, d', d', src, goal, left, |Blocks(g)| + |Serialize(rest')|);
    } else {
      Ended(d, out, src);
    }
  }

  lemma Facts(d: Decoder, out: seq<byte>, h: seq<Token>, rest: seq<Token>, src: seq<byte>)
    requires InGroup(d, out, h, rest, src)
    ensures d.Valid(src) && d.di == |out| <= |d.dst| && out <= d.dst && BitsOf(d.bits, h)
    ensures Expandable(out, h + rest)
  {
  }

  lemma MidGroup(d: Decoder, h: seq<Token>, src: seq<byte>)
    requires d.Valid(src) && h != [] && BitsOf(d.bits, h)
    ensures FetchMap(d, src) == Next(d)
  {
  }

  lemma CutDecodes(d: Decoder, src: seq<byte>, goal: seq<byte>, left: nat)
    requires d.Valid(src) && |d.dst| <= |goal| && Decode(d, src) == Ok(goal[..|d.dst|])
    ensures DecodesTo(d, src, goal, left)
  {
  }

  lemma Ended(d: Decoder, out: seq<byte>, src: seq<byte>)
    requires InGroup(d, out, [], [], src) && d.di < |d.dst|
    ensures Expand(out, [] + []) == out && DecodesTo(d, src, out, |Blocks([])| + |Serialize([])|)
  {
    if d.si == |src| {
      OutOfInput(d, out, src);
    }
  }

  /** What decompressing `enc`, the encoding of `src`, into `n` bytes gives. */
  function Restored(src: seq<byte>, enc: seq<byte>, n: nat): (r: Result<seq<byte>, DecodeError>) {
    if n <= |src| then Ok(src[..n]) else Err(EndOfInput(|enc|, |enc|, 1))
  }

  /** Whatever parse the encoder makes, decompressing its serialization gives back as much
    * of the source as there is room for, and an error when there is room for more. */
  lemma CoveringRoundTrip(src: seq<byte>, ts: seq<Token>, dst: seq<byte>, trailing: seq<byte>)
    requires Covering(src, 0, ts)
    ensures |dst| <= |src| || trailing == [] ==>
              Decode(Start(dst), Serialize(ts) + trailing) == Restored(src, Serialize(ts) + trailing, |dst|)
  {
    hide Decode, Expand, Expandable, InGroup, Serialize, Blocks, Covering;
    assert src[..0] == [] && [] + ts == ts;
    CoveringExpands(src, 0, ts);
    Opens(dst, ts, Serialize(ts) + trailing);
    DecodeTokens(Start(dst), [], [], ts, Serialize(ts) + trailing);
    NoBlocks();
  }

  lemma Opens(dst: seq<byte>, ts: seq<Token>, enc: seq<byte>)
    requires Expandable([], [] + ts) && Serialize(ts) <= enc
    ensures InGroup(Start(dst), [], [], ts, enc)
  {
    hide Expandable, Serialize, Blocks;
    NoBlocks();
    assert enc[0..] == enc && [] + Serialize(ts) == Serialize(ts);
  }

  /** Decompressing what the encoder emits, into any buffer up to the source's length and
    * with any bytes after it, gives back that much of the source; into a longer buffer, it
    * ends in an error. */
  lemma RoundTrip(p: Params, src: seq<byte>, dst: seq<byte>, trailing: seq<byte>)
    requires p.Valid()
    ensures var enc := Serialize(TokensOf(p, src)) + trailing;
            && (|dst| <= |src| ==> Decode(Start(dst), enc) == Ok(src[..|dst|]))
            && (|dst| > |src| && trailing == [] ==> Decode(Start(dst), enc) == Err(EndOfInput(|enc|, |enc|, 1)))
  {
    hide Decode, Serialize;
    CoveringRoundTrip(src, TokensOf(p, src), dst, trailing);
  }

  lemma EncodingDecodes(p: Params, src: seq<byte>, enc: seq<byte>)
    requires p.Valid() && enc == Serialize(TokensOf(p, src))
    ensures forall out :: Decode(Start(out), enc) == Restored(src, enc, |out|)
  {
    hide Decode, Serialize;
    forall out: seq<byte>
      ensures Decode(Start(out), enc) == Restored(src, enc, |out|)
    {
      RoundTrip(p, src, out, []);
      assert enc + [] == enc;
    }
  }

  lemma StepIgnoresUnused(p: Params, src: seq<byte>, si: nat, t1: seq<u16>, t2: seq<u16>)
    requires si < |src| && TableBelow(p, t1, si) && TableBelow(p, t2, si) && t1[..p.slots] == t2[..p.slots]
    ensures TokenAt(p, src, si, t1) == TokenAt(p, src, si, t2)
    ensures TableAfter(p, src, si, t1)[..p.slots] == TableAfter(p, src, si, t2)[..p.slots]
  {
    if |src| - si >= LENGTH_MAX {
      var h := HashAt(p, src, si);
      SamePrefixUpdated(t1, t2, p.slots, h, si % U16_SIZE);
    }
  }

  lemma SamePrefixUpdated(t1: seq<u16>, t2: seq<u16>, n: nat, h: nat, v: u16)
    requires h < n <= |t1| && n <= |t2| && t1[..n] == t2[..n]
    ensures t1[h] == t2[h] && t1[h := v][..n] == t2[h := v][..n]
  {
    assert t1[h] == t1[..n][h] == t2[..n][h] == t2[h];
    assert t1[h := v][..n] == t1[..n][h := v];
  }

  /** Slots past the ones in use never reach the output. */
  lemma {:induction false} ParseIgnoresUnused(p: Params, src: seq<byte>, si: nat, t1: seq<u16>, t2: seq<u16>)
    requires si <= |src| && TableBelow(p, t1, si) && TableBelow(p, t2, si) && t1[..p.slots] == t2[..p.slots]
    ensures Parse(p, src, si, t1) == Parse(p, src, si, t2)
    decreases |src| - si
  {
    hide TokenAt, TableAfter, HashAt, Covering;
    if si == |src| {
    } else {
      StepIgnoresUnused(p, src, si, t1, t2);
      var t, t1', t2' := TokenAt(p, src, si, t1), TableAfter(p, src, si, t1), TableAfter(p, src, si, t2);
      ParseStep(p, src, si, t1, t, t1');
      ParseStep(p, src, si, t2, t, t2');
      ParseIgnoresUnused(p, src, si + t.Span(), t1', t2');
    }
  }
}
