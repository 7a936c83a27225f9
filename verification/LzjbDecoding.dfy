/** What a successful decompression owes to the source and what to the buffer it was
  * given (src/compression/lzjb.rs). */
module LzjbDecoding {
  import opened Base
  import opened LzjbSpec

  /** A copy changes nothing outside the bytes it writes. */
  lemma {:induction false} CopyKeeps(dst: seq<byte>, from: nat, to: nat, length: nat, i: nat)
    requires from <= to && to + length <= |dst| && i < |dst| && (i < to || to + length <= i)
    ensures CopyWithin(dst, from, to, length)[i] == dst[i]
    decreases length
  {
    if length == 0 {
    } else {
      CopyKeeps(dst[to := dst[from]], from + 1, to + 1, length - 1, i);
    }
  }

  /** A copy of bytes onto themselves changes nothing at all. */
  lemma {:induction false} SelfCopyIsIdle(dst: seq<byte>, at: nat, length: nat)
    requires at + length <= |dst|
    ensures CopyWithin(dst, at, at, length) == dst
    decreases length
  {
    if length == 0 {
    } else {
      assert dst[at := dst[at]] == dst;
      SelfCopyIsIdle(dst, at + 1, length - 1);
    }
  }

  /** Forward copies from written bytes agree where the written bytes do. */
  lemma {:induction false} CopyAgrees(a: seq<byte>, b: seq<byte>, from: nat, to: nat, length: nat)
    requires from < to && to + length <= |a| == |b| && a[..to] == b[..to]
    ensures CopyWithin(a, from, to, length)[..to + length] == CopyWithin(b, from, to, length)[..to + length]
    decreases length
  {
    if length == 0 {
    } else {
      var a', b' := a[to := a[from]], b[to := b[from]];
      assert a[from] == a[..to][from] == b[..to][from];
      assert a'[..to + 1] == a[..to] + [a[from]] && b'[..to + 1] == b[..to] + [b[from]];
      CopyAgrees(a', b', from + 1, to + 1, length - 1);
    }
  }

  /** Decoders that stand at the same place, whatever their buffers hold. */
  predicate Abreast(c: Decoder, d: Decoder) {
    |c.dst| == |d.dst| && c.di == d.di && c.si == d.si && c.bits == d.bits
  }

  /** The next block is a copy that names the byte it writes. */
  predicate IsSelfCopy(d: Decoder, src: seq<byte>) {
    d.bits != [] && d.bits[0] && d.si + 2 <= |src| && Word(src, d.si) % OFFSETS == 0
  }

  /** One pass of the loop. */
  function Pass(d: Decoder, src: seq<byte>): (r: Step)
    requires d.Valid(src) && d.di < |d.dst|
    ensures r.Next? ==> r.state.Valid(src) && |r.state.dst| == |d.dst| && r.state.di > d.di
  {
    match FetchMap(d, src)
    case Fail(e) => Fail(e)
    case Next(d') => DecodeBlock(d', src)
  }

  /** Where the run first copies a byte onto itself. */
  function FirstSelfCopy(d: Decoder, src: seq<byte>): (r: Option<nat>)
    requires d.Valid(src)
    decreases |d.dst| - d.di
  {
    if d.di == |d.dst| then None
    else
      match FetchMap(d, src)
      case Fail(_) => None
      case Next(d') =>
        match DecodeBlock(d', src)
        case Fail(_) => None
        case Next(d'') => if IsSelfCopy(d', src) then Some(d.di) else FirstSelfCopy(d'', src)
  }

  /** A pass writes from `di` to its new position, and nowhere else. */
  lemma PassKeeps(d: Decoder, src: seq<byte>, i: nat)
    requires d.Valid(src) && d.di < |d.dst| && Pass(d, src).Next? && i < |d.dst|
    requires i < d.di || Pass(d, src).state.di <= i
    ensures Pass(d, src).state.dst[i] == d.dst[i]
  {
    var d' := FetchMap(d, src).state;
    if d'.bits[0] {
      var w := Word(src, d'.si);
      var length := Min(w / OFFSETS + LENGTH_MIN, |d.dst| - d.di);
      CopyKeeps(d.dst, d.di - w % OFFSETS, d.di, length, i);
    }
  }

  /** How a pass moves does not depend on the buffer. */
  lemma PassAbreast(c: Decoder, d: Decoder, src: seq<byte>)
    requires c.Valid(src) && d.Valid(src) && Abreast(c, d) && c.di < |c.dst|
    ensures match Pass(c, src)
            case Fail(e) => Pass(d, src) == Fail(e)
            case Next(c') => Pass(d, src).Next? && Abreast(c', Pass(d, src).state)
  {
  }

  /** Nor, so long as no byte is copied onto itself, does what it writes. */
  lemma PassAgrees(c: Decoder, d: Decoder, src: seq<byte>)
    requires c.Valid(src) && d.Valid(src) && Abreast(c, d) && c.di < |c.dst| && c.dst[..c.di] == d.dst[..d.di]
    requires Pass(c, src).Next? && !IsSelfCopy(FetchMap(c, src).state, src)
    ensures Pass(d, src).Next? && Abreast(Pass(c, src).state, Pass(d, src).state)
    ensures Pass(c, src).state.dst[..Pass(c, src).state.di] == Pass(d, src).state.dst[..Pass(c, src).state.di]
  {
    PassAbreast(c, d, src);
    var c' := FetchMap(c, src).state;
    if c'.bits[0] {
      var w := Word(src, c'.si);
      CopyAgrees(c.dst, d.dst, c.di - w % OFFSETS, c.di, Min(w / OFFSETS + LENGTH_MIN, |c.dst| - c.di));
    } else {
      var b := src[c'.si];
      assert c.dst[c.di := b][..c.di + 1] == c.dst[..c.di] + [b];
      assert d.dst[c.di := b][..c.di + 1] == d.dst[..c.di] + [b];
    }
  }

  /** Success, failure and the place of the first such copy do not depend on it either. */
  lemma {:induction false} RunAbreast(c: Decoder, d: Decoder, src: seq<byte>)
    requires c.Valid(src) && d.Valid(src) && Abreast(c, d)
    ensures FirstSelfCopy(c, src) == FirstSelfCopy(d, src)
    ensures Decode(c, src).Ok? <==> Decode(d, src).Ok?
    ensures Decode(c, src).Err? ==> Decode(d, src) == Decode(c, src)
    decreases |c.dst| - c.di
  {
    if c.di == |c.dst| {
    } else {
      PassAbreast(c, d, src);
      if Pass(c, src).Next? {
        RunAbreast(Pass(c, src).state, Pass(d, src).state, src);
      }
    }
  }

  /** Without one, runs that agree on what is written end alike. */
  lemma {:induction false} RunAgrees(c: Decoder, d: Decoder, src: seq<byte>)
    requires c.Valid(src) && d.Valid(src) && Abreast(c, d) && c.dst[..c.di] == d.dst[..d.di]
    requires FirstSelfCopy(c, src) == None
    ensures Decode(c, src) == Decode(d, src)
    decreases |c.dst| - c.di
  {
    if c.di == |c.dst| {
      assert c.dst == c.dst[..c.di] && d.dst == d.dst[..d.di];
    } else {
      PassAbreast(c, d, src);
      if Pass(c, src).Next? {
        PassAgrees(c, d, src);
        RunAgrees(Pass(c, src).state, Pass(d, src).state, src);
      }
    }
  }

  /** What is written stays written. */
  lemma {:induction false} RunKeeps(d: Decoder, src: seq<byte>, i: nat)
    requires d.Valid(src) && Decode(d, src).Ok? && i < d.di
    ensures Decode(d, src).value[i] == d.dst[i]
    decreases |d.dst| - d.di
  {
    if d.di == |d.dst| {
    } else {
      PassKeeps(d, src, i);
      RunKeeps(Pass(d, src).state, src, i);
    }
  }

  /** With one, the byte the buffer held there is in the output. */
  lemma {:induction false} OldByteSurvives(d: Decoder, src: seq<byte>, k: nat)
    requires d.Valid(src) && Decode(d, src).Ok? && FirstSelfCopy(d, src) == Some(k)
    ensures d.di <= k < |d.dst| && Decode(d, src).value[k] == d.dst[k]
    decreases |d.dst| - d.di
  {
    var d', next := FetchMap(d, src).state, Pass(d, src).state;
    if IsSelfCopy(d', src) {
      SelfCopyIsIdle(d.dst, d.di, next.di - d.di);
      RunKeeps(next, src, k);
    } else {
      OldByteSurvives(next, src, k);
      PassKeeps(d, src, k);
    }
  }

  /** Main result: a successful decompression gives the same bytes whatever the buffer
    * held exactly when no copy it executed names the byte it writes. */
  lemma SourceAloneDecides(dst: seq<byte>, src: seq<byte>)
    requires Decode(Start(dst), src).Ok?
    ensures (forall other :: |other| == |dst| ==> Decode(Start(other), src) == Decode(Start(dst), src))
            <==> FirstSelfCopy(Start(dst), src) == None
  {
    match FirstSelfCopy(Start(dst), src)
    case None =>
      forall other: seq<byte> | |other| == |dst|
        ensures Decode(Start(other), src) == Decode(Start(dst), src)
      {
        RunAgrees(Start(dst), Start(other), src);
      }
    case Some(k) =>
      OldByteSurvives(Start(dst), src, k);
      var other := dst[k := if dst[k] == 0 then 1 else 0];
      RunAbreast(Start(dst), Start(other), src);
      OldByteSurvives(Start(other), src, k);
      assert Decode(Start(other), src) != Decode(Start(dst), src);
  }

  /** The shortest such source: one copy of offset 0 leaves the buffer as it was. */
  lemma BufferShowsThrough(dst: seq<byte>)
    requires |dst| == 3
    ensures Decode(Start(dst), [1, 0, 0]) == Ok(dst) && FirstSelfCopy(Start(dst), [1, 0, 0]) == Some(0)
  {
    var src: seq<byte> := [1, 0, 0];
    var d' := FetchMap(Start(dst), src).state;
    assert d' == Decoder(dst, 0, 1, MapBits(1));
    assert d'.bits[0];
    assert Word(src, 1) == 0;
    SelfCopyIsIdle(dst, 0, 3);
  }
}
