/** What the bytes of a compressed stream mean to the decoder, in plain numbers
  * (src/compression/lzjb.rs). */
module LzjbFormat {
  import opened Base
  import opened BitOps
  import opened LzjbSpec
  import opened LzjbDecoding

  /** After a forward copy each byte written is the one that far back. */
  lemma {:induction false} CopyRepeats(dst: seq<byte>, from: nat, to: nat, length: nat, k: nat)
    requires from <= to && to + length <= |dst| && k < length
    ensures CopyWithin(dst, from, to, length)[to + k] == CopyWithin(dst, from, to, length)[from + k]
    decreases length
  {
    var dst' := dst[to := dst[from]];
    if k == 0 {
      CopyKeeps(dst', from + 1, to + 1, length - 1, to);
      CopyKeeps(dst', from + 1, to + 1, length - 1, from);
    } else {
      CopyRepeats(dst', from + 1, to + 1, length - 1, k - 1);
    }
  }

  /** The place of a copy: how far back, and how many bytes into `room`. */
  function OffsetAt(b0: byte, b1: byte): (n: nat) {
    b0 % 4 * 256 + b1
  }

  function LengthAt(b0: byte, room: nat): (n: nat)
    ensures n <= room
  {
    if b0 / 4 + 3 <= room then b0 / 4 + 3 else room
  }

  lemma WordParts(src: seq<byte>, si: nat)
    requires si + 2 <= |src|
    ensures Word(src, si) % OFFSETS == OffsetAt(src[si], src[si + 1])
    ensures Word(src, si) / OFFSETS + LENGTH_MIN == src[si] / 4 + 3
  {
    var b0, b1 := src[si], src[si + 1];
    assert Word(src, si) == b0 / 4 * 1024 + OffsetAt(b0, b1);
  }

  /** A copy takes two bytes: six bits of length less three, ten bits of offset. It is
    * refused exactly when it reaches back before the output; otherwise every byte it
    * writes is the one `offset` back, and no other byte changes. */
  lemma CopyBlock(d: Decoder, src: seq<byte>)
    requires d.Valid(src) && d.di < |d.dst| && d.bits != [] && d.bits[0]
    ensures |src| < d.si + 2 ==> DecodeBlock(d, src) == Fail(EndOfInput(d.si, |src|, 2))
    ensures d.si + 2 <= |src| ==>
              var offset, length := OffsetAt(src[d.si], src[d.si + 1]), LengthAt(src[d.si], |d.dst| - d.di);
              var r := DecodeBlock(d, src);
              && (r.Fail? <==> d.di < offset)
              && (r.Fail? ==> r.error == InvalidInput(d.si))
              && (r.Next? ==>
                    && r.state.di == d.di + length && r.state.si == d.si + 2 && r.state.bits == d.bits[1..]
                    && |r.state.dst| == |d.dst|
                    && (forall k :: d.di <= k < d.di + length ==> r.state.dst[k] == r.state.dst[k - offset])
                    && (forall k :: 0 <= k < |d.dst| && (k < d.di || d.di + length <= k || offset == 0) ==>
                          r.state.dst[k] == d.dst[k]))
  {
    if d.si + 2 <= |src| {
      hide CopyWithin, Word;
      WordParts(src, d.si);
      var offset, length := OffsetAt(src[d.si], src[d.si + 1]), LengthAt(src[d.si], |d.dst| - d.di);
      if offset <= d.di {
        Copied(d.dst, d.di, offset, length);
      }
    }
  }

  lemma Copied(dst: seq<byte>, di: nat, offset: nat, length: nat)
    requires offset <= di && di + length <= |dst|
    ensures var r := CopyWithin(dst, di - offset, di, length);
            && (forall k :: di <= k < di + length ==> r[k] == r[k - offset])
            && (forall k :: 0 <= k < |dst| && (k < di || di + length <= k || offset == 0) ==> r[k] == dst[k])
  {
    hide CopyWithin;
    var r := CopyWithin(dst, di - offset, di, length);
    forall k | di <= k < di + length
      ensures r[k] == r[k - offset]
    {
      CopyRepeats(dst, di - offset, di, length, k - di);
    }
    if offset == 0 {
      SelfCopyIsIdle(dst, di, length);
    }
    forall k | 0 <= k < |dst| && (k < di || di + length <= k)
      ensures r[k] == dst[k]
    {
      CopyKeeps(dst, di - offset, di, length, k);
    }
  }

  /** A literal is one byte. */
  lemma LiteralBlock(d: Decoder, src: seq<byte>)
    requires d.Valid(src) && d.di < |d.dst| && d.bits != [] && !d.bits[0]
    ensures DecodeBlock(d, src)
         == if d.si == |src| then Fail(EndOfInput(d.si, |src|, 1))
            else Next(Decoder(d.dst[d.di := src[d.si]], d.di + 1, d.si + 1, d.bits[1..]))
  {
  }

  /** A map byte says of the next eight blocks which are copies, low bit first. */
  lemma MapOfGroup(d: Decoder, src: seq<byte>)
    requires d.Valid(src) && d.bits == []
    ensures d.si == |src| ==> FetchMap(d, src) == Fail(EndOfInput(d.si, |src|, 1))
    ensures d.si < |src| ==>
              var m := src[d.si];
              FetchMap(d, src) == Next(Decoder(d.dst, d.di, d.si + 1,
                [m % 2 == 1, m / 2 % 2 == 1, m / 4 % 2 == 1, m / 8 % 2 == 1,
                 m / 16 % 2 == 1, m / 32 % 2 == 1, m / 64 % 2 == 1, m / 128 % 2 == 1]))
  {
    if d.si < |src| {
      BitsOfMap(src[d.si]);
    }
  }

  lemma SmallPowers()
    ensures Pow2(0) == 1 && Pow2(1) == 2 && Pow2(2) == 4 && Pow2(3) == 8
    ensures Pow2(4) == 16 && Pow2(5) == 32 && Pow2(6) == 64 && Pow2(7) == 128
  {
    Pow2Bytes();
  }

  lemma BitsOfMap(m: byte)
    ensures MapBits(m) == [m % 2 == 1, m / 2 % 2 == 1, m / 4 % 2 == 1, m / 8 % 2 == 1,
                           m / 16 % 2 == 1, m / 32 % 2 == 1, m / 64 % 2 == 1, m / 128 % 2 == 1]
  {
    hide Pow2;
    SmallPowers();
  }

  // What the encoder chooses and writes

  /** The hash of three bytes, of a pool of version 21 or later and before: a slot of 1024
    * or of 256. */
  lemma HashesAre(x: byte, y: byte, z: byte)
    ensures var bits: int := 65536 * (x as int) + 256 * (y as int) + z;
            var mixed := bits + bits / 512;
            V21().slots == 1024 && V21().hash(x, y, z) == (mixed + mixed / 32) % 1024
    ensures var (a, b) := ((x as int + 13) % 256, (y as int + 243) % 256);
            && PreV21().slots == 256 && PreV21().hash(x, y, z) < 256
            && forall k :: 0 <= k < 8 ==>
                 BitOf(PreV21().hash(x, y, z), k) == (BitOf(a, k) + BitOf(b, k) + BitOf(z, k)) % 2
  {
    hide Xor;
    var a, b := (x as int + 13) % 256, (y as int + 243) % 256;
    assert (y as int - 13) % 256 == b;
    forall k | 0 <= k < 8
      ensures BitOf(Xor(Xor(a, b), z), k) == (BitOf(a, k) + BitOf(b, k) + BitOf(z, k)) % 2
    {
      XorBit(a, b, k);
      XorBit(Xor(a, b), z, k);
    }
  }

  /** The token when the table says to look back to `entry`, modulo 1024: a copy exactly when
    * that is not here and three bytes agree, as long as the bytes agree, up to 66. */
  lemma CopyIs(src: seq<byte>, si: nat, entry: u16, offset: nat)
    requires si + 66 <= |src| && entry <= si && offset == (si - entry) % 1024
    ensures offset <= si
    ensures var t := TokenFrom(src, si, entry);
            && (t.Copy? <==> && offset != 0 && src[si] == src[si - offset]
                             && src[si + 1] == src[si + 1 - offset] && src[si + 2] == src[si + 2 - offset])
            && (t.Literal? ==> t.value == src[si])
            && (t.Copy? ==>
                  && t.offset == offset && 3 <= t.length <= 66
                  && (forall j :: si <= j < si + t.length ==> src[j] == src[j - offset])
                  && (t.length < 66 ==> src[si + t.length] != src[si + t.length - offset]))
  {
    hide MatchLength;
    var t := TokenFrom(src, si, entry);
    if t.Copy? {
      forall j | si <= j < si + t.length
        ensures src[j] == src[j - offset]
      {
        AgreeAt(src, si, si - offset, t.length, j - si);
      }
    }
  }

  /** With fewer than 66 bytes left a byte is a literal. Otherwise the slot of its hash is
    * looked up, and then holds its place modulo 65536. */
  lemma ChoiceIs(p: Params, src: seq<byte>, si: nat, table: seq<u16>)
    requires si < |src| && TableBelow(p, table, si)
    ensures |src| - si < 66 ==> TokenAt(p, src, si, table) == Literal(src[si]) && TableAfter(p, src, si, table) == table
    ensures |src| - si >= 66 ==>
              var h := p.hash(src[si], src[si + 1], src[si + 2]);
              && h < 1024 && table[h] <= si && TokenAt(p, src, si, table) == TokenFrom(src, si, table[h])
              && TableAfter(p, src, si, table) == table[h := si % 65536]
  {
    hide TokenFrom;
  }

  /** The bytes of a block. */
  lemma BlockIs(t: Token)
    ensures t.Literal? ==> Block(t) == [t.value]
    ensures t.Copy? ==> Block(t) == [(t.length - 3) * 4 + t.offset / 256, t.offset % 256]
  {
    if t.Copy? {
      var w := LengthOffset(t.length, t.offset);
      assert w == ((t.length - 3) * 4 + t.offset / 256) * 256 + t.offset % 256;
    }
  }

  /** There is room exactly when at the start of every eight blocks 17 bytes are left. */
  lemma {:induction false} FitsIs(ts: seq<Token>, capacity: nat, n: nat)
    requires n <= |ts|
    ensures FitsUpTo(ts, capacity, n) <==>
              forall k :: 0 <= k < n && k % 8 == 0 ==> |Serialize(ts[..k])| + 17 <= capacity
    decreases n
  {
    hide Serialize;
    if n == 0 {
    } else {
      FitsIs(ts, capacity, n - 1);
    }
  }
}
