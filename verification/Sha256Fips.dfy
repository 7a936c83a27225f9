/** SHA-256 written out on the operators of 32-bit words, as sections 4.1.2 and 6.2.2 of
  * FIPS 180-4 give it. */
module Sha256Fips {
  import opened Base
  import opened Sha256Spec
  import opened Sha256Words

  // Rotations by shifts

  function Upper0(x: word): (r: word) {
    ((x >> 2) | (x << 30)) ^ ((x >> 13) | (x << 19)) ^ ((x >> 22) | (x << 10))
  }

  function Upper1(x: word): (r: word) {
    ((x >> 6) | (x << 26)) ^ ((x >> 11) | (x << 21)) ^ ((x >> 25) | (x << 7))
  }

  function Lower0(x: word): (r: word) {
    ((x >> 7) | (x << 25)) ^ ((x >> 18) | (x << 14)) ^ (x >> 3)
  }

  function Lower1(x: word): (r: word) {
    ((x >> 17) | (x << 15)) ^ ((x >> 19) | (x << 13)) ^ (x >> 10)
  }

  lemma SigmasAre(x: word)
    ensures BigSigma0(x) == Upper0(x) && BigSigma1(x) == Upper1(x)
    ensures SmallSigma0(x) == Lower0(x) && SmallSigma1(x) == Lower1(x)
  {
  }

  /** Addition modulo 2^32, in which each argument counts once. */
  lemma Sum2Is(x: word, y: word)
    ensures Sum2(x, y) == x + y
  {
  }

  lemma Sum4Is(x: word, y: word)
    ensures Sum4(x, y, 0, 0) == x + y && Sum4(0, 0, x, y) == x + y && Sum4(x, 0, y, 0) == x + y
  {
  }

  lemma Sum5Is(x: word, y: word)
    ensures Sum5(x, y, 0, 0, 0) == x + y && Sum5(0, 0, x, y, 0) == x + y && Sum5(x, 0, 0, 0, y) == x + y
  {
  }

  /** One round: two sums give the new `a` and `e`, and the others move on. */
  lemma RoundIs(r: Regs<word>, k: word, w: word)
    ensures var t1 := Sum5(r.h, Upper1(r.e), Ch(r.e, r.f, r.g), k, w);
            var t2 := Sum2(Upper0(r.a), Maj(r.a, r.b, r.c));
            Round(Fips(), r, k, w) == Regs(Sum2(t1, t2), r.a, r.b, r.c, Sum2(r.d, t1), r.e, r.f, r.g)
  {
    hide Sum2, Sum5, Upper0, Upper1, BigSigma0, BigSigma1, Ch, Maj;
    SigmasAre(r.e);
    SigmasAre(r.a);
  }

  /** The schedule: sixteen words of the message, then each from four before it. */
  lemma ScheduleIs(m: seq<word>, t: nat)
    requires |m| == 16
    ensures t < 16 ==> W(Fips(), m, t) == m[t]
    ensures t >= 16 ==>
              var x, y := W(Fips(), m, t - 15), W(Fips(), m, t - 2);
              W(Fips(), m, t) == Sum4(Lower1(y), W(Fips(), m, t - 7), Lower0(x), W(Fips(), m, t - 16))
  {
    hide Sum4, Lower0, Lower1, SmallSigma0, SmallSigma1;
    if t >= 16 {
      SigmasAre(W(Fips(), m, t - 15));
      SigmasAre(W(Fips(), m, t - 2));
    }
  }

  /** One block: 64 rounds from the hash value, which is added to what they give. */
  lemma BlockIs(h: Regs<word>, block: seq<byte>)
    requires |block| == 64
    ensures var m := BlockWords(Fips(), block);
            var r := Rounds(Fips(), K(), h, m, 64);
            && (forall i :: 0 <= i < 16 ==>
                  m[i] == WordOf(block[4 * i], block[4 * i + 1], block[4 * i + 2], block[4 * i + 3]))
            && Compress(Fips(), K(), h, block)
               == Regs(Sum2(r.a, h.a), Sum2(r.b, h.b), Sum2(r.c, h.c), Sum2(r.d, h.d),
                       Sum2(r.e, h.e), Sum2(r.f, h.f), Sum2(r.g, h.g), Sum2(r.h, h.h))
  {
    hide Rounds, K, WordOf, Sum2;
  }
}
