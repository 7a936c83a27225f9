/** SHA-256 on 32-bit words: the functions of FIPS 180-4, section 4.1.2, the forms
  * the source computes them in, and the constants of sections 4.2.2 and 5.3.3. */
module Sha256Words {
  import opened Base
  import opened Endian
  import opened Sha256Spec
  import opened Sha256

  type word = bv32

  //// FIPS 180-4

  function Ch(x: word, y: word, z: word): (r: word) {
    (x & y) ^ (!x & z)
  }

  function Maj(x: word, y: word, z: word): (r: word) {
    (x & y) ^ (x & z) ^ (y & z)
  }

  function BigSigma0(x: word): (r: word) {
    x.RotateRight(2) ^ x.RotateRight(13) ^ x.RotateRight(22)
  }

  function BigSigma1(x: word): (r: word) {
    x.RotateRight(6) ^ x.RotateRight(11) ^ x.RotateRight(25)
  }

  function SmallSigma0(x: word): (r: word) {
    x.RotateRight(7) ^ x.RotateRight(18) ^ (x >> 3)
  }

  function SmallSigma1(x: word): (r: word) {
    x.RotateRight(17) ^ x.RotateRight(19) ^ (x >> 10)
  }

  /** T1 and T2 of section 6.2.2 give the new `e` and `a`. */
  function Mix(r: Regs<word>, k: word, w: word): (ea: (word, word)) {
    var t1 := Sum5(r.h, BigSigma1(r.e), Ch(r.e, r.f, r.g), k, w);
    var t2 := Sum2(BigSigma0(r.a), Maj(r.a, r.b, r.c));
    (Sum2(r.d, t1), Sum2(t1, t2))
  }

  function Next(w16: word, w15: word, w7: word, w2: word): (r: word) {
    Sum4(SmallSigma1(w2), w7, SmallSigma0(w15), w16)
  }

  function Sum2(x: word, y: word): (r: word) {
    x + y
  }

  function Sum4(x: word, y: word, z: word, u: word): (r: word) {
    x + y + z + u
  }

  function Sum5(x: word, y: word, z: word, u: word, v: word): (r: word) {
    x + y + z + u + v
  }

  /** Four bytes of the message, the high one first. */
  function WordOf(x: byte, y: byte, z: byte, u: byte): (r: word) {
    Big4([x, y, z, u]);
    Value(Big, [x, y, z, u]) as bv32
  }

  /** Ch takes the bits of `y` where `x` has ones and those of `z` where it has zeros. */
  lemma ChChooses(x: word, y: word, z: word)
    ensures Ch(x, y, z) & x == y & x && Ch(x, y, z) & !x == z & !x
  {
  }

  /** Maj takes the bits `x` and `y` agree on, and those of `z` where they differ. */
  lemma MajIsMajority(x: word, y: word, z: word)
    ensures Maj(x, y, z) & !(x ^ y) == x & !(x ^ y) && Maj(x, y, z) & (x ^ y) == z & (x ^ y)
  {
  }

  function Fips(): (ops: Ops<word>) {
    Ops((r, k, w) => Mix(r, k, w), (r, k, w) => Mix(r, k, w), (w16, w15, w7, w2) => Next(w16, w15, w7, w2),
        (x, y) => Sum2(x, y), (x, y, z, u) => WordOf(x, y, z, u))
  }

  const K0: seq<word> := [0x428a2f98, 0x71374491, 0xb5c0fbcf, 0xe9b5dba5,
                          0x3956c25b, 0x59f111f1, 0x923f82a4, 0xab1c5ed5]
  const K1: seq<word> := [0xd807aa98, 0x12835b01, 0x243185be, 0x550c7dc3,
                          0x72be5d74, 0x80deb1fe, 0x9bdc06a7, 0xc19bf174]
  const K2: seq<word> := [0xe49b69c1, 0xefbe4786, 0x0fc19dc6, 0x240ca1cc,
                          0x2de92c6f, 0x4a7484aa, 0x5cb0a9dc, 0x76f988da]
  const K3: seq<word> := [0x983e5152, 0xa831c66d, 0xb00327c8, 0xbf597fc7,
                          0xc6e00bf3, 0xd5a79147, 0x06ca6351, 0x14292967]
  const K4: seq<word> := [0x27b70a85, 0x2e1b2138, 0x4d2c6dfc, 0x53380d13,
                          0x650a7354, 0x766a0abb, 0x81c2c92e, 0x92722c85]
  const K5: seq<word> := [0xa2bfe8a1, 0xa81a664b, 0xc24b8b70, 0xc76c51a3,
                          0xd192e819, 0xd6990624, 0xf40e3585, 0x106aa070]
  const K6: seq<word> := [0x19a4c116, 0x1e376c08, 0x2748774c, 0x34b0bcb5,
                          0x391c0cb3, 0x4ed8aa4a, 0x5b9cca4f, 0x682e6ff3]
  const K7: seq<word> := [0x748f82ee, 0x78a5636f, 0x84c87814, 0x8cc70208,
                          0x90befffa, 0xa4506ceb, 0xbef9a3f7, 0xc67178f2]

  function K(): (k: seq<word>)
    ensures |k| == 64
  {
    K0 + K1 + K2 + K3 + K4 + K5 + K6 + K7
  }

  const H0: Regs<word> := Regs(0x6a09e667, 0xbb67ae85, 0x3c6ef372, 0xa54ff53a,
                   0x510e527f, 0x9b05688c, 0x1f83d9ab, 0x5be0cd19)

  //// The source

  /** Three rotations as nested ones. */
  function NestedSigma1(e: word): (r: word) {
    (((e.RotateRight(14) ^ e).RotateRight(5)) ^ e).RotateRight(6)
  }

  function NestedSigma0(a: word): (r: word) {
    (((a.RotateRight(9) ^ a).RotateRight(11)) ^ a).RotateRight(2)
  }

  function SourceMix(r: Regs<word>, k: word, w: word): (dh: (word, word)) {
    var temp1 := Sum5(r.h, NestedSigma1(r.e), Ch(r.e, r.f, r.g), k, w);
    var temp2 := Sum2(NestedSigma0(r.a), Maj(r.a, r.b, r.c));
    (Sum2(r.d, temp1), Sum2(temp1, temp2))
  }

  function SourceLateMix(r: Regs<word>, k: word, w: word): (dh: (word, word)) {
    var temp1 := Sum5(r.h, NestedSigma1(r.e), Ch(r.e, r.f, r.g), w, k);
    var temp2 := Sum2(NestedSigma0(r.a), Maj(r.a, r.b, r.c));
    (Sum2(r.d, temp1), Sum2(temp1, temp2))
  }

  function MixedSigma0(x: word): (r: word) {
    x.RotateRight(18) ^ ((x >> 3) ^ x.RotateRight(7))
  }

  function MixedSigma1(x: word): (r: word) {
    x.RotateRight(19) ^ ((x >> 10) ^ x.RotateRight(17))
  }

  function SourceNext(w16: word, w15: word, w7: word, w2: word): (r: word) {
    Sum4(w16, MixedSigma0(w15), MixedSigma1(w2), w7)
  }

  function Source(): (ops: Ops<word>) {
    Ops((r, k, w) => SourceMix(r, k, w), (r, k, w) => SourceLateMix(r, k, w),
        (w16, w15, w7, w2) => SourceNext(w16, w15, w7, w2),
        (x, y) => Sum2(x, y), (x, y, z, u) => WordOf(x, y, z, u))
  }

  //// The source computes what FIPS 180-4 defines

  lemma NestedRotations(x: word)
    ensures NestedSigma1(x) == BigSigma1(x) && NestedSigma0(x) == BigSigma0(x)
  {
  }

  lemma MixedShifts(x: word)
    ensures MixedSigma0(x) == SmallSigma0(x) && MixedSigma1(x) == SmallSigma1(x)
  {
  }

  lemma Sum4Order(x: word, y: word, z: word, u: word)
    ensures Sum4(x, y, z, u) == Sum4(z, u, y, x)
  {
  }

  lemma Sum5Order(x: word, y: word, z: word, u: word, v: word)
    ensures Sum5(x, y, z, u, v) == Sum5(x, y, z, v, u)
  {
  }

  lemma MixIsFips(r: Regs<word>, k: word, w: word)
    ensures SourceMix(r, k, w) == Mix(r, k, w) && SourceLateMix(r, k, w) == Mix(r, k, w)
  {
    NestedRotations(r.e);
    NestedRotations(r.a);
    Sum5Order(r.h, BigSigma1(r.e), Ch(r.e, r.f, r.g), w, k);
  }

  lemma NextIsFips(w16: word, w15: word, w7: word, w2: word)
    ensures SourceNext(w16, w15, w7, w2) == Next(w16, w15, w7, w2)
  {
    MixedShifts(w15);
    MixedShifts(w2);
    Sum4Order(w16, SmallSigma0(w15), SmallSigma1(w2), w7);
  }

  lemma SourceIsFips()
    ensures Agree(Source(), Fips()) && MixesAgree(Source())
  {
    forall r: Regs<word>, k: word, w: word
      ensures Source().mix(r, k, w) == Fips().mix(r, k, w) && Source().lateMix(r, k, w) == Source().mix(r, k, w)
    {
      MixIsFips(r, k, w);
    }
    forall a: word, b: word, c: word, d: word ensures Source().next(a, b, c, d) == Fips().next(a, b, c, d) {
      NextIsFips(a, b, c, d);
    }
  }
}
