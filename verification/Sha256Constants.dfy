/** Where the constants of SHA-256 come from: sections 4.2.2 and 5.3.3 of FIPS 180-4
  * (src/checksum/sha256.rs). */
module Sha256Constants {
  import opened BitOps
  import opened Sha256Words

  // The first 64 primes

  const P0: seq<nat> := [2, 3, 5, 7, 11, 13, 17, 19]
  const P1: seq<nat> := [23, 29, 31, 37, 41, 43, 47, 53]
  const P2: seq<nat> := [59, 61, 67, 71, 73, 79, 83, 89]
  const P3: seq<nat> := [97, 101, 103, 107, 109, 113, 127, 131]
  const P4: seq<nat> := [137, 139, 149, 151, 157, 163, 167, 173]
  const P5: seq<nat> := [179, 181, 191, 193, 197, 199, 211, 223]
  const P6: seq<nat> := [227, 229, 233, 239, 241, 251, 257, 263]
  const P7: seq<nat> := [269, 271, 277, 281, 283, 293, 307, 311]

  function Primes(): (p: seq<nat>)
    ensures |p| == 64
  {
    P0 + P1 + P2 + P3 + P4 + P5 + P6 + P7
  }

  predicate Divides(d: nat, n: nat)
    requires 0 < d
  {
    n % d == 0
  }

  predicate IsPrime(n: nat) {
    2 <= n && forall d :: 2 <= d < n ==> !Divides(d, n)
  }

  /** Not a multiple of a smaller prime up to 17. */
  predicate Sifted(n: nat) {
    && (n % 2 != 0 || n == 2) && (n % 3 != 0 || n == 3) && (n % 5 != 0 || n == 5) && (n % 7 != 0 || n == 7)
    && (n % 11 != 0 || n == 11) && (n % 13 != 0 || n == 13) && (n % 17 != 0 || n == 17)
  }

  lemma Multiple(n: nat, p: nat, k: nat)
    requires 0 < p && n == p * k
    ensures n % p == 0
  {
    DivModUnique(n, p, k, 0);
  }

  /** A divisor up to 17 brings a prime one. */
  lemma SmallDivisor(n: nat, m: nat, k: nat)
    requires 2 <= m <= 17 && m < n && n == m * k
    ensures !Sifted(n)
  {
    if m == 2 { Multiple(n, 2, k); }
    else if m == 3 { Multiple(n, 3, k); }
    else if m == 4 { Multiple(n, 2, 2 * k); }
    else if m == 5 { Multiple(n, 5, k); }
    else if m == 6 { Multiple(n, 2, 3 * k); }
    else if m == 7 { Multiple(n, 7, k); }
    else if m == 8 { Multiple(n, 2, 4 * k); }
    else if m == 9 { Multiple(n, 3, 3 * k); }
    else if m == 10 { Multiple(n, 2, 5 * k); }
    else if m == 11 { Multiple(n, 11, k); }
    else if m == 12 { Multiple(n, 2, 6 * k); }
    else if m == 13 { Multiple(n, 13, k); }
    else if m == 14 { Multiple(n, 2, 7 * k); }
    else if m == 15 { Multiple(n, 3, 5 * k); }
    else if m == 16 { Multiple(n, 2, 8 * k); }
    else if m == 17 { Multiple(n, 17, k); }
  }

  /** Below 18 squared the sieve is exact. */
  lemma SiftedIsPrime(n: nat)
    requires 2 <= n < 324
    ensures IsPrime(n) <==> Sifted(n)
  {
    if Sifted(n) {
      forall d | 2 <= d < n
        ensures !Divides(d, n)
      {
        if Divides(d, n) {
          Factor(n, d);
        }
      }
    }
    if IsPrime(n) {
      assert 2 < n ==> !Divides(2, n);
      assert 3 < n ==> !Divides(3, n);
      assert 5 < n ==> !Divides(5, n);
      assert 7 < n ==> !Divides(7, n);
      assert 11 < n ==> !Divides(11, n);
      assert 13 < n ==> !Divides(13, n);
      assert 17 < n ==> !Divides(17, n);
    }
  }

  lemma Factor(n: nat, d: nat)
    requires 2 <= d < n < 324 && Divides(d, n)
    ensures !Sifted(n)
  {
    var q := n / d;
    assert n == d * q;
    if d <= 17 {
      SmallDivisor(n, d, q);
    } else {
      LargeFactor(n, d, q);
      assert q >= 2;
      SmallDivisor(n, q, d);
    }
  }

  lemma LargeFactor(n: nat, d: nat, q: nat)
    requires n == d * q < 324 && 18 <= d
    ensures q < 18
  {
  }

  /** Past 3 only numbers next to a multiple of six are sifted. */
  lemma NextToSix(n: nat)
    requires 3 < n
    ensures Sifted(n) <==> (n % 6 == 1 || n % 6 == 5) && Sifted5(n)
  {
    assert n % 6 == 1 || n % 6 == 5 <==> n % 2 != 0 && n % 3 != 0;
  }

  predicate Sifted5(n: nat) {
    && (n % 5 != 0 || n == 5) && (n % 7 != 0 || n == 7)
    && (n % 11 != 0 || n == 11) && (n % 13 != 0 || n == 13) && (n % 17 != 0 || n == 17)
  }

  lemma Row0(n: nat)
    ensures n in P0 <==> 2 <= n <= 19 && Sifted(n)
  {
    if 4 <= n <= 19 {
      hide Sifted;
      NextToSix(n);
      var k := n / 6;
      if k == 0 {} else if k == 1 {} else if k == 2 {} else if k == 3 {}
    }
  }

  lemma Row1(n: nat)
    ensures n in P1 <==> 20 <= n <= 53 && Sifted(n)
  {
    if 20 <= n <= 53 {
      hide Sifted;
      NextToSix(n);
      var k := n / 6;
      if k == 3 {} else if k == 4 {} else if k == 5 {} else if k == 6 {} else if k == 7 {} else if k == 8 {}
    }
  }

  lemma Row2(n: nat)
    ensures n in P2 <==> 54 <= n <= 89 && Sifted(n)
  {
    if 54 <= n <= 89 {
      hide Sifted;
      NextToSix(n);
      var k := n / 6;
      if k == 9 {} else if k == 10 {} else if k == 11 {} else if k == 12 {} else if k == 13 {}
      else if k == 14 {}
    }
  }

  lemma Row3(n: nat)
    ensures n in P3 <==> 90 <= n <= 131 && Sifted(n)
  {
    if 90 <= n <= 131 {
      hide Sifted;
      NextToSix(n);
      var k := n / 6;
      if k == 15 {} else if k == 16 {} else if k == 17 {} else if k == 18 {} else if k == 19 {}
      else if k == 20 {} else if k == 21 {}
    }
  }

  lemma Row4(n: nat)
    ensures n in P4 <==> 132 <= n <= 173 && Sifted(n)
  {
    if 132 <= n <= 173 {
      hide Sifted;
      NextToSix(n);
      var k := n / 6;
      if k == 22 {} else if k == 23 {} else if k == 24 {} else if k == 25 {} else if k == 26 {}
      else if k == 27 {} else if k == 28 {}
    }
  }

  lemma Row5(n: nat)
    ensures n in P5 <==> 174 <= n <= 223 && Sifted(n)
  {
    if 174 <= n <= 223 {
      hide Sifted;
      NextToSix(n);
      var k := n / 6;
      if k == 29 {} else if k == 30 {} else if k == 31 {} else if k == 32 {} else if k == 33 {}
      else if k == 34 {} else if k == 35 {} else if k == 36 {} else if k == 37 {}
    }
  }

  lemma Row6(n: nat)
    ensures n in P6 <==> 224 <= n <= 263 && Sifted(n)
  {
    if 224 <= n <= 263 {
      hide Sifted;
      NextToSix(n);
      var k := n / 6;
      if k == 37 {} else if k == 38 {} else if k == 39 {} else if k == 40 {} else if k == 41 {}
      else if k == 42 {} else if k == 43 {}
    }
  }

  lemma Row7(n: nat)
    ensures n in P7 <==> 264 <= n <= 311 && Sifted(n)
  {
    if 264 <= n <= 311 {
      hide Sifted;
      NextToSix(n);
      var k := n / 6;
      if k == 44 {} else if k == 45 {} else if k == 46 {} else if k == 47 {} else if k == 48 {}
      else if k == 49 {} else if k == 50 {} else if k == 51 {}
    }
  }

  /** Main result: `Primes` has the primes up to 311. */
  lemma PrimesAre(n: nat)
    ensures n in Primes() <==> IsPrime(n) && n <= 311
  {
    hide Sifted, IsPrime, P0, P1, P2, P3, P4, P5, P6, P7;
    Row0(n);
    Row1(n);
    Row2(n);
    Row3(n);
    Row4(n);
    Row5(n);
    Row6(n);
    Row7(n);
    if 2 <= n < 324 {
      SiftedIsPrime(n);
    } else if n < 2 {
      NoneBelowTwo(n);
    }
  }

  lemma NoneBelowTwo(n: nat)
    requires n < 2
    ensures !IsPrime(n)
  {
  }

  // Eight rows of eight

  function Row<T>(a: seq<T>, b: seq<T>, c: seq<T>, d: seq<T>, e: seq<T>, f: seq<T>, g: seq<T>, h: seq<T>,
                  i: nat): (x: T)
    requires |a| == |b| == |c| == |d| == |e| == |f| == |g| == |h| == 8 && i < 64
  {
    if i < 8 then a[i] else if i < 16 then b[i - 8] else if i < 24 then c[i - 16] else if i < 32 then d[i - 24]
    else if i < 40 then e[i - 32] else if i < 48 then f[i - 40] else if i < 56 then g[i - 48] else h[i - 56]
  }

  lemma Rows<T>(a: seq<T>, b: seq<T>, c: seq<T>, d: seq<T>, e: seq<T>, f: seq<T>, g: seq<T>, h: seq<T>, i: nat)
    requires |a| == |b| == |c| == |d| == |e| == |f| == |g| == |h| == 8 && i < 64
    ensures (a + b + c + d + e + f + g + h)[i] == Row(a, b, c, d, e, f, g, h, i)
  {
  }

  lemma RowsAscend(i: nat)
    requires i < 63
    ensures Row(P0, P1, P2, P3, P4, P5, P6, P7, i) < Row(P0, P1, P2, P3, P4, P5, P6, P7, i + 1)
  {
  }

  /** In ascending order, so number `i` of them is the `i`-th prime. */
  lemma PrimesAscend(i: nat)
    requires i < 63
    ensures Primes()[i] < Primes()[i + 1]
  {
    RowsAscend(i);
    Rows(P0, P1, P2, P3, P4, P5, P6, P7, i);
    Rows(P0, P1, P2, P3, P4, P5, P6, P7, i + 1);
  }

  // Roots

  /** The cube root of `p` in steps of 2^-32, rounded down. */
  predicate CubeRoot(p: nat, n: nat) {
    n * n * n <= p * 0x1_0000_0000_0000_0000_0000_0000 < (n + 1) * (n + 1) * (n + 1)
  }

  predicate SquareRoot(p: nat, n: nat) {
    n * n <= p * 0x1_0000_0000_0000_0000 < (n + 1) * (n + 1)
  }

  /** The first 32 bits of the fractional part of the cube root. */
  ghost predicate CubeFraction(p: nat, k: word) {
    exists n: nat :: CubeRoot(p, n) && k as int == n % 0x1_0000_0000
  }

  ghost predicate SquareFraction(p: nat, k: word) {
    exists n: nat :: SquareRoot(p, n) && k as int == n % 0x1_0000_0000
  }

  lemma Cubes0()
    ensures forall i :: 0 <= i < 8 ==> CubeFraction(P0[i], K0[i])
  {
    assert CubeRoot(2, 0x1_428a_2f98);
    assert CubeRoot(3, 0x1_7137_4491);
    assert CubeRoot(5, 0x1_b5c0_fbcf);
    assert CubeRoot(7, 0x1_e9b5_dba5);
    assert CubeRoot(11, 0x2_3956_c25b);
    assert CubeRoot(13, 0x2_59f1_11f1);
    assert CubeRoot(17, 0x2_923f_82a4);
    assert CubeRoot(19, 0x2_ab1c_5ed5);
  }

  lemma Cubes1()
    ensures forall i :: 0 <= i < 8 ==> CubeFraction(P1[i], K1[i])
  {
    assert CubeRoot(23, 0x2_d807_aa98);
    assert CubeRoot(29, 0x3_1283_5b01);
    assert CubeRoot(31, 0x3_2431_85be);
    assert CubeRoot(37, 0x3_550c_7dc3);
    assert CubeRoot(41, 0x3_72be_5d74);
    assert CubeRoot(43, 0x3_80de_b1fe);
    assert CubeRoot(47, 0x3_9bdc_06a7);
    assert CubeRoot(53, 0x3_c19b_f174);
  }

  lemma Cubes2()
    ensures forall i :: 0 <= i < 8 ==> CubeFraction(P2[i], K2[i])
  {
    assert CubeRoot(59, 0x3_e49b_69c1);
    assert CubeRoot(61, 0x3_efbe_4786);
    assert CubeRoot(67, 0x4_0fc1_9dc6);
    assert CubeRoot(71, 0x4_240c_a1cc);
    assert CubeRoot(73, 0x4_2de9_2c6f);
    assert CubeRoot(79, 0x4_4a74_84aa);
    assert CubeRoot(83, 0x4_5cb0_a9dc);
    assert CubeRoot(89, 0x4_76f9_88da);
  }

  lemma Cubes3()
    ensures forall i :: 0 <= i < 8 ==> CubeFraction(P3[i], K3[i])
  {
    assert CubeRoot(97, 0x4_983e_5152);
    assert CubeRoot(101, 0x4_a831_c66d);
    assert CubeRoot(103, 0x4_b003_27c8);
    assert CubeRoot(107, 0x4_bf59_7fc7);
    assert CubeRoot(109, 0x4_c6e0_0bf3);
    assert CubeRoot(113, 0x4_d5a7_9147);
    assert CubeRoot(127, 0x5_06ca_6351);
    assert CubeRoot(131, 0x5_1429_2967);
  }

  lemma Cubes4()
    ensures forall i :: 0 <= i < 8 ==> CubeFraction(P4[i], K4[i])
  {
    assert CubeRoot(137, 0x5_27b7_0a85);
    assert CubeRoot(139, 0x5_2e1b_2138);
    assert CubeRoot(149, 0x5_4d2c_6dfc);
    assert CubeRoot(151, 0x5_5338_0d13);
    assert CubeRoot(157, 0x5_650a_7354);
    assert CubeRoot(163, 0x5_766a_0abb);
    assert CubeRoot(167, 0x5_81c2_c92e);
    assert CubeRoot(173, 0x5_9272_2c85);
  }

  lemma Cubes5()
    ensures forall i :: 0 <= i < 8 ==> CubeFraction(P5[i], K5[i])
  {
    assert CubeRoot(179, 0x5_a2bf_e8a1);
    assert CubeRoot(181, 0x5_a81a_664b);
    assert CubeRoot(191, 0x5_c24b_8b70);
    assert CubeRoot(193, 0x5_c76c_51a3);
    assert CubeRoot(197, 0x5_d192_e819);
    assert CubeRoot(199, 0x5_d699_0624);
    assert CubeRoot(211, 0x5_f40e_3585);
    assert CubeRoot(223, 0x6_106a_a070);
  }

  lemma Cubes6()
    ensures forall i :: 0 <= i < 8 ==> CubeFraction(P6[i], K6[i])
  {
    assert CubeRoot(227, 0x6_19a4_c116);
    assert CubeRoot(229, 0x6_1e37_6c08);
    assert CubeRoot(233, 0x6_2748_774c);
    assert CubeRoot(239, 0x6_34b0_bcb5);
    assert CubeRoot(241, 0x6_391c_0cb3);
    assert CubeRoot(251, 0x6_4ed8_aa4a);
    assert CubeRoot(257, 0x6_5b9c_ca4f);
    assert CubeRoot(263, 0x6_682e_6ff3);
  }

  lemma Cubes7()
    ensures forall i :: 0 <= i < 8 ==> CubeFraction(P7[i], K7[i])
  {
    assert CubeRoot(269, 0x6_748f_82ee);
    assert CubeRoot(271, 0x6_78a5_636f);
    assert CubeRoot(277, 0x6_84c8_7814);
    assert CubeRoot(281, 0x6_8cc7_0208);
    assert CubeRoot(283, 0x6_90be_fffa);
    assert CubeRoot(293, 0x6_a450_6ceb);
    assert CubeRoot(307, 0x6_bef9_a3f7);
    assert CubeRoot(311, 0x6_c671_78f2);
  }

  /** Main result: constant `i` is the first 32 bits of the fraction of the cube root of the
    * `i`-th prime. */
  lemma ConstantsAre(i: nat)
    requires i < 64
    ensures CubeFraction(Primes()[i], K()[i])
  {
    hide CubeFraction;
    Rows(P0, P1, P2, P3, P4, P5, P6, P7, i);
    Rows(K0, K1, K2, K3, K4, K5, K6, K7, i);
    Cubes0();
    Cubes1();
    Cubes2();
    Cubes3();
    Cubes4();
    Cubes5();
    Cubes6();
    Cubes7();
  }

  /** Main result: the first hash value is the first 32 bits of the fractions of the square
    * roots of the first eight primes. */
  lemma StartIs()
    ensures SquareFraction(2, H0.a) && SquareFraction(3, H0.b) && SquareFraction(5, H0.c) && SquareFraction(7, H0.d)
    ensures SquareFraction(11, H0.e) && SquareFraction(13, H0.f) && SquareFraction(17, H0.g) && SquareFraction(19, H0.h)
  {
    assert SquareRoot(2, 0x1_6a09_e667);
    assert SquareRoot(3, 0x1_bb67_ae85);
    assert SquareRoot(5, 0x2_3c6e_f372);
    assert SquareRoot(7, 0x2_a54f_f53a);
    assert SquareRoot(11, 0x3_510e_527f);
    assert SquareRoot(13, 0x3_9b05_688c);
    assert SquareRoot(17, 0x4_1f83_d9ab);
    assert SquareRoot(19, 0x4_5be0_cd19);
  }
}
