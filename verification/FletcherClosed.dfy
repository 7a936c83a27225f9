/** Fletcher-2 and Fletcher-4 in closed form: each word of the digest is a weighted sum of
  * the numbers in the data modulo 2^64 (src/checksum/fletcher2.rs, fletcher4.rs). */
module FletcherClosed {
  import opened Base
  import opened BitOps
  import opened Endian
  import opened FletcherSpec
  import BlockVerify

  /** The weight of a number `m` places from the end: 1, m, m(m+1)/2, m(m+1)(m+2)/6. */
  function Weight(k: nat, m: nat): (w: int)
    requires k < 4
  {
    if k == 0 then 1 else if k == 1 then m else if k == 2 then m * (m + 1) / 2 else m * (m + 1) * (m + 2) / 6
  }

  function Sum(k: nat, v: seq<nat>): (sum: int)
    requires k < 4
  {
    if v == [] then 0 else Weight(k, |v|) * v[0] + Sum(k, v[1..])
  }

  lemma {:induction false} TwiceTriangle(m: nat)
    ensures 2 * Weight(2, m) == m * (m + 1)
  {
    if m == 0 {
    } else {
      TwiceTriangle(m - 1);
      assert m * (m + 1) == 2 * (Weight(2, m - 1) + m);
    }
  }

  lemma {:induction false} SixTetra(m: nat)
    ensures 6 * Weight(3, m) == m * (m + 1) * (m + 2)
  {
    if m == 0 {
    } else {
      SixTetra(m - 1);
      TwiceTriangle(m);
      assert m * (m + 1) * (m + 2) == 6 * (Weight(3, m - 1) + Weight(2, m)) by {
        Cube(m);
      }
    }
  }

  lemma Cube(m: int)
    ensures m * (m + 1) * (m + 2) == (m - 1) * m * (m + 1) + 3 * (m * (m + 1))
  {
    var x := m * (m + 1);
    assert x * (m + 2) == x * (m - 1) + 3 * x;
    assert x * (m - 1) == (m - 1) * m * (m + 1);
  }

  /** Pascal's rule. */
  lemma Pascal(m: nat)
    requires 1 <= m
    ensures Weight(2, m) == Weight(2, m - 1) + m
    ensures Weight(3, m) == Weight(3, m - 1) + Weight(2, m)
  {
    TwiceTriangle(m);
    TwiceTriangle(m - 1);
    SixTetra(m);
    SixTetra(m - 1);
    Cube(m);
  }

  // The fold

  function Firsts(us: seq<Unit>): (v: seq<nat>)
    ensures |v| == |us| && forall i :: 0 <= i < |us| ==> v[i] == us[i].v
  {
    seq(|us|, i requires 0 <= i < |us| => us[i].v)
  }

  function Seconds(us: seq<Unit>): (v: seq<nat>)
    ensures |v| == |us| && forall i :: 0 <= i < |us| ==> v[i] == us[i].w
  {
    seq(|us|, i requires 0 <= i < |us| => us[i].w)
  }

  /** What a number adds when it comes first of `m + 1`. */
  lemma FirstOf(s: Sums, u: int, m: int, t2: int, t3: int)
    ensures var a := s.a + u;
            var b := s.b + a;
            var c := s.c + b;
            && b + m * a == s.b + (m + 1) * s.a + (m + 1) * u
            && c + m * b + t2 * a == s.c + (m + 1) * s.b + (t2 + m + 1) * s.a + (t2 + m + 1) * u
            && s.d + c + m * c + t2 * b + t3 * a
               == s.d + (m + 1) * s.c + (t2 + m + 1) * s.b + (t3 + t2 + m + 1) * s.a + (t3 + t2 + m + 1) * u
  {
    var a := s.a + u;
    assert m * a == m * s.a + m * u && t2 * a == t2 * s.a + t2 * u && t3 * a == t3 * s.a + t3 * u;
    assert m * (s.b + a) == m * s.b + m * a && t2 * (s.b + a) == t2 * s.b + t2 * a;
    assert m * (s.c + s.b + a) == m * s.c + m * s.b + m * a;
  }

  /** The running sums before, weighted by how many numbers follow, and the numbers. */
  lemma {:induction false} FoldIs4(s: Sums, us: seq<Unit>)
    ensures var r, v, n := FoldExact(Fletcher4, s, us), Firsts(us), |us|;
            && r.a == s.a + Sum(0, v)
            && r.b == s.b + n * s.a + Sum(1, v)
            && r.c == s.c + n * s.b + Weight(2, n) * s.a + Sum(2, v)
            && r.d == s.d + n * s.c + Weight(2, n) * s.b + Weight(3, n) * s.a + Sum(3, v)
    decreases |us|
  {
    hide Weight;
    if us == [] {
      NoWeight();
    } else {
      var m, rest := |us| - 1, us[1..];
      FoldIs4(Step(Fletcher4, s, us[0]), rest);
      assert Firsts(us)[1..] == Firsts(rest);
      FirstOf(s, us[0].v, m, Weight(2, m), Weight(3, m));
      Pascal(m + 1);
      PlainWeights(m + 1);
    }
  }

  lemma NoWeight()
    ensures Weight(2, 0) == 0 && Weight(3, 0) == 0
  {
  }

  lemma PlainWeights(m: nat)
    ensures Weight(0, m) == 1 && Weight(1, m) == m
  {
  }

  lemma {:induction false} FoldIs2(s: Sums, us: seq<Unit>)
    ensures var r, v, w, n := FoldExact(Fletcher2, s, us), Firsts(us), Seconds(us), |us|;
            && r.a == s.a + Sum(0, v) && r.b == s.b + Sum(0, w)
            && r.c == s.c + n * s.a + Sum(1, v) && r.d == s.d + n * s.b + Sum(1, w)
    decreases |us|
  {
    hide Weight;
    if us == [] {
    } else {
      var m, rest := |us| - 1, us[1..];
      FoldIs2(Step(Fletcher2, s, us[0]), rest);
      assert Firsts(us)[1..] == Firsts(rest) && Seconds(us)[1..] == Seconds(rest);
      FirstOf(s, us[0].v, m, 0, 0);
      FirstOf(Sums(s.b, s.b, s.b, s.b), us[0].w, m, 0, 0);
      PlainWeights(m + 1);
    }
  }

  // The bytes

  /** The numbers of `width` bytes, one every `step` bytes from `at`. */
  function Numbers(order: Order, data: seq<byte>, step: nat, at: nat, width: nat): (v: seq<nat>)
    requires 0 < step && at + width <= step
    decreases |data|
  {
    if |data| < step then []
    else [Value(order, data[at..at + width])] + Numbers(order, data[step..], step, at, width)
  }

  /** Number `i` is in the bytes from `step * i + at`. */
  lemma {:induction false} NumberAt(order: Order, data: seq<byte>, step: nat, at: nat, width: nat, i: nat)
    requires 0 < step && at + width <= step
    ensures i < |Numbers(order, data, step, at, width)| <==> Scale(i + 1, step) <= |data|
    ensures i < |Numbers(order, data, step, at, width)| ==>
              && Scale(i, step) + at + width <= |data|
              && Numbers(order, data, step, at, width)[i]
              == Value(order, data[Scale(i, step) + at..Scale(i, step) + at + width])
    decreases i
  {
    hide Value;
    ScaleAtLeast(i + 1, step);
    if |data| < step {
      ScaleMono(1, i + 1, step);
    } else if i == 0 {
    } else {
      var rest, k := data[step..], Scale(i - 1, step);
      NumberAt(order, rest, step, at, width, i - 1);
      if k + at + width <= |rest| {
        assert rest[k + at..k + at + width] == data[k + step + at..k + step + at + width];
      }
    }
  }

  lemma {:induction false} UnitsAre4(order: Order, data: seq<byte>)
    ensures Firsts(Units(Fletcher4, order, data)) == Numbers(order, data, 4, 0, 4)
    decreases |data|
  {
    hide Value;
    if |data| < 4 {
    } else {
      UnitsAre4(order, data[4..]);
    }
  }

  lemma {:induction false} UnitsAre2(order: Order, data: seq<byte>)
    ensures Firsts(Units(Fletcher2, order, data)) == Numbers(order, data, 16, 0, 8)
    ensures Seconds(Units(Fletcher2, order, data)) == Numbers(order, data, 16, 8, 8)
    decreases |data|
  {
    hide Value;
    if |data| < 16 {
    } else {
      UnitsAre2(order, data[16..]);
      assert data[..16][..8] == data[0..8] && data[..16][8..] == data[8..16];
    }
  }

  /** Main result: the Fletcher-4 digest is the sums of the 32-bit numbers with weights of
    * degree 0, 1, 2 and 3. Algorithm 7 is Fletcher-4. */
  lemma Fletcher4Is(other: BlockVerify.Algorithm, order: Order, data: seq<byte>)
    ensures var v := Numbers(order, data, 4, 0, 4);
            BlockVerify.DigestOf(other, 7, order, data) ==
            Some([Sum(0, v) % U64_SIZE, Sum(1, v) % U64_SIZE, Sum(2, v) % U64_SIZE, Sum(3, v) % U64_SIZE])
  {
    hide Fold, FoldExact, Units, Numbers, Sum, Weight;
    var us := Units(Fletcher4, order, data);
    FoldWraps(Fletcher4, ZERO, us);
    FoldIs4(ZERO, us);
    UnitsAre4(order, data);
    assert Wrap(ZERO) == ZERO;
  }

  /** Main result: the Fletcher-2 digest is the sums, and the sums weighted by place, of the
    * first and of the second 64-bit number of every 16 bytes. Algorithm 6 is Fletcher-2. */
  lemma Fletcher2Is(other: BlockVerify.Algorithm, order: Order, data: seq<byte>)
    ensures var v, w := Numbers(order, data, 16, 0, 8), Numbers(order, data, 16, 8, 8);
            BlockVerify.DigestOf(other, 6, order, data) ==
            Some([Sum(0, v) % U64_SIZE, Sum(0, w) % U64_SIZE, Sum(1, v) % U64_SIZE, Sum(1, w) % U64_SIZE])
  {
    hide Fold, FoldExact, Units, Numbers, Sum, Weight;
    var us := Units(Fletcher2, order, data);
    FoldWraps(Fletcher2, ZERO, us);
    FoldIs2(ZERO, us);
    UnitsAre2(order, data);
    assert Wrap(ZERO) == ZERO;
  }
}
