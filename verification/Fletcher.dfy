/** The scalar Fletcher implementations: lanes in a state array, and the recombination
  * formulas in wrapping arithmetic. */
module Fletcher {
  import opened Base
  import opened FletcherSpec

  //// Wrapping arithmetic

  function WAdd(x: int, y: int): (r: int)
    ensures 0 <= r < U64_SIZE && Cong(r, x + y)
  {
    (x + y) % U64_SIZE
  }

  function WSub(x: int, y: int): (r: int)
    ensures 0 <= r < U64_SIZE && Cong(r, x - y)
  {
    (x - y) % U64_SIZE
  }

  function WMul(x: int, y: int): (r: int)
    ensures 0 <= r < U64_SIZE && Cong(r, x * y)
  {
    (x * y) % U64_SIZE
  }

  function Total(v: seq<int>): (t: int) {
    if v == [] then 0 else Total(v[..|v| - 1]) + v[|v| - 1]
  }

  function Dot(v: seq<int>, m: seq<int>): (t: int)
    requires |v| == |m|
  {
    if v == [] then 0 else Dot(v[..|v| - 1], m[..|m| - 1]) + v[|v| - 1] * m[|m| - 1]
  }

  method SumAndMul(v: seq<int>, m: int) returns (r: int)
    ensures 0 <= r < U64_SIZE && Cong(r, m * Total(v))
  {
    r := 0;
    for i := 0 to |v|
      invariant Cong(r, Total(v[..i]))
    {
      assert v[..i + 1][..i] == v[..i];
      CongSum(r, Total(v[..i]), 1, v[i], v[i]);
      r := WAdd(r, v[i]);
    }
    assert v[..|v|] == v;
    CongSum(0, 0, m, r, Total(v));
    r := WMul(r, m);
  }

  method MulAndSum(v: seq<int>, m: seq<int>) returns (r: int)
    requires |v| == |m|
    ensures 0 <= r < U64_SIZE && Cong(r, Dot(v, m))
  {
    r := 0;
    for i := 0 to |v|
      invariant 0 <= r < U64_SIZE && Cong(r, Dot(v[..i], m[..i]))
    {
      assert v[..i + 1][..i] == v[..i] && m[..i + 1][..i] == m[..i];
      var p := WMul(v[i], m[i]);
      CongSum(r, Dot(v[..i], m[..i]), 1, p, v[i] * m[i]);
      r := WAdd(r, p);
    }
    assert v[..|v|] == v && m[..|m|] == m;
  }

  lemma Total4(v: seq<int>)
    requires |v| == 4
    ensures Total(v) == v[0] + v[1] + v[2] + v[3]
  {
    var v3, v2, v1 := v[..3], v[..2], v[..1];
    assert v3[..2] == v2 && v2[..1] == v1 && v1[..0] == [];
    assert Total(v1) == v[0] && Total(v2) == Total(v1) + v[1] && Total(v3) == Total(v2) + v[2];
  }

  lemma Dot4(v: seq<int>, m: seq<int>)
    requires |v| == 4 == |m|
    ensures Dot(v, m) == v[0] * m[0] + v[1] * m[1] + v[2] * m[2] + v[3] * m[3]
  {
    var v3, v2, v1 := v[..3], v[..2], v[..1];
    var m3, m2, m1 := m[..3], m[..2], m[..1];
    assert v3[..2] == v2 && v2[..1] == v1 && v1[..0] == [];
    assert m3[..2] == m2 && m2[..1] == m1 && m1[..0] == [];
    assert Dot(v1, m1) == v[0] * m[0] && Dot(v2, m2) == Dot(v1, m1) + v[1] * m[1];
    assert Dot(v3, m3) == Dot(v2, m2) + v[2] * m[2];
  }

  //// Recombining lanes

  /** Fletcher-4 lanes in the order the state array holds them. */
  method FinishDual4(a: seq<int>, b: seq<int>, c: seq<int>, d: seq<int>) returns (r: Sums)
    requires |a| == |b| == |c| == |d| == 2
    ensures r == Wrap(Combine(Fletcher4, [Sums(a[0], b[0], c[0], d[0]), Sums(a[1], b[1], c[1], d[1])]))
  {
    var ra := WAdd(a[0], a[1]);

    var b01 := WAdd(b[0], b[1]);
    var b2 := WMul(b01, 2);
    var rb := WSub(b2, a[1]);
    CongSum(0, 0, 2, b01, b[0] + b[1]);
    CongSum(b2, 2 * (b[0] + b[1]), -1, a[1], a[1]);

    var c01 := WAdd(c[0], c[1]);
    var c4 := WMul(c01, 4);
    var b3 := WMul(b[1], 3);
    var bs := WAdd(b[0], b3);
    var rc := WSub(c4, bs);
    CongSum(0, 0, 4, c01, c[0] + c[1]);
    CongSum(b[0], b[0], 1, b3, 3 * b[1]);
    CongSum(c4, 4 * (c[0] + c[1]), -1, bs, b[0] + 3 * b[1]);

    var d01 := WAdd(d[0], d[1]);
    var d8 := WMul(d01, 8);
    var c04 := WMul(c[0], 4);
    var c18 := WMul(c[1], 8);
    var cs := WAdd(c04, c18);
    var dc := WSub(d8, cs);
    var rd := WAdd(dc, b[1]);
    CongSum(0, 0, 8, d01, d[0] + d[1]);
    CongSum(c04, 4 * c[0], 1, c18, 8 * c[1]);
    CongSum(d8, 8 * (d[0] + d[1]), -1, cs, 4 * c[0] + 8 * c[1]);
    CongSum(dc, 8 * (d[0] + d[1]) - (4 * c[0] + 8 * c[1]), 1, b[1], b[1]);

    r := Sums(ra, rb, rc, rd);
  }

  /** The weighted sum of the last three lanes. */
  method Tail123(a: seq<int>) returns (r: int)
    requires |a| == 4
    ensures 0 <= r < U64_SIZE && Cong(r, a[1] + 2 * a[2] + 3 * a[3])
  {
    var a2 := WMul(a[2], 2);
    var a3 := WMul(a[3], 3);
    var t := WAdd(a[1], a2);
    r := WAdd(t, a3);
    CongSum(a[1], a[1], 1, a2, 2 * a[2]);
    CongSum(t, a[1] + 2 * a[2], 1, a3, 3 * a[3]);
  }

  ghost function Zip4(a: seq<int>, b: seq<int>, c: seq<int>, d: seq<int>): (l: seq<Sums>)
    requires |a| == |b| == |c| == |d| == 4
    ensures |l| == 4
  {
    [Sums(a[0], b[0], c[0], d[0]), Sums(a[1], b[1], c[1], d[1]),
     Sums(a[2], b[2], c[2], d[2]), Sums(a[3], b[3], c[3], d[3])]
  }

  method QuadC(a: seq<int>, b: seq<int>, c: seq<int>) returns (r: int)
    requires |a| == |b| == |c| == 4
    ensures 0 <= r < U64_SIZE
    ensures Cong(r, 16 * (c[0] + c[1] + c[2] + c[3]) - (6 * b[0] + 10 * b[1] + 14 * b[2] + 18 * b[3]) + a[2] + 3 * a[3])
  {
    var mb := [6, 10, 14, 18];
    var c16 := SumAndMul(c, 16);
    var bd := MulAndSum(b, mb);
    var c1 := WSub(c16, bd);
    var c2 := WAdd(c1, a[2]);
    var a3 := WMul(a[3], 3);
    r := WAdd(c2, a3);
    ghost var tc, tb := Total(c), Dot(b, mb);
    CongSum(c16, 16 * tc, -1, bd, tb);
    CongSum(c1, 16 * tc - tb, 1, a[2], a[2]);
    CongSum(c2, 16 * tc - tb + a[2], 1, a3, 3 * a[3]);
    Total4(c);
    Dot4(b, mb);
  }

  method QuadD(a: seq<int>, b: seq<int>, c: seq<int>, d: seq<int>) returns (r: int)
    requires |a| == |b| == |c| == |d| == 4
    ensures 0 <= r < U64_SIZE
    ensures Cong(r, 64 * (d[0] + d[1] + d[2] + d[3]) - (48 * c[0] + 64 * c[1] + 80 * c[2] + 96 * c[3])
                    + (4 * b[0] + 10 * b[1] + 20 * b[2] + 34 * b[3]) - a[3])
  {
    var mc, mb := [48, 64, 80, 96], [4, 10, 20, 34];
    var d64 := SumAndMul(d, 64);
    var cd := MulAndSum(c, mc);
    var bd := MulAndSum(b, mb);
    var d1 := WSub(d64, cd);
    var d2 := WAdd(d1, bd);
    r := WSub(d2, a[3]);
    ghost var td, tc, tb := Total(d), Dot(c, mc), Dot(b, mb);
    CongSum(d64, 64 * td, -1, cd, tc);
    CongSum(d1, 64 * td - tc, 1, bd, tb);
    CongSum(d2, 64 * td - tc + tb, -1, a[3], a[3]);
    Total4(d);
    Dot4(c, mc);
    Dot4(b, mb);
  }

  method FinishQuad4(a: seq<int>, b: seq<int>, c: seq<int>, d: seq<int>) returns (r: Sums)
    requires |a| == |b| == |c| == |d| == 4
    ensures r == Wrap(Combine(Fletcher4, Zip4(a, b, c, d)))
  {
    var ra := SumAndMul(a, 1);
    Total4(a);

    var b4 := SumAndMul(b, 4);
    var at := Tail123(a);
    var rb := WSub(b4, at);
    CongSum(b4, 4 * Total(b), -1, at, a[1] + 2 * a[2] + 3 * a[3]);
    Total4(b);

    var rc := QuadC(a, b, c);
    var rd := QuadD(a, b, c, d);
    r := Sums(ra, rb, rc, rd);
  }

  method FinishDual2(a: seq<int>, b: seq<int>, c: seq<int>, d: seq<int>) returns (r: Sums)
    requires |a| == |b| == |c| == |d| == 2
    ensures r == Wrap(Combine(Fletcher2, [Sums(a[0], b[0], c[0], d[0]), Sums(a[1], b[1], c[1], d[1])]))
  {
    var c01 := WAdd(c[0], c[1]);
    var c2 := WMul(c01, 2);
    var rc := WSub(c2, a[1]);
    CongSum(0, 0, 2, c01, c[0] + c[1]);
    CongSum(c2, 2 * (c[0] + c[1]), -1, a[1], a[1]);

    var d01 := WAdd(d[0], d[1]);
    var d2 := WMul(d01, 2);
    var rd := WSub(d2, b[1]);
    CongSum(0, 0, 2, d01, d[0] + d[1]);
    CongSum(d2, 2 * (d[0] + d[1]), -1, b[1], b[1]);

    r := Sums(WAdd(a[0], a[1]), WAdd(b[0], b[1]), rc, rd);
  }

  method Add4(v: seq<int>) returns (r: int)
    requires |v| == 4
    ensures 0 <= r < U64_SIZE && Cong(r, v[0] + v[1] + v[2] + v[3])
  {
    var t := WAdd(v[0], v[1]);
    var u := WAdd(t, v[2]);
    r := WAdd(u, v[3]);
    CongSum(t, v[0] + v[1], 1, v[2], v[2]);
    CongSum(u, v[0] + v[1] + v[2], 1, v[3], v[3]);
  }

  /** Four times a sum, less the weighted lower sum. */
  method Weighted2(x: seq<int>, y: seq<int>) returns (r: int)
    requires |x| == |y| == 4
    ensures 0 <= r < U64_SIZE
    ensures Cong(r, 4 * (y[0] + y[1] + y[2] + y[3]) - (x[1] + 2 * x[2] + 3 * x[3]))
  {
    var ys := Add4(y);
    var y4 := WMul(ys, 4);
    var xt := Tail123(x);
    r := WSub(y4, xt);
    CongSum(0, 0, 4, ys, y[0] + y[1] + y[2] + y[3]);
    CongSum(y4, 4 * (y[0] + y[1] + y[2] + y[3]), -1, xt, x[1] + 2 * x[2] + 3 * x[3]);
  }

  method FinishQuad2(a: seq<int>, b: seq<int>, c: seq<int>, d: seq<int>) returns (r: Sums)
    requires |a| == |b| == |c| == |d| == 4
    ensures r == Wrap(Combine(Fletcher2, Zip4(a, b, c, d)))
  {
    var ra := Add4(a);
    var rb := Add4(b);
    var rc := Weighted2(a, c);
    var rd := Weighted2(b, d);
    r := Sums(ra, rb, rc, rd);
  }

  //// The state array

  /** Lane `i` of `n` in a state array: Fletcher-4 keeps all `a` sums first;
    * Fletcher-2 interleaves `a` with `b` and `c` with `d`. */
  function LaneAt(kind: Kind, n: nat, st: seq<u64>, i: nat): (s: Sums)
    requires i < n && 4 * n <= |st|
  {
    if kind == Fletcher4 then Sums(st[i], st[n + i], st[2 * n + i], st[3 * n + i])
    else Sums(st[2 * i], st[2 * i + 1], st[2 * n + 2 * i], st[2 * n + 2 * i + 1])
  }

  function Lanes(kind: Kind, n: nat, st: seq<u64>): (l: seq<Sums>)
    requires 4 * n <= |st|
    ensures |l| == n
  {
    seq(n, i requires 0 <= i < n => LaneAt(kind, n, st, i))
  }

  ghost predicate IsWords(s: Sums) {
    0 <= s.a < U64_SIZE && 0 <= s.b < U64_SIZE && 0 <= s.c < U64_SIZE && 0 <= s.d < U64_SIZE
  }

  method StoreLane(kind: Kind, n: nat, st: array<u64>, i: nat, s: Sums)
    requires i < n && 4 * n <= st.Length && IsWords(s)
    modifies st
    ensures Lanes(kind, n, st[..]) == old(Lanes(kind, n, st[..]))[i := s]
  {
    ghost var before := st[..];
    if kind == Fletcher4 {
      st[i], st[n + i], st[2 * n + i], st[3 * n + i] := s.a, s.b, s.c, s.d;
    } else {
      st[2 * i], st[2 * i + 1], st[2 * n + 2 * i], st[2 * n + 2 * i + 1] := s.a, s.b, s.c, s.d;
    }
    forall j | 0 <= j < n ensures LaneAt(kind, n, st[..], j) == Lanes(kind, n, before)[i := s][j] {
    }
  }

  /** One running update, wrapping at each addition. */
  function StepWords(kind: Kind, s: Sums, u: Unit): (r: Sums)
    ensures IsWords(r) && r == Wrap(Step(kind, s, u))
  {
    var a := WAdd(s.a, u.v);
    CongSum(s.b, s.b, 1, a, s.a + u.v);
    match kind
    case Fletcher4 =>
      var b := WAdd(s.b, a);
      CongSum(s.c, s.c, 1, b, s.b + (s.a + u.v));
      var c := WAdd(s.c, b);
      CongSum(s.d, s.d, 1, c, s.c + (s.b + (s.a + u.v)));
      Sums(a, b, c, WAdd(s.d, c))
    case Fletcher2 =>
      var b := WAdd(s.b, u.w);
      CongSum(s.c, s.c, 1, a, s.a + u.v);
      CongSum(s.d, s.d, 1, b, s.b + u.w);
      Sums(a, b, WAdd(s.c, a), WAdd(s.d, b))
  }
}
