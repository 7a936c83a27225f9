/** Fletcher-2 and Fletcher-4: the one-lane fold that defines the checksum, lanes
  * that split the input between them, and the formulas that recombine lanes. */
module FletcherSpec {
  import opened Base
  import opened BitOps
  import opened Endian

  datatype Kind = Fletcher2 | Fletcher4

  /** Running sums: of the input and of each other. Values are unbounded here;
    * `Wrap` reduces them to what 64-bit words hold. */
  datatype Sums = Sums(a: int, b: int, c: int, d: int)

  /** The numbers one input unit holds: one u32 (in `v`), or two u64. */
  datatype Unit = Unit(v: nat, w: nat)

  const ZERO := Sums(0, 0, 0, 0)

  function UnitSize(kind: Kind): (n: nat)
    ensures n == 4 || n == 16
  {
    if kind == Fletcher4 then 4 else 16
  }

  function DecodeUnit(kind: Kind, order: Order, s: seq<byte>): (u: Unit)
    requires |s| == UnitSize(kind)
  {
    if kind == Fletcher4 then Unit(Value(order, s), 0)
    else Unit(Value(order, s[..8]), Value(order, s[8..]))
  }

  /** The whole units of a byte sequence. */
  function Units(kind: Kind, order: Order, s: seq<byte>): (us: seq<Unit>)
    decreases |s|
  {
    var n := UnitSize(kind);
    if |s| < n then [] else [DecodeUnit(kind, order, s[..n])] + Units(kind, order, s[n..])
  }

  function Step(kind: Kind, s: Sums, u: Unit): (r: Sums) {
    var a := s.a + u.v;
    match kind
    case Fletcher4 =>
      var b := s.b + a;
      var c := s.c + b;
      Sums(a, b, c, s.d + c)
    case Fletcher2 =>
      var b := s.b + u.w;
      Sums(a, b, s.c + a, s.d + b)
  }

  function Wrap(s: Sums): (r: Sums) {
    Sums(s.a % U64_SIZE, s.b % U64_SIZE, s.c % U64_SIZE, s.d % U64_SIZE)
  }

  /** The checksum: one lane, wrapping at every addition. */
  function Fold(kind: Kind, s: Sums, us: seq<Unit>): (r: Sums)
    decreases |us|
  {
    if us == [] then s else Fold(kind, Wrap(Step(kind, s, us[0])), us[1..])
  }

  function Checksum(kind: Kind, order: Order, data: seq<byte>): (r: Sums) {
    Fold(kind, ZERO, Units(kind, order, data))
  }

  //// Lanes

  /** One unit to each lane. */
  function StepLanes(kind: Kind, lanes: seq<Sums>, us: seq<Unit>): (r: seq<Sums>)
    requires |us| == |lanes|
    ensures |r| == |lanes|
  {
    seq(|lanes|, i requires 0 <= i < |lanes| => Step(kind, lanes[i], us[i]))
  }

  function WrapLanes(lanes: seq<Sums>): (r: seq<Sums>)
    ensures |r| == |lanes|
  {
    seq(|lanes|, i requires 0 <= i < |lanes| => Wrap(lanes[i]))
  }

  /** Units dealt out to the lanes in turn. */
  function RunLanes(kind: Kind, lanes: seq<Sums>, us: seq<Unit>): (r: seq<Sums>)
    requires 0 < |lanes|
    ensures |r| == |lanes|
    decreases |us|
  {
    var n := |lanes|;
    if |us| < n then lanes
    else RunLanes(kind, WrapLanes(StepLanes(kind, lanes, us[..n])), us[n..])
  }

  predicate Width(n: nat) {
    n == 1 || n == 2 || n == 4
  }

  /** Bytes in a block of one unit per lane. */
  function BlockSize(kind: Kind, width: nat): (n: nat)
    requires Width(width)
    ensures 4 <= n <= 64
  {
    if width == 1 then UnitSize(kind) else if width == 2 then 2 * UnitSize(kind) else 4 * UnitSize(kind)
  }

  function ZeroLanes(n: nat): (r: seq<Sums>)
    ensures |r| == n
  {
    seq(n, _ => ZERO)
  }

  /** The linear combination of lane sums that stands for the whole input. */
  function Combine(kind: Kind, l: seq<Sums>): (r: Sums)
    requires Width(|l|)
  {
    if |l| == 1 then l[0]
    else if |l| == 2 then
      match kind
      case Fletcher4 =>
        Sums(l[0].a + l[1].a,
             2 * (l[0].b + l[1].b) - l[1].a,
             4 * (l[0].c + l[1].c) - (l[0].b + 3 * l[1].b),
             8 * (l[0].d + l[1].d) - (4 * l[0].c + 8 * l[1].c) + l[1].b)
      case Fletcher2 =>
        Sums(l[0].a + l[1].a, l[0].b + l[1].b,
             2 * (l[0].c + l[1].c) - l[1].a,
             2 * (l[0].d + l[1].d) - l[1].b)
    else
      match kind
      case Fletcher4 =>
        Sums(l[0].a + l[1].a + l[2].a + l[3].a,
             4 * (l[0].b + l[1].b + l[2].b + l[3].b) - (l[1].a + 2 * l[2].a + 3 * l[3].a),
             16 * (l[0].c + l[1].c + l[2].c + l[3].c)
             - (6 * l[0].b + 10 * l[1].b + 14 * l[2].b + 18 * l[3].b) + l[2].a + 3 * l[3].a,
             64 * (l[0].d + l[1].d + l[2].d + l[3].d)
             - (48 * l[0].c + 64 * l[1].c + 80 * l[2].c + 96 * l[3].c)
             + (4 * l[0].b + 10 * l[1].b + 20 * l[2].b + 34 * l[3].b) - l[3].a)
      case Fletcher2 =>
        Sums(l[0].a + l[1].a + l[2].a + l[3].a, l[0].b + l[1].b + l[2].b + l[3].b,
             4 * (l[0].c + l[1].c + l[2].c + l[3].c) - (l[1].a + 2 * l[2].a + 3 * l[3].a),
             4 * (l[0].d + l[1].d + l[2].d + l[3].d) - (l[1].b + 2 * l[2].b + 3 * l[3].b))
  }

  //// Lanes refine the fold

  /** The fold without wrapping. */
  ghost function FoldExact(kind: Kind, s: Sums, us: seq<Unit>): (r: Sums)
    decreases |us|
  {
    if us == [] then s else FoldExact(kind, Step(kind, s, us[0]), us[1..])
  }

  /** Equal as 64-bit words. */
  ghost predicate Cong(x: int, y: int) {
    x % U64_SIZE == y % U64_SIZE
  }

  lemma CongSum(x: int, x': int, k: int, y: int, y': int)
    requires Cong(x, x') && Cong(y, y')
    ensures Cong(x + k * y, x' + k * y')
  {
    var q := x / U64_SIZE - x' / U64_SIZE;
    var r := y / U64_SIZE - y' / U64_SIZE;
    assert x == x' + q * U64_SIZE && y == y' + r * U64_SIZE;
    assert k * y == k * y' + (k * r) * U64_SIZE;
    assert x + k * y == x' + k * y' + (q + k * r) * U64_SIZE;
    AddMultiple(x' + k * y', q + k * r, U64_SIZE);
  }

  ghost predicate CongSums(s: Sums, t: Sums) {
    Cong(s.a, t.a) && Cong(s.b, t.b) && Cong(s.c, t.c) && Cong(s.d, t.d)
  }

  lemma WrapStep(kind: Kind, s: Sums, u: Unit)
    ensures Wrap(Step(kind, Wrap(s), u)) == Wrap(Step(kind, s, u))
  {
    StepCong(kind, Wrap(s), s, u);
  }

  lemma StepCong(kind: Kind, s: Sums, t: Sums, u: Unit)
    requires CongSums(s, t)
    ensures CongSums(Step(kind, s, u), Step(kind, t, u))
  {
    var s', t' := Step(kind, s, u), Step(kind, t, u);
    CongSum(s.a, t.a, 1, u.v, u.v);
    if kind == Fletcher4 {
      CongSum(s.b, t.b, 1, s'.a, t'.a);
      CongSum(s.c, t.c, 1, s'.b, t'.b);
      CongSum(s.d, t.d, 1, s'.c, t'.c);
    } else {
      CongSum(s.b, t.b, 1, u.w, u.w);
      CongSum(s.c, t.c, 1, s'.a, t'.a);
      CongSum(s.d, t.d, 1, s'.b, t'.b);
    }
  }

  lemma {:induction false} FoldWraps(kind: Kind, s: Sums, us: seq<Unit>)
    ensures Fold(kind, Wrap(s), us) == Wrap(FoldExact(kind, s, us))
    decreases |us|
  {
    if us == [] {
    } else {
      WrapStep(kind, s, us[0]);
      FoldWraps(kind, Step(kind, s, us[0]), us[1..]);
    }
  }

  /** One unit to each lane is the same as all of them to the combined sums. */
  lemma CombineStep(kind: Kind, lanes: seq<Sums>, us: seq<Unit>)
    requires Width(|lanes|) && |us| == |lanes|
    ensures Combine(kind, StepLanes(kind, lanes, us)) == FoldExact(kind, Combine(kind, lanes), us)
  {
    var s0 := Combine(kind, lanes);
    var s1 := Step(kind, s0, us[0]);
    if |us| == 1 {
      assert FoldExact(kind, s1, us[1..]) == s1;
    } else {
      var s2 := Step(kind, s1, us[1]);
      var t1 := us[1..];
      assert t1[0] == us[1];
      if |us| == 2 {
        assert FoldExact(kind, s2, t1[1..]) == s2;
      } else {
        var t2 := t1[1..];
        var t3 := t2[1..];
        assert t2[0] == us[2] && t3[0] == us[3] && t3[1..] == [];
        var s3 := Step(kind, s2, us[2]);
        var s4 := Step(kind, s3, us[3]);
        assert FoldExact(kind, s3, t3) == s4;
        assert FoldExact(kind, s1, t1) == s4;
      }
    }
  }

  /** A combination of the four components of one lane. */
  ghost function Row(s: Sums, ka: int, kb: int, kc: int, kd: int): (r: int) {
    ka * s.a + kb * s.b + kc * s.c + kd * s.d
  }

  lemma RowCong(x: int, y: int, s: Sums, t: Sums, ka: int, kb: int, kc: int, kd: int)
    requires Cong(x, y) && CongSums(s, t)
    ensures Cong(x + Row(s, ka, kb, kc, kd), y + Row(t, ka, kb, kc, kd))
  {
    CongSum(x, y, ka, s.a, t.a);
    CongSum(x + ka * s.a, y + ka * t.a, kb, s.b, t.b);
    CongSum(x + ka * s.a + kb * s.b, y + ka * t.a + kb * t.b, kc, s.c, t.c);
    CongSum(x + ka * s.a + kb * s.b + kc * s.c, y + ka * t.a + kb * t.b + kc * t.c, kd, s.d, t.d);
  }

  ghost predicate CongLanes(l: seq<Sums>, m: seq<Sums>) {
    |l| == |m| && forall i :: 0 <= i < |l| ==> CongSums(l[i], m[i])
  }

  lemma DualCong(l: seq<Sums>, m: seq<Sums>, ka: (int, int), kb: (int, int), kc: (int, int), kd: (int, int))
    requires |l| == 2 && CongLanes(l, m)
    ensures Cong(Row(l[0], ka.0, kb.0, kc.0, kd.0) + Row(l[1], ka.1, kb.1, kc.1, kd.1),
                 Row(m[0], ka.0, kb.0, kc.0, kd.0) + Row(m[1], ka.1, kb.1, kc.1, kd.1))
  {
    RowCong(0, 0, l[0], m[0], ka.0, kb.0, kc.0, kd.0);
    RowCong(Row(l[0], ka.0, kb.0, kc.0, kd.0), Row(m[0], ka.0, kb.0, kc.0, kd.0), l[1], m[1], ka.1, kb.1, kc.1, kd.1);
  }

  type Coeffs = (int, int, int, int)

  ghost function Quad(l: seq<Sums>, ka: Coeffs, kb: Coeffs, kc: Coeffs, kd: Coeffs): (r: int)
    requires |l| == 4
  {
    Row(l[0], ka.0, kb.0, kc.0, kd.0) + Row(l[1], ka.1, kb.1, kc.1, kd.1)
    + Row(l[2], ka.2, kb.2, kc.2, kd.2) + Row(l[3], ka.3, kb.3, kc.3, kd.3)
  }

  lemma QuadCong(l: seq<Sums>, m: seq<Sums>, ka: Coeffs, kb: Coeffs, kc: Coeffs, kd: Coeffs)
    requires |l| == 4 && CongLanes(l, m)
    ensures Cong(Quad(l, ka, kb, kc, kd), Quad(m, ka, kb, kc, kd))
  {
    var x0, y0 := Row(l[0], ka.0, kb.0, kc.0, kd.0), Row(m[0], ka.0, kb.0, kc.0, kd.0);
    RowCong(0, 0, l[0], m[0], ka.0, kb.0, kc.0, kd.0);
    RowCong(x0, y0, l[1], m[1], ka.1, kb.1, kc.1, kd.1);
    var x1, y1 := x0 + Row(l[1], ka.1, kb.1, kc.1, kd.1), y0 + Row(m[1], ka.1, kb.1, kc.1, kd.1);
    RowCong(x1, y1, l[2], m[2], ka.2, kb.2, kc.2, kd.2);
    var x2, y2 := x1 + Row(l[2], ka.2, kb.2, kc.2, kd.2), y1 + Row(m[2], ka.2, kb.2, kc.2, kd.2);
    RowCong(x2, y2, l[3], m[3], ka.3, kb.3, kc.3, kd.3);
  }

  lemma CombineDualCong(kind: Kind, l: seq<Sums>, m: seq<Sums>)
    requires |l| == 2 && CongLanes(l, m)
    ensures CongSums(Combine(kind, l), Combine(kind, m))
  {
    var z := (0, 0);
    DualCong(l, m, (1, 1), z, z, z);
    if kind == Fletcher4 {
      DualCong(l, m, (0, -1), (2, 2), z, z);
      DualCong(l, m, z, (-1, -3), (4, 4), z);
      DualCong(l, m, z, (0, 1), (-4, -8), (8, 8));
    } else {
      DualCong(l, m, z, (1, 1), z, z);
      DualCong(l, m, (0, -1), z, (2, 2), z);
      DualCong(l, m, z, (0, -1), z, (2, 2));
    }
  }

  lemma QuadA4(l: seq<Sums>, m: seq<Sums>)
    requires |l| == |m| == 4 && CongLanes(l, m)
    ensures Cong(Combine(Fletcher4, l).a, Combine(Fletcher4, m).a)
  {
    hide Cong, CongLanes;
    QuadCong(l, m, (1, 1, 1, 1), (0, 0, 0, 0), (0, 0, 0, 0), (0, 0, 0, 0));
    assert Combine(Fletcher4, l).a == Quad(l, (1, 1, 1, 1), (0, 0, 0, 0), (0, 0, 0, 0), (0, 0, 0, 0));
    assert Combine(Fletcher4, m).a == Quad(m, (1, 1, 1, 1), (0, 0, 0, 0), (0, 0, 0, 0), (0, 0, 0, 0));
  }

  lemma QuadB4(l: seq<Sums>, m: seq<Sums>)
    requires |l| == |m| == 4 && CongLanes(l, m)
    ensures Cong(Combine(Fletcher4, l).b, Combine(Fletcher4, m).b)
  {
    hide Cong, CongLanes;
    QuadCong(l, m, (0, -1, -2, -3), (4, 4, 4, 4), (0, 0, 0, 0), (0, 0, 0, 0));
    assert Combine(Fletcher4, l).b == Quad(l, (0, -1, -2, -3), (4, 4, 4, 4), (0, 0, 0, 0), (0, 0, 0, 0));
    assert Combine(Fletcher4, m).b == Quad(m, (0, -1, -2, -3), (4, 4, 4, 4), (0, 0, 0, 0), (0, 0, 0, 0));
  }

  lemma QuadC4(l: seq<Sums>, m: seq<Sums>)
    requires |l| == |m| == 4 && CongLanes(l, m)
    ensures Cong(Combine(Fletcher4, l).c, Combine(Fletcher4, m).c)
  {
    hide Cong, CongLanes;
    QuadCong(l, m, (0, 0, 1, 3), (-6, -10, -14, -18), (16, 16, 16, 16), (0, 0, 0, 0));
    assert Combine(Fletcher4, l).c == Quad(l, (0, 0, 1, 3), (-6, -10, -14, -18), (16, 16, 16, 16), (0, 0, 0, 0));
    assert Combine(Fletcher4, m).c == Quad(m, (0, 0, 1, 3), (-6, -10, -14, -18), (16, 16, 16, 16), (0, 0, 0, 0));
  }

  lemma QuadD4(l: seq<Sums>, m: seq<Sums>)
    requires |l| == |m| == 4 && CongLanes(l, m)
    ensures Cong(Combine(Fletcher4, l).d, Combine(Fletcher4, m).d)
  {
    hide Cong, CongLanes;
    QuadCong(l, m, (0, 0, 0, -1), (4, 10, 20, 34), (-48, -64, -80, -96), (64, 64, 64, 64));
    assert Combine(Fletcher4, l).d == Quad(l, (0, 0, 0, -1), (4, 10, 20, 34), (-48, -64, -80, -96), (64, 64, 64, 64));
    assert Combine(Fletcher4, m).d == Quad(m, (0, 0, 0, -1), (4, 10, 20, 34), (-48, -64, -80, -96), (64, 64, 64, 64));
  }

  lemma QuadA2(l: seq<Sums>, m: seq<Sums>)
    requires |l| == |m| == 4 && CongLanes(l, m)
    ensures Cong(Combine(Fletcher2, l).a, Combine(Fletcher2, m).a)
  {
    hide Cong, CongLanes;
    QuadCong(l, m, (1, 1, 1, 1), (0, 0, 0, 0), (0, 0, 0, 0), (0, 0, 0, 0));
    assert Combine(Fletcher2, l).a == Quad(l, (1, 1, 1, 1), (0, 0, 0, 0), (0, 0, 0, 0), (0, 0, 0, 0));
    assert Combine(Fletcher2, m).a == Quad(m, (1, 1, 1, 1), (0, 0, 0, 0), (0, 0, 0, 0), (0, 0, 0, 0));
  }

  lemma QuadB2(l: seq<Sums>, m: seq<Sums>)
    requires |l| == |m| == 4 && CongLanes(l, m)
    ensures Cong(Combine(Fletcher2, l).b, Combine(Fletcher2, m).b)
  {
    hide Cong, CongLanes;
    QuadCong(l, m, (0, 0, 0, 0), (1, 1, 1, 1), (0, 0, 0, 0), (0, 0, 0, 0));
    assert Combine(Fletcher2, l).b == Quad(l, (0, 0, 0, 0), (1, 1, 1, 1), (0, 0, 0, 0), (0, 0, 0, 0));
    assert Combine(Fletcher2, m).b == Quad(m, (0, 0, 0, 0), (1, 1, 1, 1), (0, 0, 0, 0), (0, 0, 0, 0));
  }

  lemma QuadC2(l: seq<Sums>, m: seq<Sums>)
    requires |l| == |m| == 4 && CongLanes(l, m)
    ensures Cong(Combine(Fletcher2, l).c, Combine(Fletcher2, m).c)
  {
    hide Cong, CongLanes;
    QuadCong(l, m, (0, -1, -2, -3), (0, 0, 0, 0), (4, 4, 4, 4), (0, 0, 0, 0));
    assert Combine(Fletcher2, l).c == Quad(l, (0, -1, -2, -3), (0, 0, 0, 0), (4, 4, 4, 4), (0, 0, 0, 0));
    assert Combine(Fletcher2, m).c == Quad(m, (0, -1, -2, -3), (0, 0, 0, 0), (4, 4, 4, 4), (0, 0, 0, 0));
  }

  lemma QuadD2(l: seq<Sums>, m: seq<Sums>)
    requires |l| == |m| == 4 && CongLanes(l, m)
    ensures Cong(Combine(Fletcher2, l).d, Combine(Fletcher2, m).d)
  {
    hide Cong, CongLanes;
    QuadCong(l, m, (0, 0, 0, 0), (0, -1, -2, -3), (0, 0, 0, 0), (4, 4, 4, 4));
    assert Combine(Fletcher2, l).d == Quad(l, (0, 0, 0, 0), (0, -1, -2, -3), (0, 0, 0, 0), (4, 4, 4, 4));
    assert Combine(Fletcher2, m).d == Quad(m, (0, 0, 0, 0), (0, -1, -2, -3), (0, 0, 0, 0), (4, 4, 4, 4));
  }

  lemma CombineQuadCong(kind: Kind, l: seq<Sums>, m: seq<Sums>)
    requires |l| == |m| == 4 && CongLanes(l, m)
    ensures CongSums(Combine(kind, l), Combine(kind, m))
  {
    hide Cong, CongLanes, Combine;
    match kind
    case Fletcher4 =>
      QuadA4(l, m);
      QuadB4(l, m);
      QuadC4(l, m);
      QuadD4(l, m);
    case Fletcher2 =>
      QuadA2(l, m);
      QuadB2(l, m);
      QuadC2(l, m);
      QuadD2(l, m);
  }

  lemma CombineWraps(kind: Kind, lanes: seq<Sums>)
    requires Width(|lanes|)
    ensures Wrap(Combine(kind, WrapLanes(lanes))) == Wrap(Combine(kind, lanes))
  {
    var l := WrapLanes(lanes);
    assert CongLanes(l, lanes) by {
      forall i | 0 <= i < |lanes| ensures CongSums(l[i], lanes[i]) {
        assert l[i] == Wrap(lanes[i]);
      }
    }
    if |l| == 2 {
      CombineDualCong(kind, l, lanes);
    } else if |l| == 4 {
      CombineQuadCong(kind, l, lanes);
    }
  }

  /** Running the lanes and combining them is the fold, modulo 2^64. */
  lemma {:induction false} LanesRefineFold(kind: Kind, lanes: seq<Sums>, us: seq<Unit>)
    requires Width(|lanes|) && Whole(|us|, |lanes|)
    ensures Wrap(Combine(kind, RunLanes(kind, lanes, us))) == Fold(kind, Wrap(Combine(kind, lanes)), us)
    decreases |us|
  {
    var n := |lanes|;
    if us == [] {
    } else {
      var block, rest := us[..n], us[n..];
      var exact := StepLanes(kind, lanes, block);
      LanesRefineFold(kind, WrapLanes(exact), rest);
      CombineWraps(kind, exact);
      CombineStep(kind, lanes, block);
      FoldWraps(kind, Combine(kind, lanes), block);
      FoldConcat(kind, Wrap(Combine(kind, lanes)), block, rest);
      assert block + rest == us;
    }
  }

  lemma {:induction false} FoldConcat(kind: Kind, s: Sums, a: seq<Unit>, b: seq<Unit>)
    ensures Fold(kind, s, a + b) == Fold(kind, Fold(kind, s, a), b)
    decreases |a|
  {
    if a == [] {
      assert a + b == b;
    } else {
      assert (a + b)[1..] == a[1..] + b;
      FoldConcat(kind, Wrap(Step(kind, s, a[0])), a[1..], b);
    }
  }

  lemma {:induction false} RunConcat(kind: Kind, lanes: seq<Sums>, a: seq<Unit>, b: seq<Unit>)
    requires 0 < |lanes| && Whole(|a|, |lanes|)
    ensures RunLanes(kind, lanes, a + b) == RunLanes(kind, RunLanes(kind, lanes, a), b)
    decreases |a|
  {
    var n := |lanes|;
    if a == [] {
      assert a + b == b;
    } else {
      assert (a + b)[..n] == a[..n] && (a + b)[n..] == a[n..] + b;
      RunConcat(kind, WrapLanes(StepLanes(kind, lanes, a[..n])), a[n..], b);
    }
  }

  /** Whole blocks of units deal out evenly. */
  lemma {:induction false} UnitsWhole(kind: Kind, order: Order, s: seq<byte>, width: nat)
    requires Width(width) && Whole(|s|, BlockSize(kind, width))
    ensures Whole(|Units(kind, order, s)|, width)
    decreases |s|
  {
    if s == [] {
    } else {
      var n, unit := BlockSize(kind, width), UnitSize(kind);
      UnitsWhole(kind, order, s[n..], width);
      assert s == s[..n] + s[n..];
      WholeTimes(width, unit);
      assert n == width * unit;
      UnitsConcat(kind, order, s[..n], s[n..]);
      UnitsCount(kind, order, s[..n], width);
    }
  }

  lemma {:induction false} UnitsCount(kind: Kind, order: Order, s: seq<byte>, count: nat)
    requires |s| == count * UnitSize(kind)
    ensures |Units(kind, order, s)| == count
    decreases count
  {
    if count == 0 {
    } else {
      UnitsCount(kind, order, s[UnitSize(kind)..], count - 1);
    }
  }

  lemma {:induction false} UnitsConcat(kind: Kind, order: Order, a: seq<byte>, b: seq<byte>)
    requires Whole(|a|, UnitSize(kind))
    ensures Units(kind, order, a + b) == Units(kind, order, a) + Units(kind, order, b)
    decreases |a|
  {
    var n := UnitSize(kind);
    if a == [] {
      assert a + b == b;
    } else {
      assert (a + b)[..n] == a[..n];
      assert (a + b)[n..] == a[n..] + b;
      UnitsConcat(kind, order, a[n..], b);
    }
  }
}
