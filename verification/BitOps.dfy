/** Bitwise operations on naturals, with the shift-and-mask identities that the
  * packed formats rely on. `x >> k` is `x / Pow2(k)`, `x << k` is `x * Pow2(k)`. */
module BitOps {

  function Pow2(k: nat): (p: nat)
    ensures 0 < p
  {
    if k == 0 then 1 else 2 * Pow2(k - 1)
  }

  function And(a: nat, b: nat): (r: nat)
    decreases a + b
  {
    if a == 0 || b == 0 then 0
    else (if a % 2 == 1 && b % 2 == 1 then 1 else 0) + 2 * And(a / 2, b / 2)
  }

  function Or(a: nat, b: nat): (r: nat)
    decreases a + b
  {
    if a == 0 then b else if b == 0 then a
    else (if a % 2 == 1 || b % 2 == 1 then 1 else 0) + 2 * Or(a / 2, b / 2)
  }

  function Xor(a: nat, b: nat): (r: nat)
    decreases a + b
  {
    if a == 0 then b else if b == 0 then a
    else (if a % 2 != b % 2 then 1 else 0) + 2 * Xor(a / 2, b / 2)
  }

  lemma {:induction false} Pow2Add(j: nat, k: nat)
    ensures Pow2(j + k) == Pow2(j) * Pow2(k)
  {
    if j != 0 { Pow2Add(j - 1, k); }
  }

  lemma Pow2Mono(j: nat, k: nat)
    requires j <= k
    ensures Pow2(j) <= Pow2(k)
    decreases k
  {
    if j < k { Pow2Mono(j, k - 1); }
  }

  lemma Pow2Bytes()
    ensures Pow2(7) == 128 && Pow2(8) == 256 && Pow2(9) == 512
  {
  }

  lemma HalfDiv(a: nat, p: nat)
    requires 0 < p
    ensures a / 2 / p == a / (2 * p)
    ensures a % (2 * p) == a % 2 + 2 * (a / 2 % p)
  {
    var q := a / 2 / p;
    var r := a / 2 % p;
    assert a == q * (2 * p) + (2 * r + a % 2);
    DivModUnique(a, 2 * p, q, 2 * r + a % 2);
  }

  lemma {:induction false} MulAtLeast(k: nat, d: nat)
    requires 0 < k
    ensures d <= k * d
  {
    if k > 1 {
      MulAtLeast(k - 1, d);
      assert k * d == (k - 1) * d + d;
    }
  }

  lemma DivNat(a: nat, d: nat)
    requires 0 < d
    ensures 0 <= a / d <= a
  {
    if a / d > a {
      MulAtLeast(d, a / d);
    }
  }

  lemma SmallMultiple(k: int, d: int)
    requires 0 < d && -d < k * d < d
    ensures k == 0
  {
    if k > 0 {
      MulAtLeast(k, d);
    }
  }

  lemma DivModUnique(a: int, d: int, q: int, r: int)
    requires 0 < d && 0 <= r < d && a == q * d + r
    ensures a / d == q && a % d == r
  {
    var q' := a / d;
    assert a == q' * d + a % d;
    assert (q - q') * d == q * d - q' * d;
    SmallMultiple(q - q', d);
  }

  lemma AddMultiple(m: int, c: int, d: int)
    requires 0 < d
    ensures (m + c * d) / d == m / d + c && (m + c * d) % d == m % d
  {
    assert (m / d + c) * d == m / d * d + c * d;
    DivModUnique(m + c * d, d, m / d + c, m % d);
  }

  /** The low digits of a number, and the digit above them. */
  lemma DigitSplit(id: nat, a: nat, b: nat)
    requires 0 < a && 0 < b && 0 < a * b
    ensures id % (a * b) == id / b % a * b + id % b
    ensures id % (a * b) / b == id / b % a && id % (a * b) % b == id % b
    ensures 0 <= id % (a * b) < a * b && 0 <= id / b % a < a
  {
    var q, low := id / b, id % b;
    var high, digit := q / a, q % a;
    calc {
      id;
      q * b + low;
      (high * a + digit) * b + low;
      high * (a * b) + (digit * b + low);
    }
    DigitBound(digit, low, a, b);
    DivModUnique(id, a * b, high, digit * b + low);
    DivModUnique(digit * b + low, b, digit, low);
  }

  lemma DigitBound(digit: int, low: int, a: int, b: int)
    requires 0 <= digit < a && 0 <= low < b
    ensures 0 <= digit * b + low < a * b
  {
    assert (digit + 1) * b <= a * b;
    assert (digit + 1) * b == digit * b + b;
  }

  /** Masking with k ones is reduction modulo 2^k. */
  lemma {:induction false} AndOnes(a: nat, k: nat)
    ensures And(a, Pow2(k) - 1) == a % Pow2(k)
  {
    if k == 0 {
    } else {
      AndOnes(a / 2, k - 1);
      HalfDiv(a, Pow2(k - 1));
      assert (Pow2(k) - 1) % 2 == 1 && (Pow2(k) - 1) / 2 == Pow2(k - 1) - 1;
    }
  }

  /** Masking with one bit tests it. */
  lemma {:induction false} AndBit(a: nat, k: nat)
    ensures And(a, Pow2(k)) != 0 <==> a / Pow2(k) % 2 == 1
  {
    if k == 0 {
    } else {
      AndBit(a / 2, k - 1);
      HalfDiv(a, Pow2(k - 1));
    }
  }

  /** Or of fields that do not overlap is their sum. */
  lemma {:induction false} OrDisjoint(a: nat, b: nat, k: nat)
    requires a < Pow2(k)
    ensures Or(a, b * Pow2(k)) == a + b * Pow2(k)
  {
    if k != 0 && a != 0 && b != 0 {
      var bp := b * Pow2(k - 1);
      assert b * Pow2(k) == 2 * bp;
      OrDisjoint(a / 2, b, k - 1);
    }
  }

  lemma {:induction false} XorBound(a: nat, b: nat, k: nat)
    requires a < Pow2(k) && b < Pow2(k)
    ensures Xor(a, b) < Pow2(k)
  {
    if k != 0 && a != 0 && b != 0 { XorBound(a / 2, b / 2, k - 1); }
  }

  lemma {:induction false} XorComm(a: nat, b: nat)
    ensures Xor(a, b) == Xor(b, a)
    decreases a + b
  {
    if a != 0 && b != 0 { XorComm(a / 2, b / 2); }
  }

  lemma {:induction false} XorSelf(a: nat)
    ensures Xor(a, a) == 0
  {
    if a != 0 { XorSelf(a / 2); }
  }

  /** Low bit and rest of an exclusive or, whatever the operands. */
  lemma {:induction false} XorParts(a: nat, b: nat)
    ensures Xor(a, b) % 2 == (if a % 2 != b % 2 then 1 else 0)
    ensures Xor(a, b) / 2 == Xor(a / 2, b / 2)
  {
    if a != 0 && b != 0 {
      var low, high := if a % 2 != b % 2 then 1 else 0, Xor(a / 2, b / 2);
      assert Xor(a, b) == low + 2 * high;
    }
  }

  /** Bit `k`, from the low end. */
  function BitOf(a: nat, k: nat): (bit: nat)
    ensures bit < 2
  {
    if k == 0 then a % 2 else BitOf(a / 2, k - 1)
  }

  lemma {:induction false} BitOfIs(a: nat, k: nat)
    ensures BitOf(a, k) == a / Pow2(k) % 2
  {
    if k == 0 {
    } else {
      BitOfIs(a / 2, k - 1);
      HalfDiv(a, Pow2(k - 1));
    }
  }

  /** Every bit of an exclusive or is the sum of the two bits modulo 2. */
  lemma {:induction false} XorBit(a: nat, b: nat, k: nat)
    ensures BitOf(Xor(a, b), k) == (BitOf(a, k) + BitOf(b, k)) % 2
    decreases k
  {
    XorParts(a, b);
    if k == 0 {
    } else {
      XorBit(a / 2, b / 2, k - 1);
    }
  }

  lemma {:induction false} XorAssoc(a: nat, b: nat, c: nat)
    ensures Xor(Xor(a, b), c) == Xor(a, Xor(b, c))
    decreases a + b + c
  {
    if a + b + c != 0 {
      XorAssoc(a / 2, b / 2, c / 2);
      XorParts(a, b);
      XorParts(b, c);
      XorParts(Xor(a, b), c);
      XorParts(a, Xor(b, c));
    }
  }

  /** Exclusive or is its own inverse. */
  lemma XorCancel(a: nat, b: nat)
    ensures Xor(Xor(a, b), b) == a
  {
    XorAssoc(a, b, b);
    XorSelf(b);
  }

  //// Whole blocks

  /** `n` is a number of whole blocks of `m`. */
  predicate Whole(n: nat, m: nat)
    requires 0 < m
  {
    n == 0 || (m <= n && Whole(n - m, m))
  }

  lemma {:induction false} WholeMod(n: nat, m: nat)
    requires 0 < m
    ensures Whole(n, m) <==> n % m == 0
  {
    if m <= n {
      WholeMod(n - m, m);
      AddMultiple(n - m, 1, m);
    } else {
      DivModUnique(n, m, 0, n);
    }
  }

  lemma {:induction false} WholeAdd(a: nat, b: nat, m: nat)
    requires 0 < m && Whole(a, m) && Whole(b, m)
    ensures Whole(a + b, m)
    decreases a
  {
    if a != 0 { WholeAdd(a - m, b, m); }
  }

  /** Splitting off the remainder. */
  lemma {:induction false} RoundDown(n: nat, m: nat)
    requires 0 < m
    ensures n % m < m && n % m <= n && Whole(n - n % m, m)
  {
    if m <= n {
      RoundDown(n - m, m);
      AddMultiple(n - m, 1, m);
    } else {
      DivModUnique(n, m, 0, n);
    }
  }

  /** Blocks of several units are whole units too. */
  lemma {:induction false} WholeUnits(n: nat, width: nat, unit: nat)
    requires 0 < unit && 0 < width && 0 < width * unit && Whole(n, width * unit)
    ensures Whole(n, unit)
    decreases n
  {
    if n == 0 {
    } else {
      WholeUnits(n - width * unit, width, unit);
      WholeTimes(width, unit);
      WholeAdd(n - width * unit, width * unit, unit);
    }
  }

  lemma {:induction false} WholeTimes(width: nat, unit: nat)
    requires 0 < unit
    ensures Whole(width * unit, unit)
  {
    if width == 0 {
    } else {
      WholeTimes(width - 1, unit);
      assert width * unit == (width - 1) * unit + unit;
    }
  }

  /** `n * unit` by repeated addition: a form that stays linear for the solver. */
  function Scale(n: nat, unit: nat): (r: nat) {
    if n == 0 then 0 else Scale(n - 1, unit) + unit
  }

  lemma {:induction false} ScaleIs(n: nat, unit: nat)
    ensures Scale(n, unit) == n * unit
  {
    if n == 0 {
    } else {
      ScaleIs(n - 1, unit);
    }
  }

  lemma {:induction false} ScaleAdd(m: nat, n: nat, unit: nat)
    ensures Scale(m + n, unit) == Scale(m, unit) + Scale(n, unit)
  {
    if n == 0 {
    } else {
      ScaleAdd(m, n - 1, unit);
    }
  }

  lemma ScaleMono(m: nat, n: nat, unit: nat)
    requires m <= n
    ensures Scale(m, unit) <= Scale(n, unit)
  {
    ScaleAdd(m, n - m, unit);
  }

  lemma {:induction false} ScaleAtLeast(n: nat, unit: nat)
    requires 0 < unit
    ensures n <= Scale(n, unit)
  {
    if n == 0 {
    } else {
      ScaleAtLeast(n - 1, unit);
    }
  }

  datatype QuotRem = QuotRem(quot: nat, rem: nat)

  /** Division by repeated subtraction: linear for the solver, like Scale. */
  function Divide(n: nat, d: nat): (x: QuotRem)
    requires 0 < d
    ensures x.rem < d && Scale(x.quot, d) + x.rem == n
  {
    if n < d then QuotRem(0, n) else
      var x := Divide(n - d, d);
      QuotRem(x.quot + 1, x.rem)
  }

  lemma DivideIs(n: nat, d: nat)
    requires 0 < d
    ensures Divide(n, d) == QuotRem(n / d, n % d)
  {
    var x := Divide(n, d);
    ScaleIs(x.quot, d);
    DivModUnique(n, d, x.quot, x.rem);
  }

  lemma {:induction false} DivideUnique(x: QuotRem, d: nat)
    requires x.rem < d
    ensures Divide(Scale(x.quot, d) + x.rem, d) == x
    decreases x.quot
  {
    if x.quot == 0 {
    } else {
      DivideUnique(QuotRem(x.quot - 1, x.rem), d);
    }
  }

  lemma ScaleComm(a: nat, b: nat)
    ensures Scale(a, b) == Scale(b, a)
  {
    ScaleIs(a, b);
    ScaleIs(b, a);
  }

  lemma {:induction false} ScaleUnitMono(n: nat, unit: nat, unit': nat)
    requires unit <= unit'
    ensures Scale(n, unit) <= Scale(n, unit')
  {
    if n == 0 {
    } else {
      ScaleUnitMono(n - 1, unit, unit');
    }
  }
}
