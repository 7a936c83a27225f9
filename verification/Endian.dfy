/** Fixed-width integers as bytes, in either byte order. */
module Endian {
  import opened Base
  import opened BitOps

  datatype Order = Big | Little

  /** The number a byte sequence spells. */
  function Value(order: Order, s: seq<byte>): (v: nat)
    ensures v < Pow2(8 * |s|)
  {
    if s == [] then 0
    else if order == Big then
      Shift8(|s| - 1);
      Value(order, s[..|s| - 1]) * 0x100 + s[|s| - 1]
    else
      Shift8(|s| - 1);
      s[0] + 0x100 * Value(order, s[1..])
  }

  /** A number as `n` bytes. */
  function Bytes(order: Order, v: nat, n: nat): (s: seq<byte>)
    ensures |s| == n
  {
    if n == 0 then []
    else if order == Big then Bytes(order, v / 0x100, n - 1) + [v % 0x100]
    else [v % 0x100] + Bytes(order, v / 0x100, n - 1)
  }

  lemma Shift8(n: nat)
    ensures Pow2(8 * (n + 1)) == 0x100 * Pow2(8 * n)
  {
    Pow2Bytes();
    Pow2Add(8, 8 * n);
  }

  lemma {:induction false} ValueOfBytes(order: Order, v: nat, n: nat)
    requires v < Pow2(8 * n)
    ensures Value(order, Bytes(order, v, n)) == v
  {
    if n == 0 {
    } else {
      Shift8(n - 1);
      ValueOfBytes(order, v / 0x100, n - 1);
      var s, t := Bytes(order, v, n), Bytes(order, v / 0x100, n - 1);
      if order == Big {
        assert s[..n - 1] == t;
      } else {
        assert s[1..] == t;
      }
    }
  }

  /** The last byte written is the low one, in either order. */
  lemma ValueParts(order: Order, s: seq<byte>)
    requires s != []
    ensures var (rest, low) := if order == Big then (s[..|s| - 1], s[|s| - 1]) else (s[1..], s[0]);
            Value(order, s) / 0x100 == Value(order, rest) && Value(order, s) % 0x100 == low
  {
    var (rest, low) := if order == Big then (s[..|s| - 1], s[|s| - 1]) else (s[1..], s[0]);
    AddMultiple(low, Value(order, rest), 0x100);
  }

  lemma {:induction false} BytesOfValue(order: Order, s: seq<byte>)
    ensures Bytes(order, Value(order, s), |s|) == s
  {
    if s == [] {
    } else {
      ValueParts(order, s);
      var n := |s| - 1;
      if order == Big {
        BytesOfValue(order, s[..n]);
        assert s == s[..n] + [s[n]];
      } else {
        BytesOfValue(order, s[1..]);
        assert s == [s[0]] + s[1..];
      }
    }
  }

  lemma DivTwice(x: nat, a: nat, b: nat)
    requires 0 < a && 0 < b && 0 < a * b
    ensures x / (a * b) == x / a / b
  {
    DivNat(x, a);
    var q, r := x / a, x % a;
    var h, l := q / b, q % b;
    Regrouped(x, a, b, h, l, r);
    DigitBound(l, r, b, a);
    DivModUnique(x, a * b, h, l * a + r);
  }

  lemma Regrouped(x: int, a: int, b: int, h: int, l: int, r: int)
    requires x == (h * b + l) * a + r
    ensures x == h * (a * b) + (l * a + r) && b * a == a * b
  {
    assert (h * b + l) * a == h * b * a + l * a;
    assert h * b * a == h * (a * b);
  }

  /** The place of byte `i`: the high byte is first in big-endian order, last in little. */
  function Place(order: Order, n: nat, i: nat): (k: nat)
    requires i < n
  {
    if order == Big then n - 1 - i else i
  }

  /** Each byte is the digit of its place in base 256. */
  lemma {:induction false} ByteOfValue(order: Order, s: seq<byte>, i: nat)
    requires i < |s|
    ensures Value(order, s) / Pow2(8 * Place(order, |s|, i)) % 256 == s[i]
    decreases |s|
  {
    hide Value, Pow2;
    var k, n := Place(order, |s|, i), |s| - 1;
    ValueParts(order, s);
    if k == 0 {
      assert Pow2(0) == 1 by { FirstPower(); }
    } else {
      var rest := if order == Big then s[..n] else s[1..];
      ByteOfValue(order, rest, if order == Big then i else i - 1);
      Shift8(k - 1);
      DivTwice(Value(order, s), 256, Pow2(8 * (k - 1)));
    }
  }

  lemma FirstPower()
    ensures Pow2(0) == 1
  {
  }

  /** Four bytes, the high one first. */
  lemma Big4(s: seq<byte>)
    requires |s| == 4
    ensures Value(Big, s) == 0x100_0000 * s[0] + 0x1_0000 * s[1] + 0x100 * s[2] + s[3] < U32_SIZE
  {
    assert s[..3][..2] == s[..2] && s[..2][..1] == s[..1] && s[..1][..0] == [];
    var x: int, y: int, z: int := s[0], s[1], s[2];
    assert Value(Big, s[..1]) == x;
    assert Value(Big, s[..2]) == 0x100 * x + y;
    assert Value(Big, s[..3]) == 0x1_0000 * x + 0x100 * y + z;
  }
}
