/** Words packed from bit fields, for any layout of disjoint fields. */
module BitFields {
  import opened BitOps

  datatype FieldAt = FieldAt(at: nat, width: nat)

  /** Fields in ascending order, none reaching into the next. */
  predicate Disjoint(layout: seq<FieldAt>) {
    forall i :: 0 <= i < |layout| - 1 ==> layout[i].at + layout[i].width <= layout[i + 1].at
  }

  predicate Fit(layout: seq<FieldAt>, values: seq<nat>) {
    |values| == |layout| && forall i :: 0 <= i < |layout| ==> values[i] < Pow2(layout[i].width)
  }

  /** The first `n` fields shifted into place and or'ed together. */
  function Pack(layout: seq<FieldAt>, values: seq<nat>, n: nat): (word: nat)
    requires n <= |layout| == |values|
  {
    if n == 0 then 0 else Or(Pack(layout, values, n - 1), values[n - 1] * Pow2(layout[n - 1].at))
  }

  function Packed(layout: seq<FieldAt>, values: seq<nat>): (word: nat)
    requires |layout| == |values|
  {
    Pack(layout, values, |layout|)
  }

  /** A shift right and a mask. */
  function Field(word: nat, f: FieldAt): (v: nat) {
    DivNat(word, Pow2(f.at));
    word / Pow2(f.at) % Pow2(f.width)
  }

  lemma FieldIsMask(word: nat, f: FieldAt)
    ensures word / Pow2(f.at) >= 0 && And(word / Pow2(f.at), Pow2(f.width) - 1) == Field(word, f)
  {
    DivNat(word, Pow2(f.at));
    AndOnes(word / Pow2(f.at), f.width);
  }

  lemma BitIsField(word: nat, k: nat)
    ensures And(word, Pow2(k)) != 0 <==> Field(word, FieldAt(k, 1)) == 1
  {
    AndBit(word, k);
    DivNat(word, Pow2(k));
  }

  /** Bits above a field do not reach it. */
  lemma FieldBelow(low: nat, high: nat, k: nat, f: FieldAt)
    requires f.at + f.width <= k
    ensures Field(low + high * Pow2(k), f) == Field(low, f)
  {
    var m := Pow2(k - f.at - f.width);
    Pow2Add(k - f.at, f.at);
    Pow2Add(k - f.at - f.width, f.width);
    var up := high * Pow2(k - f.at);
    Regroup3(high, Pow2(k - f.at), Pow2(f.at));
    Regroup3(high, m, Pow2(f.width));
    AddMultiple(low, up, Pow2(f.at));
    DivNat(low, Pow2(f.at));
    AddMultiple(low / Pow2(f.at), high * m, Pow2(f.width));
  }

  lemma Regroup3(a: nat, b: nat, c: nat)
    ensures a * (b * c) == a * b * c
  {
  }

  lemma FieldOnTop(low: nat, v: nat, f: FieldAt)
    requires low < Pow2(f.at) && v < Pow2(f.width)
    ensures Field(low + v * Pow2(f.at), f) == v
  {
    DivModUnique(low + v * Pow2(f.at), Pow2(f.at), v, low);
    DivModUnique(v, Pow2(f.width), 0, v);
  }

  lemma TopBound(low: nat, v: nat, f: FieldAt)
    requires low < Pow2(f.at) && v < Pow2(f.width)
    ensures low + v * Pow2(f.at) < Pow2(f.at + f.width)
  {
    Pow2Add(f.width, f.at);
    ScaleIs(v, Pow2(f.at));
    ScaleIs(Pow2(f.width), Pow2(f.at));
    ScaleMono(v + 1, Pow2(f.width), Pow2(f.at));
  }

  lemma {:induction false} PackBound(layout: seq<FieldAt>, values: seq<nat>, n: nat)
    requires Disjoint(layout) && Fit(layout, values) && 1 <= n <= |layout|
    ensures Pack(layout, values, n - 1) < Pow2(layout[n - 1].at)
    ensures Pack(layout, values, n) == Pack(layout, values, n - 1) + values[n - 1] * Pow2(layout[n - 1].at)
    ensures Pack(layout, values, n) < Pow2(layout[n - 1].at + layout[n - 1].width)
  {
    if n > 1 {
      PackBound(layout, values, n - 1);
      Pow2Mono(layout[n - 2].at + layout[n - 2].width, layout[n - 1].at);
    }
    OrDisjoint(Pack(layout, values, n - 1), values[n - 1], layout[n - 1].at);
    TopBound(Pack(layout, values, n - 1), values[n - 1], layout[n - 1]);
  }

  lemma {:induction false} OrderedBelow(layout: seq<FieldAt>, i: nat, j: nat)
    requires Disjoint(layout) && i < j < |layout|
    ensures layout[i].at + layout[i].width <= layout[j].at
    decreases j
  {
    if i < j - 1 {
      OrderedBelow(layout, i, j - 1);
    }
  }

  /** Main result: every field of a packed word comes back. */
  lemma {:induction false} Unpacks(layout: seq<FieldAt>, values: seq<nat>, n: nat, i: nat)
    requires Disjoint(layout) && Fit(layout, values) && i < n <= |layout|
    ensures Field(Pack(layout, values, n), layout[i]) == values[i]
    decreases n
  {
    PackBound(layout, values, n);
    var low := Pack(layout, values, n - 1);
    if i == n - 1 {
      FieldOnTop(low, values[i], layout[i]);
    } else {
      OrderedBelow(layout, i, n - 1);
      FieldBelow(low, values[n - 1], layout[n - 1].at, layout[i]);
      Unpacks(layout, values, n - 1, i);
    }
  }

  /** All the fields of a word. */
  function Fields(word: nat, layout: seq<FieldAt>): (values: seq<nat>)
    ensures Fit(layout, values)
  {
    seq(|layout|, i requires 0 <= i < |layout| => Field(word, layout[i]))
  }

  lemma UnpacksAll(layout: seq<FieldAt>, values: seq<nat>)
    requires Disjoint(layout) && Fit(layout, values)
    ensures Fields(Packed(layout, values), layout) == values
  {
    var got := Fields(Packed(layout, values), layout);
    forall i | 0 <= i < |layout|
      ensures got[i] == values[i]
    {
      Unpacks(layout, values, |layout|, i);
    }
  }

  /** Fields that leave no bit out, from bit 0 up. */
  predicate Contiguous(layout: seq<FieldAt>) {
    && (layout != [] ==> layout[0].at == 0)
    && forall i :: 0 <= i < |layout| - 1 ==> layout[i].at + layout[i].width == layout[i + 1].at
  }

  /** A word packed again from its fields is the word, as far as the fields go. */
  lemma {:induction false} Repacks(layout: seq<FieldAt>, word: nat, n: nat)
    requires Contiguous(layout) && Disjoint(layout) && 1 <= n <= |layout|
    ensures Pack(layout, Fields(word, layout), n) == word % Pow2(layout[n - 1].at + layout[n - 1].width)
    decreases n
  {
    var f, values := layout[n - 1], Fields(word, layout);
    PackBound(layout, values, n);
    Pow2Add(f.width, f.at);
    DigitSplit(word, Pow2(f.width), Pow2(f.at));
    if n == 1 {
      assert word % Pow2(0) == 0;
    } else {
      Repacks(layout, word, n - 1);
    }
  }

  lemma RepacksAll(layout: seq<FieldAt>, word: nat)
    requires Contiguous(layout) && Disjoint(layout) && layout != []
    requires word < Pow2(layout[|layout| - 1].at + layout[|layout| - 1].width)
    ensures Packed(layout, Fields(word, layout)) == word
  {
    Repacks(layout, word, |layout|);
    DivModUnique(word, Pow2(layout[|layout| - 1].at + layout[|layout| - 1].width), 0, word);
  }
}
