/** Lane updates over byte input, and the object that buffers partial blocks. */
module FletcherStream {
  import opened Base
  import opened BitOps
  import opened Endian
  import opened FletcherSpec
  import opened Fletcher

  function UnitAt(kind: Kind, order: Order, data: seq<byte>, j: nat): (u: Unit)
    requires (j + 1) * UnitSize(kind) <= |data|
  {
    DecodeUnit(kind, order, data[j * UnitSize(kind)..(j + 1) * UnitSize(kind)])
  }

  lemma {:induction false} UnitsDrop(kind: Kind, order: Order, data: seq<byte>, n: nat)
    requires n * UnitSize(kind) <= |data|
    ensures n <= |Units(kind, order, data)|
    ensures Units(kind, order, data)[n..] == Units(kind, order, data[n * UnitSize(kind)..])
    decreases n
  {
    hide Units, UnitSize, DecodeUnit;
    var k := UnitSize(kind);
    if n == 0 {
      assert data[0..] == data;
    } else {
      OneLess(n, k);
      UnitsFirst(kind, order, data);
      UnitsDrop(kind, order, data[k..], n - 1);
      DropTwice(data, k, (n - 1) * k);
      assert Units(kind, order, data)[n..] == Units(kind, order, data[k..])[n - 1..];
    }
  }

  lemma UnitsFirst(kind: Kind, order: Order, data: seq<byte>)
    requires UnitSize(kind) <= |data|
    ensures Units(kind, order, data)
         == [DecodeUnit(kind, order, data[..UnitSize(kind)])] + Units(kind, order, data[UnitSize(kind)..])
  {
    hide DecodeUnit;
  }

  lemma OneLess(n: nat, k: nat)
    requires n > 0
    ensures n * k == k + (n - 1) * k
  {
  }

  lemma DropTwice(data: seq<byte>, i: nat, j: nat)
    requires i + j <= |data|
    ensures data[i..][j..] == data[i + j..]
  {
  }

  lemma UnitsIndex(kind: Kind, order: Order, data: seq<byte>, j: nat)
    requires (j + 1) * UnitSize(kind) <= |data|
    ensures j < |Units(kind, order, data)| && Units(kind, order, data)[j] == UnitAt(kind, order, data, j)
  {
    var k := UnitSize(kind);
    UnitsDrop(kind, order, data, j + 1);
    UnitsDrop(kind, order, data, j);
    var rest := data[j * k..];
    assert rest[..k] == data[j * k..(j + 1) * k];
    assert Units(kind, order, data)[j] == Units(kind, order, data)[j..][0];
  }

  lemma UnitRoom(n: nat, k: nat, len: nat, j: nat)
    requires j < n && n * k <= len
    ensures (j + 1) * k <= len
  {
    assert n * k == (j + 1) * k + (n - j - 1) * k;
  }

  /** The lanes after each takes one unit of the block that starts the data. */
  function BlockStep(kind: Kind, order: Order, lanes: seq<Sums>, data: seq<byte>): (r: seq<Sums>)
    requires |lanes| * UnitSize(kind) <= |data|
    ensures |r| == |lanes|
  {
    seq(|lanes|, j requires 0 <= j < |lanes| =>
      UnitRoom(|lanes|, UnitSize(kind), |data|, j); StepWords(kind, lanes[j], UnitAt(kind, order, data, j)))
  }

  lemma BlockStepWraps(kind: Kind, order: Order, lanes: seq<Sums>, data: seq<byte>, us: seq<Unit>)
    requires |us| == |lanes| && |lanes| * UnitSize(kind) <= |data|
    requires us <= Units(kind, order, data)
    ensures BlockStep(kind, order, lanes, data) == WrapLanes(StepLanes(kind, lanes, us))
  {
    forall j | 0 <= j < |lanes|
      ensures BlockStep(kind, order, lanes, data)[j] == WrapLanes(StepLanes(kind, lanes, us))[j]
    {
      UnitRoom(|lanes|, UnitSize(kind), |data|, j);
      UnitsIndex(kind, order, data, j);
      assert us[j] == Units(kind, order, data)[j];
    }
  }

  /** The first block of a run. */
  lemma RunBlock(kind: Kind, order: Order, lanes: seq<Sums>, data: seq<byte>)
    requires 0 < |lanes| && |lanes| * UnitSize(kind) <= |data|
    ensures RunLanes(kind, lanes, Units(kind, order, data))
         == RunLanes(kind, BlockStep(kind, order, lanes, data), Units(kind, order, data[|lanes| * UnitSize(kind)..]))
  {
    UnitsDrop(kind, order, data, |lanes|);
    BlockStepWraps(kind, order, lanes, data, Units(kind, order, data)[..|lanes|]);
  }

  method StoreLanes(kind: Kind, st: array<u64>, lanes: seq<Sums>)
    requires 4 * |lanes| <= st.Length && forall l :: l in lanes ==> IsWords(l)
    modifies st
    ensures Lanes(kind, |lanes|, st[..]) == lanes
  {
    for i := 0 to |lanes|
      invariant Lanes(kind, |lanes|, st[..])[..i] == lanes[..i]
    {
      StoreLane(kind, |lanes|, st, i, lanes[i]);
      assert lanes[..i + 1] == lanes[..i] + [lanes[i]];
    }
  }

  method UpdateGeneric(kind: Kind, order: Order, st: array<u64>, data: seq<byte>)
    requires 4 <= st.Length && Whole(|data|, BlockSize(kind, 1))
    modifies st
    ensures Lanes(kind, 1, st[..]) == RunLanes(kind, old(Lanes(kind, 1, st[..])), Units(kind, order, data))
  {
    var l0 := LaneAt(kind, 1, st[..], 0);
    ghost var start := Lanes(kind, 1, st[..]);
    var block := BlockSize(kind, 1);
    var rest := data;
    assert start == [l0];
    while rest != []
      invariant Whole(|rest|, block) && IsWords(l0)
      invariant RunLanes(kind, [l0], Units(kind, order, rest)) == RunLanes(kind, start, Units(kind, order, data))
      decreases |rest|
    {
      ghost var before := [l0];
      var u0 := UnitAt(kind, order, rest, 0);
      l0 := StepWords(kind, l0, u0);
      assert [l0] == BlockStep(kind, order, before, rest);
      RunBlock(kind, order, before, rest);
      rest := rest[block..];
    }
    StoreLanes(kind, st, [l0]);
  }

  method UpdateSuperscalar2(kind: Kind, order: Order, st: array<u64>, data: seq<byte>)
    requires 8 <= st.Length && Whole(|data|, BlockSize(kind, 2))
    modifies st
    ensures Lanes(kind, 2, st[..]) == RunLanes(kind, old(Lanes(kind, 2, st[..])), Units(kind, order, data))
  {
    var l0 := LaneAt(kind, 2, st[..], 0);
    var l1 := LaneAt(kind, 2, st[..], 1);
    ghost var start := Lanes(kind, 2, st[..]);
    var block := BlockSize(kind, 2);
    var rest := data;
    assert start == [l0, l1];
    while rest != []
      invariant Whole(|rest|, block) && IsWords(l0) && IsWords(l1)
      invariant RunLanes(kind, [l0, l1], Units(kind, order, rest)) == RunLanes(kind, start, Units(kind, order, data))
      decreases |rest|
    {
      ghost var before := [l0, l1];
      var u0 := UnitAt(kind, order, rest, 0);
      var u1 := UnitAt(kind, order, rest, 1);
      l0, l1 := StepWords(kind, l0, u0), StepWords(kind, l1, u1);
      assert [l0, l1] == BlockStep(kind, order, before, rest);
      RunBlock(kind, order, before, rest);
      rest := rest[block..];
    }
    StoreLanes(kind, st, [l0, l1]);
  }

  /** One pass of the four-lane loop. */
  method StepBlock4(kind: Kind, order: Order, rest: seq<byte>, l0: Sums, l1: Sums, l2: Sums, l3: Sums)
    returns (m0: Sums, m1: Sums, m2: Sums, m3: Sums)
    requires 4 * UnitSize(kind) <= |rest|
    ensures IsWords(m0) && IsWords(m1) && IsWords(m2) && IsWords(m3)
    ensures [m0, m1, m2, m3] == BlockStep(kind, order, [l0, l1, l2, l3], rest)
  {
    var u0 := UnitAt(kind, order, rest, 0);
    var u1 := UnitAt(kind, order, rest, 1);
    var u2 := UnitAt(kind, order, rest, 2);
    var u3 := UnitAt(kind, order, rest, 3);
    m0 := StepWords(kind, l0, u0);
    m1 := StepWords(kind, l1, u1);
    m2 := StepWords(kind, l2, u2);
    m3 := StepWords(kind, l3, u3);
  }

  method UpdateSuperscalar4(kind: Kind, order: Order, st: array<u64>, data: seq<byte>)
    requires 16 <= st.Length && Whole(|data|, BlockSize(kind, 4))
    modifies st
    ensures Lanes(kind, 4, st[..]) == RunLanes(kind, old(Lanes(kind, 4, st[..])), Units(kind, order, data))
  {
    var l0 := LaneAt(kind, 4, st[..], 0);
    var l1 := LaneAt(kind, 4, st[..], 1);
    var l2 := LaneAt(kind, 4, st[..], 2);
    var l3 := LaneAt(kind, 4, st[..], 3);
    ghost var start := Lanes(kind, 4, st[..]);
    var block := BlockSize(kind, 4);
    var rest := data;
    assert start == [l0, l1, l2, l3];
    while rest != []
      invariant Whole(|rest|, block) && IsWords(l0) && IsWords(l1) && IsWords(l2) && IsWords(l3)
      invariant RunLanes(kind, [l0, l1, l2, l3], Units(kind, order, rest))
             == RunLanes(kind, start, Units(kind, order, data))
      decreases |rest|
    {
      ghost var before := [l0, l1, l2, l3];
      l0, l1, l2, l3 := StepBlock4(kind, order, rest, l0, l1, l2, l3);
      RunBlock(kind, order, before, rest);
      rest := rest[block..];
    }
    StoreLanes(kind, st, [l0, l1, l2, l3]);
  }

  /** The generic update applied to a finished result. */
  method FoldBytes(kind: Kind, order: Order, s: Sums, data: seq<byte>) returns (r: Sums)
    requires IsWords(s) && Whole(|data|, UnitSize(kind))
    ensures r == Fold(kind, s, Units(kind, order, data))
  {
    var result := new u64[4];
    StoreLanes(kind, result, [s]);
    UpdateGeneric(kind, order, result, data);
    RunOne(kind, s, Units(kind, order, data));
    r := LaneAt(kind, 1, result[..], 0);
    assert Lanes(kind, 1, result[..])[0] == r;
  }

  //// The streaming object

  /** A Fletcher checksum over input given in pieces. `width` lanes take a block of
    * `width` units at a time; a partial block waits in the buffer. */
  class Stream {
    const kind: Kind
    const width: nat
    const block: nat
    const state: array<u64>
    const buffer: array<byte>
    var order: Order
    var fill: nat
    ghost var done: seq<byte>
    ghost var input: seq<byte>

    ghost predicate Sized() {
      && Width(width) && block == BlockSize(kind, width)
      && 4 * width <= state.Length && block <= buffer.Length
    }

    ghost predicate Valid()
      reads this, state, buffer
    {
      Sized() && fill < block && Absorbed() && input == done + buffer[..fill]
    }

    /** The lanes hold exactly the whole blocks `done`. */
    ghost predicate Absorbed()
      reads this, state
    {
      && Width(width) && 4 * width <= state.Length
      && 0 < block && Whole(|done|, block)
      && Lanes(kind, width, state[..]) == RunLanes(kind, ZeroLanes(width), Units(kind, order, done))
    }

    constructor (kind: Kind, width: nat)
      requires Width(width)
      ensures Valid() && fresh(state) && fresh(buffer)
      ensures this.kind == kind && this.width == width && order == Little && input == []
    {
      this.kind, this.width, block := kind, width, BlockSize(kind, width);
      state := new u64[if kind == Fletcher4 then 32 else 16](_ => 0);
      buffer := new byte[if kind == Fletcher4 then 32 else 64](_ => 0);
      order, fill, done, input := Little, 0, [], [];
      new;
      Reset(Little);
    }

    method Reset(order: Order)
      requires Sized()
      modifies this, state, buffer
      ensures Valid() && this.order == order && input == []
    {
      fill := 0;
      forall i | 0 <= i < buffer.Length { buffer[i] := 0; }
      forall i | 0 <= i < state.Length { state[i] := 0; }
      this.order := order;
      done, input := [], [];
      LanesOfZeros(kind, this.order, width, state[..]);
    }

    /** Runs whole blocks through the lanes, with the update the width selects. */
    method UpdateBlocks(data: seq<byte>)
      requires Sized() && Absorbed() && Whole(|data|, block)
      modifies state, this`done
      ensures Absorbed() && done == old(done) + data
    {
      if width == 1 {
        UpdateGeneric(kind, order, state, data);
      } else if width == 2 {
        UpdateSuperscalar2(kind, order, state, data);
      } else {
        UpdateSuperscalar4(kind, order, state, data);
      }
      BlocksConcat(kind, order, width, done, data);
      done := done + data;
    }

    method CopyIn(data: seq<byte>)
      requires fill + |data| <= buffer.Length
      modifies this`fill, buffer
      ensures fill == old(fill) + |data| && buffer[..fill] == old(buffer[..fill]) + data
    {
      forall i | 0 <= i < |data| { buffer[fill + i] := data[i]; }
      fill := fill + |data|;
    }

    /** Tops up a waiting partial block; what is left is empty unless the buffer is. */
    method TopUp(data: seq<byte>) returns (rest: seq<byte>)
      requires Valid()
      modifies this`fill, this`done, state, buffer
      ensures Sized() && fill < block && Absorbed() && input + data == done + buffer[..fill] + rest
      ensures fill == 0 || rest == []
    {
      rest := data;
      if fill > 0 {
        var todo := Min(block - fill, |data|);
        SplitAt(done, buffer[..fill], data, todo);
        CopyIn(data[..todo]);
        rest := data[todo..];
        if fill == block {
          WholeOne(block);
          UpdateBlocks(buffer[..fill]);
          fill := 0;
        }
      }
    }

    /** Any split of the input into updates leaves the same abstract state. */
    method Update(data: seq<byte>)
      requires Valid()
      modifies this`fill, this`done, this`input, state, buffer
      ensures Valid() && input == old(input) + data
    {
      var rest := TopUp(data);
      var remainder := |rest| % block;
      var whole := |rest| - remainder;
      RoundDown(|rest|, block);
      Regroup(done, buffer[..fill], rest, whole);
      UpdateBlocks(rest[..whole]);
      if remainder > 0 {
        CopyIn(rest[whole..]);
      }
      input := input + data;
    }

    /** Recombines the lanes with the formula the width selects. */
    method FinishBlocks() returns (r: Sums)
      requires Sized()
      ensures r == Wrap(Combine(kind, Lanes(kind, width, state[..])))
    {
      if width == 1 {
        r := LaneAt(kind, 1, state[..], 0);
      } else if width == 2 {
        var l0, l1 := LaneAt(kind, 2, state[..], 0), LaneAt(kind, 2, state[..], 1);
        assert Lanes(kind, width, state[..]) == [l0, l1];
        if kind == Fletcher4 {
          r := FinishDual4([l0.a, l1.a], [l0.b, l1.b], [l0.c, l1.c], [l0.d, l1.d]);
        } else {
          r := FinishDual2([l0.a, l1.a], [l0.b, l1.b], [l0.c, l1.c], [l0.d, l1.d]);
        }
      } else {
        var l0, l1 := LaneAt(kind, 4, state[..], 0), LaneAt(kind, 4, state[..], 1);
        var l2, l3 := LaneAt(kind, 4, state[..], 2), LaneAt(kind, 4, state[..], 3);
        var a, b := [l0.a, l1.a, l2.a, l3.a], [l0.b, l1.b, l2.b, l3.b];
        var c, d := [l0.c, l1.c, l2.c, l3.c], [l0.d, l1.d, l2.d, l3.d];
        assert Lanes(kind, width, state[..]) == Zip4(a, b, c, d);
        if kind == Fletcher4 {
          r := FinishQuad4(a, b, c, d);
        } else {
          r := FinishQuad2(a, b, c, d);
        }
      }
    }

    /** The checksum of everything given to Update since the last reset, whatever
      * the width and however the input was split. Bytes past the last whole unit
      * are ignored. */
    method Finalize() returns (r: Sums)
      requires Valid()
      ensures r == Checksum(kind, order, input)
    {
      r := FinishBlocks();
      var remainder := fill % UnitSize(kind);
      var full := fill - remainder;
      RoundDown(fill, UnitSize(kind));
      FinishDone(kind, order, width, done, buffer[..full], buffer[full..fill]);
      assert buffer[..fill] == buffer[..full] + buffer[full..fill];
      if full > 0 {
        r := FoldBytes(kind, order, r, buffer[..full]);
      }
    }

    method Hash(data: seq<byte>, order: Order) returns (r: Sums)
      requires Sized()
      modifies this, state, buffer
      ensures Valid() && r == Checksum(kind, order, data)
    {
      Reset(order);
      Update(data);
      assert input == data;
      r := Finalize();
    }
  }

  /** What the lanes recombine to after the whole blocks `done`. */
  ghost function FinishOf(kind: Kind, order: Order, width: nat, done: seq<byte>): (r: Sums)
    requires Width(width)
  {
    Wrap(Combine(kind, RunLanes(kind, ZeroLanes(width), Units(kind, order, done))))
  }

  lemma {:induction false} RunOne(kind: Kind, s: Sums, us: seq<Unit>)
    ensures RunLanes(kind, [s], us) == [Fold(kind, s, us)]
    decreases |us|
  {
    if us == [] {
    } else {
      var s' := Wrap(Step(kind, s, us[0]));
      assert WrapLanes(StepLanes(kind, [s], us[..1])) == [s'];
      RunOne(kind, s', us[1..]);
    }
  }

  lemma CombineZero(kind: Kind, width: nat)
    requires Width(width)
    ensures Wrap(Combine(kind, ZeroLanes(width))) == ZERO
  {
  }

  lemma FinishOfIsFold(kind: Kind, order: Order, width: nat, done: seq<byte>)
    requires Width(width) && Whole(|done|, BlockSize(kind, width))
    ensures FinishOf(kind, order, width, done) == Checksum(kind, order, done)
  {
    UnitsWhole(kind, order, done, width);
    LanesRefineFold(kind, ZeroLanes(width), Units(kind, order, done));
    CombineZero(kind, width);
  }

  /** Folding the whole units of the tail into the recombined lanes gives the
    * checksum of it all. */
  lemma FinishDone(kind: Kind, order: Order, width: nat, done: seq<byte>, whole: seq<byte>, part: seq<byte>)
    requires Width(width) && Whole(|done|, BlockSize(kind, width))
    requires Whole(|whole|, UnitSize(kind)) && |part| < UnitSize(kind)
    ensures Checksum(kind, order, done + (whole + part))
         == Fold(kind, FinishOf(kind, order, width, done), Units(kind, order, whole))
  {
    FinishOfIsFold(kind, order, width, done);
    BlocksAreUnits(kind, width, |done|);
    UnitsConcat(kind, order, done, whole + part);
    UnitsConcat(kind, order, whole, part);
    assert Units(kind, order, whole + part) == Units(kind, order, whole);
    FoldConcat(kind, ZERO, Units(kind, order, done), Units(kind, order, whole));
  }

  lemma LanesOfZeros(kind: Kind, order: Order, n: nat, st: seq<u64>)
    requires 0 < n && 4 * n <= |st| && forall i :: 0 <= i < |st| ==> st[i] == 0
    ensures Lanes(kind, n, st) == RunLanes(kind, ZeroLanes(n), Units(kind, order, []))
  {
  }

  lemma WholeOne(m: nat)
    requires 0 < m
    ensures Whole(m, m)
  {
  }

  lemma BlocksConcat(kind: Kind, order: Order, width: nat, done: seq<byte>, data: seq<byte>)
    requires Width(width) && Whole(|done|, BlockSize(kind, width)) && Whole(|data|, BlockSize(kind, width))
    ensures Whole(|done + data|, BlockSize(kind, width))
    ensures RunLanes(kind, ZeroLanes(width), Units(kind, order, done + data))
         == RunLanes(kind, RunLanes(kind, ZeroLanes(width), Units(kind, order, done)), Units(kind, order, data))
  {
    WholeAdd(|done|, |data|, BlockSize(kind, width));
    UnitsWhole(kind, order, done, width);
    BlocksAreUnits(kind, width, |done|);
    UnitsConcat(kind, order, done, data);
    RunConcat(kind, ZeroLanes(width), Units(kind, order, done), Units(kind, order, data));
  }

  lemma BlocksAreUnits(kind: Kind, width: nat, n: nat)
    requires Width(width) && Whole(n, BlockSize(kind, width))
    ensures Whole(n, UnitSize(kind))
  {
    assert BlockSize(kind, width) == width * UnitSize(kind);
    WholeUnits(n, width, UnitSize(kind));
  }
}
