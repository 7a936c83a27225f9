/** The SHA-256 block function as the source runs it: unrolled rounds that rename
  * the registers instead of moving them, and a message schedule extended in place. */
module Sha256 {
  import opened Base
  import opened BitOps
  import opened Sha256Spec

  /** The words are a prefix of the message schedule. */
  ghost predicate Scheduled<T>(ops: Ops<T>, w: seq<T>, m: seq<T>)
    requires |m| == 16
  {
    forall i :: 0 <= i < |w| ==> w[i] == W(ops, m, i)
  }

  /** Adding the schedule word early or late makes no difference. */
  ghost predicate MixesAgree<T(!new)>(ops: Ops<T>) {
    forall r, k, w :: ops.lateMix(r, k, w) == ops.mix(r, k, w)
  }

  /** Four unrolled rounds over words already in the schedule. Instead of moving the
    * registers they rename them, so that the two halves end up exchanged. */
  method Rounds4<T>(ops: Ops<T>, t: nat, w: array<T>, k: seq<T>, ghost m: seq<T>, ghost r0: Regs<T>,
                    a0: T, b0: T, c0: T, d0: T, e0: T, f0: T, g0: T, h0: T)
    returns (a: T, b: T, c: T, d: T, e: T, f: T, g: T, h: T)
    requires |m| == 16 && t + 4 <= |k| && t + 4 <= w.Length && Scheduled(ops, w[..t + 4], m)
    requires Rounds(ops, k, r0, m, t) == Regs(a0, b0, c0, d0, e0, f0, g0, h0)
    ensures Rounds(ops, k, r0, m, t + 4) == Regs(e, f, g, h, a, b, c, d)
  {
    assert forall i :: t <= i < t + 4 ==> w[i] == w[..t + 4][i];
    a, b, c, d, e, f, g, h := a0, b0, c0, d0, e0, f0, g0, h0;
    var dh := ops.mix(Regs(a, b, c, d, e, f, g, h), k[t], w[t]);
    d, h := dh.0, dh.1;
    assert Rounds(ops, k, r0, m, t + 1) == Regs(h, a, b, c, d, e, f, g);
    dh := ops.mix(Regs(h, a, b, c, d, e, f, g), k[t + 1], w[t + 1]);
    c, g := dh.0, dh.1;
    assert Rounds(ops, k, r0, m, t + 2) == Regs(g, h, a, b, c, d, e, f);
    dh := ops.mix(Regs(g, h, a, b, c, d, e, f), k[t + 2], w[t + 2]);
    b, f := dh.0, dh.1;
    assert Rounds(ops, k, r0, m, t + 3) == Regs(f, g, h, a, b, c, d, e);
    dh := ops.mix(Regs(f, g, h, a, b, c, d, e), k[t + 3], w[t + 3]);
    a, e := dh.0, dh.1;
    assert Rounds(ops, k, r0, m, t + 4) == Regs(e, f, g, h, a, b, c, d);
  }

  method ExtendSchedule<T>(ops: Ops<T>, w: array<T>, t: nat, ghost m: seq<T>) returns (r: T)
    requires |m| == 16 && 16 <= t < w.Length && Scheduled(ops, w[..t], m)
    modifies w
    ensures r == W(ops, m, t) && Scheduled(ops, w[..t + 1], m)
  {
    assert forall i :: 0 <= i < t ==> w[i] == w[..t][i];
    r := ops.next(w[t - 16], w[t - 15], w[t - 7], w[t - 2]);
    w[t] := r;
  }

  method ScheduleAndRounds4<T(!new)>(ops: Ops<T>, t: nat, w: array<T>, k: seq<T>, ghost m: seq<T>, ghost r0: Regs<T>,
                               a0: T, b0: T, c0: T, d0: T, e0: T, f0: T, g0: T, h0: T)
    returns (a: T, b: T, c: T, d: T, e: T, f: T, g: T, h: T)
    requires MixesAgree(ops) && |m| == 16 && 16 <= t && t + 4 <= |k| && t + 4 <= w.Length && Scheduled(ops, w[..t], m)
    requires Rounds(ops, k, r0, m, t) == Regs(a0, b0, c0, d0, e0, f0, g0, h0)
    modifies w
    ensures Scheduled(ops, w[..t + 4], m)
    ensures Rounds(ops, k, r0, m, t + 4) == Regs(e, f, g, h, a, b, c, d)
  {
    a, b, c, d, e, f, g, h := a0, b0, c0, d0, e0, f0, g0, h0;
    var w0 := ExtendSchedule(ops, w, t, m);
    var dh := ops.lateMix(Regs(a, b, c, d, e, f, g, h), k[t], w0);
    d, h := dh.0, dh.1;
    assert Rounds(ops, k, r0, m, t + 1) == Regs(h, a, b, c, d, e, f, g);
    var w1 := ExtendSchedule(ops, w, t + 1, m);
    dh := ops.lateMix(Regs(h, a, b, c, d, e, f, g), k[t + 1], w1);
    c, g := dh.0, dh.1;
    assert Rounds(ops, k, r0, m, t + 2) == Regs(g, h, a, b, c, d, e, f);
    var w2 := ExtendSchedule(ops, w, t + 2, m);
    dh := ops.lateMix(Regs(g, h, a, b, c, d, e, f), k[t + 2], w2);
    b, f := dh.0, dh.1;
    assert Rounds(ops, k, r0, m, t + 3) == Regs(f, g, h, a, b, c, d, e);
    var w3 := ExtendSchedule(ops, w, t + 3, m);
    dh := ops.lateMix(Regs(f, g, h, a, b, c, d, e), k[t + 3], w3);
    a, e := dh.0, dh.1;
    assert Rounds(ops, k, r0, m, t + 4) == Regs(e, f, g, h, a, b, c, d);
  }

  /** Eight rounds bring every register back to its own name. */
  method ScheduleAndRounds8<T(!new)>(ops: Ops<T>, t: nat, w: array<T>, k: seq<T>, ghost m: seq<T>, ghost r0: Regs<T>,
                               a0: T, b0: T, c0: T, d0: T, e0: T, f0: T, g0: T, h0: T)
    returns (a: T, b: T, c: T, d: T, e: T, f: T, g: T, h: T)
    requires MixesAgree(ops) && |m| == 16 && 16 <= t && t + 8 <= |k| && t + 8 <= w.Length && Scheduled(ops, w[..t], m)
    requires Rounds(ops, k, r0, m, t) == Regs(a0, b0, c0, d0, e0, f0, g0, h0)
    modifies w
    ensures Scheduled(ops, w[..t + 8], m)
    ensures Rounds(ops, k, r0, m, t + 8) == Regs(a, b, c, d, e, f, g, h)
  {
    a, b, c, d, e, f, g, h := ScheduleAndRounds4(ops, t, w, k, m, r0, a0, b0, c0, d0, e0, f0, g0, h0);
    e, f, g, h, a, b, c, d := ScheduleAndRounds4(ops, t + 4, w, k, m, r0, e, f, g, h, a, b, c, d);
  }

  method LoadBlock<T>(ops: Ops<T>, w: array<T>, block: seq<byte>)
    requires 16 <= w.Length && |block| == BLOCK
    modifies w
    ensures Scheduled(ops, w[..16], BlockWords(ops, block))
  {
    for i := 0 to 16
      invariant forall j :: 0 <= j < i ==> w[j] == BlockWords(ops, block)[j]
    {
      w[i] := ops.word(block[4 * i], block[4 * i + 1], block[4 * i + 2], block[4 * i + 3]);
    }
  }

  /** All 64 rounds over one block. */
  method BlockRounds<T(!new)>(ops: Ops<T>, w: array<T>, k: seq<T>, block: seq<byte>,
                        a0: T, b0: T, c0: T, d0: T, e0: T, f0: T, g0: T, h0: T)
    returns (a: T, b: T, c: T, d: T, e: T, f: T, g: T, h: T)
    requires MixesAgree(ops) && w.Length == |k| == 64 && |block| == BLOCK
    modifies w
    ensures Regs(a, b, c, d, e, f, g, h)
         == Rounds(ops, k, Regs(a0, b0, c0, d0, e0, f0, g0, h0), BlockWords(ops, block), |k|)
  {
    ghost var m := BlockWords(ops, block);
    ghost var r0 := Regs(a0, b0, c0, d0, e0, f0, g0, h0);
    LoadBlock(ops, w, block);
    var round: nat := 0;
    a, b, c, d, e, f, g, h := a0, b0, c0, d0, e0, f0, g0, h0;
    assert forall i :: 0 <= i < 16 ==> w[i] == w[..16][i];
    a, b, c, d, e, f, g, h := Rounds4(ops, round, w, k, m, r0, a, b, c, d, e, f, g, h);
    e, f, g, h, a, b, c, d := Rounds4(ops, round + 4, w, k, m, r0, e, f, g, h, a, b, c, d);
    round := round + 8;
    a, b, c, d, e, f, g, h := Rounds4(ops, round, w, k, m, r0, a, b, c, d, e, f, g, h);
    e, f, g, h, a, b, c, d := Rounds4(ops, round + 4, w, k, m, r0, e, f, g, h, a, b, c, d);
    round := round + 8;
    while round < 64
      invariant 16 <= round <= 64 && round % 16 == 0
      invariant Scheduled(ops, w[..round], m) && Rounds(ops, k, r0, m, round) == Regs(a, b, c, d, e, f, g, h)
    {
      a, b, c, d, e, f, g, h := ScheduleAndRounds8(ops, round, w, k, m, r0, a, b, c, d, e, f, g, h);
      a, b, c, d, e, f, g, h := ScheduleAndRounds8(ops, round + 8, w, k, m, r0, a, b, c, d, e, f, g, h);
      round := round + 16;
    }
  }

  function RegsOf<T>(st: seq<T>): (r: Regs<T>)
    requires |st| == 8
  {
    Regs(st[0], st[1], st[2], st[3], st[4], st[5], st[6], st[7])
  }

  /** The block function: folds the compression over every whole block. */
  method UpdateBlocks<T(0, !new)>(ops: Ops<T>, k: seq<T>, state: array<T>, data: seq<byte>)
    requires MixesAgree(ops) && |k| == 64 && state.Length == 8 && Whole(|data|, BLOCK)
    modifies state
    ensures RegsOf(state[..]) == Blocks(ops, k, old(RegsOf(state[..])), data)
  {
    var w := new T[64];
    var a, b, c, d := state[0], state[1], state[2], state[3];
    var e, f, g, h := state[4], state[5], state[6], state[7];
    var rest := data;
    while rest != []
      invariant Whole(|rest|, BLOCK) && RegsOf(state[..]) == Regs(a, b, c, d, e, f, g, h)
      invariant Blocks(ops, k, RegsOf(state[..]), rest) == Blocks(ops, k, old(RegsOf(state[..])), data)
      decreases |rest|
    {
      ghost var before := RegsOf(state[..]);
      a, b, c, d, e, f, g, h := BlockRounds(ops, w, k, rest[..BLOCK], a, b, c, d, e, f, g, h);
      a, b, c, d := ops.add(a, state[0]), ops.add(b, state[1]), ops.add(c, state[2]), ops.add(d, state[3]);
      e, f, g, h := ops.add(e, state[4]), ops.add(f, state[5]), ops.add(g, state[6]), ops.add(h, state[7]);
      state[0], state[1], state[2], state[3] := a, b, c, d;
      state[4], state[5], state[6], state[7] := e, f, g, h;
      assert RegsOf(state[..]) == Compress(ops, k, before, rest[..BLOCK]);
      rest := rest[BLOCK..];
    }
  }
}
