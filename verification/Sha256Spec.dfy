/** The structure of SHA-256 in FIPS 180-4: the schedule and rounds of section
  * 6.2.2, and the padding of section 5.1.1. What the rounds compute on words is a
  * parameter: Sha256Words gives the functions of section 4.1.2. */
module Sha256Spec {
  import opened Base
  import opened BitOps
  import opened Endian

  const BLOCK := 64

  /** The eight working variables, and the hash value between blocks. */
  datatype Regs<T> = Regs(a: T, b: T, c: T, d: T, e: T, f: T, g: T, h: T)

  /** Arithmetic on words. `mix` gives the new values of `e` and `a` in a round from
    * the working variables, the constant and the schedule word; `lateMix` is the
    * same with the schedule word added first. `next` extends the schedule from the
    * words 16, 15, 7 and 2 places back. */
  datatype Ops<!T> = Ops(
    mix: (Regs<T>, T, T) -> (T, T),
    lateMix: (Regs<T>, T, T) -> (T, T),
    next: (T, T, T, T) -> T,
    add: (T, T) -> T,
    word: (byte, byte, byte, byte) -> T)

  /** The message schedule. */
  function W<T>(ops: Ops<T>, m: seq<T>, t: nat): (r: T)
    requires |m| == 16
  {
    if t < 16 then m[t]
    else ops.next(W(ops, m, t - 16), W(ops, m, t - 15), W(ops, m, t - 7), W(ops, m, t - 2))
  }

  function Round<T>(ops: Ops<T>, r: Regs<T>, k: T, w: T): (r': Regs<T>) {
    var ea := ops.mix(r, k, w);
    Regs(ea.1, r.a, r.b, r.c, ea.0, r.e, r.f, r.g)
  }

  /** The working variables after `n` rounds. */
  function Rounds<T>(ops: Ops<T>, k: seq<T>, r: Regs<T>, m: seq<T>, n: nat): (r': Regs<T>)
    requires |m| == 16 && n <= |k|
  {
    if n == 0 then r else Round(ops, Rounds(ops, k, r, m, n - 1), k[n - 1], W(ops, m, n - 1))
  }

  function AddRegs<T>(ops: Ops<T>, x: Regs<T>, y: Regs<T>): (r: Regs<T>) {
    Regs(ops.add(x.a, y.a), ops.add(x.b, y.b), ops.add(x.c, y.c), ops.add(x.d, y.d),
         ops.add(x.e, y.e), ops.add(x.f, y.f), ops.add(x.g, y.g), ops.add(x.h, y.h))
  }

  function BlockWords<T>(ops: Ops<T>, s: seq<byte>): (m: seq<T>)
    requires |s| == BLOCK
    ensures |m| == 16
  {
    seq(16, i requires 0 <= i < 16 => ops.word(s[4 * i], s[4 * i + 1], s[4 * i + 2], s[4 * i + 3]))
  }

  function Compress<T>(ops: Ops<T>, k: seq<T>, h: Regs<T>, block: seq<byte>): (h': Regs<T>)
    requires |block| == BLOCK
  {
    AddRegs(ops, Rounds(ops, k, h, BlockWords(ops, block), |k|), h)
  }

  /** The hash value after the whole blocks of the data. */
  function Blocks<T>(ops: Ops<T>, k: seq<T>, h: Regs<T>, data: seq<byte>): (h': Regs<T>)
    decreases |data|
  {
    if |data| < BLOCK then h else Blocks(ops, k, Compress(ops, k, h, data[..BLOCK]), data[BLOCK..])
  }

  /** Zero bytes between the one bit and the length, for a last block holding
    * `fill` message bytes. */
  function PadZeros(fill: nat): (z: nat)
    requires fill < BLOCK
  {
    if fill + 1 <= BLOCK - 8 then BLOCK - 8 - (fill + 1) else 2 * BLOCK - 8 - (fill + 1)
  }

  /** One bit, zeros, and the length in bits, up to a whole number of blocks. */
  function Padding(length: nat): (p: seq<byte>) {
    [0x80] + Zeros(PadZeros(length % BLOCK)) + Bytes(Big, 8 * length, 8)
  }

  function Hash<T>(ops: Ops<T>, k: seq<T>, h0: Regs<T>, message: seq<byte>): (h: Regs<T>) {
    Blocks(ops, k, h0, message + Padding(|message|))
  }

  /** The padding is the shortest that ends on a block: `PadZeros` is the least
    * solution of the congruence in section 5.1.1. */
  lemma PaddingFills(length: nat)
    ensures (length + 1 + PadZeros(length % BLOCK) + 8) % BLOCK == 0
    ensures PadZeros(length % BLOCK) < BLOCK
  {
    var r := length % BLOCK;
    var n := r + 1 + PadZeros(r) + 8;
    assert n == BLOCK || n == 2 * BLOCK;
    AddMultiple(n, length / BLOCK, BLOCK);
  }

  lemma EightBytes()
    ensures Pow2(8 * 8) == U64_SIZE
  {
    Pow2Bytes();
    Pow2Add(8, 8);
    Pow2Add(16, 16);
    Pow2Add(32, 32);
  }

  /** The padding byte by byte: one bit, zeros, and eight bytes that spell the length in
    * bits, up to a multiple of 64 bytes. */
  lemma PaddingIs(length: nat)
    requires 8 * length < U64_SIZE
    ensures var p := Padding(length);
            && 9 <= |p| <= 72 && (length + |p|) % 64 == 0 && p[0] == 0x80
            && (forall i :: 0 < i < |p| - 8 ==> p[i] == 0)
            && Value(Big, p[|p| - 8..]) == 8 * length
  {
    hide Value, Bytes, Pow2;
    var p, tail := Padding(length), Bytes(Big, 8 * length, 8);
    PaddingFills(length);
    assert p[|p| - 8..] == tail;
    EightBytes();
    ValueOfBytes(Big, 8 * length, 8);
  }

  //// Two sets of operations that agree give the same hash

  ghost predicate Agree<T(!new)>(x: Ops<T>, y: Ops<T>) {
    && (forall r, k, w :: x.mix(r, k, w) == y.mix(r, k, w))
    && (forall a, b, c, d :: x.next(a, b, c, d) == y.next(a, b, c, d))
    && (forall a, b :: x.add(a, b) == y.add(a, b))
    && (forall a, b, c, d :: x.word(a, b, c, d) == y.word(a, b, c, d))
  }

  lemma {:induction false} ScheduleAgrees<T(!new)>(x: Ops<T>, y: Ops<T>, m: seq<T>, t: nat)
    requires Agree(x, y) && |m| == 16
    ensures W(x, m, t) == W(y, m, t)
  {
    if t >= 16 {
      ScheduleAgrees(x, y, m, t - 16);
      ScheduleAgrees(x, y, m, t - 15);
      ScheduleAgrees(x, y, m, t - 7);
      ScheduleAgrees(x, y, m, t - 2);
    }
  }

  lemma {:induction false} RoundsAgree<T(!new)>(x: Ops<T>, y: Ops<T>, k: seq<T>, r: Regs<T>, m: seq<T>, n: nat)
    requires Agree(x, y) && |m| == 16 && n <= |k|
    ensures Rounds(x, k, r, m, n) == Rounds(y, k, r, m, n)
  {
    if n == 0 {
    } else {
      RoundsAgree(x, y, k, r, m, n - 1);
      ScheduleAgrees(x, y, m, n - 1);
    }
  }

  lemma {:induction false} BlocksAgree<T(!new)>(x: Ops<T>, y: Ops<T>, k: seq<T>, h: Regs<T>, data: seq<byte>)
    requires Agree(x, y)
    ensures Blocks(x, k, h, data) == Blocks(y, k, h, data)
    decreases |data|
  {
    if BLOCK <= |data| {
      var b := data[..BLOCK];
      assert BlockWords(x, b) == BlockWords(y, b);
      RoundsAgree(x, y, k, h, BlockWords(x, b), |k|);
      BlocksAgree(x, y, k, Compress(x, k, h, b), data[BLOCK..]);
    }
  }

  lemma {:induction false} BlocksConcat<T>(ops: Ops<T>, k: seq<T>, h: Regs<T>, a: seq<byte>, b: seq<byte>)
    requires Whole(|a|, BLOCK)
    ensures Blocks(ops, k, h, a + b) == Blocks(ops, k, Blocks(ops, k, h, a), b)
    decreases |a|
  {
    if a == [] {
      assert a + b == b;
    } else {
      assert (a + b)[..BLOCK] == a[..BLOCK];
      assert (a + b)[BLOCK..] == a[BLOCK..] + b;
      BlocksConcat(ops, k, Compress(ops, k, h, a[..BLOCK]), a[BLOCK..], b);
    }
  }
}
