/** The streaming SHA-256 object: input in pieces, a partial block in the buffer,
  * and the final padding written in place. */
module Sha256Stream {
  import opened Base
  import opened BitOps
  import opened Endian
  import opened Sha256Spec
  import opened Sha256

  /** The chaining value after whole blocks. */
  ghost predicate Reached<T>(ops: Ops<T>, k: seq<T>, h0: Regs<T>, done: seq<byte>, r: Regs<T>) {
    Whole(|done|, BLOCK) && r == Blocks(ops, k, h0, done)
  }

  lemma ReachedMore<T>(ops: Ops<T>, k: seq<T>, h0: Regs<T>, done: seq<byte>, r: Regs<T>, data: seq<byte>, s: Regs<T>)
    requires Reached(ops, k, h0, done, r) && Reached(ops, k, r, data, s)
    ensures Reached(ops, k, h0, done + data, s)
  {
    WholeAdd(|done|, |data|, BLOCK);
    BlocksConcat(ops, k, h0, done, data);
  }

  /** Compressing `data` from `r` ends in `want`. */
  ghost predicate Leads<T>(ops: Ops<T>, k: seq<T>, r: Regs<T>, data: seq<byte>, want: Regs<T>) {
    Blocks(ops, k, r, data) == want
  }

  class Stream<T(0, !new)> {
    const ops: Ops<T>
    const k: seq<T>
    const h0: Regs<T>
    const state: array<T>
    const buffer: array<byte>
    var processed: nat
    var fill: nat
    ghost var done: seq<byte>
    ghost var input: seq<byte>

    ghost predicate Sized() {
      MixesAgree(ops) && |k| == 64 && state.Length == 8 && buffer.Length == BLOCK
    }

    /** The state has taken the whole blocks `done`; the rest waits in the buffer. */
    ghost predicate Valid()
      reads this, state, buffer
    {
      Sized() && fill < BLOCK && Absorbed() && input == done + buffer[..fill]
    }

    ghost predicate Absorbed()
      reads this, state
    {
      && state.Length == 8
      && processed == |done| < U64_SIZE
      && Reached(ops, k, h0, done, RegsOf(state[..]))
    }

    constructor (ops: Ops<T>, k: seq<T>, h0: Regs<T>)
      requires MixesAgree(ops) && |k| == 64
      ensures Valid() && input == [] && fresh(state) && fresh(buffer)
      ensures this.ops == ops && this.k == k && this.h0 == h0
    {
      this.ops, this.k, this.h0 := ops, k, h0;
      state := new T[8];
      buffer := new byte[BLOCK](_ => 0);
      processed, fill, done, input := 0, 0, [], [];
      new;
      Reset();
    }

    /** Nothing of earlier use survives. */
    method Reset()
      requires Sized()
      modifies this, state, buffer
      ensures Valid() && input == []
    {
      processed := 0;
      forall i | 0 <= i < BLOCK { buffer[i] := 0; }
      fill := 0;
      state[0], state[1], state[2], state[3] := h0.a, h0.b, h0.c, h0.d;
      state[4], state[5], state[6], state[7] := h0.e, h0.f, h0.g, h0.h;
      done, input := [], [];
    }

    method CopyIn(data: seq<byte>)
      requires fill + |data| <= buffer.Length
      modifies this`fill, buffer
      ensures fill == old(fill) + |data| && buffer[..fill] == old(buffer[..fill]) + data
    {
      forall i | 0 <= i < |data| { buffer[fill + i] := data[i]; }
      fill := fill + |data|;
    }

    /** Counts and compresses whole blocks. */
    method Absorb(data: seq<byte>)
      requires Sized() && Absorbed() && Whole(|data|, BLOCK) && |done| + |data| < U64_SIZE
      modifies this`processed, this`done, state
      ensures Absorbed() && done == old(done) + data
    {
      ghost var before := RegsOf(state[..]);
      processed := processed + |data|;
      UpdateBlocks(ops, k, state, data);
      ReachedMore(ops, k, h0, done, before, data, RegsOf(state[..]));
      done := done + data;
    }

    /** Tops up a waiting partial block; what is left is empty unless the buffer is. */
    method TopUp(data: seq<byte>) returns (rest: seq<byte>)
      requires Valid() && |input| + |data| < U64_SIZE
      modifies this`fill, this`done, this`processed, state, buffer
      ensures Sized() && fill < BLOCK && Absorbed() && input + data == done + buffer[..fill] + rest
      ensures fill == 0 || rest == []
    {
      rest := data;
      if fill > 0 {
        var todo := Min(BLOCK - fill, |data|);
        SplitAt(done, buffer[..fill], data, todo);
        CopyIn(data[..todo]);
        rest := data[todo..];
        if fill == BLOCK {
          assert Whole(BLOCK, BLOCK);
          Absorb(buffer[..fill]);
          fill := 0;
        }
      }
    }

    method Update(data: seq<byte>)
      requires Valid() && |input| + |data| < U64_SIZE
      modifies this`fill, this`done, this`input, this`processed, state, buffer
      ensures Valid() && input == old(input) + data
    {
      var rest := TopUp(data);
      var remainder := |rest| % BLOCK;
      var whole := |rest| - remainder;
      RoundDown(|rest|, BLOCK);
      Regroup(done, buffer[..fill], rest, whole);
      assert |input + data| == |done + buffer[..fill] + rest|;
      Absorb(rest[..whole]);
      if remainder > 0 {
        CopyIn(rest[whole..]);
      }
      input := input + data;
    }

    /** Zeros up to position `n`. */
    method PadTo(n: nat)
      requires fill <= n <= buffer.Length
      modifies this`fill, buffer
      ensures fill == n && buffer[..n] == old(buffer[..fill]) + Zeros(n - old(fill))
    {
      ghost var start, before := fill, buffer[..fill];
      while fill < n
        invariant start <= fill <= n
        invariant buffer[..fill] == before + Zeros(fill - start)
      {
        buffer[fill] := 0;
        fill := fill + 1;
      }
    }

    method PutLength(bitLength: u64)
      requires buffer.Length == BLOCK
      modifies buffer
      ensures buffer[..] == old(buffer[..BLOCK - 8]) + Bytes(Big, bitLength, 8)
    {
      var b := Bytes(Big, bitLength, 8);
      forall i | 0 <= i < 8 { buffer[BLOCK - 8 + i] := b[i]; }
    }

    method CompressBuffer()
      requires Sized()
      modifies state
      ensures RegsOf(state[..]) == Blocks(ops, k, old(RegsOf(state[..])), buffer[..])
    {
      assert Whole(BLOCK, BLOCK);
      UpdateBlocks(ops, k, state, buffer[..]);
    }

    /** When the length no longer fits, the block is filled up and compressed by itself. */
    method MakeRoom(ghost tail: seq<byte>, ghost length: nat, ghost want: Regs<T>)
      requires Sized() && |tail| == length % BLOCK && fill == |tail| + 1 && buffer[..fill] == tail + [0x80]
      requires Leads(ops, k, RegsOf(state[..]), tail + Padding(length), want)
      modifies this`fill, state, buffer
      ensures fill <= BLOCK - 8
      ensures Leads(ops, k, RegsOf(state[..]), LastBlock(buffer[..fill], 8 * length), want)
    {
      if fill > BLOCK - 8 {
        PadTwo(ops, k, RegsOf(state[..]), tail, length);
        PadTo(BLOCK);
        assert buffer[..] == buffer[..BLOCK];
        CompressBuffer();
        fill := 0;
      } else {
        PadOne(tail, length);
      }
    }

    method Finish(bitLength: u64, ghost want: Regs<T>)
      requires Sized() && fill <= BLOCK - 8
      requires Leads(ops, k, RegsOf(state[..]), LastBlock(buffer[..fill], bitLength), want)
      modifies this`fill, state, buffer
      ensures RegsOf(state[..]) == want
    {
      PadTo(BLOCK - 8);
      PutLength(bitLength);
      CompressBuffer();
    }

    /** Pads the message and compresses its last one or two blocks. The bit length
      * must fit 64 bits. */
    method Finalize() returns (r: Regs<T>)
      requires Valid() && 8 * |input| < U64_SIZE
      modifies this`fill, state, buffer
      ensures Sized() && r == Hash(ops, k, h0, input)
    {
      hide Blocks, Padding, LastBlock, Hash;
      var bitLength := 8 * (processed + fill);
      ghost var tail := buffer[..fill];
      ghost var want := HashEnd(ops, k, h0, done, tail, RegsOf(state[..]));
      TailLength(|done|, fill);
      CopyIn([0x80]);
      MakeRoom(tail, |input|, want);
      Finish(bitLength, want);
      r := RegsOf(state[..]);
    }

    /** One shot, whatever state earlier use left. */
    method HashAll(data: seq<byte>) returns (r: Regs<T>)
      requires Sized() && 8 * |data| < U64_SIZE
      modifies this, state, buffer
      ensures Sized() && r == Hash(ops, k, h0, data)
    {
      Reset();
      Update(data);
      assert input == data;
      r := Finalize();
    }
  }

  /** A last block: what is left, zeros, the length in bits. */
  ghost function LastBlock(left: seq<byte>, bits: nat): seq<byte>
    requires |left| <= BLOCK - 8
  {
    left + Zeros(BLOCK - 8 - |left|) + Bytes(Big, bits, 8)
  }

  lemma Assoc(a: seq<byte>, b: seq<byte>, c: seq<byte>)
    ensures (a + b) + c == a + (b + c)
  {
  }

  lemma TailLength(done: nat, tail: nat)
    requires Whole(done, BLOCK) && tail < BLOCK
    ensures (done + tail) % BLOCK == tail
  {
    WholeMod(done, BLOCK);
    AddMultiple(tail, done / BLOCK, BLOCK);
  }

  /** What remains to be hashed after the whole blocks. */
  lemma HashEnd<T>(ops: Ops<T>, k: seq<T>, h0: Regs<T>, done: seq<byte>, tail: seq<byte>, r: Regs<T>)
    returns (want: Regs<T>)
    requires Reached(ops, k, h0, done, r)
    ensures want == Hash(ops, k, h0, done + tail) && Leads(ops, k, r, tail + Padding(|done + tail|), want)
  {
    want := Hash(ops, k, h0, done + tail);
    var padding := Padding(|done + tail|);
    Assoc(done, tail, padding);
    BlocksConcat(ops, k, h0, done, tail + padding);
  }

  lemma PadOne(tail: seq<byte>, length: nat)
    requires |tail| + 1 <= BLOCK - 8 && length % BLOCK == |tail|
    ensures tail + Padding(length) == LastBlock(tail + [0x80], 8 * length)
  {
  }

  lemma PadTwo<T>(ops: Ops<T>, k: seq<T>, h: Regs<T>, tail: seq<byte>, length: nat)
    requires BLOCK - 8 < |tail| + 1 <= BLOCK && length % BLOCK == |tail|
    ensures Blocks(ops, k, h, tail + Padding(length))
         == Blocks(ops, k, Blocks(ops, k, h, (tail + [0x80]) + Zeros(BLOCK - (|tail| + 1))), LastBlock([], 8 * length))
  {
    var first := (tail + [0x80]) + Zeros(BLOCK - (|tail| + 1));
    var second := LastBlock([], 8 * length);
    assert Zeros(PadZeros(|tail|)) == Zeros(BLOCK - (|tail| + 1)) + Zeros(BLOCK - 8);
    assert tail + Padding(length) == first + second;
    assert Whole(|first|, BLOCK);
    BlocksConcat(ops, k, h, first, second);
  }
}
