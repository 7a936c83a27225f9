/** How much output LZJB needs (src/compression/lzjb.rs). */
module LzjbBounds {
  import opened Base
  import opened LzjbSpec

  /** The source bytes that tokens stand for. */
  function Spans(ts: seq<Token>): (n: nat)
    ensures |ts| <= n
  {
    if ts == [] then 0 else ts[0].Span() + Spans(ts[1..])
  }

  lemma {:induction false} SpansConcat(a: seq<Token>, b: seq<Token>)
    ensures Spans(a + b) == Spans(a) + Spans(b)
  {
    if a == [] {
      assert a + b == b;
    } else {
      assert (a + b)[1..] == a[1..] + b;
      SpansConcat(a[1..], b);
    }
  }

  /** No block is longer than what it stands for. */
  lemma {:induction false} BlocksAtMost(g: seq<Token>)
    ensures |Blocks(g)| <= Spans(g)
  {
    if g == [] {
    } else {
      var n := |g| - 1;
      BlocksAtMost(g[..n]);
      assert g == g[..n] + [g[n]];
      SpansConcat(g[..n], [g[n]]);
    }
  }

  /** One map byte for each eight tokens on top of that. */
  lemma {:induction false} SerializeAtMost(ts: seq<Token>)
    ensures |Serialize(ts)| <= Spans(ts) + (|ts| + GROUP - 1) / GROUP
    decreases |ts|
  {
    if ts == [] {
    } else {
      var n := Min(GROUP, |ts|);
      BlocksAtMost(ts[..n]);
      assert ts == ts[..n] + ts[n..];
      SpansConcat(ts[..n], ts[n..]);
      SerializeAtMost(ts[n..]);
    }
  }

  lemma {:induction false} CoveringSpans(src: seq<byte>, si: nat, ts: seq<Token>)
    requires si <= |src| && Covering(src, si, ts)
    ensures Spans(ts) == |src| - si
    decreases |ts|
  {
    if ts == [] {
    } else {
      CoveringSpans(src, si + ts[0].Span(), ts[1..]);
    }
  }

  lemma {:induction false} RoomThroughout(ts: seq<Token>, capacity: nat, n: nat)
    requires n <= |ts| && Spans(ts) + Spans(ts) / GROUP + GROUP_ROOM <= capacity
    ensures FitsUpTo(ts, capacity, n)
    decreases n
  {
    if n == 0 {
    } else {
      RoomThroughout(ts, capacity, n - 1);
      var done, rest := ts[..n - 1], ts[n - 1..];
      SerializeAtMost(done);
      assert ts == done + rest;
      SpansConcat(done, rest);
    }
  }

  /** Compression succeeds whenever the buffer has an eighth and 17 bytes more than
    * the source, whatever the source. */
  lemma AlwaysFits(p: Params, src: seq<byte>, capacity: nat)
    requires p.Valid() && |src| + |src| / GROUP + GROUP_ROOM <= capacity
    ensures Fits(TokensOf(p, src), capacity)
  {
    var ts := TokensOf(p, src);
    CoveringSpans(src, 0, ts);
    RoomThroughout(ts, capacity, |ts|);
  }

  /** And what it writes is at most an eighth, rounded up, longer than the source. */
  lemma EncodedSize(p: Params, src: seq<byte>)
    requires p.Valid()
    ensures |Serialize(TokensOf(p, src))| <= |src| + (|src| + GROUP - 1) / GROUP
  {
    var ts := TokensOf(p, src);
    CoveringSpans(src, 0, ts);
    SerializeAtMost(ts);
  }
}
