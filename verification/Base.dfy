/** Machine integers and result types shared by every module. */
module Base {

  const U16_SIZE := 0x1_0000
  const U32_SIZE := 0x1_0000_0000
  const U64_SIZE := 0x1_0000_0000_0000_0000

  type byte = x: int | 0 <= x < 0x100
  type u16 = x: int | 0 <= x < U16_SIZE
  type u32 = x: int | 0 <= x < U32_SIZE
  type u64 = x: int | 0 <= x < U64_SIZE

  datatype Option<+T> = None | Some(value: T)

  datatype Result<+T, +E> = Ok(value: T) | Err(error: E) {
    predicate IsFailure() { Err? }

    function PropagateFailure<U>(): (r: Result<U, E>)
      requires Err?
    {
      Err(error)
    }

    function Extract(): T
      requires Ok?
    {
      value
    }
  }

  function Min(x: int, y: int): (m: int) {
    if x <= y then x else y
  }

  function Zeros(n: nat): (z: seq<byte>)
    ensures |z| == n && forall i :: 0 <= i < n ==> z[i] == 0
  {
    seq(n, _ => 0)
  }

  /** What follows a prefix of a suffix. */
  lemma PrefixSplit<T>(a: seq<T>, b: seq<T>, s: seq<T>, i: nat)
    requires i <= |s| && a + b <= s[i..]
    ensures a <= s[i..] && i + |a| <= |s| && b <= s[i + |a|..]
  {
    assert s[i..][..|a + b|] == a + b;
    assert s[i + |a|..] == s[i..][|a|..];
    assert s[i..][|a|..][..|b|] == (a + b)[|a|..];
    assert s[i..][..|a|] == (a + b)[..|a|];
  }

  lemma PrefixSplit3<T>(a: seq<T>, b: seq<T>, c: seq<T>, s: seq<T>, i: nat)
    requires i <= |s| && (a + b) + c <= s[i..]
    ensures a <= s[i..] && i + |a| <= |s| && b + c <= s[i + |a|..]
  {
    assert (a + b) + c == a + (b + c);
    PrefixSplit(a, b + c, s, i);
  }

  lemma SplitAt(done: seq<byte>, waiting: seq<byte>, data: seq<byte>, n: nat)
    requires n <= |data|
    ensures done + waiting + data == done + (waiting + data[..n]) + data[n..]
  {
    assert data == data[..n] + data[n..];
  }

  lemma Regroup(done: seq<byte>, waiting: seq<byte>, rest: seq<byte>, whole: nat)
    requires (waiting == [] || rest == []) && whole <= |rest|
    ensures done + waiting + rest == (done + rest[..whole]) + (waiting + rest[whole..])
    ensures whole == |rest| ==> waiting + rest[whole..] == waiting
  {
    assert rest == rest[..whole] + rest[whole..];
    if rest == [] {
      assert rest[..whole] == [] && rest[whole..] == [];
    }
  }

  lemma {:induction false} SubsetSize<T>(a: set<T>, b: set<T>)
    requires a <= b
    ensures |a| <= |b|
    decreases a
  {
    if a == {} {
    } else {
      var x :| x in a;
      SubsetSize(a - {x}, b - {x});
    }
  }

  predicate Distinct<T(==)>(s: seq<T>) {
    forall i, j :: 0 <= i < j < |s| ==> s[i] != s[j]
  }

  lemma {:induction false} DistinctSize<T>(s: seq<T>)
    requires Distinct(s)
    ensures |set x | x in s| == |s|
  {
    if s == [] {
    } else {
      var n := |s| - 1;
      DistinctSize(s[..n]);
      assert (set x | x in s) == (set x | x in s[..n]) + {s[n]};
    }
  }
}
