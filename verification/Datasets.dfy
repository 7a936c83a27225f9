/** Enumerating the datasets of a pool: `datasets` of src/lib.rs. */
module Datasets {
  import opened Base

  const MAX_DATASETS := 256
  const MAX_DEPTH := 16

  type Path = seq<string>

  /** The names of a dataset's children, or nothing when they cannot be listed. */
  type Listing = Path -> Option<seq<string>>

  /** As many children as there is room for. */
  function Kids(parent: Path, names: seq<string>, room: nat): (kids: seq<Path>)
    ensures |kids| == Min(|names|, room) && forall i :: 0 <= i < |kids| ==> kids[i] == parent + [names[i]]
  {
    seq(Min(|names|, room), i requires 0 <= i < |names| => parent + [names[i]])
  }

  /** What one popped path adds. */
  function Found(listing: Listing, out: seq<Path>, parent: Path): (kids: seq<Path>)
    requires |out| <= MAX_DATASETS
    ensures |out| + |kids| <= MAX_DATASETS
  {
    if |out| >= MAX_DATASETS || |parent| >= MAX_DEPTH || listing(parent).None? then []
    else Kids(parent, listing(parent).value, MAX_DATASETS - |out|)
  }

  /** The run from the paths listed so far and the stack of those to visit. */
  function Run(listing: Listing, out: seq<Path>, stack: seq<Path>): (r: seq<Path>)
    requires |out| <= MAX_DATASETS
    decreases 2 * (MAX_DATASETS - |out|) + |stack|
  {
    if stack == [] then out else
      var n := |stack| - 1;
      var kids := Found(listing, out, stack[n]);
      Run(listing, out + kids, stack[..n] + kids)
  }

  function Enumerate(listing: Listing): (r: seq<Path>) {
    Run(listing, [[]], [[]])
  }

  method ListDatasets(listing: Listing) returns (out: seq<Path>)
    ensures out == Enumerate(listing)
  {
    out := [[]];
    var stack: seq<Path> := [[]];
    while stack != []
      invariant |out| <= MAX_DATASETS && Enumerate(listing) == Run(listing, out, stack)
      decreases 2 * (MAX_DATASETS - |out|) + |stack|
    {
      var n := |stack| - 1;
      var parent := stack[n];
      stack := stack[..n];
      if |out| >= MAX_DATASETS || |parent| >= MAX_DEPTH || listing(parent).None? {
        assert out + [] == out && stack + [] == stack;
      } else {
        out, stack := PushChildren(parent, listing(parent).value, out, stack);
      }
    }
  }

  method PushChildren(parent: Path, names: seq<string>, out0: seq<Path>, rest: seq<Path>)
    returns (out: seq<Path>, stack: seq<Path>)
    requires |out0| <= MAX_DATASETS
    ensures out == out0 + Kids(parent, names, MAX_DATASETS - |out0|)
    ensures stack == rest + Kids(parent, names, MAX_DATASETS - |out0|)
  {
    ghost var kids := Kids(parent, names, MAX_DATASETS - |out0|);
    out, stack := out0, rest;
    var i := 0;
    while i < |names| && |out| < MAX_DATASETS
      invariant 0 <= i <= |kids|
      invariant out == out0 + kids[..i] && stack == rest + kids[..i]
    {
      var path := parent + [names[i]];
      assert kids[..i + 1] == kids[..i] + [path];
      out := out + [path];
      stack := stack + [path];
      i := i + 1;
    }
    assert kids[..i] == kids;
  }

  // Whatever the listing

  function ParentOf(p: Path): (q: Path)
    requires p != []
  {
    p[..|p| - 1]
  }

  predicate IsChild(listing: Listing, p: Path) {
    p != [] && listing(ParentOf(p)).Some? && p[|p| - 1] in listing(ParentOf(p)).value
  }

  /** Root first, each other path a listed child of an earlier one, all within limits. */
  predicate Sound(listing: Listing, out: seq<Path>) {
    && 1 <= |out| <= 256 && out[0] == []
    && (forall i :: 0 <= i < |out| ==> |out[i]| <= 16)
    && (forall i :: 0 < i < |out| ==> IsChild(listing, out[i]) && ParentOf(out[i]) in out[..i])
  }

  lemma KidIsChild(listing: Listing, parent: Path, names: seq<string>, i: nat)
    requires listing(parent) == Some(names) && i < |names|
    ensures IsChild(listing, parent + [names[i]]) && ParentOf(parent + [names[i]]) == parent
  {
    assert (parent + [names[i]])[..|parent|] == parent;
  }

  lemma SoundStep(listing: Listing, out: seq<Path>, parent: Path)
    requires Sound(listing, out) && parent in out
    ensures Sound(listing, out + Found(listing, out, parent))
  {
    var kids := Found(listing, out, parent);
    var more := out + kids;
    forall i | 0 < i < |more|
      ensures |more[i]| <= MAX_DEPTH && IsChild(listing, more[i]) && ParentOf(more[i]) in more[..i]
    {
      if i < |out| {
        assert more[..i] == out[..i];
      } else {
        KidIsChild(listing, parent, listing(parent).value, i - |out|);
        assert parent in more[..i] by {
          var k :| 0 <= k < |out| && out[k] == parent;
          assert more[..i][k] == parent;
        }
      }
    }
  }

  /** Main result: for any listing, at most 256 paths of at most 16 names, the root
    * first and each other path after its parent. */
  lemma {:induction false} RunSound(listing: Listing, out: seq<Path>, stack: seq<Path>)
    requires Sound(listing, out) && forall i :: 0 <= i < |stack| ==> stack[i] in out
    ensures Sound(listing, Run(listing, out, stack))
    decreases 2 * (MAX_DATASETS - |out|) + |stack|
  {
    if stack == [] {
    } else {
      var n := |stack| - 1;
      var kids := Found(listing, out, stack[n]);
      SoundStep(listing, out, stack[n]);
      RunSound(listing, out + kids, stack[..n] + kids);
    }
  }

  lemma EnumerateSound(listing: Listing)
    ensures Sound(listing, Enumerate(listing))
  {
    RunSound(listing, [[]], [[]]);
  }

  /** Every child of `q` is listed. */
  predicate Expanded(listing: Listing, out: seq<Path>, q: Path) {
    listing(q).Some? ==> forall i :: 0 <= i < |listing(q).value| ==> q + [listing(q).value[i]] in out
  }

  /** The list is full, or every path off the stack that may have children has them listed. */
  ghost predicate FullOrExpanded(listing: Listing, out: seq<Path>, stack: seq<Path>) {
    |out| == 256 || forall q :: q in out && q !in stack && |q| < 16 ==> Expanded(listing, out, q)
  }

  lemma FullStep(listing: Listing, out: seq<Path>, rest: seq<Path>, parent: Path)
    requires |out| <= MAX_DATASETS && FullOrExpanded(listing, out, rest + [parent])
    ensures var kids := Found(listing, out, parent); FullOrExpanded(listing, out + kids, rest + kids)
  {
    var kids := Found(listing, out, parent);
    var more := out + kids;
    if |more| < 256 {
      forall q | q in more && q !in rest + kids && |q| < 16
        ensures Expanded(listing, more, q)
      {
        if q == parent {
          if listing(q).Some? {
            forall i | 0 <= i < |listing(q).value|
              ensures q + [listing(q).value[i]] in more
            {
              assert more[|out| + i] == q + [listing(q).value[i]];
            }
          }
        } else {
          assert q in out && q !in rest + [parent];
          ExpandedStays(listing, out, kids, q);
        }
      }
    }
  }

  lemma {:induction false} RunFull(listing: Listing, out: seq<Path>, stack: seq<Path>)
    requires |out| <= MAX_DATASETS && FullOrExpanded(listing, out, stack)
    ensures FullOrExpanded(listing, Run(listing, out, stack), [])
    decreases 2 * (MAX_DATASETS - |out|) + |stack|
  {
    hide FullOrExpanded;
    if stack == [] {
    } else {
      var n := |stack| - 1;
      var kids := Found(listing, out, stack[n]);
      assert stack == stack[..n] + [stack[n]];
      FullStep(listing, out, stack[..n], stack[n]);
      RunFull(listing, out + kids, stack[..n] + kids);
    }
  }

  /** Main result: for any listing, nothing is left out but by the limits: 256 paths are
    * listed, or every listed path of fewer than 16 names has all its children listed. */
  lemma EnumerateFull(listing: Listing)
    ensures var out := Enumerate(listing);
            |out| == 256 || forall q :: q in out && |q| < 16 ==> Expanded(listing, out, q)
  {
    RunFull(listing, [[]], [[]]);
  }

  // When nothing is cut off

  /** The paths of the tree. */
  predicate IsDataset(listing: Listing, p: Path)
    decreases |p|
  {
    p == [] || (IsChild(listing, p) && IsDataset(listing, ParentOf(p)))
  }

  /** `all` is the whole tree, within both limits, every listing good and its names
    * distinct. */
  ghost predicate Small(listing: Listing, all: set<Path>) {
    && |all| <= MAX_DATASETS
    && (forall p :: p in all <==> IsDataset(listing, p))
    && (forall p :: p in all ==> |p| <= MAX_DEPTH && listing(p).Some? && Distinct(listing(p).value))
  }

  /** What holds between steps: paths are listed once, those off the stack have been
    * expanded, and a path is listed only after its parent left the stack. */
  ghost predicate Between(listing: Listing, all: set<Path>, out: seq<Path>, stack: seq<Path>) {
    && 1 <= |out| <= MAX_DATASETS && out[0] == []
    && Distinct(out) && Distinct(stack)
    && (forall p :: p in out ==> p in all)
    && (forall p :: p in stack ==> p in out)
    && (forall p :: p in out && p != [] ==> ParentOf(p) in out && ParentOf(p) !in stack)
    && (|out| < MAX_DATASETS ==> forall q :: q in out && q !in stack ==> Expanded(listing, out, q))
  }

  /** As many distinct paths as there are datasets are all of them. */
  lemma FullIsAll(all: set<Path>, out: seq<Path>)
    requires Distinct(out) && |all| <= |out| && forall p :: p in out ==> p in all
    ensures forall p :: p in all ==> p in out
  {
    DistinctSize(out);
    var listed := set p | p in out;
    assert listed <= all;
    if p :| p in all && p !in out {
      SubsetSize(listed, all - {p});
      assert false;
    }
  }

  /** A list closed under children has every dataset. */
  lemma {:induction false} ClosedIsAll(listing: Listing, out: seq<Path>, p: Path)
    requires [] in out && (forall q :: q in out ==> Expanded(listing, out, q)) && IsDataset(listing, p)
    ensures p in out
    decreases |p|
  {
    if p == [] {
    } else {
      var q, names := ParentOf(p), listing(ParentOf(p)).value;
      ClosedIsAll(listing, out, q);
      var i :| 0 <= i < |names| && names[i] == p[|p| - 1];
      assert p == q + [names[i]];
      assert Expanded(listing, out, q);
    }
  }

  /** The children of a path on the stack are new and distinct. */
  lemma KidsNew(listing: Listing, all: set<Path>, out: seq<Path>, stack: seq<Path>, parent: Path, kids: seq<Path>)
    requires Small(listing, all) && Between(listing, all, out, stack)
    requires parent in stack && kids == Found(listing, out, parent)
    ensures Distinct(kids)
    ensures forall i :: 0 <= i < |kids| ==> kids[i] != [] && ParentOf(kids[i]) == parent
    ensures forall i :: 0 <= i < |kids| ==> kids[i] !in out && kids[i] in all
  {
    assert parent in out && parent in all;
    forall i | 0 <= i < |kids|
      ensures kids[i] != [] && ParentOf(kids[i]) == parent && kids[i] !in out && kids[i] in all
    {
      KidIsChild(listing, parent, listing(parent).value, i);
      assert IsDataset(listing, kids[i]);
    }
    forall i, j | 0 <= i < j < |kids|
      ensures kids[i] != kids[j]
    {
      var names := listing(parent).value;
      assert kids[i][|parent|] == names[i] && kids[j][|parent|] == names[j];
    }
  }

  lemma DistinctConcat(a: seq<Path>, b: seq<Path>)
    requires Distinct(a) && Distinct(b) && forall p :: p in b ==> p !in a
    ensures Distinct(a + b)
  {
    forall i, j | 0 <= i < j < |a + b|
      ensures (a + b)[i] != (a + b)[j]
    {
      if i < |a| <= j {
        assert b[j - |a|] in b;
      }
    }
  }

  /** No dataset is deeper than the limit, so stopping there misses nothing. */
  lemma DepthEnough(listing: Listing, all: set<Path>, p: Path)
    requires Small(listing, all) && p in all && |p| >= MAX_DEPTH
    ensures listing(p) == Some([])
  {
    var names := listing(p).value;
    if names != [] {
      KidIsChild(listing, p, names, 0);
      assert false;
    }
  }

  lemma StepExpands(listing: Listing, all: set<Path>, out: seq<Path>, parent: Path, kids: seq<Path>)
    requires Small(listing, all) && |out| + |kids| < MAX_DATASETS
    requires parent in all && kids == Found(listing, out, parent)
    ensures Expanded(listing, out + kids, parent)
  {
    if |parent| >= MAX_DEPTH {
      DepthEnough(listing, all, parent);
    } else {
      var names := listing(parent).value;
      forall i | 0 <= i < |names|
        ensures parent + [names[i]] in out + kids
      {
        assert (out + kids)[|out| + i] == parent + [names[i]];
      }
    }
  }

  lemma ExpandedStays(listing: Listing, out: seq<Path>, kids: seq<Path>, q: Path)
    requires Expanded(listing, out, q)
    ensures Expanded(listing, out + kids, q)
  {
  }

  lemma BetweenStep(listing: Listing, all: set<Path>, out: seq<Path>, rest: seq<Path>, parent: Path, kids: seq<Path>)
    requires Small(listing, all) && Between(listing, all, out, rest + [parent]) && kids == Found(listing, out, parent)
    ensures Between(listing, all, out + kids, rest + kids)
  {
    var stack := rest + [parent];
    assert stack[|rest|] == parent && forall i :: 0 <= i < |rest| ==> stack[i] == rest[i];
    assert forall p :: p in rest ==> p in stack;
    KidsNew(listing, all, out, stack, parent, kids);
    DistinctConcat(out, kids);
    DistinctConcat(rest, kids);
    forall p | p in out + kids && p != []
      ensures ParentOf(p) in out && ParentOf(p) !in rest + kids
    {
      if p in kids {
        assert parent in out && parent !in rest;
      }
    }
    if |out + kids| < MAX_DATASETS {
      forall q | q in out + kids && q !in rest + kids
        ensures Expanded(listing, out + kids, q)
      {
        if q == parent {
          StepExpands(listing, all, out, parent, kids);
        } else {
          assert q in out && q !in stack;
          ExpandedStays(listing, out, kids, q);
        }
      }
    }
  }

  lemma FinishedIsAll(listing: Listing, all: set<Path>, out: seq<Path>)
    requires Small(listing, all) && Between(listing, all, out, [])
    ensures Distinct(out) && forall p :: p in out <==> p in all
  {
    if |out| == MAX_DATASETS {
      FullIsAll(all, out);
    } else {
      assert out[0] in out;
      forall p | p in all ensures p in out { ClosedIsAll(listing, out, p); }
    }
  }

  lemma {:induction false} RunComplete(listing: Listing, all: set<Path>, out: seq<Path>, stack: seq<Path>)
    requires Small(listing, all) && Between(listing, all, out, stack)
    ensures var r := Run(listing, out, stack); Distinct(r) && forall p :: p in r <==> p in all
    decreases 2 * (MAX_DATASETS - |out|) + |stack|
  {
    assert |out| <= MAX_DATASETS;
    hide Small, Between, Distinct;
    if stack == [] {
      FinishedIsAll(listing, all, out);
    } else {
      var n := |stack| - 1;
      var kids := Found(listing, out, stack[n]);
      assert stack == stack[..n] + [stack[n]];
      BetweenStep(listing, all, out, stack[..n], stack[n], kids);
      RunComplete(listing, all, out + kids, stack[..n] + kids);
    }
  }

  /** Main result: when every listing succeeds with distinct names and the tree is
    * within both limits, each dataset is listed, and once. */
  lemma EnumerateComplete(listing: Listing, all: set<Path>)
    requires Small(listing, all)
    ensures Distinct(Enumerate(listing)) && forall p :: p in Enumerate(listing) <==> IsDataset(listing, p)
  {
    assert IsDataset(listing, []);
    RunComplete(listing, all, [[]], [[]]);
  }
}
