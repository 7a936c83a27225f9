/** The order in which `datasets` of src/lib.rs lists the datasets of a pool. It takes the
  * path pushed last, where breadth-first order, which its documentation promises, takes
  * them level by level. */
module DatasetOrder {
  import opened Base
  import opened Datasets

  function Children(listing: Listing, p: Path): (kids: seq<Path>) {
    if listing(p).None? then [] else Kids(p, listing(p).value, |listing(p).value|)
  }

  /** A path with children. */
  predicate Live(listing: Listing, p: Path) {
    Children(listing, p) != []
  }

  function NextLevel(listing: Listing, level: seq<Path>): (next: seq<Path>) {
    if level == [] then [] else
      var n := |level| - 1;
      NextLevel(listing, level[..n]) + Children(listing, level[n])
  }

  /** The `n` levels below one. */
  function LevelsBelow(listing: Listing, level: seq<Path>, n: nat): (r: seq<Path>)
    decreases n
  {
    if n == 0 then [] else
      NextLevel(listing, level) + LevelsBelow(listing, NextLevel(listing, level), n - 1)
  }

  /** Breadth-first order: level by level, each in the order of the one above. */
  function BreadthFirst(listing: Listing): (r: seq<Path>) {
    [[]] + LevelsBelow(listing, [[]], MAX_DEPTH)
  }

  // Steps of the run when no limit is met

  lemma KidsDistinct(listing: Listing, p: Path)
    requires listing(p).Some? && Distinct(listing(p).value)
    ensures Distinct(Children(listing, p))
    ensures forall k :: k in Children(listing, p) ==> k != [] && ParentOf(k) == p && IsChild(listing, k)
  {
    var names, kids := listing(p).value, Children(listing, p);
    forall i | 0 <= i < |kids|
      ensures kids[i] != [] && ParentOf(kids[i]) == p && IsChild(listing, kids[i]) && kids[i][|p|] == names[i]
    {
      KidIsChild(listing, p, names, i);
    }
  }

  /** All the children of a path on the stack fit. */
  lemma RoomEnough(listing: Listing, all: set<Path>, out: seq<Path>, stack: seq<Path>, p: Path)
    requires Small(listing, all) && Between(listing, all, out, stack) && p in stack
    ensures |out| + |Children(listing, p)| <= MAX_DATASETS
  {
    var kids := Children(listing, p);
    assert p in out && p in all;
    KidsDistinct(listing, p);
    forall k | k in kids
      ensures k !in out && k in all
    {
      assert ParentOf(k) == p;
      assert IsDataset(listing, k);
    }
    DistinctConcat(out, kids);
    DistinctSize(out + kids);
    SubsetSize((set q | q in out + kids), all);
  }

  lemma FoundIsChildren(listing: Listing, all: set<Path>, out: seq<Path>, stack: seq<Path>, p: Path)
    requires Small(listing, all) && Between(listing, all, out, stack) && p in stack
    ensures Found(listing, out, p) == Children(listing, p)
  {
    RoomEnough(listing, all, out, stack, p);
    assert p in out && p in all;
    if |p| >= MAX_DEPTH {
      DepthEnough(listing, all, p);
    }
  }

  /** One step: the top of the stack gives way to its children. */
  lemma Pop(listing: Listing, all: set<Path>, out: seq<Path>, rest: seq<Path>, p: Path)
    requires Small(listing, all) && Between(listing, all, out, rest + [p])
    ensures |out + Children(listing, p)| <= MAX_DATASETS
    ensures Run(listing, out, rest + [p]) == Run(listing, out + Children(listing, p), rest + Children(listing, p))
    ensures Between(listing, all, out + Children(listing, p), rest + Children(listing, p))
  {
    hide Small, Between, Children;
    var stack := rest + [p];
    assert stack[|rest|] == p && stack[..|rest|] == rest;
    FoundIsChildren(listing, all, out, stack, p);
    BetweenStep(listing, all, out, rest, p, Found(listing, out, p));
  }

  lemma {:induction false} RunKeeps(listing: Listing, out: seq<Path>, stack: seq<Path>)
    requires |out| <= MAX_DATASETS
    ensures out <= Run(listing, out, stack)
    decreases 2 * (MAX_DATASETS - |out|) + |stack|
  {
    if stack == [] {
    } else {
      var n := |stack| - 1;
      var kids := Found(listing, out, stack[n]);
      RunKeeps(listing, out + kids, stack[..n] + kids);
    }
  }

  // One level

  ghost predicate Dead(listing: Listing, paths: seq<Path>) {
    forall p :: p in paths ==> !Live(listing, p)
  }

  /** At most one path of the level has children. */
  ghost predicate OneLive(listing: Listing, level: seq<Path>) {
    forall i, j :: 0 <= i < j < |level| && Live(listing, level[i]) ==> !Live(listing, level[j])
  }

  ghost predicate ThinBelow(listing: Listing, level: seq<Path>, n: nat)
    decreases n
  {
    OneLive(listing, level) && (n > 0 ==> ThinBelow(listing, NextLevel(listing, level), n - 1))
  }

  lemma {:induction false} DeadNext(listing: Listing, paths: seq<Path>)
    requires Dead(listing, paths)
    ensures NextLevel(listing, paths) == []
    decreases |paths|
  {
    if paths == [] {
    } else {
      var n := |paths| - 1;
      DeadNext(listing, paths[..n]);
      assert paths[n] in paths;
    }
  }

  lemma {:induction false} NothingBelow(listing: Listing, n: nat)
    ensures LevelsBelow(listing, [], n) == [] && ThinBelow(listing, [], n)
  {
    if n == 0 {
    } else {
      NothingBelow(listing, n - 1);
    }
  }

  lemma {:induction false} RunDead(listing: Listing, all: set<Path>, out: seq<Path>, stack: seq<Path>)
    requires Small(listing, all) && Between(listing, all, out, stack) && Dead(listing, stack)
    ensures Run(listing, out, stack) == out
    decreases |stack|
  {
    hide Small, Between;
    if stack == [] {
    } else {
      var n := |stack| - 1;
      assert stack == stack[..n] + [stack[n]] && stack[n] in stack;
      Pop(listing, all, out, stack[..n], stack[n]);
      assert out + [] == out && stack[..n] + [] == stack[..n];
      RunDead(listing, all, out, stack[..n]);
    }
  }

  lemma {:induction false} NextFirst(listing: Listing, p: Path, rest: seq<Path>)
    ensures NextLevel(listing, [p] + rest) == Children(listing, p) + NextLevel(listing, rest)
    decreases |rest|
  {
    var all, n := [p] + rest, |rest|;
    assert all[n] == if n == 0 then p else rest[n - 1];
    if n == 0 {
      assert all[..n] == [];
    } else {
      assert all[..n] == [p] + rest[..n - 1];
      NextFirst(listing, p, rest[..n - 1]);
    }
  }

  /** The first child of a level is of the first path that has any. */
  lemma {:induction false} FirstOfNext(listing: Listing, level: seq<Path>, i: nat)
    requires i < |level| && Live(listing, level[i])
    ensures NextLevel(listing, level) != [] && NextLevel(listing, level)[0] != []
    ensures ParentOf(NextLevel(listing, level)[0]) in level[..i + 1]
    decreases |level|
  {
    hide NextLevel;
    var p, rest := level[0], level[1..];
    assert level == [p] + rest && p in level;
    NextFirst(listing, p, rest);
    if Live(listing, p) {
      KidIsChild(listing, p, listing(p).value, 0);
      assert level[..i + 1][0] == p;
    } else {
      assert rest[i - 1] == level[i];
      FirstOfNext(listing, rest, i - 1);
      assert level[..i + 1] == [p] + rest[..i];
    }
  }

  /** The paths of a level have the same depth and `n` levels below them. */
  ghost predicate AtDepth(level: seq<Path>, n: nat) {
    forall p :: p in level ==> |p| + n == MAX_DEPTH
  }

  /** What the invariant says of a path on the stack. */
  lemma OnStack(listing: Listing, all: set<Path>, out: seq<Path>, stack: seq<Path>)
    requires Small(listing, all) && Between(listing, all, out, stack)
    ensures Distinct(stack) && |out| <= MAX_DATASETS
    ensures forall p :: p in stack ==> p in all && listing(p).Some? && Distinct(listing(p).value)
  {
    forall p | p in stack
      ensures p in all
    {
      assert p in out;
    }
  }

  lemma LiveHasBelow(listing: Listing, all: set<Path>, level: seq<Path>, n: nat, p: Path)
    requires Small(listing, all) && AtDepth(level, n) && p in level && p in all && Live(listing, p)
    ensures 0 < n
  {
    if n == 0 {
      DepthEnough(listing, all, p);
    }
  }

  /** A path without children adds nothing to its level. */
  lemma DropDead(listing: Listing, level: seq<Path>, p: Path, n: nat)
    requires !Live(listing, p)
    ensures LevelsBelow(listing, level + [p], n) == LevelsBelow(listing, level, n)
    ensures ThinBelow(listing, level + [p], n) <==> ThinBelow(listing, level, n)
  {
    var more := level + [p];
    assert more[..|level|] == level && more[|level|] == p;
    assert NextLevel(listing, more) == NextLevel(listing, level) + [] == NextLevel(listing, level);
    assert forall i :: 0 <= i < |level| ==> more[i] == level[i];
    assert OneLive(listing, more) <==> OneLive(listing, level) by {
      if OneLive(listing, more) {
        forall i, j | 0 <= i < j < |level| && Live(listing, level[i])
          ensures !Live(listing, level[j])
        {
          assert more[i] == level[i] && more[j] == level[j];
        }
      }
    }
  }

  /** If the last path has children and none before it, the next level is theirs. */
  lemma LastLive(listing: Listing, level: seq<Path>, p: Path, n: nat)
    requires Dead(listing, level) && 0 < n
    ensures LevelsBelow(listing, level + [p], n)
         == Children(listing, p) + LevelsBelow(listing, Children(listing, p), n - 1)
    ensures ThinBelow(listing, level + [p], n) <==> ThinBelow(listing, Children(listing, p), n - 1)
  {
    hide Children;
    var more := level + [p];
    assert more[..|level|] == level && more[|level|] == p;
    DeadNext(listing, level);
    assert NextLevel(listing, more) == [] + Children(listing, p) == Children(listing, p);
    forall i | 0 <= i < |level|
      ensures !Live(listing, more[i])
    {
      assert more[i] == level[i] && level[i] in level;
    }
  }

  /** Where the run puts the first child of a live path, and where level order puts the
    * first path of the next level. */
  lemma RunFirst(listing: Listing, all: set<Path>, out: seq<Path>, rest: seq<Path>, p: Path)
    requires Small(listing, all) && Between(listing, all, out, rest + [p]) && Live(listing, p)
    ensures |out| <= MAX_DATASETS && |out| < |Run(listing, out, rest + [p])|
    ensures Run(listing, out, rest + [p])[|out|] != [] && ParentOf(Run(listing, out, rest + [p])[|out|]) == p
  {
    hide Small, Between, Run;
    var kids := Children(listing, p);
    OnStack(listing, all, out, rest + [p]);
    Pop(listing, all, out, rest, p);
    RunKeeps(listing, out + kids, rest + kids);
    KidIsChild(listing, p, listing(p).value, 0);
    assert (out + kids)[|out|] == kids[0];
  }

  lemma LevelFirst(listing: Listing, out: seq<Path>, level: seq<Path>, n: nat)
    requires 0 < n && NextLevel(listing, level) != []
    ensures |out| < |out + LevelsBelow(listing, level, n)|
    ensures (out + LevelsBelow(listing, level, n))[|out|] == NextLevel(listing, level)[0]
  {
    hide NextLevel;
  }

  /** If another before it has, the next path listed is a child of the wrong one. */
  lemma TwoLive(listing: Listing, all: set<Path>, out: seq<Path>, rest: seq<Path>, level: seq<Path>, p: Path,
                n: nat, i: nat)
    requires Small(listing, all) && Between(listing, all, out, rest + (level + [p])) && AtDepth(level + [p], n)
    requires i < |level| && Live(listing, level[i]) && Live(listing, p)
    ensures |out| <= MAX_DATASETS
    ensures Run(listing, out, rest + (level + [p])) != out + LevelsBelow(listing, level + [p], n)
    ensures !ThinBelow(listing, level + [p], n)
  {
    hide *;
    var stack, more := rest + (level + [p]), level + [p];
    assert stack == (rest + level) + [p] && more[i] == level[i] && more[|level|] == p;
    assert stack[|rest|..] == more && stack[|rest| + |level|] == p;
    OnStack(listing, all, out, stack);
    LiveHasBelow(listing, all, more, n, p);
    RunFirst(listing, all, out, rest + level, p);
    FirstOfNext(listing, more, i);
    LevelFirst(listing, out, more, n);
    FirstDiffers(stack, more, p, i, |rest|);
    NotThin(listing, more, n, i);
  }

  lemma NotThin(listing: Listing, level: seq<Path>, n: nat, i: nat)
    requires i + 1 < |level| && Live(listing, level[i]) && Live(listing, level[|level| - 1])
    ensures !ThinBelow(listing, level, n)
  {
    hide Live;
  }

  lemma FirstDiffers(stack: seq<Path>, more: seq<Path>, p: Path, i: nat, at: nat)
    requires Distinct(stack) && i + 1 < |more| && at + |more| == |stack| && stack[at..] == more && p == more[|more| - 1]
    ensures p !in more[..i + 1]
  {
    forall k | 0 <= k <= i
      ensures more[k] != p
    {
      assert more[k] == stack[at + k] && p == stack[|stack| - 1];
    }
  }

  /** From the stack of one level, above paths without children, the run goes on level by
    * level exactly when no level from there has two paths with children. */
  lemma {:induction false} RunLevels(listing: Listing, all: set<Path>, out: seq<Path>, dead: seq<Path>,
                                     level: seq<Path>, n: nat)
    requires Small(listing, all) && Between(listing, all, out, dead + level)
    requires Dead(listing, dead) && AtDepth(level, n)
    ensures |out| <= MAX_DATASETS
    ensures Run(listing, out, dead + level) == out + LevelsBelow(listing, level, n) <==> ThinBelow(listing, level, n)
    decreases 2 * (MAX_DATASETS - |out|) + |dead| + |level|
  {
    hide *;
    OnStack(listing, all, out, dead + level);
    if level == [] {
      assert dead + level == dead && out + [] == out;
      RunDead(listing, all, out, dead);
      NothingBelow(listing, n);
    } else {
      var rest, p := level[..|level| - 1], level[|level| - 1];
      assert level == rest + [p] && dead + level == (dead + rest) + [p];
      Pop(listing, all, out, dead + rest, p);
      if !Live(listing, p) {
        NoChildren(listing, p);
        assert out + [] == out && dead + rest + [] == dead + rest;
        DropDead(listing, rest, p, n);
        DepthPart(rest, p, n);
        RunLevels(listing, all, out, dead, rest, n);
      } else if i :| 0 <= i < |rest| && Live(listing, rest[i]) {
        TwoLive(listing, all, out, dead, rest, p, n, i);
      } else {
        DeadParts(listing, dead, rest);
        assert p in level && (dead + level)[|dead| + |rest|] == p;
        LiveHasBelow(listing, all, level, n, p);
        LastLive(listing, rest, p, n);
        var kids := Children(listing, p);
        DepthNext(listing, all, level, n, p);
        RunLevels(listing, all, out + kids, dead + rest, kids, n - 1);
        Assoc(out, kids, LevelsBelow(listing, kids, n - 1));
      }
    }
  }

  lemma NoChildren(listing: Listing, p: Path)
    requires !Live(listing, p)
    ensures Children(listing, p) == []
  {
  }

  lemma DepthPart(rest: seq<Path>, p: Path, n: nat)
    requires AtDepth(rest + [p], n)
    ensures AtDepth(rest, n)
  {
  }

  lemma DeadParts(listing: Listing, dead: seq<Path>, rest: seq<Path>)
    requires Dead(listing, dead) && forall i :: 0 <= i < |rest| ==> !Live(listing, rest[i])
    ensures Dead(listing, rest) && Dead(listing, dead + rest)
  {
  }

  lemma DepthNext(listing: Listing, all: set<Path>, level: seq<Path>, n: nat, p: Path)
    requires Small(listing, all) && AtDepth(level, n) && 0 < n && p in level && p in all
    ensures AtDepth(Children(listing, p), n - 1)
  {
  }

  // All levels

  /** No two datasets of the same depth, `k` or more, both have children. */
  ghost predicate ThinFrom(listing: Listing, k: nat) {
    forall p, q :: IsDataset(listing, p) && IsDataset(listing, q) && |p| == |q| >= k ==>
                     Live(listing, p) && Live(listing, q) ==> p == q
  }

  /** `level` has the datasets of depth `k`, each once. */
  ghost predicate IsLevel(listing: Listing, level: seq<Path>, k: nat) {
    Distinct(level) && forall p :: p in level <==> IsDataset(listing, p) && |p| == k
  }

  lemma ChildrenAre(listing: Listing, p: Path, q: Path)
    requires listing(p).Some?
    ensures q in Children(listing, p) <==> IsChild(listing, q) && ParentOf(q) == p
  {
    var names, kids := listing(p).value, Children(listing, p);
    if q in kids {
      var i :| 0 <= i < |kids| && kids[i] == q;
      KidIsChild(listing, p, names, i);
    }
    if IsChild(listing, q) && ParentOf(q) == p {
      var i :| 0 <= i < |names| && names[i] == q[|q| - 1];
      assert kids[i] == q;
    }
  }

  lemma {:induction false} NextIs(listing: Listing, level: seq<Path>, q: Path)
    requires forall p :: p in level ==> listing(p).Some?
    ensures q in NextLevel(listing, level) <==> IsChild(listing, q) && ParentOf(q) in level
    decreases |level|
  {
    hide Children, IsChild;
    if level == [] {
    } else {
      var rest, p := level[..|level| - 1], level[|level| - 1];
      assert level == rest + [p];
      ChildrenAre(listing, p, q);
      NextIs(listing, rest, q);
    }
  }

  lemma {:induction false} NextDistinct(listing: Listing, level: seq<Path>)
    requires Distinct(level) && forall p :: p in level ==> listing(p).Some? && Distinct(listing(p).value)
    ensures Distinct(NextLevel(listing, level))
    decreases |level|
  {
    hide Children;
    if level == [] {
    } else {
      var rest, p := level[..|level| - 1], level[|level| - 1];
      assert level == rest + [p] && p !in rest;
      NextDistinct(listing, rest);
      KidsDistinct(listing, p);
      forall q | q in Children(listing, p)
        ensures q !in NextLevel(listing, rest)
      {
        NextIs(listing, rest, q);
      }
      DistinctConcat(NextLevel(listing, rest), Children(listing, p));
    }
  }

  lemma LevelBelow(listing: Listing, all: set<Path>, level: seq<Path>, k: nat)
    requires Small(listing, all) && IsLevel(listing, level, k)
    ensures IsLevel(listing, NextLevel(listing, level), k + 1)
  {
    hide NextLevel;
    assert forall p :: p in level ==> p in all;
    NextDistinct(listing, level);
    forall q
      ensures q in NextLevel(listing, level) <==> IsDataset(listing, q) && |q| == k + 1
    {
      NextIs(listing, level, q);
    }
  }

  lemma OneLiveIs(listing: Listing, level: seq<Path>, k: nat)
    requires IsLevel(listing, level, k)
    ensures ThinFrom(listing, k) <==> OneLive(listing, level) && ThinFrom(listing, k + 1)
  {
    if OneLive(listing, level) && ThinFrom(listing, k + 1) {
      forall p, q | IsDataset(listing, p) && IsDataset(listing, q) && |p| == |q| >= k
                    && Live(listing, p) && Live(listing, q)
        ensures p == q
      {
        if |p| == k {
          assert p in level && q in level;
        }
      }
    }
    if ThinFrom(listing, k) {
      forall i, j | 0 <= i < j < |level| && Live(listing, level[i])
        ensures !Live(listing, level[j])
      {
        assert level[i] in level && level[j] in level;
      }
    }
  }

  lemma {:induction false} ThinIs(listing: Listing, all: set<Path>, level: seq<Path>, n: nat)
    requires Small(listing, all) && n <= MAX_DEPTH && IsLevel(listing, level, MAX_DEPTH - n)
    ensures ThinBelow(listing, level, n) <==> ThinFrom(listing, MAX_DEPTH - n)
    decreases n
  {
    hide Small, IsLevel, ThinFrom, OneLive;
    OneLiveIs(listing, level, MAX_DEPTH - n);
    if n == 0 {
      NoneDeeper(listing, all);
    } else {
      LevelBelow(listing, all, level, MAX_DEPTH - n);
      ThinIs(listing, all, NextLevel(listing, level), n - 1);
    }
  }

  lemma NoneDeeper(listing: Listing, all: set<Path>)
    requires Small(listing, all)
    ensures ThinFrom(listing, MAX_DEPTH + 1)
  {
    assert forall p :: IsDataset(listing, p) ==> p in all;
  }

  /** Main result: the datasets of a pool within the limits are listed breadth-first if and
    * only if no two of the same depth both have children. */
  lemma BreadthFirstWhenThin(listing: Listing, all: set<Path>)
    requires Small(listing, all)
    ensures Enumerate(listing) == BreadthFirst(listing) <==> ThinFrom(listing, 0)
  {
    hide Run, LevelsBelow, ThinFrom, ThinBelow;
    var root: seq<Path> := [[]];
    Begins(listing, all, root);
    assert [] + root == root;
    RunLevels(listing, all, root, [], root, MAX_DEPTH);
    ThinIs(listing, all, root, MAX_DEPTH);
  }

  // The same run with a queue

  /** The run that takes the path pushed first. */
  function Fifo(listing: Listing, out: seq<Path>, queue: seq<Path>): (r: seq<Path>)
    requires |out| <= MAX_DATASETS
    decreases 2 * (MAX_DATASETS - |out|) + |queue|
  {
    if queue == [] then out else
      var kids := Found(listing, out, queue[0]);
      Fifo(listing, out + kids, queue[1..] + kids)
  }

  lemma Rotates(listing: Listing, all: set<Path>, out: seq<Path>, p: Path, rest: seq<Path>)
    requires Between(listing, all, out, [p] + rest)
    ensures Between(listing, all, out, rest + [p])
  {
    var a, b := [p] + rest, rest + [p];
    assert forall q :: q in a <==> q in b;
    forall i, j | 0 <= i < j < |b|
      ensures b[i] != b[j]
    {
      assert b[i] == a[i + 1] && b[j] == if j == |rest| then a[0] else a[j + 1];
    }
  }

  lemma Shift(listing: Listing, all: set<Path>, out: seq<Path>, p: Path, rest: seq<Path>)
    requires Small(listing, all) && Between(listing, all, out, [p] + rest)
    ensures |out + Children(listing, p)| <= MAX_DATASETS
    ensures Fifo(listing, out, [p] + rest) == Fifo(listing, out + Children(listing, p), rest + Children(listing, p))
    ensures Between(listing, all, out + Children(listing, p), rest + Children(listing, p))
  {
    hide Small, Between, Children, Run;
    OnStack(listing, all, out, [p] + rest);
    FoundIsChildren(listing, all, out, [p] + rest, p);
    assert ([p] + rest)[1..] == rest;
    Rotates(listing, all, out, p, rest);
    Pop(listing, all, out, rest, p);
  }

  lemma {:induction false} FifoDead(listing: Listing, all: set<Path>, out: seq<Path>, queue: seq<Path>)
    requires Small(listing, all) && Between(listing, all, out, queue) && Dead(listing, queue)
    ensures |out| <= MAX_DATASETS && Fifo(listing, out, queue) == out
    decreases |queue|
  {
    hide Small, Between;
    OnStack(listing, all, out, queue);
    if queue == [] {
    } else {
      assert queue == [queue[0]] + queue[1..] && queue[0] in queue;
      Shift(listing, all, out, queue[0], queue[1..]);
      assert out + [] == out && queue[1..] + [] == queue[1..];
      FifoDead(listing, all, out, queue[1..]);
    }
  }

  lemma DeepIsDead(listing: Listing, all: set<Path>, out: seq<Path>, level: seq<Path>)
    requires Small(listing, all) && Between(listing, all, out, level) && AtDepth(level, 0)
    ensures Dead(listing, level)
  {
    OnStack(listing, all, out, level);
    forall p | p in level
      ensures !Live(listing, p)
    {
      DepthEnough(listing, all, p);
    }
  }

  /** What a run with a queue makes of the rest of a level and what is queued of the next. */
  ghost predicate GoesByLevel(listing: Listing, out: seq<Path>, level: seq<Path>, next: seq<Path>, n: nat)
    requires 0 < n
  {
    && |out| <= MAX_DATASETS
    && var below := NextLevel(listing, level);
       Fifo(listing, out, level + next) == out + below + LevelsBelow(listing, next + below, n - 1)
  }

  lemma Assoc(a: seq<Path>, b: seq<Path>, c: seq<Path>)
    ensures a + b + c == a + (b + c)
  {
  }

  lemma ByLevelFirst(listing: Listing, out: seq<Path>, p: Path, rest: seq<Path>, next: seq<Path>, n: nat)
    requires var kids := Children(listing, p);
             && 0 < n && |out| <= MAX_DATASETS && GoesByLevel(listing, out + kids, rest, next + kids, n)
             && Fifo(listing, out, [p] + (rest + next)) == Fifo(listing, out + kids, rest + next + kids)
    ensures GoesByLevel(listing, out, [p] + rest, next, n)
  {
    hide Fifo, NextLevel, LevelsBelow, Children;
    var kids, below := Children(listing, p), NextLevel(listing, rest);
    NextFirst(listing, p, rest);
    Assoc(rest, next, kids);
    Assoc([p], rest, next);
    Assoc(next, kids, below);
    Assoc(out, kids, below);
  }

  lemma ByLevelNext(listing: Listing, out: seq<Path>, next: seq<Path>, n: nat)
    requires 1 < n && GoesByLevel(listing, out, next, [], n - 1)
    ensures GoesByLevel(listing, out, [], next, n)
  {
    hide Fifo, NextLevel, LevelsBelow;
    var below := NextLevel(listing, next);
    NextOfNone(listing);
    LevelsUnfold(listing, next, n - 1);
    assert [] + next == next == next + [] && [] + below == below && out + [] == out;
    Assoc(out, below, LevelsBelow(listing, below, n - 2));
  }

  lemma ByLevelEnd(listing: Listing, out: seq<Path>, next: seq<Path>)
    requires |out| <= MAX_DATASETS && Fifo(listing, out, next) == out
    ensures GoesByLevel(listing, out, [], next, 1)
  {
    hide Fifo, NextLevel;
    NextOfNone(listing);
    assert [] + next == next && out + [] == out;
  }

  lemma {:induction false} FifoLevels(listing: Listing, all: set<Path>, out: seq<Path>, level: seq<Path>,
                                      next: seq<Path>, n: nat)
    requires Small(listing, all) && Between(listing, all, out, level + next)
    requires 0 < n && AtDepth(level, n) && AtDepth(next, n - 1)
    ensures GoesByLevel(listing, out, level, next, n)
    decreases 2 * (MAX_DATASETS - |out|) + |level + next|, n
  {
    hide *;
    OnStack(listing, all, out, level + next);
    if level != [] {
      var p, rest := level[0], level[1..];
      var kids := Children(listing, p);
      assert level == [p] + rest && level + next == [p] + (rest + next) && p in level && p in level + next;
      Shift(listing, all, out, p, rest + next);
      DepthNext(listing, all, level, n, p);
      DepthParts(p, rest, next, kids, n);
      Assoc(rest, next, kids);
      FifoLevels(listing, all, out + kids, rest, next + kids, n);
      ByLevelFirst(listing, out, p, rest, next, n);
    } else if n == 1 {
      assert level + next == next;
      DeepIsDead(listing, all, out, next);
      FifoDead(listing, all, out, next);
      ByLevelEnd(listing, out, next);
    } else {
      assert level + next == next + [];
      NoDepth(n - 2);
      FifoLevels(listing, all, out, next, [], n - 1);
      ByLevelNext(listing, out, next, n);
    }
  }

  lemma LevelsUnfold(listing: Listing, level: seq<Path>, n: nat)
    ensures LevelsBelow(listing, level, n)
         == if n == 0 then [] else NextLevel(listing, level) + LevelsBelow(listing, NextLevel(listing, level), n - 1)
  {
  }

  lemma NextOfNone(listing: Listing)
    ensures NextLevel(listing, []) == []
  {
  }

  lemma NoDepth(n: nat)
    ensures AtDepth([], n)
  {
  }

  lemma DepthParts(p: Path, rest: seq<Path>, next: seq<Path>, kids: seq<Path>, n: nat)
    requires AtDepth([p] + rest, n) && 0 < n && AtDepth(next, n - 1) && AtDepth(kids, n - 1)
    ensures AtDepth(rest, n) && AtDepth(next + kids, n - 1)
  {
    assert forall q :: q in rest ==> q in [p] + rest;
  }

  /** Taken from the front of the queue, the datasets come breadth-first. */
  lemma FifoIsBreadthFirst(listing: Listing, all: set<Path>)
    requires Small(listing, all)
    ensures Fifo(listing, [[]], [[]]) == BreadthFirst(listing)
  {
    hide Fifo, BreadthFirst, Small, Between, AtDepth, GoesByLevel;
    var root: seq<Path> := [[]];
    Begins(listing, all, root);
    assert root + [] == root;
    NoDepth(MAX_DEPTH - 1);
    FifoLevels(listing, all, root, root, [], MAX_DEPTH);
    RootByLevel(listing, root);
  }

  lemma Begins(listing: Listing, all: set<Path>, root: seq<Path>)
    requires Small(listing, all) && root == [[]]
    ensures Between(listing, all, root, root) && AtDepth(root, MAX_DEPTH) && IsLevel(listing, root, 0)
  {
    assert IsDataset(listing, []);
  }

  lemma RootByLevel(listing: Listing, root: seq<Path>)
    requires root == [[]] && GoesByLevel(listing, root, root, [], MAX_DEPTH)
    ensures Fifo(listing, root, root) == BreadthFirst(listing)
  {
    hide Fifo, LevelsBelow, NextLevel;
    var next := NextLevel(listing, root);
    LevelsUnfold(listing, root, MAX_DEPTH);
    assert [] + next == next && root + [] == root;
    Assoc(root, next, LevelsBelow(listing, next, MAX_DEPTH - 1));
  }

  /** So the code lists them as it would with a queue under the same condition. */
  lemma StackIsQueueWhenThin(listing: Listing, all: set<Path>)
    requires Small(listing, all)
    ensures Enumerate(listing) == Fifo(listing, [[]], [[]]) <==> ThinFrom(listing, 0)
  {
    hide *;
    FifoIsBreadthFirst(listing, all);
    BreadthFirstWhenThin(listing, all);
  }

  // An input where the order is not breadth-first

  const ROOT: Path := []
  const A: Path := ["a"]
  const B: Path := ["b"]
  const AC: Path := ["a", "c"]
  const BD: Path := ["b", "d"]

  /** The root has children `a` and `b`, and each of those has one. */
  function Forked(p: Path): (names: Option<seq<string>>) {
    if p == [] then Some(["a", "b"]) else if p == A then Some(["c"]) else if p == B then Some(["d"]) else Some([])
  }

  lemma ForkedKids(room: nat)
    requires 2 <= room
    ensures Kids([], ["a", "b"], room) == [A, B]
    ensures Kids(A, ["c"], room) == [AC] && Kids(B, ["d"], room) == [BD]
  {
    assert [] + ["a"] == A && [] + ["b"] == B && A + ["c"] == AC && B + ["d"] == BD;
    assert |["a", "b"]| == 2 && |["c"]| == 1 && |["d"]| == 1;
  }

  lemma ForkedFound(out: seq<Path>)
    requires |out| < 10
    ensures Found(Forked, out, []) == [A, B] && Found(Forked, out, A) == [AC] && Found(Forked, out, B) == [BD]
    ensures Found(Forked, out, AC) == [] && Found(Forked, out, BD) == []
  {
    hide Kids;
    ForkedKids(MAX_DATASETS - |out|);
    assert A != B && AC != A && AC != B && BD != A && BD != B;
  }

  lemma RunStep(listing: Listing, out: seq<Path>, rest: seq<Path>, p: Path, kids: seq<Path>)
    requires |out| <= MAX_DATASETS && kids == Found(listing, out, p)
    ensures Run(listing, out, rest + [p]) == Run(listing, out + kids, rest + kids)
    ensures Fifo(listing, out, [p] + rest) == Fifo(listing, out + kids, rest + kids)
  {
    assert (rest + [p])[..|rest|] == rest && ([p] + rest)[1..] == rest;
  }

  lemma ForkedStack()
    ensures Enumerate(Forked) == [[], A, B, BD, AC]
  {
    hide Run, Fifo, Found, Forked;
    ForkedFound([[]]);
    RunStep(Forked, [[]], [], [], [A, B]);
    assert [] + [ROOT] == [ROOT] && [] + [A, B] == [A] + [B] && [[]] + [A, B] == [[], A, B];
    ForkedFound([[], A, B]);
    RunStep(Forked, [[], A, B], [A], B, [BD]);
    ForkedFound([[], A, B, BD]);
    RunStep(Forked, [[], A, B, BD], [A], BD, []);
    assert [A] + [] == [] + [A] && [[], A, B, BD] + [] == [[], A, B, BD] == [[], A, B] + [BD];
    RunStep(Forked, [[], A, B, BD], [], A, [AC]);
    ForkedFound([[], A, B, BD, AC]);
    assert [] + [AC] == [AC] && [[], A, B, BD] + [AC] == [[], A, B, BD, AC];
    RunStep(Forked, [[], A, B, BD, AC], [], AC, []);
    assert [[], A, B, BD, AC] + [] == [[], A, B, BD, AC];
    RunEmpty([[], A, B, BD, AC]);
  }

  lemma RunEmpty(out: seq<Path>)
    requires |out| <= MAX_DATASETS
    ensures Run(Forked, out, [] + []) == out && Fifo(Forked, out, [] + []) == out
  {
  }

  /** Here `b/d` is listed before `a/c`. */
  lemma ForkedQueue()
    ensures Fifo(Forked, [[]], [[]]) == [[], A, B, AC, BD]
  {
    hide Run, Fifo, Found, Forked;
    ForkedFound([[]]);
    RunStep(Forked, [[]], [], [], [A, B]);
    assert [ROOT] + [] == [ROOT] && [] + [A, B] == [A] + [B] && [[]] + [A, B] == [[], A, B];
    ForkedFound([[], A, B]);
    RunStep(Forked, [[], A, B], [B], A, [AC]);
    assert [[], A, B] + [AC] == [[], A, B, AC];
    ForkedFound([[], A, B, AC]);
    RunStep(Forked, [[], A, B, AC], [AC], B, [BD]);
    assert [[], A, B, AC] + [BD] == [[], A, B, AC, BD];
    ForkedFound([[], A, B, AC, BD]);
    assert [[], A, B, AC, BD] + [] == [[], A, B, AC, BD];
    RunStep(Forked, [[], A, B, AC, BD], [BD], AC, []);
    assert [BD] + [] == [BD];
    RunStep(Forked, [[], A, B, AC, BD], [], BD, []);
    RunEmpty([[], A, B, AC, BD]);
  }

  lemma NotBreadthFirst()
    ensures Enumerate(Forked) == [[], A, B, BD, AC] && Fifo(Forked, [[]], [[]]) == [[], A, B, AC, BD]
    ensures Enumerate(Forked) != Fifo(Forked, [[]], [[]])
  {
    hide Enumerate, Fifo;
    ForkedStack();
    ForkedQueue();
    assert "a" != "b";
  }
}
