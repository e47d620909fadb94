/** Rebalancing all marked nodes: the marks run out, and then no node but the root is empty. */
module RebalanceMarks {
  import opened Keys
  import opened Nodes
  import opened BTree
  import opened Rebalance
  import opened RebalanceRuns
  import opened TreeLookup
  import opened Cursors
  import Spill

  function Mark(t: Tree): multiset<nat> {
    if t.unbalanced then multiset{t.pgid} else multiset{}
  }

  function AllMarks(kids: seq<Tree>): multiset<nat> {
    if kids == [] then multiset{} else Marks(kids[0]) + AllMarks(kids[1..])
  }

  /** The page ids of the marked nodes. */
  function Marks(t: Tree): multiset<nat> {
    Mark(t) + AllMarks(t.kids)
  }

  lemma {:induction false} AllMarksPlus(a: seq<Tree>, b: seq<Tree>)
    ensures AllMarks(a + b) == AllMarks(a) + AllMarks(b)
  {
    hide Marks;
    if a == [] {
      assert a + b == b;
    } else {
      assert (a + b)[1..] == a[1..] + b;
      AllMarksPlus(a[1..], b);
    }
  }

  lemma OneMarks(t: Tree)
    ensures AllMarks([t]) == Marks(t)
  {
    hide Marks;
    assert AllMarks([t][1..]) == multiset{};
  }

  /** Replacing two neighbours by nodes that keep fewer marks. */
  lemma PairMarks(kids: seq<Tree>, j: nat, xs: seq<Tree>)
    requires j + 1 < |kids| && AllMarks(xs) <= Marks(kids[j]) + Marks(kids[j + 1])
    ensures AllMarks(kids[..j] + xs + kids[j + 2..]) <= AllMarks(kids)
  {
    hide Marks, AllMarks;
    var a, b := kids[..j], kids[j + 2..];
    var pair := [kids[j]] + [kids[j + 1]];
    assert kids == a + pair + b;
    AllMarksPlus(a + pair, b);
    AllMarksPlus(a, pair);
    AllMarksPlus([kids[j]], [kids[j + 1]]);
    OneMarks(kids[j]);
    OneMarks(kids[j + 1]);
    AllMarksPlus(a + xs, b);
    AllMarksPlus(a, xs);
  }

  lemma SetMarks(kids: seq<Tree>, i: nat, n: Tree)
    requires i < |kids|
    ensures AllMarks(kids[i := n]) + Marks(kids[i]) == AllMarks(kids) + Marks(n)
  {
    hide Marks, AllMarks;
    var a, b := kids[..i], kids[i + 1..];
    assert kids == a + [kids[i]] + b && kids[i := n] == a + [n] + b;
    AllMarksPlus(a + [kids[i]], b);
    AllMarksPlus(a, [kids[i]]);
    AllMarksPlus(a + [n], b);
    AllMarksPlus(a, [n]);
    OneMarks(kids[i]);
    OneMarks(n);
  }

  lemma RemoveMarks(kids: seq<Tree>, i: nat)
    requires i < |kids|
    ensures AllMarks(kids[..i] + kids[i + 1..]) <= AllMarks(kids)
  {
    hide Marks, AllMarks;
    var a, b := kids[..i], kids[i + 1..];
    assert kids == a + [kids[i]] + b;
    AllMarksPlus(a + [kids[i]], b);
    AllMarksPlus(a, [kids[i]]);
    AllMarksPlus(a, b);
  }

  /** Shifting an element leaves the marks of both nodes. */
  lemma ShiftMarks(x: Tree, y: Tree, x': Tree, y': Tree)
    requires x'.kids + y'.kids == x.kids + y.kids
    requires Mark(x') == Mark(x) && Mark(y') == Mark(y)
    ensures AllMarks([x'] + [y']) == Marks(x) + Marks(y)
  {
    hide AllMarks, Mark;
    AllMarksPlus([x'], [y']);
    OneMarks(x');
    OneMarks(y');
    AllMarksPlus(x.kids, y.kids);
    AllMarksPlus(x'.kids, y'.kids);
    Rebalance.Regroup(Mark(x), AllMarks(x.kids), Mark(y), AllMarks(y.kids), AllMarks(x'.kids), AllMarks(y'.kids));
  }

  lemma MergeMarks(kids: seq<Tree>, j: nat, x: Tree)
    requires j + 1 < |kids| && x == kids[j].(loaded := x.loaded)
    ensures var merged := kids[j := Merged(x, kids[j + 1])];
      AllMarks(merged[..j + 1] + merged[j + 2..]) <= AllMarks(kids)
  {
    hide AllMarks;
    var z := Merged(x, kids[j + 1]);
    OneMarks(z);
    AllMarksPlus(x.kids, kids[j + 1].kids);
    PairMarks(kids, j, [z]);
    var merged := kids[j := z];
    assert merged[..j + 1] + merged[j + 2..] == kids[..j] + [z] + kids[j + 2..];
  }

  lemma BorrowNextMarks(p: Tree)
    requires |p.kids| > 1 && p.kids[0].inodes != [] && |p.kids[1].inodes| > 1
    ensures AllMarks(BorrowNext(p).kids) <= AllMarks(p.kids)
  {
    hide PutInto, AllMarks, Marks;
    var x, y := p.kids[0], p.kids[1];
    var x', y' := Rekeyed(GainLast(x, y)), Rekeyed(LoseFirst(y));
    assert x.kids + Take(y.kids, 1) + Rest(y.kids, 1) == x.kids + y.kids;
    ShiftMarks(x, y, x', y');
    PairMarks(p.kids, 0, [x'] + [y']);
    SetPair(p.kids, 0, x', y');
    assert BorrowNext(p).kids == p.kids[0 := x'][1 := y'];
  }

  lemma BorrowPrevMarks(p: Tree, i: nat)
    requires 0 < i < |p.kids| && |p.kids[i - 1].inodes| > 1
    requires |p.kids[i - 1].kids| == if p.kids[i - 1].isLeaf then 0 else |p.kids[i - 1].inodes|
    ensures AllMarks(BorrowPrev(p, i).kids) <= AllMarks(p.kids)
  {
    hide PutInto, AllMarks, Marks;
    var x, y := p.kids[i - 1], p.kids[i];
    var last := |x.inodes| - 1;
    var x', y' := LoseLast(x), Rekeyed(GainFirst(x, y));
    assert Take(x.kids, last) + (Rest(x.kids, last) + y.kids) == x.kids + y.kids;
    ShiftMarks(x, y, x', y');
    PairMarks(p.kids, i - 1, [x'] + [y']);
    SetPair(p.kids, i - 1, x', y');
    assert BorrowPrev(p, i).kids == p.kids[i - 1 := x'][i := y'];
  }

  lemma Cancel(a: multiset<nat>, b: multiset<nat>, m: multiset<nat>, k: multiset<nat>)
    requires a + k == b + (m + k)
    ensures a == b + m
  {
    forall x: nat ensures a[x] == (b + m)[x] {
      assert (a + k)[x] == (b + (m + k))[x];
    }
  }

  lemma CancelLess(a: multiset<nat>, b: multiset<nat>, m: multiset<nat>, k: multiset<nat>, c: multiset<nat>)
    requires a + k == b + c && c + m <= k
    ensures a + m <= b
  {
    forall x: nat ensures (a + m)[x] <= b[x] {
      assert (a + k)[x] == (b + c)[x] && (c + m)[x] <= k[x];
    }
  }

  lemma Unmark(kids: seq<Tree>, i: nat, n: Tree)
    requires i < |kids| && kids[i] == n
    ensures AllMarks(kids[i := n.(unbalanced := false)]) + Mark(n) == AllMarks(kids)
    ensures forall less: multiset<nat> ::
      less <= AllMarks(kids[i := n.(unbalanced := false)]) ==> less + Mark(n) <= AllMarks(kids)
  {
    hide AllMarks;
    SetMarks(kids, i, n.(unbalanced := false));
    Cancel(AllMarks(kids), AllMarks(kids[i := n.(unbalanced := false)]), Mark(n), AllMarks(n.kids));
  }

  /** Looking at a child takes its mark away and adds none to the children. */
  lemma FixMarks(p: Tree, lo: Bound, hi: Bound, h: nat, i: nat, n: Tree, pageSize: nat)
    requires Parent(p, lo, hi, h, i, n)
    ensures var r := Fixing(p, i, n, pageSize); AllMarks(r.tree.kids) + Mark(n) <= AllMarks(p.kids[i := n])
  {
    hide Less, Shape, Content, KidOk, Body, HasEnough, Fixing, Parent, BorrowNext, BorrowPrev, AllMarks, PutInto, DeleteFrom;
    ChildSize(p, lo, hi, h, i, n);
    FixCases(p, i, n, pageSize);
    var q := p.kids[i := n];
    var n' := n.(unbalanced := false);
    var w := With(p, i, n);
    assert w.kids == q[i := n'];
    Unmark(q, i, n);
    if n.unbalanced && !HasEnough(n, pageSize) {
      if n.inodes == [] {
        RemoveMarks(w.kids, i);
      } else if i == 0 {
        if |p.kids[1].inodes| > MinKeys(p.kids[1]) { BorrowNextMarks(w); } else { MergeMarks(w.kids, 0, n'); }
      } else {
        KidSize(p, lo, hi, h, i, n, i - 1);
        if |p.kids[i - 1].inodes| > MinKeys(p.kids[i - 1]) {
          BorrowPrevMarks(w, i);
        } else {
          MergeMarks(w.kids, i - 1, p.kids[i - 1].(loaded := true));
        }
      }
    }
  }

  function NodeAt(t: Tree, path: seq<nat>): Tree
    requires IsPath(t, path)
    decreases |path|
  {
    if path == [] then t else NodeAt(t.kids[path[0]], path[1..])
  }

  /** Marks of the nodes that were looked at in a climb. The node on top is looked at next. */
  ghost predicate Cleared(r: Fixed, t: Tree, path: seq<nat>)
    requires IsPath(t, path)
  {
    if r.again then AllMarks(r.tree.kids) + (if path == [] then multiset{} else Mark(NodeAt(t, path))) <= AllMarks(t.kids)
    else Marks(r.tree) + Mark(NodeAt(t, path)) <= Marks(t)
  }

  /** A child that was looked at last: its own mark is gone as well. */
  lemma UpAgain(kid: Tree, below: Fixed, path: seq<nat>, replaced: multiset<nat>, all: multiset<nat>, left: multiset<nat>)
    requires IsPath(kid, path) && below.again && Cleared(below, kid, path)
    requires replaced + Marks(kid) == all + Marks(below.tree) && left + Mark(below.tree) <= replaced
    requires path == [] ==> below.tree == kid
    ensures left + Mark(NodeAt(kid, path)) <= all
  {
    hide AllMarks;
    var n := Mark(NodeAt(kid, path));
    forall x: nat ensures (left + n)[x] <= all[x] {
      assert (replaced + (Mark(kid) + AllMarks(kid.kids)))[x] == (all + (Mark(below.tree) + AllMarks(below.tree.kids)))[x];
      assert (left + Mark(below.tree))[x] <= replaced[x];
      if path != [] { assert (AllMarks(below.tree.kids) + n)[x] <= AllMarks(kid.kids)[x]; }
    }
  }

  lemma UpMarks(t: Tree, i: nat, below: Fixed, path: seq<nat>, f: Fixed)
    requires path != [] && IsPath(t, path) && path[0] == i && Cleared(below, t.kids[i], path[1..])
    requires path[1..] == [] ==> below.tree == t.kids[i]
    requires below.again ==> AllMarks(f.tree.kids) + Mark(below.tree) <= AllMarks(t.kids[i := below.tree])
    requires below.again && !f.again ==> Mark(f.tree) == Mark(t)
    ensures !below.again ==> Cleared(Fixed(t.(loaded := true, kids := t.kids[i := below.tree]), below.freed, false), t, path)
    ensures below.again ==> Cleared(Fixed(f.tree, below.freed + f.freed, f.again), t, path)
  {
    hide AllMarks;
    var node := Mark(NodeAt(t, path));
    SetMarks(t.kids, i, below.tree);
    if !below.again {
      CancelLess(AllMarks(t.kids[i := below.tree]), AllMarks(t.kids), node, Marks(t.kids[i]), Marks(below.tree));
    } else {
      UpAgain(t.kids[i], below, path[1..], AllMarks(t.kids[i := below.tree]), AllMarks(t.kids), AllMarks(f.tree.kids));
    }
  }

  lemma ClimbHere(t: Tree, pageSize: nat)
    ensures Climb(t, [], pageSize) == Fixed(t, multiset{}, true)
  {
  }

  lemma {:induction false} ClimbMarks(t: Tree, path: seq<nat>, pageSize: nat, lo: Bound, hi: Bound, h: nat)
    requires IsPath(t, path) && Shape(t, lo, hi, h, 2) && (t.inodes == [] ==> t.unbalanced)
    requires !GoesBelow(t, path, pageSize)
    ensures Cleared(Climb(t, path, pageSize), t, path)
    decreases |path|
  {
    hide Less, Content, KidOk, Body, Shape, FixChild, Fixing, BorrowsBelow, AllEntries, AllIds, Climb, Parent, AllMarks;
    if path == [] {
      ClimbHere(t, pageSize);
    } else {
      var i, kid, p := path[0], t.kids[path[0]], t.(loaded := true);
      var below := Climb(kid, path[1..], pageSize);
      KidOf(t, lo, hi, h, i);
      ClimbMarks(kid, path[1..], pageSize, LoAt(t.inodes, lo, i), HiAt(t.inodes, hi, i), h - 1);
      ClimbShape(kid, path[1..], pageSize, LoAt(t.inodes, lo, i), HiAt(t.inodes, hi, i), h - 1);
      ClimbIs(t, path, pageSize);
      if below.again {
        IsParent(t, below, lo, hi, h, i);
        FixMarks(p, lo, hi, h, i, below.tree, pageSize);
        FixCount(p, lo, hi, h, i, below.tree, pageSize);
      }
      ClimbHere(kid, pageSize);
      UpMarks(t, i, below, path, Fixing(p, i, below.tree, pageSize));
    }
  }

  lemma RootMarks(t: Tree, pageSize: nat)
    ensures Marks(FixRoot(t, pageSize).tree) <= AllMarks(t.kids)
  {
    hide AllMarks;
    if !t.isLeaf && |t.inodes| == 1 && t.kids != [] {
      var a, b := [t.kids[0]], t.kids[1..];
      assert t.kids == a + b;
      AllMarksPlus(a, b);
      OneMarks(t.kids[0]);
    }
  }

  lemma Weaken(a: multiset<nat>, b: multiset<nat>, m: multiset<nat>, c: multiset<nat>)
    requires a <= b && b + m <= c
    ensures a + m <= c
  {
  }

  /** Rebalancing takes the mark of its node away and leaves no new one. */
  lemma RebalanceClears(t: Tree, path: seq<nat>, pageSize: nat, lo: Bound)
    requires Bounded(t, lo) && IsPath(t, path) && !GoesBelow(t, path, pageSize)
    ensures Marks(RebalanceAt(t, path, pageSize).tree) + Mark(NodeAt(t, path)) <= Marks(t)
  {
    hide Less, Content, KidOk, Body, Shape, FixRoot, Climb, AllMarks, GoesBelow;
    var c := Climb(t, path, pageSize);
    var h: nat :| Shape(t, lo, Open, h, 2);
    RootMarks(c.tree, pageSize);
    ClimbHere(t, pageSize);
    if path == [] {
      RootMarks(t, pageSize);
    } else {
      KidOf(t, lo, Open, h, path[0]);
      ClimbMarks(t, path, pageSize, lo, Open, h);
      if c.again { Weaken(Marks(FixRoot(c.tree, pageSize).tree), AllMarks(c.tree.kids), Mark(NodeAt(t, path)), AllMarks(t.kids)); }
    }
  }

  lemma NoMark(kids: seq<Tree>, i: nat)
    requires i < |kids| && AllMarks(kids) == multiset{}
    ensures !kids[i].unbalanced && AllMarks(kids[i].kids) == multiset{}
  {
    hide AllMarks;
    var a, b := kids[..i], kids[i + 1..];
    assert kids == a + [kids[i]] + b;
    AllMarksPlus(a + [kids[i]], b);
    AllMarksPlus(a, [kids[i]]);
    OneMarks(kids[i]);
    assert Marks(kids[i]) <= AllMarks(kids);
  }

  /** Without marks, only the root can be empty. */
  lemma {:induction false} UnmarkedWalkable(t: Tree, lo: Bound, hi: Bound, h: nat)
    requires Shape(t, lo, hi, h, 2) && AllMarks(t.kids) == multiset{}
    ensures Walkable(t)
    decreases h
  {
    hide Less, Content;
    assert Body(t.inodes, t.kids, lo, hi, h);
    forall i | 0 <= i < |t.kids| ensures t.kids[i].inodes != [] && Walkable(t.kids[i]) {
      KidIs(t.inodes, t.kids, lo, hi, h, i);
      NoMark(t.kids, i);
      UnmarkedWalkable(t.kids[i], LoAt(t.inodes, lo, i), HiAt(t.inodes, hi, i), h - 1);
    }
  }

  // ---- Whole runs ----

  /** Marked nodes can be rebalanced one after the other, in this order. */
  ghost predicate CanRun(t: Tree, paths: seq<seq<nat>>, pageSize: nat)
    decreases |paths|
  {
    paths != [] ==>
      && IsPath(t, paths[0]) && NodeAt(t, paths[0]).unbalanced && !GoesBelow(t, paths[0], pageSize)
      && CanRun(RebalanceAt(t, paths[0], pageSize).tree, paths[1..], pageSize)
  }

  ghost function RunAll(t: Tree, paths: seq<seq<nat>>, pageSize: nat): Fixed
    requires CanRun(t, paths, pageSize)
    decreases |paths|
  {
    if paths == [] then Fixed(t, multiset{}, false)
    else
      var r := RebalanceAt(t, paths[0], pageSize);
      var rest := RunAll(r.tree, paths[1..], pageSize);
      Fixed(rest.tree, r.freed + rest.freed, false)
  }

  lemma RunEnd(t: Tree, lo: Bound)
    requires Bounded(t, lo)
    ensures Marks(t) == multiset{} ==> Walkable(t)
  {
    hide Shape, Walkable, AllMarks;
    var h: nat :| Shape(t, lo, Open, h, 2);
    if Marks(t) == multiset{} {
      assert AllMarks(t.kids) <= Marks(t);
      UnmarkedWalkable(t, lo, Open, h);
    }
  }

  lemma Fewer(a: multiset<nat>, x: nat, b: multiset<nat>)
    ensures a + multiset{x} <= b ==> |a| < |b|
  {
    if a + multiset{x} <= b {
      assert b == (a + multiset{x}) + (b - (a + multiset{x}));
    }
  }

  /** Whatever the order in which marked nodes are rebalanced: the run ends after at most as many steps
      as there are marks, no entry and no page is lost, and separators bound. Once no mark is left, no
      node but the root is empty, which is what the cursor relies on. */
  lemma {:induction false} RunMeaning(t: Tree, paths: seq<seq<nat>>, pageSize: nat, lo: Bound)
    requires Bounded(t, lo) && CanRun(t, paths, pageSize)
    ensures var r := RunAll(t, paths, pageSize);
      && Bounded(r.tree, lo) && Entries(r.tree) == Entries(t) && PageIds(r.tree) + r.freed == PageIds(t)
      && |paths| + |Marks(r.tree)| <= |Marks(t)|
      && (Marks(r.tree) == multiset{} ==> Walkable(r.tree))
    decreases |paths|
  {
    hide Bounded, GoesBelow, Marks, Entries, PageIds, RebalanceAt, Walkable, IsPath, NodeAt;
    if paths == [] {
      RunEnd(t, lo);
    } else {
      var r := RebalanceAt(t, paths[0], pageSize);
      RebalanceMeaning(t, paths[0], pageSize, lo);
      RebalanceClears(t, paths[0], pageSize, lo);
      RunMeaning(r.tree, paths[1..], pageSize, lo);
      Fewer(Marks(r.tree), NodeAt(t, paths[0]).pgid, Marks(t));
      assert Mark(NodeAt(t, paths[0])) == multiset{NodeAt(t, paths[0]).pgid};
    }
  }

  // ---- When nothing is borrowed from below a separator ----

  lemma LastAbove(n: Tree, l: Bytes, hi: Bound, h: nat)
    requires Shape(n, At(l), hi, h, 2)
    ensures |n.inodes| > MinKeys(n) ==> !AtMost(n.inodes[|n.inodes| - 1].key, l)
  {
    hide Less, KidOk, Content;
    Order();
    assert Body(n.inodes, n.kids, At(l), hi, h);
    if |n.inodes| > MinKeys(n) {
      KeyBounds(n.inodes, At(l), hi, 0);
      KeyBounds(n.inodes, At(l), hi, |n.inodes| - 1);
    }
  }

  /** If no key lies below the separator of a first child, no borrow goes below one. */
  lemma {:induction false} NeverBelow(t: Tree, path: seq<nat>, pageSize: nat, l: Bytes, hi: Bound, h: nat)
    requires IsPath(t, path) && Shape(t, At(l), hi, h, 2) && (t.inodes == [] ==> t.unbalanced)
    ensures !GoesBelow(t, path, pageSize)
    decreases |path|
  {
    hide Less, Content, KidOk, Body, Shape, FixChild, Climb, MinKeys, HasEnough;
    if path != [] {
      var i, kid := path[0], t.kids[path[0]];
      KidOf(t, At(l), hi, h, i);
      NeverBelow(kid, path[1..], pageSize, t.inodes[i].key, HiAt(t.inodes, hi, i), h - 1);
      if i > 0 {
        KidOf(t, At(l), hi, h, i - 1);
        LastAbove(t.kids[i - 1], t.inodes[i - 1].key, HiAt(t.inodes, hi, i - 1), h - 1);
      }
    }
  }

  lemma NotAtRoot(t: Tree, pageSize: nat)
    ensures !GoesBelow(t, [], pageSize)
  {
  }

  lemma NowhereBelow(t: Tree, path: seq<nat>, pageSize: nat, l: Bytes)
    requires Bounded(t, At(l)) && IsPath(t, path)
    ensures !GoesBelow(t, path, pageSize)
  {
    hide Shape, GoesBelow;
    var h: nat :| Shape(t, At(l), Open, h, 2);
    if path == [] {
      NotAtRoot(t, pageSize);
    } else {
      KidOf(t, At(l), Open, h, path[0]);
      NeverBelow(t, path, pageSize, l, Open, h);
    }
  }

  /** So a tree whose separators bound from below on every level keeps that under any rebalancing. */
  lemma RebalanceKeepsBounds(t: Tree, path: seq<nat>, pageSize: nat, l: Bytes)
    requires Bounded(t, At(l)) && IsPath(t, path)
    ensures Bounded(RebalanceAt(t, path, pageSize).tree, At(l))
  {
    hide Bounded, GoesBelow, RebalanceAt;
    RebalanceMeaning(t, path, pageSize, At(l));
    NowhereBelow(t, path, pageSize, l);
  }

  /** Marked nodes, picked one after the other in any order. */
  ghost predicate Picks(t: Tree, paths: seq<seq<nat>>, pageSize: nat)
    decreases |paths|
  {
    paths != [] ==>
      && IsPath(t, paths[0]) && NodeAt(t, paths[0]).unbalanced
      && Picks(RebalanceAt(t, paths[0], pageSize).tree, paths[1..], pageSize)
  }

  /** Such a tree can be rebalanced in every order. */
  lemma {:induction false} EveryOrder(t: Tree, paths: seq<seq<nat>>, pageSize: nat, l: Bytes)
    requires Bounded(t, At(l)) && Picks(t, paths, pageSize)
    ensures CanRun(t, paths, pageSize)
    decreases |paths|
  {
    hide Bounded, GoesBelow, RebalanceAt, IsPath, NodeAt;
    if paths != [] {
      NowhereBelow(t, paths[0], pageSize, l);
      RebalanceKeepsBounds(t, paths[0], pageSize, l);
      EveryOrder(RebalanceAt(t, paths[0], pageSize).tree, paths[1..], pageSize, l);
    }
  }

  lemma ManyKids(t: Tree, lo: Bound, hi: Bound, h: nat)
    requires Shape(t, lo, hi, h, 2) && h > 0
    ensures |t.kids| > 1
  {
    hide Content, KidOk;
  }

  lemma {:induction false} MarkedKid(kids: seq<Tree>) returns (i: nat)
    requires AllMarks(kids) != multiset{}
    ensures i < |kids| && Marks(kids[i]) != multiset{}
  {
    hide Marks;
    if Marks(kids[0]) != multiset{} {
      i := 0;
    } else {
      var k := MarkedKid(kids[1..]);
      i := k + 1;
    }
  }

  /** While there are marks, a path leads to one. */
  lemma {:induction false} MarkedPath(t: Tree, lo: Bound, hi: Bound, h: nat) returns (path: seq<nat>)
    requires Shape(t, lo, hi, h, 2) && Marks(t) != multiset{}
    ensures IsPath(t, path) && NodeAt(t, path).unbalanced
    decreases h
  {
    hide Less, Content, KidOk, Body, Shape, AllMarks;
    if t.unbalanced {
      path := [];
    } else {
      var i := MarkedKid(t.kids);
      KidOf(t, lo, hi, h, i);
      ManyKids(t, lo, hi, h);
      var rest := MarkedPath(t.kids[i], LoAt(t.inodes, lo, i), HiAt(t.inodes, hi, i), h - 1);
      path := [i] + rest;
      assert path[1..] == rest;
    }
  }

  /** And going on for as long as there are marks ends without any. */
  lemma {:induction false} CompleteRun(t: Tree, pageSize: nat, l: Bytes) returns (paths: seq<seq<nat>>)
    requires Bounded(t, At(l))
    ensures CanRun(t, paths, pageSize) && Marks(RunAll(t, paths, pageSize).tree) == multiset{}
    decreases |Marks(t)|
  {
    hide Shape, GoesBelow, Marks, RebalanceAt, IsPath, NodeAt;
    if Marks(t) == multiset{} {
      paths := [];
    } else {
      var h: nat :| Shape(t, At(l), Open, h, 2);
      var path := MarkedPath(t, At(l), Open, h);
      var r := RebalanceAt(t, path, pageSize);
      NowhereBelow(t, path, pageSize, l);
      RebalanceKeepsBounds(t, path, pageSize, l);
      RebalanceClears(t, path, pageSize, At(l));
      assert Mark(NodeAt(t, path)) == multiset{NodeAt(t, path).pgid};
      Fewer(Marks(r.tree), NodeAt(t, path).pgid, Marks(t));
      var rest := CompleteRun(r.tree, pageSize, l);
      paths := [path] + rest;
      assert paths[1..] == rest;
    }
  }

  // ---- A borrow from below a separator ----

  function Entry(k: Byte): Inode {
    Inode(0, 0, [k], [])
  }

  function Leaf(keys: seq<Byte>): (inodes: seq<Inode>)
    ensures |inodes| == |keys| && forall i | 0 <= i < |keys| :: inodes[i] == Entry(keys[i])
  {
    seq(|keys|, i requires 0 <= i < |keys| => Entry(keys[i]))
  }

  predicate Increasing(keys: seq<Byte>) {
    forall i, j | 0 <= i < j < |keys| :: keys[i] < keys[j]
  }

  lemma OneByte(a: Byte, b: Byte)
    ensures Less([a], [b]) <==> a < b
  {
    assert !Less([a][1..], [b][1..]);
  }

  lemma LeafRank(keys: seq<Byte>, key: Byte, i: nat)
    requires Increasing(keys) && i <= |keys|
    requires (forall j | 0 <= j < i :: keys[j] < key) && (forall j | i <= j < |keys| :: keys[j] >= key)
    ensures Rank(Leaf(keys), [key]) == i && Sorted(Leaf(keys))
  {
    hide Less;
    forall a: Byte, b: Byte ensures Less([a], [b]) <==> a < b { OneByte(a, b); }
    RankCorrect(Leaf(keys), [key]);
    RankUnique(Leaf(keys), [key], i, Rank(Leaf(keys), [key]));
  }

  lemma LeafPut(keys: seq<Byte>, key: Byte, i: nat)
    requires Increasing(keys) && i <= |keys|
    requires (forall j | 0 <= j < i :: keys[j] < key) && (forall j | i <= j < |keys| :: keys[j] > key)
    ensures PutInto(Leaf(keys), [key], Entry(key)) == Leaf(keys[..i] + [key] + keys[i..])
  {
    LeafRank(keys, key, i);
  }

  lemma LeafDelete(keys: seq<Byte>, i: nat)
    requires Increasing(keys) && i < |keys|
    ensures DeleteFrom(Leaf(keys), [keys[i]]) == Leaf(keys[..i] + keys[i + 1..]) && Found(Leaf(keys), [keys[i]])
  {
    LeafRank(keys, keys[i], i);
  }

  /** A root with two leaves on pages 5 and 6, under the separators 10 and 20. */
  function TwoLeaves(a: seq<Byte>, aMark: bool, aLoaded: bool, b: seq<Byte>, bMark: bool, bLoaded: bool, loaded: bool): Tree {
    Tree(false, loaded, false, [], 9, [Inode(0, 5, [10], []), Inode(0, 6, [20], [])],
      [Tree(true, aLoaded, aMark, [10], 5, Leaf(a), []), Tree(true, bLoaded, bMark, [20], 6, Leaf(b), [])])
  }

  function Start(): Tree {
    TwoLeaves([10], false, false, [20, 30], false, false, false)
  }

  /** 1 and 2 are put, 10 and 30 deleted, all in one transaction. */
  function Changed(): Tree {
    DeleteKey(DeleteKey(PutKey(PutKey(Start(), [1], Entry(1)), [2], Entry(2)), [10]), [30])
  }

  lemma Separator(key: Byte)
    ensures ChildFor([Inode(0, 5, [10], []), Inode(0, 6, [20], [])], [key]) == if key < 20 then 0 else 1
  {
    var s := [Inode(0, 5, [10], []), Inode(0, 6, [20], [])];
    OneByte(10, key);
    OneByte(20, key);
    assert s[1..] == [s[1]] && s[1..][1..] == [];
    assert Rank(s[1..][1..], [key]) == 0;
    assert Rank(s[1..], [key]) == if 20 < key then 1 else 0;
    assert Rank(s, [key]) == if 20 < key then 2 else if 10 < key then 1 else 0;
    assert [key][0] == key && s[0].key[0] == 10 && s[1].key[0] == 20;
  }

  lemma PutFirst(a: seq<Byte>, aMark: bool, aLoaded: bool, b: seq<Byte>, bMark: bool, bLoaded: bool, loaded: bool, key: Byte, i: nat)
    requires key < 20 && Increasing(a) && i <= |a|
    requires (forall j | 0 <= j < i :: a[j] < key) && (forall j | i <= j < |a| :: a[j] > key)
    ensures PutKey(TwoLeaves(a, aMark, aLoaded, b, bMark, bLoaded, loaded), [key], Entry(key))
         == TwoLeaves(a[..i] + [key] + a[i..], aMark, true, b, bMark, bLoaded, true)
  {
    hide Rank, Found, ChildFor, PutInto, Leaf;
    Separator(key);
    LeafPut(a, key, i);
  }

  lemma DeleteFirst(a: seq<Byte>, aMark: bool, aLoaded: bool, b: seq<Byte>, bMark: bool, bLoaded: bool, loaded: bool, i: nat)
    requires Increasing(a) && i < |a| && a[i] < 20
    ensures DeleteKey(TwoLeaves(a, aMark, aLoaded, b, bMark, bLoaded, loaded), [a[i]])
         == TwoLeaves(a[..i] + a[i + 1..], true, true, b, bMark, bLoaded, true)
  {
    hide Rank, Found, ChildFor, DeleteFrom, Leaf;
    Separator(a[i]);
    LeafDelete(a, i);
  }

  lemma DeleteSecond(a: seq<Byte>, aMark: bool, aLoaded: bool, b: seq<Byte>, bMark: bool, bLoaded: bool, loaded: bool, i: nat)
    requires Increasing(b) && i < |b| && b[i] >= 20
    ensures DeleteKey(TwoLeaves(a, aMark, aLoaded, b, bMark, bLoaded, loaded), [b[i]])
         == TwoLeaves(a, aMark, aLoaded, b[..i] + b[i + 1..], true, true, true)
  {
    hide Rank, Found, ChildFor, DeleteFrom, Leaf;
    Separator(b[i]);
    LeafDelete(b, i);
  }

  lemma ChangedIs()
    ensures Changed() == TwoLeaves([1, 2], true, true, [20], true, true, true)
  {
    hide TwoLeaves, PutKey, DeleteKey;
    PutFirst([10], false, false, [20, 30], false, false, false, 1, 0);
    assert [10][..0] + [1] + [10][0..] == [1, 10];
    PutFirst([1, 10], false, true, [20, 30], false, false, true, 2, 1);
    assert [1, 10][..1] + [2] + [1, 10][1..] == [1, 2, 10];
    DeleteFirst([1, 2, 10], false, true, [20, 30], false, false, true, 2);
    assert [1, 2, 10][..2] + [1, 2, 10][3..] == [1, 2];
    DeleteSecond([1, 2], true, true, [20, 30], false, false, true, 1);
    assert [20, 30][..1] + [20, 30][2..] == [20];
  }

  lemma LeafShape(t: Tree, lo: Bound, hi: Bound)
    requires t.isLeaf && t.kids == [] && Content(t.inodes, lo, hi)
    ensures Shape(t, lo, hi, 0, 2)
  {
    hide Content;
  }

  lemma TwoLeavesShape(a: seq<Byte>, aMark: bool, aLoaded: bool, b: seq<Byte>, bMark: bool, bLoaded: bool, loaded: bool)
    requires Increasing(a) && Increasing(b) && a != [] && b != [] && a[|a| - 1] < 20 <= b[0]
    ensures InBounds(TwoLeaves(a, aMark, aLoaded, b, bMark, bLoaded, loaded))
  {
    hide Less;
    Order();
    forall a: Byte, b: Byte ensures Less([a], [b]) <==> a < b { OneByte(a, b); }
    var t := TwoLeaves(a, aMark, aLoaded, b, bMark, bLoaded, loaded);
    LeafShape(t.kids[0], Open, At([20]));
    LeafShape(t.kids[1], At([20]), Open);
    assert KidOk(t.inodes, t.kids[0], Open, Open, 1, 0) && KidOk(t.inodes, t.kids[1], Open, Open, 1, 1);
    assert Body(t.inodes, t.kids, Open, Open, 1);
    assert Shape(t, Open, Open, 1, 2);
    assert Tight(t.kids[0]) && Tight(t.kids[1]);
    assert Tight(t);
  }

  lemma StartOnFile()
    ensures Spill.FileRoot(Start())
  {
    hide Shape, Tight;
    TwoLeavesShape([10], false, false, [20, 30], false, false, false);
    assert Spill.OnFile(Start().kids[0]) && Spill.OnFile(Start().kids[1]);
  }

  /** It does happen: a tree as read from the file, a few puts and deletes, and rebalancing the second
      leaf first leaves the root with its separators in the wrong order. */
  lemma BorrowBelowHappens(pageSize: nat)
    requires pageSize >= 1024
    ensures Spill.FileRoot(Start()) && IsPath(Changed(), [1]) && GoesBelow(Changed(), [1], pageSize)
    ensures !InOrder(RebalanceAt(Changed(), [1], pageSize).tree)
  {
    hide Shape, Tight, InOrder, RebalanceAt, Changed;
    StartOnFile();
    TwoLeavesShape([1, 2], true, true, [20], true, true, true);
    ChangedIs();
    var t := TwoLeaves([1, 2], true, true, [20], true, true, true);
    OneByte(2, 10);
    assert t.kids[1].inodes[..0] == [];
    assert SizeOf(t.kids[1].inodes) == 33;
    assert IsPath(t.kids[1], []);
    ClimbHere(t.kids[1], pageSize);
    assert BorrowsBelow(t, 1, pageSize);
    assert t.(loaded := true, kids := t.kids[1 := t.kids[1]]) == t;
    RebalanceMeaning(t, [1], pageSize, Open);
  }
}
