/** Rebalancing a marked node and, as far as needed, the nodes above it; and whole runs of it. */
module RebalanceRuns {
  import opened Keys
  import opened BTree
  import opened Rebalance

  /** Child positions that lead from the root to a node. */
  predicate IsPath(t: Tree, path: seq<nat>)
    decreases |path|
  {
    path != [] ==> path[0] < |t.kids| && |t.kids| > 1 && IsPath(t.kids[path[0]], path[1..])
  }

  /** Rebalances the node at the end of the path, then its parents as long as they lose a child. At
      the node itself nothing was done yet. */
  function Climb(t: Tree, path: seq<nat>, pageSize: nat): Fixed
    requires IsPath(t, path)
    decreases |path|
  {
    if path == [] then Fixed(t, multiset{}, true)
    else
      var below := Climb(t.kids[path[0]], path[1..], pageSize);
      var p := t.(loaded := true, kids := t.kids[path[0] := below.tree]);
      if !below.again then Fixed(p, below.freed, false)
      else
        var fixed := FixChild(p, path[0], pageSize);
        Fixed(fixed.tree, below.freed + fixed.freed, fixed.again)
  }

  /** The root: a branch with one child takes over that child's elements. */
  function FixRoot(t: Tree, pageSize: nat): Fixed {
    var seen := t.(unbalanced := false);
    if !t.unbalanced then Fixed(t, multiset{}, false)
    else if HasEnough(t, pageSize) then Fixed(seen, multiset{}, false)
    else if !t.isLeaf && |t.inodes| == 1 && t.kids != [] then
      var child := t.kids[0];
      Fixed(seen.(isLeaf := child.isLeaf, inodes := child.inodes, kids := child.kids), multiset{child.pgid}, false)
    else Fixed(seen, multiset{}, false)
  }

  /** `node.rebalance` for the node at the end of the path. */
  function RebalanceAt(t: Tree, path: seq<nat>, pageSize: nat): Fixed
    requires IsPath(t, path)
  {
    var r := Climb(t, path, pageSize);
    if !r.again then r
    else
      var top := FixRoot(r.tree, pageSize);
      Fixed(top.tree, r.freed + top.freed, false)
  }

  /** On the way up some node borrows an element from below the separator of the one before it. */
  predicate GoesBelow(t: Tree, path: seq<nat>, pageSize: nat)
    requires IsPath(t, path)
    decreases |path|
  {
    path != []
    && var below := Climb(t.kids[path[0]], path[1..], pageSize);
      (GoesBelow(t.kids[path[0]], path[1..], pageSize)
       || (below.again && BorrowsBelow(t.(loaded := true, kids := t.kids[path[0] := below.tree]), path[0], pageSize)))
  }

  /** In every node the keys are in order. */
  ghost predicate InOrder(t: Tree) {
    Sorted(t.inodes) && forall i | 0 <= i < |t.kids| :: InOrder(t.kids[i])
  }

  /** What a climb leaves at a node, whatever the keys. */
  ghost predicate SameNode(r: Fixed, t: Tree) {
    && r.tree.isLeaf == t.isLeaf && r.tree.key == t.key && r.tree.pgid == t.pgid
    && Entries(r.tree) == Entries(t) && PageIds(r.tree) + r.freed == PageIds(t)
  }

  /** The shape a climb leaves at a node: if it goes on above, the node may have one child only. */
  ghost predicate Climbed(r: Fixed, lo: Bound, hi: Bound, h: nat) {
    && Shape(r.tree, lo, hi, h, if r.again then 1 else 2)
    && (!r.tree.isLeaf && |r.tree.kids| < 2 ==> r.tree.unbalanced)
    && (r.tree.inodes == [] ==> r.tree.unbalanced)
  }

  lemma TopShape(t: Tree, lo: Bound, hi: Bound, h: nat)
    requires Shape(t, lo, hi, h, 2) && (t.inodes == [] ==> t.unbalanced)
    ensures Climbed(Fixed(t, multiset{}, true), lo, hi, h)
  {
    hide Content, KidOk;
  }

  lemma KidOf(t: Tree, lo: Bound, hi: Bound, h: nat, i: nat)
    requires Shape(t, lo, hi, h, 2) && i < |t.kids|
    ensures h > 0 && |t.kids| == |t.inodes| && !t.isLeaf && Body(t.inodes, t.kids, lo, hi, h)
    ensures t.kids[i].key == t.inodes[i].key && t.kids[i].pgid == t.inodes[i].pgid && t.kids[i].pgid > 0
    ensures t.kids[i].inodes == [] ==> t.kids[i].unbalanced
    ensures Shape(t.kids[i], LoAt(t.inodes, lo, i), HiAt(t.inodes, hi, i), h - 1, 2)
  {
    hide Content;
    KidIs(t.inodes, t.kids, lo, hi, h, i);
  }

  lemma ShapeAgain(r: Fixed, lo: Bound, hi: Bound, h: nat)
    requires h > 0 && !r.tree.isLeaf && Body(r.tree.inodes, r.tree.kids, lo, hi, h)
    requires |r.tree.kids| >= (if r.again then 1 else 2) && (r.again ==> r.tree.unbalanced)
    ensures Climbed(r, lo, hi, h)
  {
    hide Content, KidOk;
  }

  lemma ClimbIs(t: Tree, path: seq<nat>, pageSize: nat)
    requires path != [] && IsPath(t, path)
    ensures var below := Climb(t.kids[path[0]], path[1..], pageSize);
      Climb(t, path, pageSize) ==
        if !below.again then Fixed(t.(loaded := true, kids := t.kids[path[0] := below.tree]), below.freed, false)
        else
          var f := Fixing(t.(loaded := true), path[0], below.tree, pageSize);
          Fixed(f.tree, below.freed + f.freed, f.again)
  {
    hide FixChild;
  }

  lemma LooseClimbed(r: Fixed, lo: Bound, hi: Bound, h: nat)
    requires Climbed(r, lo, hi, h)
    ensures Shape(r.tree, lo, hi, h, 1)
    ensures !r.again && !r.tree.isLeaf ==> |r.tree.kids| >= 2
  {
    hide Content, KidOk, Body;
  }

  lemma IsParent(t: Tree, below: Fixed, lo: Bound, hi: Bound, h: nat, i: nat)
    requires Shape(t, lo, hi, h, 2) && h > 0 && i < |t.kids| == |t.inodes| && SameNode(below, t.kids[i])
    requires Climbed(below, LoAt(t.inodes, lo, i), HiAt(t.inodes, hi, i), h - 1)
    ensures Parent(t.(loaded := true), lo, hi, h, i, below.tree)
  {
    hide Less, Content, KidOk, Body, Entries, PageIds, AllEntries, AllIds;
    KidOf(t, lo, hi, h, i);
    LooseClimbed(below, LoAt(t.inodes, lo, i), HiAt(t.inodes, hi, i), h - 1);
  }

  lemma UpEntries(t: Tree, below: Fixed, i: nat)
    requires i < |t.kids| && SameNode(below, t.kids[i])
    ensures AllEntries(t.kids[i := below.tree]) == AllEntries(t.kids)
    ensures AllIds(t.kids[i := below.tree]) + below.freed == AllIds(t.kids)
  {
    hide Entries, PageIds, AllEntries, AllIds;
    SetEntries(t.kids, i, below.tree, below.freed);
  }

  /** One step up: the child is done, and its parent is looked at if the child asks for it. */
  lemma ClimbOne(t: Tree, path: seq<nat>, pageSize: nat, lo: Bound, hi: Bound, h: nat)
    requires path != [] && IsPath(t, path) && Shape(t, lo, hi, h, 2) && h > 0 && |t.kids| == |t.inodes|
    requires var below := Climb(t.kids[path[0]], path[1..], pageSize);
      && SameNode(below, t.kids[path[0]])
      && Climbed(below, LoAt(t.inodes, lo, path[0]), HiAt(t.inodes, hi, path[0]), h - 1)
      && !(below.again && BorrowsBelow(t.(loaded := true, kids := t.kids[path[0] := below.tree]), path[0], pageSize))
    ensures var r := Climb(t, path, pageSize); SameNode(r, t) && Climbed(r, lo, hi, h)
  {
    hide Less, Content, KidOk, Body, Shape, FixChild, Fixing, BorrowsBelow, AllEntries, AllIds, Climb, Parent, LoAt, HiAt;
    var below := Climb(t.kids[path[0]], path[1..], pageSize);
    var i, n, p := path[0], below.tree, t.(loaded := true);
    IsParent(t, below, lo, hi, h, i);
    UpEntries(t, below, i);
    ClimbIs(t, path, pageSize);
    KidOf(t, lo, hi, h, i);
    LooseClimbed(below, LoAt(t.inodes, lo, i), HiAt(t.inodes, hi, i), h - 1);
    if !below.again {
      StayShape(p, lo, hi, h, i, n, n.unbalanced);
      assert n.(unbalanced := n.unbalanced) == n;
      ShapeAgain(Climb(t, path, pageSize), lo, hi, h);
    } else {
      assert p.(kids := p.kids[i := n]) == t.(loaded := true, kids := t.kids[i := n]);
      FixShape(p, lo, hi, h, i, n, pageSize);
      FixCount(p, lo, hi, h, i, n, pageSize);
      FixEntries(p, lo, hi, h, i, n, pageSize);
      ShapeAgain(Climb(t, path, pageSize), lo, hi, h);
    }
  }

  lemma {:induction false} ClimbShape(t: Tree, path: seq<nat>, pageSize: nat, lo: Bound, hi: Bound, h: nat)
    requires IsPath(t, path) && Shape(t, lo, hi, h, 2) && (t.inodes == [] ==> t.unbalanced)
    requires !GoesBelow(t, path, pageSize)
    ensures var r := Climb(t, path, pageSize); SameNode(r, t) && Climbed(r, lo, hi, h)
    decreases |path|
  {
    hide Less, Content, KidOk, Body, FixChild, BorrowsBelow, Entries, PageIds, AllEntries, AllIds;
    if path == [] {
      TopShape(t, lo, hi, h);
    } else {
      var i, kid := path[0], t.kids[path[0]];
      KidOf(t, lo, hi, h, i);
      ClimbShape(kid, path[1..], pageSize, LoAt(t.inodes, lo, i), HiAt(t.inodes, hi, i), h - 1);
      ClimbOne(t, path, pageSize, lo, hi, h);
    }
  }

  /** A borrow from below the separator ends the climb with all entries in place, but some node's
      separators out of order. */
  lemma {:induction false} ClimbBelow(t: Tree, path: seq<nat>, pageSize: nat, lo: Bound, hi: Bound, h: nat)
    requires IsPath(t, path) && Shape(t, lo, hi, h, 2) && (t.inodes == [] ==> t.unbalanced)
    requires GoesBelow(t, path, pageSize)
    ensures var r := Climb(t, path, pageSize); SameNode(r, t) && !r.again && !InOrder(r.tree)
    decreases |path|
  {
    hide Less, Content, KidOk, Body, Shape, FixChild, Fixing, BorrowsBelow, AllEntries, AllIds, Climb, Parent, Sorted;
    var i, kid := path[0], t.kids[path[0]];
    var below := Climb(kid, path[1..], pageSize);
    KidOf(t, lo, hi, h, i);
    ClimbIs(t, path, pageSize);
    if GoesBelow(kid, path[1..], pageSize) {
      ClimbBelow(kid, path[1..], pageSize, LoAt(t.inodes, lo, i), HiAt(t.inodes, hi, i), h - 1);
      UpEntries(t, below, i);
      var kids' := t.kids[i := below.tree];
      assert !InOrder(kids'[i]);
    } else {
      ClimbShape(kid, path[1..], pageSize, LoAt(t.inodes, lo, i), HiAt(t.inodes, hi, i), h - 1);
      var n, p := below.tree, t.(loaded := true);
      IsParent(t, below, lo, hi, h, i);
      UpEntries(t, below, i);
      assert p.(kids := p.kids[i := n]) == t.(loaded := true, kids := t.kids[i := n]);
      FixCount(p, lo, hi, h, i, n, pageSize);
      FixEntries(p, lo, hi, h, i, n, pageSize);
      BelowBreaks(p, lo, hi, h, i, n, pageSize);
    }
  }

  lemma {:induction false} ShapeInOrder(t: Tree, lo: Bound, hi: Bound, h: nat, m: nat)
    requires Shape(t, lo, hi, h, m)
    ensures InOrder(t)
    decreases h
  {
    hide Less, Above, Below;
    forall i | 0 <= i < |t.kids| ensures InOrder(t.kids[i]) {
      KidIs(t.inodes, t.kids, lo, hi, h, i);
      ShapeInOrder(t.kids[i], LoAt(t.inodes, lo, i), HiAt(t.inodes, hi, i), h - 1, 2);
    }
  }

  lemma RootSize(t: Tree, h: nat, lo: Bound)
    requires Shape(t, lo, Open, h, 1)
    ensures |t.kids| == if t.isLeaf then 0 else |t.inodes|
    ensures !t.isLeaf ==> |t.kids| >= 1
  {
    hide Content;
    assert Body(t.inodes, t.kids, lo, Open, h);
  }

  lemma RootStays(t: Tree, h: nat, lo: Bound, mark: bool)
    requires Shape(t, lo, Open, h, 1) && (!t.isLeaf ==> |t.kids| >= 2)
    ensures Shape(t.(unbalanced := mark), lo, Open, h, 2)
  {
    hide Content, KidOk;
  }

  lemma WiderAtRoot(inodes: seq<Inode>, lo: Bound)
    requires Content(inodes, lo, Open) && inodes != []
    ensures LoWider(lo, LoAt(inodes, lo, 0))
  {
    hide Less;
    assert Above(inodes[0].key, lo);
  }

  /** Separators that bound the subtrees below them, at some height. */
  ghost predicate Bounded(t: Tree, lo: Bound) {
    exists h: nat :: Shape(t, lo, Open, h, 2)
  }

  lemma CollapseShape(t: Tree, h: nat, lo: Bound, c: Tree)
    requires Shape(t, lo, Open, h, 1) && !t.isLeaf && |t.inodes| == 1 && t.kids == [c]
    ensures Bounded(t.(unbalanced := false, isLeaf := c.isLeaf, inodes := c.inodes, kids := c.kids), lo)
  {
    hide Less, Content;
    KidIs(t.inodes, t.kids, lo, Open, h, 0);
    WiderAtRoot(t.inodes, lo);
    Widen(c, LoAt(t.inodes, lo, 0), Open, h - 1, 2, lo, Open);
    assert Shape(t.(unbalanced := false, isLeaf := c.isLeaf, inodes := c.inodes, kids := c.kids), lo, Open, h - 1, 2);
  }

  lemma Collapse(t: Tree, h: nat, lo: Bound)
    requires Shape(t, lo, Open, h, 1) && !t.isLeaf && |t.inodes| == 1 == |t.kids|
    ensures var c := t.kids[0];
      var r := t.(unbalanced := false, isLeaf := c.isLeaf, inodes := c.inodes, kids := c.kids);
      Entries(r) == Entries(t) && PageIds(r) + multiset{c.pgid} == PageIds(t) && Bounded(r, lo)
  {
    var c := t.kids[0];
    OneEntries(c);
    assert t.kids == [c];
    CollapseShape(t, h, lo, c);
  }

  lemma FixRootShape(t: Tree, h: nat, pageSize: nat, lo: Bound)
    requires Shape(t, lo, Open, h, 1) && (!t.isLeaf && |t.kids| < 2 ==> t.unbalanced)
    ensures var r := FixRoot(t, pageSize);
      Entries(r.tree) == Entries(t) && PageIds(r.tree) + r.freed == PageIds(t) && Bounded(r.tree, lo)
  {
    hide Less, Content, KidOk, Entries, PageIds, AllEntries, AllIds, Shape;
    RootSize(t, h, lo);
    var seen := t.(unbalanced := false);
    Unmarked(t);
    if t.unbalanced && !HasEnough(t, pageSize) && !t.isLeaf && |t.inodes| == 1 {
      Collapse(t, h, lo);
    } else {
      if HasEnough(t, pageSize) { EnoughKeys(t, pageSize); }
      RootStays(t, h, lo, t.unbalanced);
      RootStays(t, h, lo, false);
      assert t.(unbalanced := t.unbalanced) == t;
      assert Shape(FixRoot(t, pageSize).tree, lo, Open, h, 2);
    }
  }

  lemma RootKids(t: Tree, lo: Bound, h: nat)
    requires Shape(t, lo, Open, h, 2)
    ensures !t.isLeaf ==> |t.kids| >= 2
  {
    hide Content, KidOk, Body;
  }

  lemma ClimbedMarks(r: Fixed, lo: Bound, h: nat)
    requires Climbed(r, lo, Open, h)
    ensures !r.tree.isLeaf && |r.tree.kids| < 2 ==> r.tree.unbalanced
    ensures !r.again ==> Bounded(r.tree, lo)
  {
    hide Content, KidOk, Body;
  }

  lemma BoundedInOrder(t: Tree, lo: Bound)
    ensures Bounded(t, lo) ==> InOrder(t)
  {
    hide Shape, InOrder;
    if Bounded(t, lo) {
      var h: nat :| Shape(t, lo, Open, h, 2);
      ShapeInOrder(t, lo, Open, h, 2);
    }
  }

  /** Rebalancing a node loses no entry and no page. It leaves every node's keys in order, and the
      separators bounding, exactly when no element is borrowed from below a separator. */
  lemma RebalanceMeaning(t: Tree, path: seq<nat>, pageSize: nat, lo: Bound)
    requires Bounded(t, lo) && IsPath(t, path)
    ensures var r := RebalanceAt(t, path, pageSize);
      && Entries(r.tree) == Entries(t) && PageIds(r.tree) + r.freed == PageIds(t)
      && (InOrder(r.tree) <==> !GoesBelow(t, path, pageSize))
      && (Bounded(r.tree, lo) <==> !GoesBelow(t, path, pageSize))
  {
    hide Less, Content, KidOk, Entries, PageIds, AllEntries, AllIds, FixRoot, Shape, Body, InOrder;
    var h: nat :| Shape(t, lo, Open, h, 2);
    var c, r := Climb(t, path, pageSize), RebalanceAt(t, path, pageSize);
    if path == [] {
      Loosen(t, lo, Open, h, t.loaded);
      assert t.(loaded := t.loaded) == t;
      RootKids(t, lo, h);
      FixRootShape(t, h, pageSize, lo);
    } else {
      KidOf(t, lo, Open, h, path[0]);
      if GoesBelow(t, path, pageSize) {
        ClimbBelow(t, path, pageSize, lo, Open, h);
      } else {
        ClimbShape(t, path, pageSize, lo, Open, h);
        LooseClimbed(c, lo, Open, h);
        ClimbedMarks(c, lo, h);
        if c.again {
          FixRootShape(c.tree, h, pageSize, lo);
        }
      }
    }
    BoundedInOrder(r.tree, lo);
  }
}
