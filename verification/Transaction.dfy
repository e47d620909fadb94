/** A write transaction on one bucket, from the file to the file: edits, rebalancing, spilling. */
module Transactions {
  import opened Keys
  import opened Nodes
  import opened BTree
  import opened TreeLookup
  import opened Rebalance
  import opened RebalanceRuns
  import opened RebalanceMarks
  import opened Cursors
  import opened Spill

  datatype Edit = PutEdit(key: Bytes, value: Bytes) | DeleteEdit(key: Bytes)

  function EditTree(t: Tree, edits: seq<Edit>): Tree {
    if edits == [] then t
    else
      var t' := EditTree(t, edits[..|edits| - 1]);
      match edits[|edits| - 1]
      case PutEdit(key, value) => PutKey(t', key, Inode(0, 0, key, value))
      case DeleteEdit(key) => DeleteKey(t', key)
  }

  /** The same edits on a plain sorted list. */
  function EditList(entries: seq<Inode>, edits: seq<Edit>): seq<Inode> {
    if edits == [] then entries
    else
      var s := EditList(entries, edits[..|edits| - 1]);
      match edits[|edits| - 1]
      case PutEdit(key, value) => PutInto(s, key, Inode(0, 0, key, value))
      case DeleteEdit(key) => DeleteFrom(s, key)
  }

  /** The last edit of a key. */
  ghost predicate LastEdit(edits: seq<Edit>, key: Bytes, i: nat) {
    i < |edits| && edits[i].key == key && forall j | i < j < |edits| :: edits[j].key != key
  }

  /** What a key has after the edits: what the last edit of it put there, or what it had if there is none. */
  ghost predicate Survives(entries: seq<Inode>, edits: seq<Edit>, e: Inode) {
    || (e in entries && forall i | 0 <= i < |edits| :: edits[i].key != e.key)
    || (exists i: nat | LastEdit(edits, e.key, i) :: edits[i].PutEdit? && e == Inode(0, 0, e.key, edits[i].value))
  }

  lemma FrontSurvives(entries: seq<Inode>, edits: seq<Edit>, e: Inode)
    requires edits != []
    ensures var last := edits[|edits| - 1];
      Survives(entries, edits, e) <==>
        if last.key == e.key then last.PutEdit? && e == Inode(0, 0, e.key, last.value)
        else Survives(entries, edits[..|edits| - 1], e)
  {
    var k, front := |edits| - 1, edits[..|edits| - 1];
    if edits[k].key == e.key {
      assert LastEdit(edits, e.key, k);
    } else {
      assert forall i: nat :: LastEdit(edits, e.key, i) <==> LastEdit(front, e.key, i);
    }
  }

  lemma NoEditSurvives(entries: seq<Inode>, e: Inode)
    ensures Survives(entries, [], e) <==> e in entries
  {
  }

  /** The list after the edits, entry by entry. */
  lemma {:induction false} EditListIs(entries: seq<Inode>, edits: seq<Edit>)
    requires Sorted(entries)
    ensures Sorted(EditList(entries, edits))
    ensures forall e :: e in EditList(entries, edits) <==> Survives(entries, edits, e)
    decreases |edits|
  {
    hide Sorted, PutInto, DeleteFrom, Survives;
    if edits == [] {
      forall e ensures e in entries <==> Survives(entries, [], e) { NoEditSurvives(entries, e); }
    } else {
      var front, last := edits[..|edits| - 1], edits[|edits| - 1];
      EditListIs(entries, front);
      var s := EditList(entries, front);
      match last {
        case PutEdit(key, value) => PutSorted(s, key, Inode(0, 0, key, value));
        case DeleteEdit(key) => DeleteSorted(s, key);
      }
      forall e ensures e in EditList(entries, edits) <==> Survives(entries, edits, e) {
        FrontSurvives(entries, edits, e);
        match last {
          case PutEdit(key, value) => PutMember(s, key, Inode(0, 0, key, value), e);
          case DeleteEdit(key) => DeleteMember(s, key, e);
        }
      }
    }
  }

  /** A bucket without a node in memory is not written. */
  function Save(t: Tree, pageSize: nat, threshold: int, alloc: Allocator, log: seq<Tree>): Saved {
    if t.loaded then SpillRoot(t, pageSize, threshold, alloc, log) else Saved(t, multiset{}, [])
  }

  // ---- In memory or as on file ----

  ghost predicate MixedKid(k: Tree, file: set<Tree>) {
    if k.loaded then Mixed(k, file) else OnFile(k) && NodesIn(k) <= file
  }

  lemma KidMixed(k: Tree, file: set<Tree>)
    requires MixedKid(k, file)
    ensures Mixed(k, file) && (k.unbalanced ==> k.loaded)
  {
    if !k.loaded {
      forall i | 0 <= i < |k.kids| ensures MixedKid(k.kids[i], file) {
        assert OnFile(k.kids[i]);
        KidNodes(k.kids, i);
      }
    }
  }

  ghost predicate AllMixed(kids: seq<Tree>, file: set<Tree>) {
    forall i | 0 <= i < |kids| :: MixedKid(kids[i], file)
  }

  lemma MixedIs(t: Tree, file: set<Tree>)
    ensures Mixed(t, file) <==> AllMixed(t.kids, file)
  {
    hide OnFile;
    if AllMixed(t.kids, file) {
      forall i | 0 <= i < |t.kids| ensures if t.kids[i].loaded then Mixed(t.kids[i], file) else OnFile(t.kids[i]) && NodesIn(t.kids[i]) <= file {
        assert MixedKid(t.kids[i], file);
      }
    }
  }

  lemma {:induction false} PutMixed(t: Tree, key: Bytes, x: Inode, file: set<Tree>)
    requires Mixed(t, file)
    ensures Mixed(PutKey(t, key, x), file) && PutKey(t, key, x).loaded
  {
    hide OnFile, ChildFor, PutInto;
    MixedIs(t, file);
    var r := PutKey(t, key, x);
    if CanDescend(t) {
      var i := ChildFor(t.inodes, key);
      KidMixed(t.kids[i], file);
      PutMixed(t.kids[i], key, x, file);
      assert AllMixed(r.kids, file);
    }
    MixedIs(r, file);
  }

  lemma {:induction false} DeleteMixed(t: Tree, key: Bytes, file: set<Tree>)
    requires Mixed(t, file)
    ensures Mixed(DeleteKey(t, key), file) && DeleteKey(t, key).loaded
  {
    hide OnFile, ChildFor, DeleteFrom;
    MixedIs(t, file);
    var r := DeleteKey(t, key);
    if CanDescend(t) {
      var i := ChildFor(t.inodes, key);
      KidMixed(t.kids[i], file);
      DeleteMixed(t.kids[i], key, file);
      assert AllMixed(r.kids, file);
    }
    MixedIs(r, file);
  }

  lemma MixedPlus(a: seq<Tree>, b: seq<Tree>, file: set<Tree>)
    requires AllMixed(a, file) && AllMixed(b, file)
    ensures AllMixed(a + b, file)
  {
    hide MixedKid;
  }

  lemma MixedSlice(a: seq<Tree>, i: nat, j: nat, file: set<Tree>)
    requires AllMixed(a, file) && i <= j <= |a|
    ensures AllMixed(a[i..j], file) && AllMixed(a[..j], file) && AllMixed(a[i..], file)
  {
    hide MixedKid;
  }

  /** A node in memory whose children are in memory or as on file. */
  lemma LoadedMixed(n: Tree, file: set<Tree>)
    requires n.loaded && AllMixed(n.kids, file)
    ensures MixedKid(n, file)
  {
    hide OnFile;
    MixedIs(n, file);
  }

  lemma PairMixed(w: Tree, i: nat, j: nat, file: set<Tree>)
    requires i < |w.kids| && j < |w.kids| && AllMixed(w.kids, file)
    ensures AllMixed(w.kids[i].kids, file) && AllMixed(w.kids[j].kids, file)
  {
    hide MixedKid, Mixed;
    KidMixed(w.kids[i], file);
    KidMixed(w.kids[j], file);
    MixedIs(w.kids[i], file);
    MixedIs(w.kids[j], file);
  }

  lemma DropMixed(w: Tree, i: nat, file: set<Tree>)
    requires i < |w.kids| && AllMixed(w.kids, file)
    ensures AllMixed(DropKid(w, i).kids, file)
  {
    hide MixedKid, DeleteFrom;
    MixedSlice(w.kids, 0, i, file);
    MixedSlice(w.kids, i + 1, |w.kids|, file);
    MixedPlus(w.kids[..i], w.kids[i + 1..], file);
  }

  lemma BorrowNextMixed(w: Tree, file: set<Tree>)
    requires |w.kids| > 1 && AllMixed(w.kids, file) && w.kids[0].loaded && w.kids[0].inodes != [] && |w.kids[1].inodes| > 1
    requires AllMixed(w.kids[0].kids, file) && AllMixed(w.kids[1].kids, file)
    ensures AllMixed(BorrowNext(w).kids, file)
  {
    hide MixedKid, PutInto;
    var x, y := w.kids[0], w.kids[1];
    MixedSlice(y.kids, 0, |Take(y.kids, 1)|, file);
    MixedSlice(y.kids, |y.kids| - |Rest(y.kids, 1)|, |y.kids|, file);
    MixedPlus(x.kids, Take(y.kids, 1), file);
    LoadedMixed(Rekeyed(GainLast(x, y)), file);
    LoadedMixed(Rekeyed(LoseFirst(y)), file);
    assert BorrowNext(w).kids == w.kids[0 := Rekeyed(GainLast(x, y))][1 := Rekeyed(LoseFirst(y))];
  }

  lemma BorrowPrevMixed(w: Tree, i: nat, file: set<Tree>)
    requires 0 < i < |w.kids| && AllMixed(w.kids, file) && w.kids[i].loaded && |w.kids[i - 1].inodes| > 1
    requires AllMixed(w.kids[i].kids, file) && AllMixed(w.kids[i - 1].kids, file)
    ensures AllMixed(BorrowPrev(w, i).kids, file)
  {
    hide MixedKid, PutInto;
    var x, y := w.kids[i - 1], w.kids[i];
    var last := |x.inodes| - 1;
    MixedSlice(x.kids, 0, |Take(x.kids, last)|, file);
    MixedSlice(x.kids, |x.kids| - |Rest(x.kids, last)|, |x.kids|, file);
    MixedPlus(Rest(x.kids, last), y.kids, file);
    LoadedMixed(LoseLast(x), file);
    LoadedMixed(Rekeyed(GainFirst(x, y)), file);
    assert BorrowPrev(w, i).kids == w.kids[i - 1 := LoseLast(x)][i := Rekeyed(GainFirst(x, y))];
  }

  lemma MergeMixed(w: Tree, j: nat, x: Tree, file: set<Tree>)
    requires j + 1 < |w.kids| && AllMixed(w.kids, file) && x.loaded && x.kids == w.kids[j].kids
    requires AllMixed(w.kids[j].kids, file) && AllMixed(w.kids[j + 1].kids, file)
    ensures var z := Merged(x, w.kids[j + 1]);
      AllMixed(w.kids[j := z][..j + 1] + w.kids[j := z][j + 2..], file)
  {
    hide MixedKid;
    var z := Merged(x, w.kids[j + 1]);
    MixedPlus(x.kids, w.kids[j + 1].kids, file);
    LoadedMixed(z, file);
    var kids := w.kids[j := z];
    assert AllMixed(kids, file);
    MixedSlice(kids, 0, j + 1, file);
    MixedSlice(kids, j + 2, |kids|, file);
    MixedPlus(kids[..j + 1], kids[j + 2..], file);
  }

  /** Looking at a child of a parent keeps all of this. */
  lemma FixMixed(p: Tree, i: nat, pageSize: nat, file: set<Tree>)
    requires i < |p.kids| && |p.kids| > 1 && AllMixed(p.kids, file)
    ensures AllMixed(FixChild(p, i, pageSize).tree.kids, file)
  {
    hide MixedKid, Mixed, HasEnough, PutInto, DeleteFrom;
    var n := p.kids[i];
    KidMixed(n, file);
    if n.unbalanced {
      var n' := n.(unbalanced := false);
      MixedIs(n, file);
      LoadedMixed(n', file);
      var w := p.(kids := p.kids[i := n']);
      assert AllMixed(w.kids, file);
      if HasEnough(n, pageSize) {
      } else if n.inodes == [] {
        DropMixed(w, i, file);
      } else if i == 0 {
        PairMixed(w, 0, 1, file);
        if |p.kids[1].inodes| > MinKeys(p.kids[1]) { BorrowNextMixed(w, file); } else { MergeMixed(w, 0, n', file); }
      } else {
        PairMixed(w, i, i - 1, file);
        if |p.kids[i - 1].inodes| > MinKeys(p.kids[i - 1]) {
          BorrowPrevMixed(w, i, file);
        } else {
          MergeMixed(w, i - 1, p.kids[i - 1].(loaded := true), file);
        }
      }
    }
  }

  lemma FixLoaded(p: Tree, i: nat, pageSize: nat)
    requires i < |p.kids| && |p.kids| > 1
    ensures FixChild(p, i, pageSize).tree.loaded == p.loaded && FixChild(p, i, pageSize).tree.pgid == p.pgid
  {
    hide PutInto, DeleteFrom, HasEnough;
  }

  lemma {:induction false} ClimbMixed(t: Tree, path: seq<nat>, pageSize: nat, file: set<Tree>)
    requires IsPath(t, path) && AllMixed(t.kids, file)
    ensures AllMixed(Climb(t, path, pageSize).tree.kids, file)
    ensures path != [] || t.loaded ==> Climb(t, path, pageSize).tree.loaded
    ensures Climb(t, path, pageSize).tree.pgid == t.pgid
    decreases |path|
  {
    hide MixedKid, FixChild, Mixed;
    if path != [] {
      var i, kid := path[0], t.kids[path[0]];
      KidMixed(kid, file);
      MixedIs(kid, file);
      ClimbMixed(kid, path[1..], pageSize, file);
      var below := Climb(kid, path[1..], pageSize);
      var p := t.(loaded := true, kids := t.kids[i := below.tree]);
      ClimbHere(kid, pageSize);
      if path[1..] != [] || kid.loaded { LoadedMixed(below.tree, file); } else { assert below.tree == kid; }
      assert AllMixed(p.kids, file);
      if below.again {
        FixMixed(p, i, pageSize, file);
        FixLoaded(p, i, pageSize);
      }
    }
  }

  lemma RebalanceMixed(t: Tree, path: seq<nat>, pageSize: nat, file: set<Tree>)
    requires IsPath(t, path) && Mixed(t, file)
    ensures Mixed(RebalanceAt(t, path, pageSize).tree, file)
    ensures t.loaded ==> RebalanceAt(t, path, pageSize).tree.loaded
    ensures RebalanceAt(t, path, pageSize).tree.pgid == t.pgid
  {
    hide MixedKid, Climb, Mixed;
    MixedIs(t, file);
    ClimbMixed(t, path, pageSize, file);
    var c := Climb(t, path, pageSize).tree;
    MixedIs(RebalanceAt(t, path, pageSize).tree, file);
    if c.kids != [] {
      KidMixed(c.kids[0], file);
      MixedIs(c.kids[0], file);
    }
  }

  lemma {:induction false} RunMixed(t: Tree, paths: seq<seq<nat>>, pageSize: nat, file: set<Tree>)
    requires Mixed(t, file) && t.loaded && CanRun(t, paths, pageSize)
    ensures var r := RunAll(t, paths, pageSize).tree; Mixed(r, file) && r.loaded && r.pgid == t.pgid
    decreases |paths|
  {
    hide Mixed, RebalanceAt, IsPath, NodeAt, GoesBelow;
    if paths != [] {
      RebalanceMixed(t, paths[0], pageSize, file);
      RunMixed(RebalanceAt(t, paths[0], pageSize).tree, paths[1..], pageSize, file);
    }
  }

  // ---- The whole transaction ----

  lemma {:induction false} FileTight(n: Tree)
    requires OnFile(n)
    ensures Tight(n) && Marks(n) == multiset{} && AllMarks(n.kids) == multiset{}
    decreases n, 1
  {
    forall i | 0 <= i < |n.kids| ensures Tight(n.kids[i]) && Leads(n.kids[i], n.kids[i].key) {
      FileTight(n.kids[i]);
    }
    FileMarks(n.kids);
  }

  lemma {:induction false} FileMarks(kids: seq<Tree>)
    requires forall i | 0 <= i < |kids| :: OnFile(kids[i])
    ensures AllMarks(kids) == multiset{}
    decreases kids, 0
  {
    hide OnFile;
    if kids != [] {
      FileTight(kids[0]);
      FileMarks(kids[1..]);
    }
  }

  lemma NotLoaded(n: Tree, file: set<Tree>)
    requires OnFile(n) && NodesIn(n) <= file
    ensures MixedKid(n, file) && (!n.isLeaf ==> n.inodes != [] && n.inodes[0].key == n.key)
  {
  }

  /** Between transactions a bucket is fit for the cursor and for edits. */
  lemma FileRootMeans(t: Tree)
    requires FileRoot(t)
    ensures InBounds(t) && Mixed(t, NodesIn(t)) && Walkable(t) && Marks(t) == multiset{}
  {
    hide Shape, OnFile, Walkable, AllMarks;
    var h: nat :| Shape(t, Open, Open, h, 2);
    forall i | 0 <= i < |t.kids| ensures Tight(t.kids[i]) && Leads(t.kids[i], t.kids[i].key) && MixedKid(t.kids[i], NodesIn(t)) {
      FileTight(t.kids[i]);
      KidNodes(t.kids, i);
      NotLoaded(t.kids[i], NodesIn(t));
    }
    FileMarks(t.kids);
    MixedIs(t, NodesIn(t));
    UnmarkedWalkable(t, Open, Open, h);
  }

  lemma {:induction false} EditsMeaning(t: Tree, edits: seq<Edit>, file: set<Tree>)
    requires InBounds(t) && Mixed(t, file)
    ensures var r := EditTree(t, edits);
      && InBounds(r) && Mixed(r, file) && (edits != [] ==> r.loaded) && r.pgid == t.pgid
      && Entries(r) == EditList(Entries(t), edits) && PageIds(r) == PageIds(t)
    decreases |edits|
  {
    hide Tight, Shape, Mixed, Entries, PageIds, PutKey, DeleteKey, PutInto, DeleteFrom;
    if edits != [] {
      var front := edits[..|edits| - 1];
      EditsMeaning(t, front, file);
      var t' := EditTree(t, front);
      var h: nat :| Shape(t', Open, Open, h, 2);
      match edits[|edits| - 1] {
        case PutEdit(key, value) =>
          PutMeaning(t', Open, Open, h, key, Inode(0, 0, key, value));
          PutMixed(t', key, Inode(0, 0, key, value), file);
        case DeleteEdit(key) =>
          DeleteMeaning(t', Open, Open, h, key);
          DeleteMixed(t', key, file);
      }
    }
  }

  lemma {:induction false} NoneEmptyBelow(t: Tree)
    requires Walkable(t) && t.inodes != []
    ensures NoneEmpty(t)
  {
    forall i | 0 <= i < |t.kids| ensures NoneEmpty(t.kids[i]) { NoneEmptyBelow(t.kids[i]); }
  }

  lemma FilePage(t: Tree)
    requires FileRoot(t)
    ensures t.pgid > 0 && !t.loaded
  {
    hide Shape, OnFile;
  }

  lemma EmptyIsLeaf(t: Tree)
    requires Walkable(t) && t.inodes == []
    ensures t.isLeaf
  {
  }

  lemma {:induction false} MarkAt(t: Tree, path: seq<nat>)
    requires IsPath(t, path)
    ensures Mark(NodeAt(t, path)) <= Marks(t)
    decreases |path|
  {
    hide AllMarks;
    if path != [] {
      MarkAt(t.kids[path[0]], path[1..]);
      var i := path[0];
      var a, b := t.kids[..i], t.kids[i + 1..];
      assert t.kids == a + [t.kids[i]] + b;
      AllMarksPlus(a + [t.kids[i]], b);
      AllMarksPlus(a, [t.kids[i]]);
      OneMarks(t.kids[i]);
    }
  }

  lemma NothingToDo(t: Tree, paths: seq<seq<nat>>, pageSize: nat)
    requires FileRoot(t) && CanRun(t, paths, pageSize) && Marks(t) == multiset{}
    ensures paths == [] && RunAll(t, paths, pageSize) == Fixed(t, multiset{}, false) && !t.loaded
    ensures Given([]) == multiset{}
  {
    hide Shape, OnFile, RebalanceAt, GoesBelow;
    if paths != [] { MarkAt(t, paths[0]); }
  }

  lemma SumTransaction(r: multiset<nat>, freed0: multiset<nat>, freed: multiset<nat>, mid: multiset<nat>, before: multiset<nat>, g: multiset<nat>)
    requires r + freed == mid + g && mid + freed0 == before
    ensures r + (freed0 + freed) == before + g
  {
    assert r + (freed0 + freed) == (mid + g) + freed0;
  }

  /** A bucket in memory after edits and rebalancing: below it nodes are in memory or as on file. */
  ghost predicate ToSpill(n: Tree, file: set<Tree>) {
    && n.loaded && n.pgid > 0 && Mixed(n, file) && ((n.inodes == [] && n.isLeaf) || NoneEmpty(n))
    && exists h: nat :: Shape(n, Open, Open, h, 2)
  }

  lemma SpillHeight(n: Tree, file: set<Tree>) returns (h: nat)
    requires ToSpill(n, file)
    ensures n.loaded && n.pgid > 0 && Mixed(n, file) && ((n.inodes == [] && n.isLeaf) || NoneEmpty(n))
    ensures Shape(n, Open, Open, h, 2)
  {
    hide Shape, Mixed, NoneEmpty;
    h :| Shape(n, Open, Open, h, 2);
  }

  lemma BeforeSpill(t: Tree, edits: seq<Edit>, paths: seq<seq<nat>>, pageSize: nat)
    requires FileRoot(t) && CanRun(EditTree(t, edits), paths, pageSize)
    requires Marks(RunAll(EditTree(t, edits), paths, pageSize).tree) == multiset{}
    ensures edits != [] ==> ToSpill(RunAll(EditTree(t, edits), paths, pageSize).tree, NodesIn(t))
    ensures RebalanceRuns.Bounded(EditTree(t, edits), Open)
  {
    hide Tight, Shape, Mixed, Entries, PageIds, FileRoot, Walkable, CanRun, RunAll, Marks, NoneEmpty, NodesIn;
    FileRootMeans(t);
    EditsMeaning(t, edits, NodesIn(t));
    var t' := EditTree(t, edits);
    var h: nat :| Shape(t', Open, Open, h, 2);
    assert RebalanceRuns.Bounded(t', Open);
    if edits != [] {
      RunMeaning(t', paths, pageSize, Open);
      RunMixed(t', paths, pageSize, NodesIn(t));
      FilePage(t);
      var run := RunAll(t', paths, pageSize);
      if run.tree.inodes != [] { NoneEmptyBelow(run.tree); } else { EmptyIsLeaf(run.tree); }
    }
  }

  lemma FileEdited(t: Tree, edits: seq<Edit>)
    requires FileRoot(t)
    ensures forall e :: e in EditList(Entries(t), edits) <==> Survives(Entries(t), edits, e)
  {
    hide FileRoot, InBounds, Survives, Entries, EditList, Sorted;
    FileRootMeans(t);
    BucketSorted(t);
    EditListIs(Entries(t), edits);
  }

  /** A transaction on a bucket does to it what its edits do to a sorted list, and leaves it as the next
      transaction needs it: separators bound, and no node but the root is empty. Marked nodes may be
      rebalanced in any order, as long as none of them borrows from below a separator. Every page is
      kept, given back or newly taken. */
  lemma TransactionMeaning(t: Tree, edits: seq<Edit>, paths: seq<seq<nat>>, pageSize: nat, threshold: int,
                           alloc: Allocator, log: seq<Tree>)
    requires FileRoot(t) && Positive(alloc)
    requires CanRun(EditTree(t, edits), paths, pageSize)
    requires Marks(RunAll(EditTree(t, edits), paths, pageSize).tree) == multiset{}
    ensures var run := RunAll(EditTree(t, edits), paths, pageSize);
      var r := Save(run.tree, pageSize, threshold, alloc, log);
      && FileRoot(r.root) && Entries(r.root) == EditList(Entries(t), edits)
      && (forall e :: e in Entries(r.root) <==> Survives(Entries(t), edits, e))
      && PageIds(r.root) + (run.freed + r.freed) == PageIds(t) + Given(r.wrote)
  {
    hide Tight, Shape, Mixed, Entries, PageIds, FileRoot, Walkable, CanRun, RunAll, Marks, Given, NoneEmpty, SpillRoot, NodesIn, ToSpill, Survives, EditList;
    FileRootMeans(t);
    FileEdited(t, edits);
    EditsMeaning(t, edits, NodesIn(t));
    var t' := EditTree(t, edits);
    var run := RunAll(t', paths, pageSize);
    BeforeSpill(t, edits, paths, pageSize);
    RunMeaning(t', paths, pageSize, Open);
    if edits == [] {
      NothingToDo(t, paths, pageSize);
    } else {
      var h := SpillHeight(run.tree, NodesIn(t));
      var r := Save(run.tree, pageSize, threshold, alloc, log);
      SpillMeaning(run.tree, h, pageSize, threshold, alloc, log, NodesIn(t));
      SumTransaction(PageIds(r.root), run.freed, r.freed, PageIds(run.tree), PageIds(t), Given(r.wrote));
    }
  }

  // ---- Puts above the first key ----

  /** No key is put below the first one of the bucket. A bucket of a single leaf takes any key. */
  ghost predicate PutsInside(t: Tree, edits: seq<Edit>) {
    t.isLeaf || Entries(t) == []
    || forall i | 0 <= i < |edits| && edits[i].PutEdit? :: AtMost(Entries(t)[0].key, edits[i].key)
  }

  ghost predicate PutsFrom(edits: seq<Edit>, l: Bytes) {
    forall i | 0 <= i < |edits| && edits[i].PutEdit? :: AtMost(l, edits[i].key)
  }

  lemma FileNode(n: Tree)
    requires OnFile(n)
    ensures !n.loaded && n.inodes != [] && n.inodes[0].key == n.key && forall i | 0 <= i < |n.kids| :: OnFile(n.kids[i])
  {
  }

  lemma ShapeIs(n: Tree, lo: Bound, l: Bound, hi: Bound, h: nat)
    requires Shape(n, lo, hi, h, 2) && Body(n.inodes, n.kids, l, hi, h)
    ensures Shape(n, l, hi, h, 2)
  {
    hide Content, KidOk;
  }

  lemma FirstBound(n: Tree, lo: Bound, hi: Bound, h: nat)
    requires Shape(n, lo, hi, h, 2) && n.inodes != []
    requires h > 0 ==> n.kids[0].key == n.inodes[0].key && Shape(n.kids[0], At(n.kids[0].key), HiAt(n.inodes, hi, 0), h - 1, 2)
    ensures Shape(n, At(n.inodes[0].key), hi, h, 2)
  {
    hide Less, Shape;
    Order();
    BodyOf(n, lo, hi, h);
    var l := At(n.inodes[0].key);
    assert Content(n.inodes, l, hi);
    forall i | 0 <= i < |n.kids| ensures KidOk(n.inodes, n.kids[i], l, hi, h, i) {
      assert KidOk(n.inodes, n.kids[i], lo, hi, h, i);
    }
    ShapeIs(n, lo, l, hi, h);
  }

  /** In a tree on file a node's first key is the first key below it. */
  lemma {:induction false} FileFirst(n: Tree, lo: Bound, hi: Bound, h: nat)
    requires Shape(n, lo, hi, h, 2) && n.inodes != [] && forall i | 0 <= i < |n.kids| :: OnFile(n.kids[i])
    ensures Entries(n) != [] && Entries(n)[0].key == n.inodes[0].key
    ensures Shape(n, At(n.inodes[0].key), hi, h, 2)
    decreases h
  {
    hide Less, Content, KidOk, OnFile, Shape, Above, Below;
    BodyOf(n, lo, hi, h);
    if h > 0 {
      KidIs(n.inodes, n.kids, lo, hi, h, 0);
      FileNode(n.kids[0]);
      FileFirst(n.kids[0], LoAt(n.inodes, lo, 0), HiAt(n.inodes, hi, 0), h - 1);
      assert AllEntries(n.kids) == Entries(n.kids[0]) + AllEntries(n.kids[1..]);
    }
    FirstBound(n, lo, hi, h);
  }

  lemma FirstChild(inodes: seq<Inode>, lo: Bound, hi: Bound, key: Bytes, l: Bytes)
    requires Content(inodes, lo, hi) && inodes != [] && lo == At(l) && Less(key, l)
    ensures ChildFor(inodes, key) == 0 && Less(key, inodes[0].key)
  {
    hide Less;
    Order();
    assert Above(inodes[0].key, lo);
    RankCorrect(inodes, key);
  }

  lemma DeleteLeafBelow(t: Tree, l: Bytes, hi: Bound, key: Bytes)
    requires Shape(t, At(l), hi, 0, 2) && Less(key, l) && Tight(t)
    ensures var r := DeleteKey(t, key); Shape(r, At(l), hi, 0, 2) && Tight(r) && Edited(r, t)
  {
    hide Less;
    Order();
    RankCorrect(t.inodes, key);
    assert Body(t.inodes, t.kids, At(l), hi, 0);
  }

  /** Deleting a key below all others only reads nodes into memory. */
  lemma {:induction false} DeleteBelow(t: Tree, l: Bytes, hi: Bound, h: nat, key: Bytes)
    requires Shape(t, At(l), hi, h, 2) && Tight(t) && Less(key, l)
    ensures var r := DeleteKey(t, key); Shape(r, At(l), hi, h, 2) && Tight(r) && Edited(r, t)
    decreases h
  {
    hide Less, Content, KidOk, Shape, Edited, ChildFor, Above, Below, DeleteFrom;
    BodyOf(t, At(l), hi, h);
    if h == 0 {
      DeleteLeafBelow(t, l, hi, key);
    } else {
      ManyKids(t, At(l), hi, h);
      FirstChild(t.inodes, At(l), hi, key, l);
      KidIs(t.inodes, t.kids, At(l), hi, h, 0);
      DeleteBelow(t.kids[0], t.inodes[0].key, HiAt(t.inodes, hi, 0), h - 1, key);
      EditKid(t, At(l), hi, h, 0, DeleteKey(t.kids[0], key), DeleteKey(t, key));
    }
  }

  lemma {:induction false} EditsAbove(t: Tree, edits: seq<Edit>, l: Bytes, h: nat)
    requires Shape(t, At(l), Open, h, 2) && Tight(t) && Leads(t, l) && PutsFrom(edits, l)
    ensures var r := EditTree(t, edits); Shape(r, At(l), Open, h, 2) && Tight(r) && Leads(r, l)
    decreases |edits|
  {
    hide Less, Tight, Shape, PutKey, DeleteKey;
    if edits != [] {
      Order();
      var front, last := edits[..|edits| - 1], edits[|edits| - 1];
      EditsAbove(t, front, l, h);
      var t' := EditTree(t, front);
      match last {
        case PutEdit(key, value) =>
          PutMeaning(t', At(l), Open, h, key, Inode(0, 0, key, value));
        case DeleteEdit(key) =>
          if AtMost(l, key) {
            DeleteMeaning(t', At(l), Open, h, key);
          } else {
            DeleteBelow(t', l, Open, h, key);
          }
      }
    }
  }

  lemma AboveNothing(t: Tree)
    requires Shape(t, Open, Open, 0, 2)
    ensures Shape(t, At([]), Open, 0, 2)
  {
    assert Body(t.inodes, t.kids, Open, Open, 0);
  }

  lemma PutsAnywhere(edits: seq<Edit>)
    ensures PutsFrom(edits, [])
  {
  }

  /** So after the edits no separator has a key below it. */
  lemma EditsBounded(t: Tree, edits: seq<Edit>) returns (l: Bytes)
    requires FileRoot(t) && PutsInside(t, edits)
    ensures Bounded(EditTree(t, edits), At(l))
  {
    hide Shape, OnFile, Entries, Less;
    FileRootMeans(t);
    var h: nat :| Shape(t, Open, Open, h, 2);
    BodyOf(t, Open, Open, h);
    if t.isLeaf {
      l := [];
      AboveNothing(t);
    } else {
      ManyKids(t, Open, Open, h);
      l := t.inodes[0].key;
      FileFirst(t, Open, Open, h);
    }
    if t.isLeaf { PutsAnywhere(edits); }
    EditsAbove(t, edits, l, h);
  }

  /** With no key put below the first one, marked nodes can be rebalanced in every order, and there is an
      order that leaves no mark. */
  lemma TransactionRuns(t: Tree, edits: seq<Edit>, pageSize: nat)
    requires FileRoot(t) && PutsInside(t, edits)
    ensures forall paths | Picks(EditTree(t, edits), paths, pageSize) :: CanRun(EditTree(t, edits), paths, pageSize)
    ensures exists paths | CanRun(EditTree(t, edits), paths, pageSize) ::
      Marks(RunAll(EditTree(t, edits), paths, pageSize).tree) == multiset{}
  {
    hide FileRoot, PutsInside, Bounded, CanRun, RunAll, Marks;
    var l := EditsBounded(t, edits);
    forall paths | Picks(EditTree(t, edits), paths, pageSize) ensures CanRun(EditTree(t, edits), paths, pageSize) {
      EveryOrder(EditTree(t, edits), paths, pageSize, l);
    }
    var paths := CompleteRun(EditTree(t, edits), pageSize, l);
  }

  /** So the transaction does what its edits do to a sorted list in whatever order its nodes are
      rebalanced, until none is marked. */
  lemma TransactionAlways(t: Tree, edits: seq<Edit>, paths: seq<seq<nat>>, pageSize: nat, threshold: int,
                          alloc: Allocator, log: seq<Tree>)
    requires FileRoot(t) && PutsInside(t, edits) && Positive(alloc)
    requires Picks(EditTree(t, edits), paths, pageSize)
    ensures CanRun(EditTree(t, edits), paths, pageSize)
    ensures var run := RunAll(EditTree(t, edits), paths, pageSize);
      |paths| + |Marks(run.tree)| <= |Marks(EditTree(t, edits))|
      && (Marks(run.tree) == multiset{} ==>
        var r := Save(run.tree, pageSize, threshold, alloc, log);
        && FileRoot(r.root) && Entries(r.root) == EditList(Entries(t), edits)
        && (forall e :: e in Entries(r.root) <==> Survives(Entries(t), edits, e))
        && PageIds(r.root) + (run.freed + r.freed) == PageIds(t) + Given(r.wrote))
  {
    hide FileRoot, PutsInside, Picks, CanRun, RunAll, Marks, EditTree, Save, Entries, PageIds, Given, Survives, EditList;
    var l := EditsBounded(t, edits);
    EveryOrder(EditTree(t, edits), paths, pageSize, l);
    RunMeaning(EditTree(t, edits), paths, pageSize, At(l));
    if Marks(RunAll(EditTree(t, edits), paths, pageSize).tree) == multiset{} {
      TransactionMeaning(t, edits, paths, pageSize, threshold, alloc, log);
    }
  }
}
