/** What spilling leaves behind: a tree of nodes that were on file before or were written now, each of
    these at the page its allocator gave. */
module SpillLog {
  import opened Keys
  import opened Nodes
  import opened BTree
  import opened Spill

  ghost function SetOf(nodes: seq<Tree>): set<Tree> {
    set n | n in nodes
  }

  /** Every node is where the allocator put it, after the nodes before it. */
  ghost predicate Follows(wrote: seq<Tree>, alloc: Allocator, log: seq<Tree>) {
    forall k | 0 <= k < |wrote| :: wrote[k].pgid == alloc(log + wrote[..k], wrote[k].inodes)
  }

  lemma FollowsPlus(a: seq<Tree>, b: seq<Tree>, alloc: Allocator, log: seq<Tree>)
    requires Follows(a, alloc, log) && Follows(b, alloc, log + a)
    ensures Follows(a + b, alloc, log)
  {
    var c := a + b;
    forall k | 0 <= k < |c| ensures c[k].pgid == alloc(log + c[..k], c[k].inodes) {
      if k < |a| {
        assert c[..k] == a[..k];
      } else {
        assert log + c[..k] == (log + a) + b[..k - |a|];
      }
    }
  }

  lemma {:induction false} NodesPlus(a: seq<Tree>, b: seq<Tree>)
    ensures NodesBelow(a + b) == NodesBelow(a) + NodesBelow(b)
  {
    hide NodesIn;
    if a == [] {
      assert a + b == b;
    } else {
      assert (a + b)[1..] == a[1..] + b;
      NodesPlus(a[1..], b);
    }
  }

  lemma NodesOne(n: Tree)
    ensures NodesBelow([n]) == NodesIn(n)
  {
    hide NodesIn;
    assert NodesBelow([n][1..]) == {};
  }

  lemma NoNodes()
    ensures NodesBelow([]) == {}
  {
  }

  lemma NodesCut(kids: seq<Tree>, k: nat)
    ensures NodesBelow(Take(kids, k)) <= NodesBelow(kids) && NodesBelow(Rest(kids, k)) <= NodesBelow(kids)
  {
    hide NodesBelow;
    if k <= |kids| {
      assert kids == kids[..k] + kids[k..];
      NodesPlus(kids[..k], kids[k..]);
    } else {
      NoNodes();
    }
  }

  /** Nodes that were there before, or are among those written. */
  ghost predicate Sourced(nodes: seq<Tree>, have: set<Tree>, wrote: seq<Tree>) {
    NodesBelow(nodes) <= have + SetOf(wrote)
  }

  lemma NodeAbove(n: Tree)
    ensures NodesIn(n) == {n} + NodesBelow(n.kids)
  {
  }

  lemma {:induction false} CutUpLog(isLeaf: bool, kids: seq<Tree>, parts: seq<seq<Inode>>, alloc: Allocator, log: seq<Tree>,
                                    have: set<Tree>)
    requires NodesBelow(kids) <= have
    ensures var nodes := CutUp(isLeaf, kids, parts, alloc, log); Sourced(nodes, have, nodes) && Follows(nodes, alloc, log)
    decreases |parts|
  {
    hide NodesBelow, NodesIn, CutUp;
    if parts == [] {
      NoNodes();
      assert CutUp(isLeaf, kids, parts, alloc, log) == [];
    } else {
      var nodes := CutUp(isLeaf, kids, parts, alloc, log);
      var first, k := nodes[0], |parts[0]|;
      CutUpStep(isLeaf, kids, parts, alloc, log);
      NodesCut(kids, k);
      CutUpLog(isLeaf, Rest(kids, k), parts[1..], alloc, log + [first], have);
      NodesPlus([first], nodes[1..]);
      NodesOne(first);
      NodeAbove(first);
      assert log + [] == log;
      FollowsPlus([first], nodes[1..], alloc, log);
    }
  }

  ghost predicate MixedOrFile(k: Tree, file: set<Tree>) {
    if k.loaded then Mixed(k, file) else NodesIn(k) <= file
  }

  lemma MixedKids(n: Tree, file: set<Tree>)
    requires Mixed(n, file)
    ensures forall i | 0 <= i < |n.kids| :: MixedOrFile(n.kids[i], file)
  {
    hide OnFile;
  }

  lemma {:induction false} KidsLog(inodes: seq<Inode>, done: seq<Tree>, rest: seq<Tree>, pageSize: nat, threshold: int,
                                   alloc: Allocator, log: seq<Tree>, file: set<Tree>, have: set<Tree>)
    requires NodesBelow(done) <= have && file <= have
    requires forall i | 0 <= i < |rest| :: MixedOrFile(rest[i], file)
    ensures var r := SpillKids(inodes, done, rest, pageSize, threshold, alloc, log);
      Sourced(r.kids, have, r.wrote) && Follows(r.wrote, alloc, log)
    decreases rest, 0
  {
    hide NodesBelow, NodesIn, SpillNode, Mixed, OnFile, PutNodes;
    if rest == [] {
    } else if !rest[0].loaded {
      assert MixedOrFile(rest[0], file);
      NodesPlus(done, [rest[0]]);
      NodesOne(rest[0]);
      KidsLog(inodes, done + [rest[0]], rest[1..], pageSize, threshold, alloc, log, file, have);
    } else {
      assert MixedOrFile(rest[0], file);
      var s := SpillNode(rest[0], pageSize, threshold, alloc, log);
      NodeLog(rest[0], pageSize, threshold, alloc, log, file);
      var inodes' := if AllFilled(s.nodes) then PutNodes(inodes, rest[0].key, s.nodes) else inodes;
      NodesPlus(done, s.nodes);
      KidsLog(inodes', done + s.nodes, rest[1..], pageSize, threshold, alloc, log + s.wrote, file, have + SetOf(s.wrote));
      var row := SpillKids(inodes', done + s.nodes, rest[1..], pageSize, threshold, alloc, log + s.wrote);
      FollowsPlus(s.wrote, row.wrote, alloc, log);
    }
  }

  lemma {:induction false} NodeLog(n: Tree, pageSize: nat, threshold: int, alloc: Allocator, log: seq<Tree>, file: set<Tree>)
    requires Mixed(n, file)
    ensures var s := SpillNode(n, pageSize, threshold, alloc, log);
      Sourced(s.nodes, file, s.wrote) && Follows(s.wrote, alloc, log)
    decreases n, 1
  {
    hide NodesBelow, NodesIn, CutUp, Parts, Mixed, OnFile;
    MixedKids(n, file);
    NoNodes();
    var row := SpillKids(n.inodes, [], n.kids, pageSize, threshold, alloc, log);
    var parts := Parts(row.inodes, pageSize, threshold);
    KidsLog(n.inodes, [], n.kids, pageSize, threshold, alloc, log, file, file);
    CutUpLog(n.isLeaf, row.kids, parts, alloc, log + row.wrote, file + SetOf(row.wrote));
    FollowsPlus(row.wrote, CutUp(n.isLeaf, row.kids, parts, alloc, log + row.wrote), alloc, log);
  }

  lemma {:induction false} GrowLog(nodes: seq<Tree>, pageSize: nat, threshold: int, alloc: Allocator, log: seq<Tree>, have: set<Tree>)
    requires nodes != [] && AllFilled(nodes) && NodesBelow(nodes) <= have
    ensures var g := Grow(nodes, pageSize, threshold, alloc, log);
      NodesIn(g.root) <= have + SetOf(g.wrote) && Follows(g.wrote, alloc, log)
    decreases |nodes|
  {
    hide NodesBelow, NodesIn, CutUp, Parts, PutNodes;
    KidNodes(nodes, 0);
    if |nodes| > 1 {
      var parts := Parts(PutNodes([], nodes[0].inodes[0].key, nodes), pageSize, threshold);
      var above := CutUp(false, nodes, parts, alloc, log);
      CutUpLog(false, nodes, parts, alloc, log, have);
      if AllFilled(above) {
        GrowLog(above, pageSize, threshold, alloc, log + above, have + SetOf(above));
        FollowsPlus(above, Grow(above, pageSize, threshold, alloc, log + above).wrote, alloc, log);
      }
    }
  }

  lemma NodeParts(n: Tree, pageSize: nat, threshold: int, alloc: Allocator, log: seq<Tree>)
    ensures SpillNode(n, pageSize, threshold, alloc, log).nodes != []
  {
    hide SpillKids;
  }

  /** Spilling a bucket leaves nodes that were on file and nodes that were written, in the order of the
      allocations. */
  lemma SpillLogged(root: Tree, pageSize: nat, threshold: int, alloc: Allocator, log: seq<Tree>, file: set<Tree>)
    requires Mixed(root, file)
    ensures var r := SpillRoot(root, pageSize, threshold, alloc, log);
      NodesIn(r.root) <= file + SetOf(r.wrote) && Follows(r.wrote, alloc, log)
  {
    hide NodesBelow, NodesIn, SpillNode, Grow, Mixed;
    var s := SpillNode(root, pageSize, threshold, alloc, log);
    NodeLog(root, pageSize, threshold, alloc, log, file);
    NodeParts(root, pageSize, threshold, alloc, log);
    KidNodes(s.nodes, 0);
    if AllFilled(s.nodes) {
      GrowLog(s.nodes, pageSize, threshold, alloc, log + s.wrote, file + SetOf(s.wrote));
      FollowsPlus(s.wrote, Grow(s.nodes, pageSize, threshold, alloc, log + s.wrote).wrote, alloc, log);
    }
  }

  // ---- The pages given back ----

  lemma {:induction false} LoadedBelowWithin(kids: seq<Tree>)
    ensures LoadedBelow(kids) <= AllIds(kids)
    decreases kids, 0
  {
    hide LoadedIds, PageIds;
    if kids != [] {
      LoadedWithin(kids[0]);
      LoadedBelowWithin(kids[1..]);
    }
  }

  /** Only pages of nodes of the tree are given back. */
  lemma {:induction false} LoadedWithin(n: Tree)
    ensures LoadedIds(n) <= PageIds(n)
    decreases n, 1
  {
    LoadedBelowWithin(n.kids);
  }
}
