/** Writing a bucket's tree at commit: changed nodes are split, get fresh pages, and are put into
    their parents under their first keys. */
module Spill {
  import opened Keys
  import opened Nodes
  import opened BTree
  import opened TreeLookup

  /** A node written to its page, with all nodes below it. Its parent knows it by its first key. */
  ghost predicate OnFile(n: Tree) {
    && !n.loaded && !n.unbalanced && n.inodes != [] && n.inodes[0].key == n.key
    && forall i | 0 <= i < |n.kids| :: OnFile(n.kids[i])
  }

  ghost function NodesBelow(kids: seq<Tree>): set<Tree> {
    if kids == [] then {} else NodesIn(kids[0]) + NodesBelow(kids[1..])
  }

  /** All nodes of a tree. */
  ghost function NodesIn(t: Tree): set<Tree> {
    {t} + NodesBelow(t.kids)
  }

  lemma {:induction false} KidNodes(kids: seq<Tree>, i: nat)
    requires i < |kids|
    ensures NodesIn(kids[i]) <= NodesBelow(kids)
  {
    hide NodesIn;
    if i > 0 { KidNodes(kids[1..], i - 1); }
  }

  /** Below a node in memory, every node is in memory or as it is on file, among the nodes `file`. */
  ghost predicate Mixed(n: Tree, file: set<Tree>) {
    forall i | 0 <= i < |n.kids| ::
      if n.kids[i].loaded then Mixed(n.kids[i], file) else OnFile(n.kids[i]) && NodesIn(n.kids[i]) <= file
  }

  /** No node is empty. */
  ghost predicate NoneEmpty(n: Tree) {
    n.inodes != [] && forall i | 0 <= i < |n.kids| :: NoneEmpty(n.kids[i])
  }

  /** The page a node is written to, for its elements and the nodes written before it. */
  type Allocator = (seq<Tree>, seq<Inode>) -> nat

  ghost predicate Positive(alloc: Allocator) {
    forall log, inodes :: alloc(log, inodes) > 0
  }

  /** The nodes a node became, the pages given back, and all nodes written, in this order. */
  datatype Spilled = Spilled(nodes: seq<Tree>, freed: multiset<nat>, wrote: seq<Tree>)

  datatype Row = Row(inodes: seq<Inode>, kids: seq<Tree>, freed: multiset<nat>, wrote: seq<Tree>)

  /** The entry of a written node in its parent. */
  function Head(n: Tree): Inode
    requires n.inodes != []
  {
    Inode(0, n.pgid, n.inodes[0].key, [])
  }

  function Heads(nodes: seq<Tree>): (inodes: seq<Inode>)
    requires forall i | 0 <= i < |nodes| :: nodes[i].inodes != []
    ensures |inodes| == |nodes| && forall i | 0 <= i < |nodes| :: inodes[i] == Head(nodes[i])
  {
    seq(|nodes|, i requires 0 <= i < |nodes| => Head(nodes[i]))
  }

  /** The nodes cut from one node, written to the pages the allocator gives. */
  function CutUp(isLeaf: bool, kids: seq<Tree>, parts: seq<seq<Inode>>, alloc: Allocator, log: seq<Tree>): (nodes: seq<Tree>)
    ensures |nodes| == |parts| && forall i | 0 <= i < |nodes| :: nodes[i].inodes == parts[i]
    decreases |parts|
  {
    if parts == [] then [] else
      var key := if parts[0] == [] then [] else parts[0][0].key;
      var first := Tree(isLeaf, false, false, key, alloc(log, parts[0]), parts[0], Take(kids, |parts[0]|));
      [first] + CutUp(isLeaf, Rest(kids, |parts[0]|), parts[1..], alloc, log + [first])
  }

  /** Puts the nodes a child was split into under their first keys; the first replaces the child. */
  function PutNodes(inodes: seq<Inode>, key: Bytes, nodes: seq<Tree>): (r: seq<Inode>)
    requires forall i | 0 <= i < |nodes| :: nodes[i].inodes != []
    ensures |r| <= |inodes| + |nodes|
    decreases |nodes|
  {
    if nodes == [] then inodes
    else
      var put := PutInto(inodes, key, Head(nodes[0]));
      PutNodes(put, if |nodes| > 1 then nodes[1].inodes[0].key else [], nodes[1..])
  }

  function Own(n: Tree): multiset<nat> {
    if n.pgid > 0 then multiset{n.pgid} else multiset{}
  }

  predicate AllFilled(nodes: seq<Tree>) {
    forall i | 0 <= i < |nodes| :: nodes[i].inodes != []
  }

  function SpillKids(inodes: seq<Inode>, done: seq<Tree>, rest: seq<Tree>, pageSize: nat, threshold: int,
                     alloc: Allocator, log: seq<Tree>): Row
    decreases rest, 0
  {
    if rest == [] then Row(inodes, done, multiset{}, [])
    else if !rest[0].loaded then SpillKids(inodes, done + [rest[0]], rest[1..], pageSize, threshold, alloc, log)
    else
      var s := SpillNode(rest[0], pageSize, threshold, alloc, log);
      var inodes' := if AllFilled(s.nodes) then PutNodes(inodes, rest[0].key, s.nodes) else inodes;
      var row := SpillKids(inodes', done + s.nodes, rest[1..], pageSize, threshold, alloc, log + s.wrote);
      row.(freed := s.freed + row.freed, wrote := s.wrote + row.wrote)
  }

  /** Children first, in order; then the node itself is split and every part gets its page. */
  function SpillNode(n: Tree, pageSize: nat, threshold: int, alloc: Allocator, log: seq<Tree>): Spilled
    decreases n, 1
  {
    var row := SpillKids(n.inodes, [], n.kids, pageSize, threshold, alloc, log);
    var parts := Parts(row.inodes, pageSize, threshold);
    var nodes := CutUp(n.isLeaf, row.kids, parts, alloc, log + row.wrote);
    Spilled(nodes, row.freed + Own(n), row.wrote + nodes)
  }

  datatype Grown = Grown(root: Tree, wrote: seq<Tree>)

  /** When the root was split, a new parent is put above the parts and written in the same way. */
  function Grow(nodes: seq<Tree>, pageSize: nat, threshold: int, alloc: Allocator, log: seq<Tree>): Grown
    requires nodes != [] && AllFilled(nodes)
    decreases |nodes|
  {
    if |nodes| == 1 then Grown(nodes[0], [])
    else
      var inodes := PutNodes([], nodes[0].inodes[0].key, nodes);
      var parts := Parts(inodes, pageSize, threshold);
      var above := CutUp(false, nodes, parts, alloc, log);
      if AllFilled(above) then
        var g := Grow(above, pageSize, threshold, alloc, log + above);
        Grown(g.root, above + g.wrote)
      else Grown(nodes[0], [])
  }

  datatype Saved = Saved(root: Tree, freed: multiset<nat>, wrote: seq<Tree>)

  /** `spill` on the root of a bucket. */
  function SpillRoot(root: Tree, pageSize: nat, threshold: int, alloc: Allocator, log: seq<Tree>): Saved {
    var s := SpillNode(root, pageSize, threshold, alloc, log);
    if s.nodes != [] && AllFilled(s.nodes) then
      var g := Grow(s.nodes, pageSize, threshold, alloc, log + s.wrote);
      Saved(g.root, s.freed, s.wrote + g.wrote)
    else if s.nodes != [] then Saved(s.nodes[0], s.freed, s.wrote)
    else Saved(root, s.freed, s.wrote)
  }

  function LoadedBelow(kids: seq<Tree>): multiset<nat> {
    if kids == [] then multiset{}
    else (if kids[0].loaded then LoadedIds(kids[0]) else multiset{}) + LoadedBelow(kids[1..])
  }

  /** The pages of the nodes in memory. */
  function LoadedIds(n: Tree): multiset<nat> {
    multiset{n.pgid} + LoadedBelow(n.kids)
  }

  /** The pages of written nodes. */
  function Given(wrote: seq<Tree>): multiset<nat> {
    if wrote == [] then multiset{} else multiset{wrote[0].pgid} + Given(wrote[1..])
  }

  // ---- Rows of written nodes ----

  /** Nodes as children of a parent that knows each by its first key. */
  ghost predicate Written(nodes: seq<Tree>, lo: Bound, hi: Bound, h: nat) {
    && nodes != [] && (forall i | 0 <= i < |nodes| :: nodes[i].inodes != [] && OnFile(nodes[i]))
    && Body(Heads(nodes), nodes, lo, hi, h)
  }

  lemma NarrowFirst(inodes: seq<Inode>, kids: seq<Tree>, lo: Bound, hi: Bound, h: nat)
    requires Body(inodes, kids, lo, hi, h) && inodes != [] && lo.At?
    ensures Body(inodes, kids, At(inodes[0].key), hi, h)
  {
    hide Less, Shape;
    Order();
    forall i | 0 <= i < |kids| ensures KidOk(inodes, kids[i], At(inodes[0].key), hi, h, i) {
      assert KidOk(inodes, kids[i], lo, hi, h, i);
    }
  }

  lemma OneWritten(n: Tree, lo: Bound, hi: Bound, h: nat)
    requires OnFile(n) && n.pgid > 0 && Shape(n, lo, hi, h, 2)
    ensures Written([n], lo, hi, h + 1)
  {
    hide Less, Above, Below;
    assert Body(n.inodes, n.kids, lo, hi, h);
    assert Above(n.inodes[0].key, lo) && Below(n.inodes[0].key, hi);
    if lo.At? { NarrowFirst(n.inodes, n.kids, lo, hi, h); }
    assert KidOk(Heads([n]), n, lo, hi, h + 1, 0);
  }

  lemma JoinWritten(a: seq<Tree>, b: seq<Tree>, lo: Bound, mid: Bytes, hi: Bound, h: nat)
    requires Written(a, lo, At(mid), h) && Written(b, At(mid), hi, h)
    requires LoWider(lo, At(mid)) && HiWider(hi, At(mid))
    ensures Written(a + b, lo, hi, h)
  {
    hide Less, Shape, OnFile, Content, KidOk;
    JoinBody(Heads(a), a, Heads(b), b, lo, mid, hi, h);
    assert Heads(a + b) == Heads(a) + Heads(b);
  }

  lemma CutUpFirst(isLeaf: bool, kids: seq<Tree>, parts: seq<seq<Inode>>, alloc: Allocator, log: seq<Tree>)
    requires parts != [] && parts[0] != []
    ensures var nodes, first := CutUp(isLeaf, kids, parts, alloc, log), parts[0];
      && nodes == [nodes[0]] + CutUp(isLeaf, Rest(kids, |first|), parts[1..], alloc, log + [nodes[0]])
      && nodes[0] == Tree(isLeaf, false, false, first[0].key, alloc(log, first), first, Take(kids, |first|))
  {
  }

  lemma SecondPart(parts: seq<seq<Inode>>)
    requires |parts| > 1 && forall i | 0 <= i < |parts| :: parts[i] != []
    ensures |parts[0]| < |Concat(parts)|
  {
    assert parts[1..][0] == parts[1];
    assert Concat(parts[1..]) == parts[1] + Concat(parts[1..][1..]);
  }

  lemma PartsFront(parts: seq<seq<Inode>>)
    requires parts != [] && forall i | 0 <= i < |parts| :: parts[i] != []
    ensures var whole, k := Concat(parts), |parts[0]|;
      && k <= |whole| && whole[..k] == parts[0] && whole[k..] == Concat(parts[1..])
      && (|parts| == 1 ==> whole == parts[0])
      && (|parts| > 1 ==> k < |whole|)
  {
    if |parts| > 1 { SecondPart(parts); }
  }

  lemma CutBounds(inodes: seq<Inode>, lo: Bound, hi: Bound, k: nat)
    requires Content(inodes, lo, hi) && k < |inodes|
    ensures LoWider(lo, At(inodes[k].key)) && HiWider(hi, At(inodes[k].key))
  {
    hide Less;
    assert Above(inodes[k].key, lo) && Below(inodes[k].key, hi);
  }

  lemma CutHere(inodes: seq<Inode>, kids: seq<Tree>, lo: Bound, hi: Bound, h: nat, k: nat)
    requires Body(inodes, kids, lo, hi, h) && 0 < k < |inodes|
    requires forall i | 0 <= i < |kids| :: OnFile(kids[i])
    ensures Body(inodes[..k], Take(kids, k), lo, At(inodes[k].key), h)
    ensures Body(inodes[k..], Rest(kids, k), At(inodes[k].key), hi, h)
    ensures LoWider(lo, At(inodes[k].key)) && HiWider(hi, At(inodes[k].key))
    ensures forall i | 0 <= i < |Take(kids, k)| :: OnFile(Take(kids, k)[i])
    ensures forall i | 0 <= i < |Rest(kids, k)| :: OnFile(Rest(kids, k)[i])
    ensures Take(Take(kids, k), k) == Take(kids, k)
  {
    hide OnFile, KidOk, Content;
    CutBody(inodes, kids, lo, hi, h, k);
    CutBounds(inodes, lo, hi, k);
  }

  lemma WholePart(isLeaf: bool, inodes: seq<Inode>, kids: seq<Tree>, n: Tree, lo: Bound, hi: Bound, h: nat)
    requires Body(inodes, kids, lo, hi, h) && (isLeaf <==> h == 0) && |inodes| >= (if isLeaf then 1 else 2)
    requires forall i | 0 <= i < |kids| :: OnFile(kids[i])
    requires n.isLeaf == isLeaf && n.inodes == inodes && n.pgid > 0
    requires !n.loaded && !n.unbalanced && n.key == inodes[0].key && n.kids == Take(kids, |inodes|)
    ensures Written([n], lo, hi, h + 1)
  {
    hide Content, KidOk;
    assert n.kids == kids;
    assert Shape(n, lo, hi, h, 2);
    OneWritten(n, lo, hi, h);
  }

  /** Cutting up a node gives nodes that can stand side by side in a parent. */
  lemma {:induction false} CutUpWritten(isLeaf: bool, inodes: seq<Inode>, kids: seq<Tree>, parts: seq<seq<Inode>>,
                                        alloc: Allocator, log: seq<Tree>, lo: Bound, hi: Bound, h: nat)
    requires Body(inodes, kids, lo, hi, h) && (isLeaf <==> h == 0)
    requires Concat(parts) == inodes && parts != []
    requires forall i | 0 <= i < |parts| :: |parts[i]| >= (if isLeaf then 1 else 2)
    requires forall i | 0 <= i < |kids| :: OnFile(kids[i])
    requires Positive(alloc)
    ensures Written(CutUp(isLeaf, kids, parts, alloc, log), lo, hi, h + 1)
    decreases |parts|
  {
    hide Less, Content, KidOk, Shape, OnFile, Body, Written, LoWider, HiWider, Concat, CutUp;
    var k := |parts[0]|;
    PartsFront(parts);
    CutUpFirst(isLeaf, kids, parts, alloc, log);
    var rest := parts[1..];
    var first := CutUp(isLeaf, kids, parts, alloc, log)[0];
    var below := CutUp(isLeaf, Rest(kids, k), rest, alloc, log + [first]);
    if |parts| == 1 {
      var nodes := CutUp(isLeaf, kids, parts, alloc, log);
      WholePart(isLeaf, inodes, kids, nodes[0], lo, hi, h);
      assert nodes == [nodes[0]];
    } else {
      CutHere(inodes, kids, lo, hi, h, k);
      CutUpWritten(isLeaf, inodes[k..], Rest(kids, k), rest, alloc, log + [first], At(inodes[k].key), hi, h);
      WholePart(isLeaf, inodes[..k], Take(kids, k), first, lo, At(inodes[k].key), h);
      JoinWritten([first], below, lo, inodes[k].key, hi, h + 1);
    }
  }

  // ---- Entries and pages ----

  lemma CutUpStep(isLeaf: bool, kids: seq<Tree>, parts: seq<seq<Inode>>, alloc: Allocator, log: seq<Tree>)
    requires parts != []
    ensures var nodes, k := CutUp(isLeaf, kids, parts, alloc, log), |parts[0]|;
      && nodes == [nodes[0]] + nodes[1..] && nodes[1..] == CutUp(isLeaf, Rest(kids, k), parts[1..], alloc, log + [nodes[0]])
      && nodes[0].isLeaf == isLeaf && nodes[0].inodes == parts[0] && nodes[0].kids == Take(kids, k)
      && nodes[0].pgid == alloc(log, parts[0])
  {
  }

  lemma NoIds(kids: seq<Tree>)
    requires |kids| == 0
    ensures AllIds(kids) == multiset{}
  {
  }

  lemma Shuffle(a: multiset<nat>, b: multiset<nat>, c: multiset<nat>, d: multiset<nat>)
    ensures (a + b) + (c + d) == (b + c) + (a + d)
  {
  }

  lemma GivenFirst(wrote: seq<Tree>)
    requires wrote != []
    ensures Given(wrote) == multiset{wrote[0].pgid} + Given(wrote[1..])
  {
  }

  lemma GivenNone()
    ensures Given([]) == multiset{}
  {
  }

  lemma {:induction false} CutUpEntries(isLeaf: bool, inodes: seq<Inode>, kids: seq<Tree>, parts: seq<seq<Inode>>,
                                        alloc: Allocator, log: seq<Tree>)
    requires Concat(parts) == inodes && |kids| == (if isLeaf then 0 else |inodes|)
    ensures var nodes := CutUp(isLeaf, kids, parts, alloc, log);
      && AllEntries(nodes) == (if isLeaf then inodes else AllEntries(kids))
      && AllIds(nodes) == AllIds(kids) + Given(nodes)
    decreases |parts|
  {
    hide Given, AllEntries, AllIds, CutUp;
    if parts == [] {
      assert kids == [] && CutUp(isLeaf, kids, parts, alloc, log) == [];
      GivenNone();
      NoEntries(kids);
      NoIds(kids);
    } else {
      var k := |parts[0]|;
      var nodes := CutUp(isLeaf, kids, parts, alloc, log);
      CutUpEntries(isLeaf, Concat(parts[1..]), Rest(kids, k), parts[1..], alloc, log + [nodes[0]]);
      assert kids == Take(kids, k) + Rest(kids, k);
      AllEntriesPlus(Take(kids, k), Rest(kids, k));
      CutUpStep(isLeaf, kids, parts, alloc, log);
      AllEntriesPlus([nodes[0]], nodes[1..]);
      OneEntries(nodes[0]);
      GivenFirst(nodes);
      Shuffle(multiset{nodes[0].pgid}, AllIds(Take(kids, k)), AllIds(Rest(kids, k)), Given(nodes[1..]));
    }
  }

  lemma {:induction false} GivenPlus(a: seq<Tree>, b: seq<Tree>)
    ensures Given(a + b) == Given(a) + Given(b)
  {
    if a == [] {
      assert a + b == b;
    } else {
      assert (a + b)[1..] == a[1..] + b;
      GivenPlus(a[1..], b);
    }
  }

  lemma Assoc(a: multiset<nat>, b: multiset<nat>, c: multiset<nat>)
    ensures (a + b) + c == a + (b + c)
  {
  }

  // ---- Putting the written nodes into the parent ----

  lemma CutBoth(inodes: seq<Inode>, kids: seq<Tree>, lo: Bound, hi: Bound, h: nat, k: nat)
    requires Body(inodes, kids, lo, hi, h) && h > 0 && 0 < k < |kids| == |inodes|
    ensures Body(inodes[..k], kids[..k], lo, At(inodes[k].key), h)
    ensures Body(inodes[k..], kids[k..], At(inodes[k].key), hi, h)
    ensures LoWider(lo, At(inodes[k].key)) && HiWider(hi, At(inodes[k].key))
    ensures LoAt(inodes[..k], lo, k - 1) == LoAt(inodes, lo, k - 1)
    ensures inodes[..k][..k - 1] == inodes[..k - 1] && kids[..k][..k - 1] == kids[..k - 1]
  {
    hide KidOk, Content;
    CutBody(inodes, kids, lo, hi, h, k);
    CutBounds(inodes, lo, hi, k);
  }

  lemma WidenBody(inodes: seq<Inode>, heads: seq<Inode>, kids: seq<Tree>, nodes: seq<Tree>, lo: Bound, hi: Bound, h: nat)
    requires Body(inodes, kids, lo, hi, h) && inodes != [] && h > 0 && heads != []
    requires Body(heads, nodes, LoAt(inodes, lo, 0), hi, h)
    ensures Body(heads, nodes, lo, hi, h)
  {
    hide Less, Shape;
    Order();
    assert Above(inodes[0].key, lo);
    forall i | 0 <= i < |nodes| ensures KidOk(heads, nodes[i], lo, hi, h, i) {
      assert KidOk(heads, nodes[i], LoAt(inodes, lo, 0), hi, h, i);
    }
  }

  lemma ReplaceLast(inodes: seq<Inode>, kids: seq<Tree>, lo: Bound, hi: Bound, h: nat, i: nat, nodes: seq<Tree>)
    requires Body(inodes, kids, lo, hi, h) && h > 0 && i + 1 == |kids| == |inodes|
    requires Written(nodes, LoAt(inodes, lo, i), hi, h)
    ensures Body(inodes[..i] + Heads(nodes), kids[..i] + nodes, lo, hi, h)
  {
    hide Less, Content, KidOk, Shape, OnFile, Body, LoWider, HiWider;
    if i > 0 {
      CutBoth(inodes, kids, lo, hi, h, i);
      JoinBody(inodes[..i], kids[..i], Heads(nodes), nodes, lo, inodes[i].key, hi, h);
    } else {
      assert inodes[..i] + Heads(nodes) == Heads(nodes) && kids[..i] + nodes == nodes;
      WidenBody(inodes, Heads(nodes), kids, nodes, lo, hi, h);
    }
  }

  /** One child of a row replaced by the nodes it was split into. */
  lemma ReplaceKid(inodes: seq<Inode>, kids: seq<Tree>, lo: Bound, hi: Bound, h: nat, i: nat, nodes: seq<Tree>)
    requires Body(inodes, kids, lo, hi, h) && h > 0 && i < |kids|
    requires Written(nodes, LoAt(inodes, lo, i), HiAt(inodes, hi, i), h)
    ensures Body(inodes[..i] + Heads(nodes) + inodes[i + 1..], kids[..i] + nodes + kids[i + 1..], lo, hi, h)
  {
    hide Less, Content, KidOk, Shape, OnFile, Body, LoWider, HiWider;
    BodySize(inodes, kids, lo, hi, h);
    if i + 1 < |kids| {
      CutBoth(inodes, kids, lo, hi, h, i + 1);
      ReplaceLast(inodes[..i + 1], kids[..i + 1], lo, At(inodes[i + 1].key), h, i, nodes);
      JoinBody(inodes[..i] + Heads(nodes), kids[..i] + nodes, inodes[i + 1..], kids[i + 1..], lo, inodes[i + 1].key, hi, h);
    } else {
      ReplaceLast(inodes, kids, lo, hi, h, i, nodes);
      assert inodes[..i] + Heads(nodes) + inodes[i + 1..] == inodes[..i] + Heads(nodes);
      assert kids[..i] + nodes + kids[i + 1..] == kids[..i] + nodes;
    }
  }

  lemma InsertEmpty(key: Bytes, x: Inode)
    ensures PutInto([], key, x) == [x]
  {
  }

  /** New nodes go in between their neighbours, one after the other. */
  lemma {:induction false} PutRest(pre: seq<Inode>, post: seq<Inode>, nodes: seq<Tree>)
    requires AllFilled(nodes) && Sorted(pre + Heads(nodes) + post)
    ensures PutNodes(pre + post, if nodes == [] then [] else nodes[0].inodes[0].key, nodes) == pre + Heads(nodes) + post
    decreases |nodes|
  {
    hide Less, PutInto;
    if nodes != [] {
      var x, all := Head(nodes[0]), pre + Heads(nodes) + post;
      assert all[|pre|] == x;
      assert Between(pre, x.key, post) by {
        forall i | 0 <= i < |pre| ensures Less(pre[i].key, x.key) { assert all[i] == pre[i]; }
        forall i | 0 <= i < |post| ensures Less(x.key, post[i].key) { assert all[|pre| + |nodes| + i] == post[i]; }
      }
      Middle(pre, [], post, x.key, x);
      assert pre + [] + post == pre + post;
      InsertEmpty(x.key, x);
      assert all == (pre + [x]) + Heads(nodes[1..]) + post;
      PutRest(pre + [x], post, nodes[1..]);
    }
  }

  lemma PutFirst(inodes: seq<Inode>, key: Bytes, nodes: seq<Tree>)
    requires AllFilled(nodes) && nodes != []
    ensures PutNodes(inodes, key, nodes) == PutNodes(PutInto(inodes, key, Head(nodes[0])),
      if nodes[1..] == [] then [] else nodes[1..][0].inodes[0].key, nodes[1..])
  {
  }

  lemma KeyAt(inodes: seq<Inode>, i: nat)
    requires Sorted(inodes) && i < |inodes|
    ensures Rank(inodes, inodes[i].key) == i && Found(inodes, inodes[i].key)
  {
    hide Less;
    Order();
    RankCorrect(inodes, inodes[i].key);
    RankUnique(inodes, inodes[i].key, i, Rank(inodes, inodes[i].key));
  }

  /** Putting the nodes a child was split into replaces the child's entry by theirs. */
  lemma PutNodesIs(inodes: seq<Inode>, i: nat, nodes: seq<Tree>)
    requires Sorted(inodes) && i < |inodes| && AllFilled(nodes) && nodes != []
    requires Sorted(inodes[..i] + Heads(nodes) + inodes[i + 1..])
    ensures PutNodes(inodes, inodes[i].key, nodes) == inodes[..i] + Heads(nodes) + inodes[i + 1..]
  {
    hide Less, Sorted, Rank, Found, PutNodes;
    KeyAt(inodes, i);
    var x := Head(nodes[0]);
    var pre, post := inodes[..i] + [x], inodes[i + 1..];
    assert inodes[i := x] == pre + post;
    assert Heads(nodes) == [x] + Heads(nodes[1..]);
    Regroup(inodes[..i], [x], Heads(nodes[1..]), post);
    PutRest(pre, post, nodes[1..]);
    PutFirst(inodes, inodes[i].key, nodes);
  }

  // ---- The whole tree ----

  lemma FirstBounds(n: Tree, lo: Bound, hi: Bound, h: nat)
    requires Shape(n, lo, hi, h, 2) && n.inodes != []
    ensures Above(n.inodes[0].key, lo) && Below(n.inodes[0].key, hi)
  {
    hide Less, KidOk;
    assert Body(n.inodes, n.kids, lo, hi, h);
  }

  lemma SeparatorsApart(inodes: seq<Inode>, lo: Bound, hi: Bound, i: nat, j: nat, a: Bytes, b: Bytes)
    requires Content(inodes, lo, hi) && i < j < |inodes|
    requires Below(a, HiAt(inodes, hi, i)) && Above(b, LoAt(inodes, lo, j))
    ensures Less(a, b)
  {
    hide Less;
    Order();
    if i + 1 < j { assert Less(inodes[i + 1].key, inodes[j].key); }
  }

  /** The children come in the order of their first keys, which is the order they are spilled in. */
  lemma ChildrenInOrder(t: Tree, lo: Bound, hi: Bound, h: nat, i: nat, j: nat)
    requires Shape(t, lo, hi, h, 2) && i < j < |t.kids| && t.kids[i].inodes != [] && t.kids[j].inodes != []
    ensures Less(t.kids[i].inodes[0].key, t.kids[j].inodes[0].key)
  {
    hide Less, Content;
    BodyOf(t, lo, hi, h);
    KidIs(t.inodes, t.kids, lo, hi, h, i);
    KidIs(t.inodes, t.kids, lo, hi, h, j);
    FirstBounds(t.kids[i], LoAt(t.inodes, lo, i), HiAt(t.inodes, hi, i), h - 1);
    FirstBounds(t.kids[j], LoAt(t.inodes, lo, j), HiAt(t.inodes, hi, j), h - 1);
    SeparatorsApart(t.inodes, lo, hi, i, j, t.kids[i].inodes[0].key, t.kids[j].inodes[0].key);
  }

  /** What spilling a subtree gives: nodes with the same entries, known by their first keys, all on
      file. The pages of the nodes that were in memory are given back and new ones taken. */
  ghost predicate SpilledOk(s: Spilled, n: Tree, lo: Bound, hi: Bound, h: nat) {
    && Written(s.nodes, lo, hi, h + 1)
    && AllEntries(s.nodes) == Entries(n)
    && s.freed == LoadedIds(n)
    && AllIds(s.nodes) + s.freed == PageIds(n) + Given(s.wrote)
  }

  /** The children up to `done` are written, the others still to be looked at. */
  ghost predicate RowOk(r: Row, inodes: seq<Inode>, done: seq<Tree>, rest: seq<Tree>, lo: Bound, hi: Bound, h: nat) {
    && Body(r.inodes, r.kids, lo, hi, h) && (forall i | 0 <= i < |r.kids| :: OnFile(r.kids[i]))
    && |r.kids| >= |done| + |rest|
    && AllEntries(r.kids) == AllEntries(done + rest)
    && r.freed == LoadedBelow(rest)
    && AllIds(r.kids) + r.freed == AllIds(done + rest) + Given(r.wrote)
  }

  lemma SumNode(nodes: multiset<nat>, kids: multiset<nat>, freed: multiset<nat>, own: multiset<nat>, before: multiset<nat>,
                g1: multiset<nat>, g2: multiset<nat>, g: multiset<nat>)
    requires nodes == kids + g2 && kids + freed == before + g1 && g1 + g2 == g
    ensures nodes + (freed + own) == (own + before) + g
  {
    assert nodes + (freed + own) == (kids + freed) + (own + g2);
    assert (own + before) + g == (before + g1) + (own + g2);
  }

  lemma NodeFacts(n: Tree, lo: Bound, hi: Bound, h: nat, file: set<Tree>)
    requires Shape(n, lo, hi, h, 2) && Mixed(n, file) && NoneEmpty(n)
    ensures Body(n.inodes, n.kids, lo, hi, h) && n.inodes != [] && (n.isLeaf <==> h == 0)
    ensures n.isLeaf ==> n.kids == []
    ensures !n.isLeaf ==> |n.kids| >= 2
    ensures forall i | 0 <= i < |n.kids| ::
      NoneEmpty(n.kids[i]) && if n.kids[i].loaded then Mixed(n.kids[i], file) else OnFile(n.kids[i]) && NodesIn(n.kids[i]) <= file
  {
    hide Content, KidOk, OnFile;
  }

  lemma LeafRow(n: Tree, pageSize: nat, threshold: int, alloc: Allocator, log: seq<Tree>, lo: Bound, hi: Bound)
    requires Body(n.inodes, n.kids, lo, hi, 0) && n.kids == []
    ensures SpillKids(n.inodes, [], n.kids, pageSize, threshold, alloc, log) == Row(n.inodes, [], multiset{}, [])
    ensures LoadedBelow(n.kids) == multiset{} && Given([]) == multiset{}
  {
  }

  lemma RowSize(r: Row, lo: Bound, hi: Bound, h: nat)
    requires Body(r.inodes, r.kids, lo, hi, h)
    ensures |r.kids| == if h == 0 then 0 else |r.inodes|
  {
    hide Content, KidOk;
  }

  lemma WholeWhenOne(inodes: seq<Inode>, pageSize: nat, threshold: int)
    ensures Fits(inodes, pageSize) ==> Parts(inodes, pageSize, threshold) == [inodes]
  {
  }

  lemma PartSizes(inodes: seq<Inode>, pageSize: nat, threshold: int, least: nat)
    requires |inodes| >= least && least <= 2
    ensures var parts := Parts(inodes, pageSize, threshold);
      forall i | 0 <= i < |parts| :: |parts[i]| >= least
  {
    hide SizeOf, Parts;
    PartsBounded(inodes, pageSize, threshold);
    WholeWhenOne(inodes, pageSize, threshold);
  }

  lemma SumRow(kids: multiset<nat>, freed: multiset<nat>, freed0: multiset<nat>, mid: multiset<nat>, before: multiset<nat>,
               g1: multiset<nat>, g2: multiset<nat>, g: multiset<nat>)
    requires kids + freed == mid + g2 && mid + freed0 == before + g1 && g1 + g2 == g
    ensures kids + (freed0 + freed) == before + g
  {
    assert kids + (freed0 + freed) == (mid + g2) + freed0 == (mid + freed0) + g2;
    assert before + g == (before + g1) + g2;
  }

  lemma RowUp(row: Row, inodes: seq<Inode>, inodes': seq<Inode>, done: seq<Tree>, rest: seq<Tree>, s: Spilled,
              lo: Bound, hi: Bound, h: nat)
    requires rest != [] && rest[0].loaded && s.nodes != [] && s.freed == LoadedIds(rest[0])
    requires RowOk(row, inodes', done + s.nodes, rest[1..], lo, hi, h)
    requires AllEntries(done + s.nodes + rest[1..]) == AllEntries(done + rest)
    requires AllIds(done + s.nodes + rest[1..]) + s.freed == AllIds(done + rest) + Given(s.wrote)
    ensures RowOk(row.(freed := s.freed + row.freed, wrote := s.wrote + row.wrote), inodes, done, rest, lo, hi, h)
  {
    hide OnFile, Body, AllIds, AllEntries, Given, LoadedIds;
    GivenPlus(s.wrote, row.wrote);
    SumRow(AllIds(row.kids), row.freed, s.freed, AllIds(done + s.nodes + rest[1..]), AllIds(done + rest),
      Given(s.wrote), Given(row.wrote), Given(s.wrote + row.wrote));
  }

  lemma BodyContent(inodes: seq<Inode>, kids: seq<Tree>, lo: Bound, hi: Bound, h: nat)
    requires Body(inodes, kids, lo, hi, h)
    ensures Sorted(inodes)
  {
  }

  lemma OnePut(inodes: seq<Inode>, done: seq<Tree>, rest: seq<Tree>, lo: Bound, hi: Bound, h: nat, nodes: seq<Tree>)
    requires Body(inodes, done + rest, lo, hi, h) && h > 0 && rest != [] && |done| < |inodes|
    requires Written(nodes, LoAt(inodes, lo, |done|), HiAt(inodes, hi, |done|), h) && AllFilled(nodes) && nodes != []
    requires rest[0].key == inodes[|done|].key
    ensures Body(PutNodes(inodes, rest[0].key, nodes), done + nodes + rest[1..], lo, hi, h)
  {
    hide Less, Content, KidOk, Shape, Body, Written, Sorted, PutNodes;
    var i := |done|;
    ReplaceKid(inodes, done + rest, lo, hi, h, i, nodes);
    assert (done + rest)[..i] == done && (done + rest)[i + 1..] == rest[1..];
    BodyContent(inodes, done + rest, lo, hi, h);
    BodyContent(inodes[..i] + Heads(nodes) + inodes[i + 1..], done + nodes + rest[1..], lo, hi, h);
    PutNodesIs(inodes, i, nodes);
  }

  lemma SumKids(a: multiset<nat>, n: multiset<nat>, b: multiset<nat>, freed: multiset<nat>, c: multiset<nat>, g: multiset<nat>)
    requires n + freed == c + g
    ensures (a + n + b) + freed == (a + (c + b)) + g
  {
    assert (a + n + b) + freed == a + b + (n + freed);
    assert (a + (c + b)) + g == a + b + (c + g);
  }

  lemma WrittenFacts(nodes: seq<Tree>, lo: Bound, hi: Bound, h: nat)
    requires Written(nodes, lo, hi, h)
    ensures AllFilled(nodes) && nodes != [] && forall i | 0 <= i < |nodes| :: OnFile(nodes[i])
  {
    hide OnFile, Body;
  }

  /** One child written: its nodes stand in its place. */
  lemma OneReplaced(inodes: seq<Inode>, done: seq<Tree>, rest: seq<Tree>, lo: Bound, hi: Bound, h: nat, s: Spilled)
    requires Body(inodes, done + rest, lo, hi, h) && h > 0 && rest != [] && |done| < |inodes|
    requires SpilledOk(s, rest[0], LoAt(inodes, lo, |done|), HiAt(inodes, hi, |done|), h - 1)
    requires (forall i | 0 <= i < |done| :: OnFile(done[i])) && rest[0].key == inodes[|done|].key
    ensures AllFilled(s.nodes) && s.nodes != []
    ensures Body(PutNodes(inodes, rest[0].key, s.nodes), done + s.nodes + rest[1..], lo, hi, h)
    ensures forall i | 0 <= i < |done + s.nodes| :: OnFile((done + s.nodes)[i])
    ensures AllEntries(done + s.nodes + rest[1..]) == AllEntries(done + rest)
    ensures AllIds(done + s.nodes + rest[1..]) + s.freed == AllIds(done + rest) + Given(s.wrote)
  {
    hide Less, Content, KidOk, Shape, OnFile, Body, AllIds, AllEntries, Given, Entries, PageIds, LoadedIds;
    WrittenFacts(s.nodes, LoAt(inodes, lo, |done|), HiAt(inodes, hi, |done|), h);
    OnePut(inodes, done, rest, lo, hi, h, s.nodes);
    assert rest == [rest[0]] + rest[1..];
    AllEntriesPlus(done + s.nodes, rest[1..]);
    AllEntriesPlus(done, s.nodes);
    AllEntriesPlus(done, rest);
    AllEntriesPlus([rest[0]], rest[1..]);
    OneEntries(rest[0]);
    SumKids(AllIds(done), AllIds(s.nodes), AllIds(rest[1..]), s.freed, PageIds(rest[0]), Given(s.wrote));
  }

  lemma {:induction false} SpillKidsOk(inodes: seq<Inode>, done: seq<Tree>, rest: seq<Tree>, pageSize: nat, threshold: int,
                                       alloc: Allocator, log: seq<Tree>, lo: Bound, hi: Bound, h: nat, file: set<Tree>)
    requires Body(inodes, done + rest, lo, hi, h) && h > 0
    requires forall i | 0 <= i < |done| :: OnFile(done[i])
    requires forall i | 0 <= i < |rest| :: NoneEmpty(rest[i]) && if rest[i].loaded then Mixed(rest[i], file) else OnFile(rest[i]) && NodesIn(rest[i]) <= file
    requires Positive(alloc)
    ensures RowOk(SpillKids(inodes, done, rest, pageSize, threshold, alloc, log), inodes, done, rest, lo, hi, h)
    decreases rest, 0
  {
    hide Less, Content, KidOk, Shape, OnFile, Mixed, NoneEmpty, Body, Written, AllIds, AllEntries, Given, SpillNode, LoadedIds;
    if rest == [] {
      assert done + rest == done;
      GivenNone();
    } else if !rest[0].loaded {
      var done' := done + [rest[0]];
      assert done' + rest[1..] == done + rest;
      SpillKidsOk(inodes, done', rest[1..], pageSize, threshold, alloc, log, lo, hi, h, file);
    } else {
      var i, c := |done|, rest[0];
      assert (done + rest)[i] == c;
      KidIs(inodes, done + rest, lo, hi, h, i);
      SpillNodeOk(c, pageSize, threshold, alloc, log, LoAt(inodes, lo, i), HiAt(inodes, hi, i), h - 1, file);
      var s := SpillNode(c, pageSize, threshold, alloc, log);
      OneReplaced(inodes, done, rest, lo, hi, h, s);
      var inodes' := PutNodes(inodes, c.key, s.nodes);
      SpillKidsOk(inodes', done + s.nodes, rest[1..], pageSize, threshold, alloc, log + s.wrote, lo, hi, h, file);
      RowUp(SpillKids(inodes', done + s.nodes, rest[1..], pageSize, threshold, alloc, log + s.wrote),
        inodes, inodes', done, rest, s, lo, hi, h);
    }
  }

  lemma {:induction false} SpillNodeOk(n: Tree, pageSize: nat, threshold: int, alloc: Allocator, log: seq<Tree>,
                                       lo: Bound, hi: Bound, h: nat, file: set<Tree>)
    requires Shape(n, lo, hi, h, 2) && Mixed(n, file) && NoneEmpty(n) && n.pgid > 0
    requires Positive(alloc)
    ensures SpilledOk(SpillNode(n, pageSize, threshold, alloc, log), n, lo, hi, h)
    decreases n, 1
  {
    hide Less, Content, KidOk, Shape, OnFile, Mixed, NoneEmpty, Body, Written, AllIds, AllEntries, Given, CutUp, Parts, Concat, LoadedBelow;
    var row := SpillKids(n.inodes, [], n.kids, pageSize, threshold, alloc, log);
    var parts := Parts(row.inodes, pageSize, threshold);
    NodeFacts(n, lo, hi, h, file);
    assert [] + n.kids == n.kids;
    if h == 0 {
      LeafRow(n, pageSize, threshold, alloc, log, lo, hi);
    } else {
      SpillKidsOk(n.inodes, [], n.kids, pageSize, threshold, alloc, log, lo, hi, h, file);
    }
    RowSize(row, lo, hi, h);
    PartSizes(row.inodes, pageSize, threshold, if n.isLeaf then 1 else 2);
    PartsConcat(row.inodes, pageSize, threshold);
    CutUpWritten(n.isLeaf, row.inodes, row.kids, parts, alloc, log + row.wrote, lo, hi, h);
    CutUpEntries(n.isLeaf, row.inodes, row.kids, parts, alloc, log + row.wrote);
    var s := SpillNode(n, pageSize, threshold, alloc, log);
    GivenPlus(row.wrote, s.nodes);
    SumNode(AllIds(s.nodes), AllIds(row.kids), row.freed, multiset{n.pgid}, AllIds(n.kids),
      Given(row.wrote), Given(s.nodes), Given(s.wrote));
  }

  ghost predicate AtSomeHeight(r: Tree, lo: Bound) {
    exists h: nat :: h > 0 && Written([r], lo, Open, h)
  }

  lemma ThisHeight(r: Tree, lo: Bound, h: nat)
    requires h > 0 && Written([r], lo, Open, h)
    ensures AtSomeHeight(r, lo)
  {
  }

  lemma WrittenBody(nodes: seq<Tree>, lo: Bound, hi: Bound, h: nat)
    requires Written(nodes, lo, hi, h) && AllFilled(nodes)
    ensures Body(Heads(nodes), nodes, lo, hi, h) && forall i | 0 <= i < |nodes| :: OnFile(nodes[i])
  {
    hide OnFile, Body;
  }

  /** The new parent's entries, put one by one. */
  lemma HeadsPut(nodes: seq<Tree>, lo: Bound, h: nat)
    requires Written(nodes, lo, Open, h) && AllFilled(nodes) && nodes != []
    ensures PutNodes([], nodes[0].inodes[0].key, nodes) == Heads(nodes)
    ensures Body(Heads(nodes), nodes, lo, Open, h) && forall i | 0 <= i < |nodes| :: OnFile(nodes[i])
  {
    hide Less, KidOk, OnFile, PutNodes, Body, Written, Sorted;
    WrittenBody(nodes, lo, Open, h);
    BodyContent(Heads(nodes), nodes, lo, Open, h);
    var none: seq<Inode> := [];
    assert none + Heads(nodes) + none == Heads(nodes) && none + none == none;
    PutRest(none, none, nodes);
  }

  /** The new levels hold the same nodes, each on a page of its own. */
  lemma {:induction false} GrowOk(nodes: seq<Tree>, pageSize: nat, threshold: int, alloc: Allocator, log: seq<Tree>, lo: Bound, h: nat)
    requires Written(nodes, lo, Open, h) && AllFilled(nodes) && nodes != [] && h > 0
    requires Positive(alloc)
    ensures var g := Grow(nodes, pageSize, threshold, alloc, log);
      && AtSomeHeight(g.root, lo)
      && Entries(g.root) == AllEntries(nodes)
      && PageIds(g.root) == AllIds(nodes) + Given(g.wrote)
    decreases |nodes|
  {
    hide Less, Content, KidOk, Shape, OnFile, Body, Written, AllIds, AllEntries, Given, Entries, PageIds, CutUp, Parts, Concat, PutNodes;
    if |nodes| == 1 {
      assert nodes == [nodes[0]];
      var g := Grow(nodes, pageSize, threshold, alloc, log);
      assert [g.root] == nodes;
      ThisHeight(g.root, lo, h);
      OneEntries(g.root);
      GivenNone();
      assert AllIds(nodes) + Given(g.wrote) == PageIds(g.root);
    } else {
      HeadsPut(nodes, lo, h);
      var inodes := Heads(nodes);
      var parts := Parts(inodes, pageSize, threshold);
      var above := CutUp(false, nodes, parts, alloc, log);
      PartSizes(inodes, pageSize, threshold, 2);
      PartsConcat(inodes, pageSize, threshold);
      CutUpWritten(false, inodes, nodes, parts, alloc, log, lo, Open, h);
      CutUpEntries(false, inodes, nodes, parts, alloc, log);
      WrittenFacts(above, lo, Open, h + 1);
      GrowOk(above, pageSize, threshold, alloc, log + above, lo, h + 1);
      var g := Grow(nodes, pageSize, threshold, alloc, log);
      var top := Grow(above, pageSize, threshold, alloc, log + above);
      assert g == Grown(top.root, above + top.wrote);
      GivenPlus(above, top.wrote);
      Assoc(AllIds(nodes), Given(above), Given(top.wrote));
    }
  }

  /** A bucket as it is between transactions: on file, bounded, and with no empty node but the root. */
  ghost predicate FileRoot(t: Tree) {
    && t.pgid > 0 && !t.loaded && !t.unbalanced
    && (exists h: nat :: Shape(t, Open, Open, h, 2))
    && (forall i | 0 <= i < |t.kids| :: OnFile(t.kids[i]))
  }

  lemma WrittenRoot(r: Tree)
    requires AtSomeHeight(r, Open)
    ensures FileRoot(r)
  {
    hide Less, Content;
    var h: nat :| h > 0 && Written([r], Open, Open, h);
    assert KidOk(Heads([r]), [r][0], Open, Open, h, 0);
    assert Shape(r, Open, Open, h - 1, 2);
    assert OnFile([r][0]);
  }

  lemma SumRoot(r: multiset<nat>, nodes: multiset<nat>, freed: multiset<nat>, before: multiset<nat>,
                g1: multiset<nat>, g2: multiset<nat>, g: multiset<nat>)
    requires r == nodes + g2 && nodes + freed == before + g1 && g1 + g2 == g
    ensures r + freed == before + g
  {
    assert r + freed == (nodes + freed) + g2;
    assert before + g == (before + g1) + g2;
  }

  lemma EmptyNode(root: Tree, pageSize: nat, threshold: int, alloc: Allocator, log: seq<Tree>)
    requires root.isLeaf && root.inodes == [] && root.kids == [] && root.pgid > 0
    ensures SpillNode(root, pageSize, threshold, alloc, log)
         == Spilled([Tree(true, false, false, [], alloc(log, []), [], [])], multiset{root.pgid}, [Tree(true, false, false, [], alloc(log, []), [], [])])
    ensures LoadedIds(root) == multiset{root.pgid} == PageIds(root)
  {
    var parts := Parts([], pageSize, threshold);
    assert parts == [[]] && parts[1..] == [];
    var nodes := CutUp(true, [], parts, alloc, log);
    assert nodes == [Tree(true, false, false, [], alloc(log, []), [], [])] && [] + nodes == nodes && log + [] == log;
  }

  lemma EmptyRoot(root: Tree, h: nat, pageSize: nat, threshold: int, alloc: Allocator, log: seq<Tree>)
    requires Shape(root, Open, Open, h, 2) && root.inodes == [] && root.isLeaf && root.pgid > 0 && Positive(alloc)
    ensures var r := SpillRoot(root, pageSize, threshold, alloc, log);
      && FileRoot(r.root) && Entries(r.root) == Entries(root)
      && r.freed == LoadedIds(root)
      && PageIds(r.root) + r.freed == PageIds(root) + Given(r.wrote)
  {
    assert Body(root.inodes, root.kids, Open, Open, h);
    var r := Tree(true, false, false, [], alloc(log, []), [], []);
    EmptyNode(root, pageSize, threshold, alloc, log);
    GivenFirst([r]);
    GivenNone();
    assert !AllFilled([r]) by { assert [r][0].inodes == []; }
    assert Shape(r, Open, Open, 0, 2);
  }

  /** Spilling keeps the entries and leaves the bucket as the next transaction needs it. The pages of
      the nodes in memory are given back, all others stay, and new nodes are on new pages. */
  lemma SpillMeaning(root: Tree, h: nat, pageSize: nat, threshold: int, alloc: Allocator, log: seq<Tree>, file: set<Tree>)
    requires Shape(root, Open, Open, h, 2) && Mixed(root, file) && root.pgid > 0 && Positive(alloc)
    requires (root.inodes == [] && root.isLeaf) || NoneEmpty(root)
    ensures var r := SpillRoot(root, pageSize, threshold, alloc, log);
      && FileRoot(r.root) && Entries(r.root) == Entries(root)
      && r.freed == LoadedIds(root)
      && PageIds(r.root) + r.freed == PageIds(root) + Given(r.wrote)
  {
    hide Less, Content, KidOk, Shape, OnFile, Mixed, NoneEmpty, Body, Written, FileRoot, AllIds, AllEntries, Given, Entries, PageIds, SpillNode, Grow, LoadedIds;
    if root.inodes == [] && root.isLeaf {
      EmptyRoot(root, h, pageSize, threshold, alloc, log);
    } else {
      SpillNodeOk(root, pageSize, threshold, alloc, log, Open, Open, h, file);
      var s := SpillNode(root, pageSize, threshold, alloc, log);
      WrittenFacts(s.nodes, Open, Open, h + 1);
      GrowOk(s.nodes, pageSize, threshold, alloc, log + s.wrote, Open, h + 1);
      var g := Grow(s.nodes, pageSize, threshold, alloc, log + s.wrote);
      WrittenRoot(g.root);
      GivenPlus(s.wrote, g.wrote);
      SumRoot(PageIds(g.root), AllIds(s.nodes), s.freed, PageIds(root), Given(s.wrote), Given(g.wrote), Given(s.wrote + g.wrote));
    }
  }
}
