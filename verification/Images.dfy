/** A bucket's tree of nodes as the page file has it: the page run of every node, and its block. */
module Images {
  import opened Keys
  import opened Nodes
  import opened BTree
  import opened PageFile
  import opened PageIds
  import opened Spill

  /** The page size, and how the elements of a node are laid out on its page. */
  datatype Format = Format(pageSize: nat, encode: (bool, seq<Inode>) -> seq<nat>)

  /** The overflow pages of a node: it gets its size divided by the page size, plus one. */
  function Overflow(inodes: seq<Inode>, f: Format): nat {
    if f.pageSize == 0 then 0 else SizeOf(inodes) / f.pageSize
  }

  function Image(t: Tree, f: Format): PTree {
    PTree(t.pgid, Overflow(t.inodes, f), f.encode(t.isLeaf, t.inodes), ImagesOf(t.kids, f))
  }

  function ImagesOf(kids: seq<Tree>, f: Format): seq<PTree> {
    if kids == [] then [] else [Image(kids[0], f)] + ImagesOf(kids[1..], f)
  }

  /** The page run holds the node, and no shorter one is sure to. */
  lemma RunHolds(inodes: seq<Inode>, f: Format)
    requires f.pageSize > 0
    ensures Overflow(inodes, f) * f.pageSize <= SizeOf(inodes) < (Overflow(inodes, f) + 1) * f.pageSize
  {
    hide SizeOf;
    var n, p := SizeOf(inodes), f.pageSize;
    assert n == n / p * p + n % p;
  }

  function Pgids(kids: seq<Tree>): seq<nat> {
    if kids == [] then [] else [kids[0].pgid] + Pgids(kids[1..])
  }

  function BlockOf(n: Tree, f: Format): Block {
    TreeBlock(Pgids(n.kids), f.encode(n.isLeaf, n.inodes))
  }

  lemma {:induction false} ImageIds(kids: seq<Tree>, f: Format)
    ensures Ids(ImagesOf(kids, f)) == Pgids(kids)
  {
    hide Overflow;
    if kids != [] {
      ImageIds(kids[1..], f);
      var images := ImagesOf(kids, f);
      assert images[1..] == ImagesOf(kids[1..], f);
    }
  }

  // ---- Nodes on their pages ----

  /** The node is on its page run. */
  ghost predicate Holds(cells: map<nat, Cell>, n: Tree, f: Format) {
    HasBlock(cells, n.pgid, Overflow(n.inodes, f), BlockOf(n, f))
  }

  ghost predicate AllHeld(cells: map<nat, Cell>, nodes: set<Tree>, f: Format) {
    forall n | n in nodes :: Holds(cells, n, f)
  }

  lemma HeldPlus(cells: map<nat, Cell>, a: set<Tree>, b: set<Tree>, f: Format)
    ensures AllHeld(cells, a + b, f) <==> AllHeld(cells, a, f) && AllHeld(cells, b, f)
  {
    hide Holds;
    if AllHeld(cells, a + b, f) {
      forall n | n in a || n in b ensures Holds(cells, n, f) { assert n in a + b; }
    }
  }

  lemma HeldOne(cells: map<nat, Cell>, t: Tree, f: Format)
    ensures AllHeld(cells, {t}, f) <==> HasBlock(cells, t.pgid, Overflow(t.inodes, f), BlockOf(t, f))
  {
    hide Overflow, HasBlock, BlockOf;
    assert t in {t};
  }

  /** A tree is stored exactly when each of its nodes is on its page run. */
  lemma {:induction false} StoredIs(cells: map<nat, Cell>, t: Tree, f: Format)
    ensures Stored(cells, Image(t, f)) <==> AllHeld(cells, NodesIn(t), f)
    decreases t, 1
  {
    hide Overflow, HasBlock, AllHeld, Holds;
    ImageIds(t.kids, f);
    KidsStoredIs(cells, t.kids, f);
    HeldPlus(cells, {t}, NodesBelow(t.kids), f);
    HeldOne(cells, t, f);
  }

  lemma {:induction false} KidsStoredIs(cells: map<nat, Cell>, kids: seq<Tree>, f: Format)
    ensures AllStored(cells, ImagesOf(kids, f)) <==> AllHeld(cells, NodesBelow(kids), f)
    decreases kids, 0
  {
    hide Overflow, Stored, NodesIn, Holds, Image;
    if kids != [] {
      StoredIs(cells, kids[0], f);
      KidsStoredIs(cells, kids[1..], f);
      HeldPlus(cells, NodesIn(kids[0]), NodesBelow(kids[1..]), f);
      assert ImagesOf(kids, f)[1..] == ImagesOf(kids[1..], f);
    }
  }

  // ---- Page runs by page id ----

  /** The length of the page run that starts at a page. */
  ghost function Len(cells: map<nat, Cell>, p: nat): (n: nat)
    ensures n > 0
  {
    if p in cells && cells[p].Head? then cells[p].overflow + 1 else 1
  }

  /** All pages of the runs that start at these pages. */
  ghost function Cover(ids: multiset<nat>, cells: map<nat, Cell>): set<nat> {
    set p, x | p in ids && x in Run(p, Len(cells, p)) :: x
  }

  /** The pages are different, and their runs do not overlap. */
  ghost predicate Spread(ids: multiset<nat>, cells: map<nat, Cell>) {
    && (forall p :: ids[p] <= 1)
    && (forall p, q | p in ids && q in ids && p != q :: Run(p, Len(cells, p)) !! Run(q, Len(cells, q)))
  }

  lemma InCover(ids: multiset<nat>, cells: map<nat, Cell>, p: nat)
    requires p in ids
    ensures Run(p, Len(cells, p)) <= Cover(ids, cells) && p in Run(p, Len(cells, p))
  {
    hide Len;
    assert p in Run(p, Len(cells, p));
  }

  lemma CoverPlus(a: multiset<nat>, b: multiset<nat>, cells: map<nat, Cell>)
    ensures Cover(a + b, cells) == Cover(a, cells) + Cover(b, cells)
  {
    hide Run, Len;
    assert forall p :: p in a + b <==> p in a || p in b;
  }

  lemma CoverOne(p: nat, cells: map<nat, Cell>)
    ensures Cover(multiset{p}, cells) == Run(p, Len(cells, p)) && Spread(multiset{p}, cells)
  {
    hide Run, Len;
  }

  lemma SpreadPart(a: multiset<nat>, b: multiset<nat>, cells: map<nat, Cell>)
    requires Spread(a + b, cells)
    ensures Spread(a, cells) && Spread(b, cells) && Cover(a, cells) !! Cover(b, cells)
  {
    hide Run, Len;
    forall p ensures a[p] <= 1 && b[p] <= 1 { assert (a + b)[p] <= 1; }
    forall p, q | p in a && q in b ensures Run(p, Len(cells, p)) !! Run(q, Len(cells, q)) {
      assert p in a + b && q in a + b && (a + b)[p] <= 1;
    }
  }

  lemma SpreadJoin(a: multiset<nat>, b: multiset<nat>, cells: map<nat, Cell>)
    requires Spread(a, cells) && Spread(b, cells) && Cover(a, cells) !! Cover(b, cells)
    ensures Spread(a + b, cells)
  {
    hide Run, Len, Cover;
    forall p ensures (a + b)[p] <= 1 {
      assert a[p] <= 1 && b[p] <= 1;
      if p in a { InCover(a, cells, p); }
      if p in b { InCover(b, cells, p); }
    }
    forall p, q | p in a + b && q in a + b && p != q ensures Run(p, Len(cells, p)) !! Run(q, Len(cells, q)) {
      if p in a { InCover(a, cells, p); } else { InCover(b, cells, p); }
      if q in a { InCover(a, cells, q); } else { InCover(b, cells, q); }
    }
  }

  /** Two groups are spread together exactly when each is and they cover different pages. */
  lemma SpreadPlus(a: multiset<nat>, b: multiset<nat>, cells: map<nat, Cell>)
    ensures Spread(a + b, cells) <==> Spread(a, cells) && Spread(b, cells) && Cover(a, cells) !! Cover(b, cells)
  {
    if Spread(a + b, cells) {
      SpreadPart(a, b, cells);
    } else if Spread(a, cells) && Spread(b, cells) && Cover(a, cells) !! Cover(b, cells) {
      SpreadJoin(a, b, cells);
    }
  }

  lemma HeldLen(cells: map<nat, Cell>, t: Tree, f: Format)
    requires AllHeld(cells, {t}, f)
    ensures Len(cells, t.pgid) == Overflow(t.inodes, f) + 1
  {
    hide Overflow, BlockOf;
    assert Holds(cells, t, f);
  }

  /** The pages of a stored tree are those its page ids cover. */
  lemma {:induction false} PagesAre(cells: map<nat, Cell>, t: Tree, f: Format)
    requires AllHeld(cells, NodesIn(t), f)
    ensures Pages(Image(t, f)) == Cover(BTree.PageIds(t), cells)
    decreases t, 1
  {
    hide Overflow, AllHeld, Holds, Cover, Run;
    HeldPlus(cells, {t}, NodesBelow(t.kids), f);
    HeldLen(cells, t, f);
    KidPagesAre(cells, t.kids, f);
    CoverOne(t.pgid, cells);
    CoverPlus(multiset{t.pgid}, AllIds(t.kids), cells);
  }

  lemma {:induction false} KidPagesAre(cells: map<nat, Cell>, kids: seq<Tree>, f: Format)
    requires AllHeld(cells, NodesBelow(kids), f)
    ensures KidPages(ImagesOf(kids, f)) == Cover(AllIds(kids), cells)
    decreases kids, 0
  {
    hide AllHeld, Holds, NodesIn, BTree.PageIds, Image, Run, Pages;
    if kids != [] {
      HeldPlus(cells, NodesIn(kids[0]), NodesBelow(kids[1..]), f);
      PagesAre(cells, kids[0], f);
      KidPagesAre(cells, kids[1..], f);
      CoverPlus(BTree.PageIds(kids[0]), AllIds(kids[1..]), cells);
      assert ImagesOf(kids, f)[1..] == ImagesOf(kids[1..], f);
    }
  }

  lemma NothingSpread(cells: map<nat, Cell>)
    ensures Spread(multiset{}, cells)
  {
  }

  /** No page is referenced twice exactly when the runs of its nodes do not overlap. */
  lemma {:induction false} OnceIs(cells: map<nat, Cell>, t: Tree, f: Format)
    requires AllHeld(cells, NodesIn(t), f)
    ensures Once(Image(t, f)) <==> Spread(BTree.PageIds(t), cells)
    decreases t, 1
  {
    hide Overflow, AllHeld, Holds, Cover, Run, Spread;
    HeldPlus(cells, {t}, NodesBelow(t.kids), f);
    HeldLen(cells, t, f);
    KidPagesAre(cells, t.kids, f);
    KidsOnceIs(cells, t.kids, f);
    CoverOne(t.pgid, cells);
    SpreadPlus(multiset{t.pgid}, AllIds(t.kids), cells);
  }

  lemma {:induction false} KidsOnceIs(cells: map<nat, Cell>, kids: seq<Tree>, f: Format)
    requires AllHeld(cells, NodesBelow(kids), f)
    ensures KidsOnce(ImagesOf(kids, f)) <==> Spread(AllIds(kids), cells)
    decreases kids, 0
  {
    hide AllHeld, Holds, NodesIn, BTree.PageIds, Image, Run, Pages, Once, Cover, Spread;
    if kids == [] {
      NothingSpread(cells);
    } else {
      HeldPlus(cells, NodesIn(kids[0]), NodesBelow(kids[1..]), f);
      PagesAre(cells, kids[0], f);
      KidPagesAre(cells, kids[1..], f);
      OnceIs(cells, kids[0], f);
      KidsOnceIs(cells, kids[1..], f);
      SpreadPlus(BTree.PageIds(kids[0]), AllIds(kids[1..]), cells);
      assert ImagesOf(kids, f)[1..] == ImagesOf(kids[1..], f);
    }
  }
}
