/** The page file: cells, page trees, and what it means for a tree to be stored. */
module PageFile {
  import opened PageIds

  /** What a page run holds: a leaf or branch of a bucket tree, or the free list. */
  datatype Block =
    | TreeBlock(kids: seq<nat>, payload: seq<nat>)
    | FreeBlock(count: nat, words: seq<nat>)

  /** One page-sized slot of the file: the start of a run, or one of its overflow pages. */
  datatype Cell = Head(block: Block, overflow: nat) | Tail(head: nat)

  /** A committed tree of pages, with the page run of every node. */
  datatype PTree = PTree(id: nat, overflow: nat, payload: seq<nat>, kids: seq<PTree>)

  ghost function KidPages(kids: seq<PTree>): set<nat> {
    if kids == [] then {} else Pages(kids[0]) + KidPages(kids[1..])
  }

  ghost function Pages(t: PTree): set<nat> {
    Run(t.id, t.overflow + 1) + KidPages(t.kids)
  }

  ghost predicate KidsOnce(kids: seq<PTree>) {
    kids != [] ==> Once(kids[0]) && KidsOnce(kids[1..]) && Pages(kids[0]) !! KidPages(kids[1..])
  }

  /** Every page of the tree is referenced once. */
  ghost predicate Once(t: PTree) {
    Run(t.id, t.overflow + 1) !! KidPages(t.kids) && KidsOnce(t.kids)
  }

  function Ids(kids: seq<PTree>): (r: seq<nat>)
    ensures |r| == |kids|
  {
    if kids == [] then [] else [kids[0].id] + Ids(kids[1..])
  }

  /** A block and its overflow pages are on file. */
  ghost predicate HasBlock(cells: map<nat, Cell>, p: nat, overflow: nat, block: Block) {
    && p in cells && cells[p] == Head(block, overflow)
    && forall x | p < x <= p + overflow :: x in cells && cells[x] == Tail(p)
  }

  ghost predicate AllStored(cells: map<nat, Cell>, kids: seq<PTree>) {
    kids != [] ==> Stored(cells, kids[0]) && AllStored(cells, kids[1..])
  }

  ghost predicate Stored(cells: map<nat, Cell>, t: PTree) {
    && HasBlock(cells, t.id, t.overflow, TreeBlock(Ids(t.kids), t.payload))
    && AllStored(cells, t.kids)
  }

  ghost predicate Agree(a: map<nat, Cell>, b: map<nat, Cell>, on: set<nat>) {
    forall x | x in on :: x in a && x in b && a[x] == b[x]
  }

  lemma BlockFrame(a: map<nat, Cell>, b: map<nat, Cell>, p: nat, overflow: nat, block: Block)
    requires HasBlock(a, p, overflow, block) && Agree(a, b, Run(p, overflow + 1))
    ensures HasBlock(b, p, overflow, block)
  {
    hide Run;
    assert p in Run(p, overflow + 1);
    forall x | p < x <= p + overflow ensures x in b && b[x] == Tail(p) {
      assert x in Run(p, overflow + 1);
    }
  }

  lemma {:induction false} KidsFrame(a: map<nat, Cell>, b: map<nat, Cell>, kids: seq<PTree>)
    requires AllStored(a, kids) && Agree(a, b, KidPages(kids))
    ensures AllStored(b, kids)
    decreases kids
  {
    if kids != [] {
      StoredFrame(a, b, kids[0]);
      KidsFrame(a, b, kids[1..]);
    }
  }

  /** Writing elsewhere does not disturb a stored tree. */
  lemma {:induction false} StoredFrame(a: map<nat, Cell>, b: map<nat, Cell>, t: PTree)
    requires Stored(a, t) && Agree(a, b, Pages(t))
    ensures Stored(b, t)
    decreases t, 0
  {
    BlockFrame(a, b, t.id, t.overflow, TreeBlock(Ids(t.kids), t.payload));
    KidsFrame(a, b, t.kids);
  }

  lemma {:induction false} KidsCovered(cells: map<nat, Cell>, kids: seq<PTree>)
    requires AllStored(cells, kids)
    ensures KidPages(kids) <= cells.Keys
    decreases kids
  {
    if kids != [] {
      StoredCovers(cells, kids[0]);
      KidsCovered(cells, kids[1..]);
    }
  }

  lemma {:induction false} StoredCovers(cells: map<nat, Cell>, t: PTree)
    requires Stored(cells, t)
    ensures Pages(t) <= cells.Keys
    decreases t, 0
  {
    hide Run;
    KidsCovered(cells, t.kids);
  }

  lemma {:induction false} KidsUnique(cells: map<nat, Cell>, ts: seq<PTree>, us: seq<PTree>)
    requires AllStored(cells, ts) && AllStored(cells, us) && Ids(ts) == Ids(us)
    ensures ts == us
    decreases ts
  {
    if ts == [] {
      assert |us| == 0;
    } else {
      assert |us| == |ts|;
      assert Ids(ts)[0] == ts[0].id && Ids(us)[0] == us[0].id;
      StoredUnique(cells, ts[0], us[0]);
      assert Ids(ts)[1..] == Ids(ts[1..]) && Ids(us)[1..] == Ids(us[1..]);
      KidsUnique(cells, ts[1..], us[1..]);
      assert ts == [ts[0]] + ts[1..] && us == [us[0]] + us[1..];
    }
  }

  /** Reading from a root is deterministic: the file determines the tree. */
  lemma {:induction false} StoredUnique(cells: map<nat, Cell>, t: PTree, u: PTree)
    requires Stored(cells, t) && Stored(cells, u) && t.id == u.id
    ensures t == u
    decreases t, 0
  {
    KidsUnique(cells, t.kids, u.kids);
  }
}
