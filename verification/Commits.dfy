/** Edits, rebalancing and spilling as the writer's steps: what they leave is ready to be committed. */
module Commits {
  import opened PageIds
  import opened FreeIds
  import opened PageFile
  import opened Versions
  import opened VersionSteps
  import opened Keys
  import opened BTree
  import opened Spill
  import opened SpillLog
  import opened Images
  import opened Rebalance
  import opened RebalanceRuns
  import opened RebalanceMarks
  import opened Transactions
  import opened TreeLookup
  import opened Cursors

  /** What the writer does to the file's pages: a node goes to its page run, or a run is given back. */
  datatype Action = Write(node: Tree) | Drop(page: nat)

  function EventOf(a: Action, f: Format): Event {
    match a
    case Write(n) => EAllocate(n.pgid, Overflow(n.inodes, f), BlockOf(n, f))
    case Drop(p) => EFreePage(p)
  }

  /** The nodes written, in order. */
  function Writes(acts: seq<Action>): seq<Tree> {
    if acts == [] then []
    else
      var front, last := Writes(acts[..|acts| - 1]), acts[|acts| - 1];
      if last.Write? then front + [last.node] else front
  }

  /** The pages given back, in any order. */
  function Drops(acts: seq<Action>): multiset<nat> {
    if acts == [] then multiset{}
    else
      var front, last := Drops(acts[..|acts| - 1]), acts[|acts| - 1];
      if last.Drop? then front + multiset{last.page} else front
  }

  /** The writer has just begun, and the current version is the bucket `t`. */
  ghost predicate Began(s: State, t: Tree, f: Format) {
    && Inv(s) && s.writer.Editing? && s.writer.dirty == map[]
    && s.Current().txid in s.trees && s.trees[s.Current().txid] == Image(t, f)
    && s.Given() == {}
  }

  ghost predicate SameBase(s0: State, s: State) {
    && s.disk == s0.disk && s.meta0 == s0.meta0 && s.meta1 == s0.meta1 && s.trees == s0.trees
    && s.lists == s0.lists && s.readers == s0.readers
  }

  /** These nodes were written since, and these pages given back. */
  ghost predicate Doing(s0: State, s: State, wrote: seq<Tree>, gone: multiset<nat>, f: Format) {
    && Inv(s) && s.writer.Editing? && SameBase(s0, s) && s.Current().txid in s.trees
    && AllHeld(s.writer.dirty, SetOf(wrote), f)
    && s.writer.dirty.Keys == Cover(Given(wrote), s.writer.dirty) && Spread(Given(wrote), s.writer.dirty)
    && s.Given() == Cover(gone, s.disk)
  }

  lemma BeganDoing(s: State, t: Tree, f: Format)
    requires Began(s, t, f)
    ensures Doing(s, s, [], multiset{}, f)
  {
    hide Inv;
    assert Cover(multiset{}, s.disk) == {} && Cover(multiset{}, s.writer.dirty) == {};
  }

  // ---- One node written ----

  lemma GivenOne(wrote: seq<Tree>, n: Tree)
    ensures Given(wrote + [n]) == Given(wrote) + multiset{n.pgid}
  {
    GivenPlus(wrote, [n]);
    GivenFirst([n]);
    GivenNone();
  }

  lemma GivenSame(s: State, s': State)
    requires s'.free.pending == s.free.pending && s'.Current() == s.Current()
    ensures s'.Given() == s.Given()
  {
  }

  lemma IdsListed(free: Ledger)
    ensures free.ids <= free.All()
  {
  }

  lemma NewCellsApart(s: State, s': State, p: nat, overflow: nat, block: Block)
    requires Inv(s) && Allocate(s, s', p, overflow, block)
    ensures Run(p, overflow + 1) !! s.writer.dirty.Keys && s'.free.pending == s.free.pending
  {
    hide PendingIds, PendingOk, ListStored, Stored, Once, Cells, Run, Placed, FreeAfter, TopAfter, Ledger.Ok, Ledger.All, ReadersOk, ListOk;
    PlaceFacts(s.free, s.Top(), overflow + 1, p);
    assert forall x | x in s.free.ids :: x in s.free.All() by { IdsListed(s.free); }
  }

  lemma OldHeld(dirty: map<nat, Cell>, cells: map<nat, Cell>, nodes: set<Tree>, f: Format)
    requires AllHeld(dirty, nodes, f) && cells.Keys !! dirty.Keys
    ensures AllHeld(dirty + cells, nodes, f)
  {
    hide Overflow, BlockOf;
    forall n | n in nodes ensures Holds(dirty + cells, n, f) {
      assert Holds(dirty, n, f);
    }
  }

  lemma NewHeld(dirty: map<nat, Cell>, cells: map<nat, Cell>, n: Tree, f: Format)
    requires HasBlock(cells, n.pgid, Overflow(n.inodes, f), BlockOf(n, f))
    ensures AllHeld(dirty + cells, {n}, f)
  {
    hide Overflow, BlockOf;
  }

  /** The runs in a map of cells do not depend on cells elsewhere. */
  lemma SameRuns(a: map<nat, Cell>, b: map<nat, Cell>, ids: multiset<nat>)
    requires forall p | p in ids :: Len(a, p) == Len(b, p)
    ensures Cover(ids, a) == Cover(ids, b) && (Spread(ids, a) <==> Spread(ids, b))
  {
    hide Run, Len;
  }

  lemma NewRuns(dirty: map<nat, Cell>, cells: map<nat, Cell>, ids: multiset<nat>, p: nat, overflow: nat)
    requires dirty.Keys == Cover(ids, dirty) && Spread(ids, dirty)
    requires cells.Keys == Run(p, overflow + 1) && cells.Keys !! dirty.Keys && Len(dirty + cells, p) == overflow + 1
    ensures (dirty + cells).Keys == Cover(ids + multiset{p}, dirty + cells) && Spread(ids + multiset{p}, dirty + cells)
  {
    hide Run, Spread, Cover;
    forall q | q in ids ensures Len(dirty, q) == Len(dirty + cells, q) {
      InCover(ids, dirty, q);
      assert q in dirty;
    }
    SameRuns(dirty, dirty + cells, ids);
    CoverOne(p, dirty + cells);
    CoverPlus(ids, multiset{p}, dirty + cells);
    SpreadPlus(ids, multiset{p}, dirty + cells);
  }

  lemma {:induction false} DoWrite(s0: State, s: State, s': State, wrote: seq<Tree>, gone: multiset<nat>, n: Tree, f: Format)
    requires Doing(s0, s, wrote, gone, f) && Allocate(s, s', n.pgid, Overflow(n.inodes, f), BlockOf(n, f))
    ensures Doing(s0, s', wrote + [n], gone, f)
  {
    hide Inv, Placed, FreeAfter, TopAfter, Cells, Run, Cover, Spread, AllHeld, Holds, HasBlock, BlockOf, Overflow, Given;
    var p, overflow, dirty := n.pgid, Overflow(n.inodes, f), s.writer.dirty;
    var cells := Cells(p, overflow, BlockOf(n, f));
    AllocateKeeps(s, s', p, overflow, BlockOf(n, f));
    NewCellsApart(s, s', p, overflow, BlockOf(n, f));
    GivenSame(s, s');
    assert s'.writer.dirty == dirty + cells;
    OldHeld(dirty, cells, SetOf(wrote), f);
    NewHeld(dirty, cells, n, f);
    assert SetOf(wrote + [n]) == SetOf(wrote) + {n};
    HeldPlus(dirty + cells, SetOf(wrote), {n}, f);
    HeldLen(dirty + cells, n, f);
    NewRuns(dirty, cells, Given(wrote), p, overflow);
    GivenOne(wrote, n);
  }

  // ---- One page run given back ----

  lemma DoDrop(s0: State, s: State, s': State, wrote: seq<Tree>, gone: multiset<nat>, p: nat, f: Format)
    requires Doing(s0, s, wrote, gone, f) && FreePage(s, s', p)
    ensures Doing(s0, s', wrote, gone + multiset{p}, f)
  {
    hide Core, Run, Cover, Spread, AllHeld, RunSeq, PendingIds, PendingOk, Ledger.All, Pages, ListStored, PlanOk, GiftsOk, Ledger.Give;
    FreePageKeeps(s, s', p);
    var n := s.disk[p].overflow + 1;
    CoreMetas(s);
    GiveFacts(s, p, n);
    assert s' == GiveRun(s, p, n);
    assert Len(s.disk, p) == n;
    CoverOne(p, s.disk);
    CoverPlus(gone, multiset{p}, s.disk);
    hide Inv;
  }

  // ---- All steps of a transaction ----

  /** The writer takes these actions, one after the other. */
  ghost predicate Performs(states: seq<State>, acts: seq<Action>, f: Format) {
    && |states| == |acts| + 1
    && forall i | 0 <= i < |acts| :: Step(states[i], states[i + 1], EventOf(acts[i], f))
  }

  lemma {:induction false} Performed(states: seq<State>, acts: seq<Action>, t: Tree, f: Format)
    requires Performs(states, acts, f) && Began(states[0], t, f)
    ensures Doing(states[0], states[|acts|], Writes(acts), Drops(acts), f)
    decreases |acts|
  {
    hide Doing, Began, Allocate, FreePage;
    if acts == [] {
      BeganDoing(states[0], t, f);
    } else {
      var k := |acts| - 1;
      assert Performs(states[..k + 1], acts[..k], f) by {
        forall i | 0 <= i < k ensures Step(states[..k + 1][i], states[..k + 1][i + 1], EventOf(acts[..k][i], f)) {
          assert Step(states[i], states[i + 1], EventOf(acts[i], f));
        }
      }
      Performed(states[..k + 1], acts[..k], t, f);
      assert Step(states[k], states[k + 1], EventOf(acts[k], f));
      match acts[k] {
        case Write(n) => DoWrite(states[0], states[k], states[k + 1], Writes(acts[..k]), Drops(acts[..k]), n, f);
        case Drop(p) => DoDrop(states[0], states[k], states[k + 1], Writes(acts[..k]), Drops(acts[..k]), p, f);
      }
    }
  }

  // ---- The tree is ready to be committed ----

  lemma OverHeld(disk: map<nat, Cell>, dirty: map<nat, Cell>, n: Tree, f: Format)
    requires Holds(dirty, n, f)
    ensures Holds(disk + dirty, n, f)
  {
    hide Overflow, BlockOf;
  }

  /** Old and new nodes are all on their page runs, in the writer's view of the file. */
  lemma ViewHeld(s: State, t: Tree, wrote: seq<Tree>, f: Format)
    requires s.writer.Editing? && AllHeld(s.disk, NodesIn(t), f) && AllHeld(s.writer.dirty, SetOf(wrote), f)
    requires Pages(Image(t, f)) !! s.writer.dirty.Keys
    ensures AllHeld(s.disk + s.writer.dirty, NodesIn(t) + SetOf(wrote), f)
  {
    hide Holds, NodesIn, Pages, Image, Stored;
    StoredIs(s.disk, t, f);
    StoredCovers(s.disk, Image(t, f));
    StoredFrame(s.disk, s.disk + s.writer.dirty, Image(t, f));
    StoredIs(s.disk + s.writer.dirty, t, f);
    forall n | n in SetOf(wrote) ensures Holds(s.disk + s.writer.dirty, n, f) {
      assert Holds(s.writer.dirty, n, f);
      OverHeld(s.disk, s.writer.dirty, n, f);
    }
  }

  lemma CurrentStored(s: State)
    requires Inv(s)
    ensures s.Current().txid in s.trees
    ensures Stored(s.disk, s.trees[s.Current().txid]) && Once(s.trees[s.Current().txid]) && s.Base() !! s.Dirty().Keys
    ensures s.trees[s.Current().txid].id == s.Current().root
  {
    hide Run, PendingIds, PendingOk, ListStored, Stored, Once, LedgerOk, ListOk, Pages;
    assert Served(s, s.Current());
  }

  lemma HeldSubset(cells: map<nat, Cell>, a: set<Tree>, b: set<Tree>, f: Format)
    requires a <= b && AllHeld(cells, b, f)
    ensures AllHeld(cells, a, f)
  {
    hide Holds;
  }

  lemma CoverLess(a: multiset<nat>, b: multiset<nat>, cells: map<nat, Cell>)
    requires a <= b
    ensures Cover(a, cells) <= Cover(b, cells)
  {
    hide Run, Len;
    assert forall p | p in a :: p in b;
  }

  lemma OldRuns(disk: map<nat, Cell>, dirty: map<nat, Cell>, ids: multiset<nat>)
    requires Cover(ids, disk) !! dirty.Keys
    ensures forall p | p in ids :: Len(disk, p) == Len(disk + dirty, p)
  {
    hide Run, Cover;
    forall p | p in ids ensures p !in dirty { InCover(ids, disk, p); }
  }

  lemma OnlyNew(disk: map<nat, Cell>, dirty: map<nat, Cell>, ids: multiset<nat>)
    requires Cover(ids, dirty) <= dirty.Keys
    ensures forall p | p in ids :: Len(dirty, p) == Len(disk + dirty, p)
  {
    hide Run, Cover;
    forall p | p in ids ensures p in dirty { InCover(ids, dirty, p); }
  }

  /** A tree made of old and new nodes, whose pages are the old and new ones less those given back, is
      complete and uses each page once. */
  lemma BucketReady(s0: State, s: State, t: Tree, r: Tree, wrote: seq<Tree>, gone: multiset<nat>, f: Format)
    requires Began(s0, t, f) && Doing(s0, s, wrote, gone, f)
    requires NodesIn(r) <= NodesIn(t) + SetOf(wrote)
    requires BTree.PageIds(r) + gone == BTree.PageIds(t) + Given(wrote) && gone <= BTree.PageIds(t)
    ensures Ready(s, Image(r, f))
  {
    hide Inv, NodesIn, Pages, Image, Stored, Once, Given, AllHeld, Cover, Spread, BTree.PageIds;
    CurrentStored(s);
    var view, ids, added := s.disk + s.writer.dirty, BTree.PageIds(t), Given(wrote);
    assert s.trees[s.Current().txid] == Image(t, f);
    StoredIs(s.disk, t, f);
    OnceIs(s.disk, t, f);
    PagesAre(s.disk, t, f);
    ViewHeld(s, t, wrote, f);
    HeldSubset(view, NodesIn(r), NodesIn(t) + SetOf(wrote), f);
    StoredIs(view, r, f);
    OnceIs(view, r, f);
    PagesAre(view, r, f);
    OldRuns(s.disk, s.writer.dirty, ids);
    SameRuns(s.disk, view, ids);
    OnlyNew(s.disk, s.writer.dirty, added);
    SameRuns(s.writer.dirty, view, added);
    CoverLess(gone, ids, s.disk);
    OldRuns(s.disk, s.writer.dirty, gone);
    SameRuns(s.disk, view, gone);
    CoverLess(gone, ids, view);
    SpreadPlus(ids, added, view);
    SpreadPlus(BTree.PageIds(r), gone, view);
    CoverPlus(ids, added, view);
    CoverPlus(BTree.PageIds(r), gone, view);
  }

  // ---- From edits to a tree ready to be committed ----

  /** The bucket after edits and rebalancing, and what spilling it makes of it. */
  ghost function SavedBy(t: Tree, edits: seq<Edit>, paths: seq<seq<nat>>, threshold: int, alloc: Allocator, f: Format): Saved
    requires CanRun(EditTree(t, edits), paths, f.pageSize)
  {
    Save(RunAll(EditTree(t, edits), paths, f.pageSize).tree, f.pageSize, threshold, alloc, [])
  }

  /** The pages given back on the way, by rebalancing and by spilling. */
  ghost function FreedBy(t: Tree, edits: seq<Edit>, paths: seq<seq<nat>>, threshold: int, alloc: Allocator, f: Format): multiset<nat>
    requires CanRun(EditTree(t, edits), paths, f.pageSize)
  {
    RunAll(EditTree(t, edits), paths, f.pageSize).freed + SavedBy(t, edits, paths, threshold, alloc, f).freed
  }

  /** A whole transaction in memory: all marked nodes are rebalanced. */
  ghost predicate Rebalanced(t: Tree, edits: seq<Edit>, paths: seq<seq<nat>>, f: Format) {
    && FileRoot(t) && CanRun(EditTree(t, edits), paths, f.pageSize)
    && Marks(RunAll(EditTree(t, edits), paths, f.pageSize).tree) == multiset{}
  }

  lemma RunPages(t: Tree, edits: seq<Edit>, paths: seq<seq<nat>>, pageSize: nat)
    requires FileRoot(t) && CanRun(EditTree(t, edits), paths, pageSize)
    requires Marks(RunAll(EditTree(t, edits), paths, pageSize).tree) == multiset{}
    ensures var run := RunAll(EditTree(t, edits), paths, pageSize);
      BTree.PageIds(run.tree) + run.freed == BTree.PageIds(t)
    ensures edits == [] ==> Marks(t) == multiset{}
  {
    hide Tight, Shape, Mixed, Entries, BTree.PageIds, FileRoot, Walkable, CanRun, RunAll, Marks, NodesIn;
    FileRootMeans(t);
    EditsMeaning(t, edits, NodesIn(t));
    BeforeSpill(t, edits, paths, pageSize);
    RunMeaning(EditTree(t, edits), paths, pageSize, Open);
  }

  lemma MoreFreed(a: multiset<nat>, b: multiset<nat>, ids: multiset<nat>, all: multiset<nat>)
    requires ids + a == all && b <= ids
    ensures a + b <= all
  {
  }

  /** The result is made of old nodes and of those written, which are where the allocator put them. */
  lemma SavedNodes(t: Tree, edits: seq<Edit>, paths: seq<seq<nat>>, threshold: int, alloc: Allocator, f: Format)
    requires Rebalanced(t, edits, paths, f) && Positive(alloc)
    ensures var r, gone := SavedBy(t, edits, paths, threshold, alloc, f), FreedBy(t, edits, paths, threshold, alloc, f);
      && FileRoot(r.root) && Entries(r.root) == EditList(Entries(t), edits)
      && NodesIn(r.root) <= NodesIn(t) + SetOf(r.wrote) && Follows(r.wrote, alloc, [])
      && BTree.PageIds(r.root) + gone == BTree.PageIds(t) + Given(r.wrote) && gone <= BTree.PageIds(t)
  {
    hide Tight, Shape, Mixed, Entries, BTree.PageIds, FileRoot, Walkable, CanRun, RunAll, Marks, Given, NoneEmpty, SpillRoot, NodesIn, ToSpill;
    var run := RunAll(EditTree(t, edits), paths, f.pageSize);
    TransactionMeaning(t, edits, paths, f.pageSize, threshold, alloc, []);
    RunPages(t, edits, paths, f.pageSize);
    if edits == [] {
      NothingToDo(t, paths, f.pageSize);
    } else {
      BeforeSpill(t, edits, paths, f.pageSize);
      var h := SpillHeight(run.tree, NodesIn(t));
      SpillLogged(run.tree, f.pageSize, threshold, alloc, [], NodesIn(t));
      SpillMeaning(run.tree, h, f.pageSize, threshold, alloc, [], NodesIn(t));
      LoadedWithin(run.tree);
      MoreFreed(run.freed, LoadedIds(run.tree), BTree.PageIds(run.tree), BTree.PageIds(t));
    }
  }

  /** In every run in which the writer gives back the pages that rebalancing and spilling free and writes
      the nodes that spilling makes, interleaved in any way, the new tree ends up ready to be committed. */
  lemma TransactionReady(states: seq<State>, acts: seq<Action>, t: Tree, edits: seq<Edit>, paths: seq<seq<nat>>,
                         threshold: int, alloc: Allocator, f: Format)
    requires Rebalanced(t, edits, paths, f) && Positive(alloc)
    requires Performs(states, acts, f) && Began(states[0], t, f)
    requires Writes(acts) == SavedBy(t, edits, paths, threshold, alloc, f).wrote
    requires Drops(acts) == FreedBy(t, edits, paths, threshold, alloc, f)
    ensures var r, last := SavedBy(t, edits, paths, threshold, alloc, f).root, states[|acts|];
      && Inv(last) && last.writer.Editing? && Ready(last, Image(r, f))
      && FileRoot(r) && Entries(r) == EditList(Entries(t), edits)
  {
    hide SavedBy, FreedBy, CanRun, RunAll, Marks, Began, Inv, Ready, FileRoot, Entries, Step, NodesIn, BTree.PageIds, Given;
    SavedNodes(t, edits, paths, threshold, alloc, f);
    Performed(states, acts, t, f);
    BucketReady(states[0], states[|acts|], t, SavedBy(t, edits, paths, threshold, alloc, f).root, Writes(acts), Drops(acts), f);
  }
}
