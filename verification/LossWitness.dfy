/** A run after which a page is lost: a free list of 0xFFFF or more ids is written, and read back. */
module LossWitness {
  import opened PageIds
  import opened FreeIds
  import opened FreelistPage
  import opened PageFile
  import opened Versions
  import opened VersionSteps
  import opened VersionRuns
  import opened Commits
  import opened CommitRuns

  /** At rest, with one leaf as the current version. */
  ghost predicate OneLeaf(s: State, id: nat, overflow: nat) {
    && Inv(s) && s.writer.Idle?
    && s.Current().txid in s.trees && s.trees[s.Current().txid] == PTree(id, overflow, [], [])
  }

  lemma LeafPages(id: nat, overflow: nat)
    ensures var t := PTree(id, overflow, [], []); Pages(t) == Run(id, overflow + 1) && Once(t)
  {
    hide Run;
    assert KidPages([]) == {} && KidsOnce([]);
  }

  lemma LeafStored(cells: map<nat, Cell>, id: nat, overflow: nat)
    ensures Stored(cells, PTree(id, overflow, [], [])) <==> HasBlock(cells, id, overflow, TreeBlock([], []))
  {
    hide HasBlock;
    assert AllStored(cells, []) && Ids([]) == [];
  }

  lemma Allocated(b: State, m: State, p: nat, k: nat)
    requires Inv(b) && b.writer.Editing? && b.writer.dirty == map[] && Allocate(b, m, p, k, TreeBlock([], []))
    ensures m.writer.Editing? && m.writer.dirty == Cells(p, k, TreeBlock([], [])) && m.disk == b.disk && m.trees == b.trees
    ensures m.Current() == b.Current() && m.Given() == b.Given()
  {
    hide Run, Cells, Placed, FreeAfter;
    var cells := Cells(p, k, TreeBlock([], []));
    assert map[] + cells == cells;
    NewCellsApart(b, m, p, k, TreeBlock([], []));
    GivenSame(b, m);
  }

  lemma InvCore(s: State)
    requires Inv(s)
    ensures Core(s)
  {
  }

  lemma Starts(cells: map<nat, Cell>, p: nat, overflow: nat, block: Block)
    requires HasBlock(cells, p, overflow, block)
    ensures p in cells && cells[p] == Head(block, overflow)
  {
  }

  lemma OverBlock(disk: map<nat, Cell>, dirty: map<nat, Cell>, p: nat, overflow: nat, block: Block)
    requires HasBlock(dirty, p, overflow, block)
    ensures HasBlock(disk + dirty, p, overflow, block)
  {
  }

  /** The old leaf is given back, and the new one is ready to be committed. */
  lemma DropLeaf(b: State, m: State, id: nat, overflow: nat, p: nat, k: nat) returns (d: State)
    requires Inv(m) && m.writer.Editing? && m.writer.dirty == Cells(p, k, TreeBlock([], [])) && m.Given() == {}
    requires m.Current().txid in m.trees && m.trees[m.Current().txid] == PTree(id, overflow, [], [])
    ensures FreePage(m, d, id) && Inv(d) && d.writer == m.writer && d.Current() == m.Current()
    ensures d.Given() == Run(id, overflow + 1) && Ready(d, PTree(p, k, [], []))
  {
    hide Inv, Run, RunSeq, Cells, HasBlock, Stored, Once, Pages, Ledger.All, Ledger.Give;
    CurrentStored(m);
    LeafPages(id, overflow);
    LeafPages(p, k);
    LeafStored(m.disk, id, overflow);
    Starts(m.disk, id, overflow, TreeBlock([], []));
    NotListed(m, Run(id, overflow + 1));
    d := m.(free := m.free.Give(m.NextTx(), RunSeq(id, overflow + 1)));
    FreePageKeeps(m, d, id);
    InvCore(m);
    GiveFacts(m, id, overflow + 1);
    LeafStored(d.disk + d.writer.dirty, p, k);
    OverBlock(d.disk, d.writer.dirty, p, k, TreeBlock([], []));
  }

  /** What the writer gave back is in the list that is written. */
  lemma ManyListed(d: State, s': State, list: seq<nat>, run: set<nat>, q: nat)
    requires Inv(d) && d.writer.Editing? && run == d.Given() && MetasOk(d)
    requires Placed(GivenList(d), d.writer.meta.hwm, ListPages(d), q)
    requires s'.free == FreeAfter(GivenList(d), ListPages(d), q) && Elems(list) == s'.free.All()
    ensures run <= Elems(list)
  {
    hide Run, Placed, ListPages, PendingOk, Stored, Once, Pages, ListStored;
    var pending := s'.free.pending;
    assert pending == GivenList(d).pending;
    assert Listed(d.free.pending, d.NextTx()) <= Listed(pending, d.NextTx());
    forall x | x in run ensures x in PendingIds(pending) {
      assert x in Listed(pending, d.NextTx());
    }
  }

  lemma {:induction false} RunCard(p: nat, n: nat)
    ensures |Run(p, n)| == n
  {
    if n > 0 {
      RunCard(p, n - 1);
      assert Run(p, n) == Run(p, n - 1) + {p + n - 1};
    }
  }

  lemma ListLength(list: seq<nat>, some: set<nat>)
    requires Ascending(list) && some <= Elems(list)
    ensures |list| >= |some|
  {
    AscendingDistinct(list);
    DistinctCard(list);
    var rest := Elems(list) - some;
    assert Elems(list) == some + rest;
  }

  /** The leaf is replaced by one with k overflow pages; its own pages are listed then. */
  lemma ReplaceLeaf(s: State, id: nat, overflow: nat, k: nat) returns (s': State, p: nat)
    requires OneLeaf(s, id, overflow)
    ensures Reaches(s, s') && OneLeaf(s', p, k)
    ensures s'.Current().txid in s'.lists && |s'.lists[s'.Current().txid]| > overflow
  {
    hide Inv, Reaches, Allocate, FreePage, Ready, Placed, FreeAfter, ListPages, GivenList, Run, RunSeq, Pages, Once, Stored;
    var b := Begin(s);
    BeginReaches(s, b);
    p := Spot(PoolOf(b), k + 1);
    SpotPlaced(b.free, b.Top(), k + 1);
    var m := AllocateStep(b, p, k, TreeBlock([], []));
    AllocateKeeps(b, m, p, k, TreeBlock([], []));
    OneStep(b, m, EAllocate(p, k, TreeBlock([], [])));
    Further(s, b, m);
    Allocated(b, m, p, k);
    var d := DropLeaf(b, m, id, overflow, p, k);
    OneStep(m, d, EFreePage(id));
    Further(s, m, d);
    var q, list;
    s', q, list := CommitReaches(d, PTree(p, k, [], []));
    Further(s, d, s');
    InvMetas(d);
    ManyListed(d, s', list, Run(id, overflow + 1), q);
    RunCard(id, overflow + 1);
    ListLength(list, Run(id, overflow + 1));
  }

  lemma StartsWithLeaf(s: State)
    requires Init(s) && Inv(s)
    ensures OneLeaf(s, 3, 0)
  {
  }

  /** It happens: a leaf of 0xFFFF pages is written and replaced, and the file is closed and opened again. The
      file is sound at every step, and one page belongs to nothing any more. */
  lemma LossHappens(s: State) returns (before: State, after: State)
    requires Init(s)
    ensures Reaches(s, before) && Crash(before, after) && Inv(before) && Inv(after)
    ensures Lost(before) == {} && Lost(after) != {}
  {
    hide Inv, Reaches, Lost, LostOnFile;
    InitKeeps(s);
    InitConserves(s);
    StartsWithLeaf(s);
    var m, p, q;
    m, p := ReplaceLeaf(s, 3, 0, COUNT_OVERFLOW - 1);
    before, q := ReplaceLeaf(m, p, COUNT_OVERFLOW - 1, 0);
    Further(s, m, before);
    ReachKeeps(s, before);
    InvMetas(before);
    after := before.(writer := Idle, readers := [], free := Ledger(ReadList(before), map[]));
    ReloadConservesIff(before, after, ECrash);
  }
}
