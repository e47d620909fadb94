/** Every step of the storage engine keeps the invariant. */
module VersionSteps {
  import opened PageIds
  import opened FreeIds
  import opened FreelistPage
  import opened PageFile
  import opened Versions

  lemma RunOne(p: nat)
    ensures Run(p, 1) == {p}
  {
  }

  lemma InitKeeps(s: State)
    requires Init(s)
    ensures Inv(s)
  {
    hide Run;
    assert PendingIds(map[]) == {};
    var t := PTree(3, 0, [], []);
    assert Pages(t) == {3} by { RunOne(3); }
    assert s.ListRun() == {2} by { RunOne(2); }
    assert KidPages([]) == {} && KidsOnce([]) && AllStored(s.disk, []) && Ids([]) == [];
    assert Stored(s.disk, t) && Once(t);
    assert Served(s, s.Current());
    assert s.Older() == {} && s.Given() == {};
  }

  /** Nothing but the list of readers changed. */
  lemma Same(s: State, s': State)
    requires Inv(s) && s' == s.(readers := s'.readers)
    ensures MetasOk(s') && LedgerOk(s') && Apart(s') && ListOk(s') && PlanOk(s') && GiftsOk(s')
    ensures Served(s', s'.Current())
    ensures forall r | Served(s, r) :: Served(s', r)
  {
    hide PendingIds, PendingOk, ListStored, Stored, Once;
  }

  lemma BeginReadKeeps(s: State, s': State)
    requires Inv(s) && BeginRead(s, s')
    ensures Inv(s')
  {
    hide PendingIds, PendingOk, ListStored, Stored, Once;
    Same(s, s');
    assert forall i | 0 <= i < |s.readers| :: Served(s', s.readers[i]) by {
      assert forall i | 0 <= i < |s.readers| :: Served(s, s.readers[i]);
    }
  }

  lemma EndReadKeeps(s: State, s': State, i: nat)
    requires Inv(s) && EndRead(s, s', i)
    ensures Inv(s')
  {
    hide PendingIds, PendingOk, ListStored, Stored, Once;
    Same(s, s');
    forall k | 0 <= k < |s'.readers| ensures Served(s', s'.readers[k]) {
      assert Served(s, s.readers[if k < i then k else k + 1]);
    }
  }

  // ---- BeginWrite ----

  lemma ReleaseShape(f: Ledger, limit: int)
    ensures f.Release(limit).pending == After(f.pending, limit)
    ensures f.ids <= f.Release(limit).ids
  {
  }

  lemma NoGifts(s: State)
    requires MetasOk(s) && LedgerOk(s) && s.writer.Idle?
    ensures s.NextTx() !in s.free.pending && s.Given() == {} && s.Older() == PendingIds(s.free.pending)
  {
    assert s.free.pending - {s.NextTx()} == s.free.pending;
    ElemsEmpty([]);
  }

  lemma NoGiftsAfter(s: State, limit: int)
    requires MetasOk(s) && LedgerOk(s) && s.writer.Idle?
    ensures s.NextTx() !in After(s.free.pending, limit)
    ensures After(s.free.pending, limit) - {s.NextTx()} == After(s.free.pending, limit)
    ensures Elems(Listed(After(s.free.pending, limit), s.NextTx())) == {}
  {
    ElemsEmpty([]);
  }

  lemma {:induction false} MinTxLow(readers: seq<Meta>, i: nat)
    requires i < |readers|
    ensures MinTx(readers) <= readers[i].txid
  {
    if i < |readers| - 1 {
      MinTxLow(readers[..|readers| - 1], i);
    }
  }

  /** The bound of the release lies above a transaction exactly when every reader does. */
  lemma {:induction false} MinTxIs(readers: seq<Meta>, t: nat)
    ensures t < MinTx(readers) <==> t < 0xFFFF_FFFF_FFFF_FFFF && forall r | r in readers :: t < r.txid
  {
    if readers != [] {
      var k := |readers| - 1;
      MinTxIs(readers[..k], t);
      assert readers == readers[..k] + [readers[k]];
    }
  }

  /** What has become of a page that was pending under a transaction: it is free when every open reader is
      newer than that transaction, and still pending under it when one is not. */
  ghost predicate Released(s: State, s': State, t: nat, x: nat) {
    if forall r | r in s.readers :: t < r.txid then x in s'.free.ids && x !in PendingIds(s'.free.pending)
    else x !in s'.free.ids && t in s'.free.pending && x in s'.free.pending[t]
  }

  lemma PageReleased(s: State, s': State, t: nat, x: nat)
    requires LedgerOk(s) && LedgerOk(s') && BeginWrite(s, s')
    requires t in s.free.pending && x in s.free.pending[t] && t < 0xFFFF_FFFF_FFFF_FFFF
    ensures Released(s, s', t, x)
  {
    MinTxIs(s.readers, t);
    if t < MinTx(s.readers) {
      assert t in Upto(s.free.pending, MinTx(s.readers) - 1);
      assert x in s'.free.ids;
    } else {
      assert t in s'.free.pending && s'.free.pending[t] == s.free.pending[t];
      assert x in PendingIds(s'.free.pending);
    }
  }

  /** What an old reader still needs was given back after the reader began, so it stays pending. */
  lemma StillPending(s: State, s': State, r: Meta, limit: int)
    requires Inv(s) && BeginWrite(s, s') && MetasOk(s') && Served(s, r)
    requires limit == MinTx(s.readers) - 1 && limit < r.txid
    ensures Served(s', r)
  {
    hide PendingIds, PendingOk, ListStored, Stored, Once;
    forall x | x in Pages(s.trees[r.txid]) && x !in s.Base()
      ensures exists t: nat :: r.txid < t <= s.Current().txid && t in s'.free.pending && x in s'.free.pending[t]
    {
      var t: nat :| r.txid < t <= s.Current().txid && t in s.free.pending && x in s.free.pending[t];
      assert t in s'.free.pending && s'.free.pending[t] == s.free.pending[t];
    }
  }

  lemma BeginWriteKeeps(s: State, s': State)
    requires Inv(s) && BeginWrite(s, s')
    ensures Inv(s')
  {
    hide PendingIds, PendingOk, ListStored, Stored, Once, Ledger.Release;
    var limit := MinTx(s.readers) - 1;
    NoGifts(s);
    if MinTx(s.readers) > 0 {
      ReleaseKeeps(s.free, limit);
      assert s'.free.pending == After(s.free.pending, limit) by { ReleaseShape(s.free, limit); }
      NoGiftsAfter(s, limit);
      assert s'.free.All() == s.free.All();
    }
    assert LedgerOk(s');
    assert Apart(s');
    assert ListOk(s');
    forall i | 0 <= i < |s.readers| ensures Served(s', s.readers[i]) {
      MinTxLow(s.readers, i);
      StillPending(s, s', s.readers[i], limit);
    }
    assert Served(s', s.Current());
  }

  /** Beginning to write frees exactly the pages that no open reader can need. */
  lemma BeginReleases(s: State, s': State)
    requires Inv(s) && BeginWrite(s, s')
    ensures forall t: nat, x: nat | t in s.free.pending && x in s.free.pending[t] && t < 0xFFFF_FFFF_FFFF_FFFF :: Released(s, s', t, x)
    ensures forall x | x in s.free.ids :: x in s'.free.ids
    ensures s.readers == [] && s.Current().txid < 0xFFFF_FFFF_FFFF_FFFF ==> PendingIds(s'.free.pending) == {}
  {
    hide ListStored, Stored, Once, Pages, Run, ReadersOk, ListOk, Apart, GiftsOk, PlanOk;
    BeginWriteKeeps(s, s');
    forall t: nat, x: nat | t in s.free.pending && x in s.free.pending[t] && t < 0xFFFF_FFFF_FFFF_FFFF
      ensures Released(s, s', t, x)
    {
      PageReleased(s, s', t, x);
    }
    if s.readers == [] && s.Current().txid < 0xFFFF_FFFF_FFFF_FFFF {
      forall t: nat ensures t !in s'.free.pending { MinTxIs(s.readers, t); }
    }
  }

  // ---- Allocate ----

  /** The new run was free or lies beyond the end, and is no longer listed. */
  lemma PlaceFacts(f: Ledger, top: nat, n: nat, p: nat)
    requires f.Ok() && n > 0 && Placed(f, top, n, p)
    requires forall x | x in f.All() :: x < top
    ensures var g, run := FreeAfter(f, n, p), Run(p, n);
      && g.Ok() && g.All() == f.All() - run && g.ids == f.ids - run && g.pending == f.pending
      && (run <= f.ids || (p == top && g == f))
      && top <= TopAfter(f, top, n, p)
      && (forall x | x in run :: x < TopAfter(f, top, n, p) && (x in f.ids || x >= top))
      && run !! g.All()
      && (forall x | x in g.All() :: x < TopAfter(f, top, n, p))
  {
    hide PendingIds, PendingOk;
    var run := Run(p, n);
    assert p in run;
    if run <= f.ids {
      assert run !! PendingIds(f.pending);
      assert p in f.All() && p + n - 1 in run && p + n - 1 in f.All();
    } else {
      assert p == top;
      assert run !! f.All();
    }
  }

  /** What an allocation of `run` does to the sets of the state. */
  ghost predicate Taken(s: State, s': State, run: set<nat>)
    requires MetasOk(s) && MetasOk(s')
  {
    && s'.Current() == s.Current() && s'.lists == s.lists
    && s'.Base() == s.Base() && s'.ListRun() == s.ListRun()
    && s'.Given() == s.Given() && s'.Older() == s.Older() && s'.free.pending == s.free.pending
    && s'.Dirty().Keys == s.Dirty().Keys + run
    && s'.free.ids == s.free.ids - run && s'.free.All() == s.free.All() - run
    && s.Top() <= s'.Top()
    && forall x | x in run :: x < s'.Top() && (x in s.free.ids || x >= s.Top())
  }

  lemma InRun(p: nat, overflow: nat)
    ensures p in Run(p, overflow + 1)
  {
  }

  lemma AllocateApart(s: State, s': State, run: set<nat>)
    requires Core(s) && MetasOk(s') && Taken(s, s', run)
    ensures Apart(s')
  {
    hide PendingIds, PendingOk, ListStored, Stored, Once, Run, ReadersOk, ListOk;
    assert s.Current().freelist in s.ListRun() by { InRun(s.Current().freelist, s.disk[s.Current().freelist].overflow); }
    assert s.Top() >= s.Current().hwm > 2;
    forall x | x in run ensures 2 <= x < s'.Top() && x !in s.Base() + s.ListRun() {
      assert x in s.free.ids ==> x in s.free.All();
    }
  }

  lemma AllocateList(s: State, s': State, run: set<nat>)
    requires Core(s) && MetasOk(s') && Taken(s, s', run)
    ensures ListOk(s')
  {
    hide PendingIds, PendingOk, ListStored, Stored, Once, Run, ReadersOk, LedgerOk;
    assert s.Top() >= s.Current().hwm;
  }

  lemma AllocateKeeps(s: State, s': State, p: nat, overflow: nat, block: Block)
    requires Inv(s) && Allocate(s, s', p, overflow, block)
    ensures Inv(s')
  {
    hide PendingIds, PendingOk, ListStored, Stored, Once, Cells, Run, Placed, FreeAfter, TopAfter, Ledger.Ok, Ledger.All;
    assert s.free.Ok() && s.ListRun() == s'.ListRun() && s.Base() == s'.Base();
    PlaceFacts(s.free, s.Top(), overflow + 1, p);
    assert s'.Dirty().Keys == s.Dirty().Keys + Run(p, overflow + 1);
    assert s.Given() == s'.Given() && s.Older() == s'.Older();
    assert MetasOk(s') && LedgerOk(s');
    AllocateApart(s, s', Run(p, overflow + 1));
    AllocateList(s, s', Run(p, overflow + 1));
    assert forall r | Served(s, r) :: Served(s', r);
    assert forall i | 0 <= i < |s.readers| :: Served(s, s.readers[i]);
  }

  // ---- FreePage and Prepare ----

  /** The state with one more run of the current version's pages given back. */
  ghost function GiveRun(s: State, p: nat, n: nat): State {
    s.(free := s.free.Give(s.NextTx(), RunSeq(p, n)))
  }

  /** What giving back `run` does to the sets of the state. */
  ghost predicate Gave(s: State, m: State, run: set<nat>)
    requires MetasOk(s) && MetasOk(m)
  {
    && m == s.(free := m.free)
    && run <= s.Base() + s.ListRun() - s.free.All()
    && m.free.Ok() && m.free.All() == s.free.All() + run && m.free.ids == s.free.ids
    && PendingIds(m.free.pending) == PendingIds(s.free.pending) + run
    && m.Given() == s.Given() + run && m.Older() == s.Older()
    && (forall t: nat | t in m.free.pending :: t == s.NextTx() || t in s.free.pending)
    && forall t: nat | t != s.NextTx() && t in s.free.pending ::
      t in m.free.pending && m.free.pending[t] == s.free.pending[t]
  }

  lemma ElemsSum(a: seq<nat>, b: seq<nat>)
    ensures Elems(a + b) == Elems(a) + Elems(b)
  {
  }

  lemma GiveFacts(s: State, p: nat, n: nat)
    requires Core(s) && !s.writer.Idle?
    requires n > 0 && Run(p, n) <= s.Base() + s.ListRun() - s.free.All()
    ensures MetasOk(GiveRun(s, p, n)) && Gave(s, GiveRun(s, p, n), Run(p, n))
  {
    hide PendingOk, PendingIds, Run, Stored, Once, ListStored;
    assert p in Run(p, n) by { InRun(p, n - 1); }
    GiveKeeps(s.free, s.NextTx(), p, n);
    RunSeqElems(p, n);
    var m := GiveRun(s, p, n);
    assert m.free.pending - {s.NextTx()} == s.free.pending - {s.NextTx()};
    assert Listed(m.free.pending, s.NextTx()) == Listed(s.free.pending, s.NextTx()) + RunSeq(p, n);
    ElemsSum(Listed(s.free.pending, s.NextTx()), RunSeq(p, n));
  }

  lemma GiveLedger(s: State, m: State, run: set<nat>)
    requires Core(s) && !s.writer.Idle? && MetasOk(m) && Gave(s, m, run)
    ensures LedgerOk(m)
  {
    hide PendingOk, PendingIds, Run, Stored, Once, ListStored, ReadersOk, ListOk, Ledger.All, Ledger.Ok;
    assert s.Top() >= s.Current().hwm;
    assert m.Top() == s.Top();
  }

  lemma GiveApart(s: State, m: State, run: set<nat>)
    requires Core(s) && !s.writer.Idle? && MetasOk(m) && Gave(s, m, run)
    ensures Apart(m)
  {
    hide PendingOk, PendingIds, Run, Stored, Once, ListStored, ReadersOk, ListOk, LedgerOk, Ledger.All, Ledger.Ok;
    assert m.Base() == s.Base() && m.ListRun() == s.ListRun() && m.Dirty() == s.Dirty() && m.Top() == s.Top();
  }

  lemma GiveReader(s: State, m: State, r: Meta, run: set<nat>)
    requires Core(s) && MetasOk(m) && Served(s, r) && Gave(s, m, run)
    ensures Served(m, r)
  {
    hide PendingOk, PendingIds, Run, Stored, Once, ListStored, LedgerOk, Apart, ListOk, ReadersOk, Ledger.All, Ledger.Ok;
    forall x | x in Pages(s.trees[r.txid]) && x !in s.Base()
      ensures exists t: nat :: r.txid < t <= s.Current().txid && t in m.free.pending && x in m.free.pending[t]
    {
      var t: nat :| r.txid < t <= s.Current().txid && t in s.free.pending && x in s.free.pending[t];
      assert t in m.free.pending && x in m.free.pending[t];
    }
  }

  lemma GiveCore(s: State, m: State, run: set<nat>)
    requires Core(s) && !s.writer.Idle? && MetasOk(m) && Gave(s, m, run)
    ensures Core(m)
  {
    GiveLedger(s, m, run);
    GiveApart(s, m, run);
    hide PendingOk, PendingIds, Run, Stored, Once, ListStored, LedgerOk, Apart, Served;
    assert ListOk(m);
    forall r | Served(s, r) ensures Served(m, r) { GiveReader(s, m, r, run); }
    assert forall i | 0 <= i < |s.readers| :: Served(s, s.readers[i]);
  }

  lemma CoreMetas(s: State)
    requires Core(s)
    ensures MetasOk(s) && s.Base() !! s.ListRun()
  {
  }

  lemma FreePageKeeps(s: State, s': State, p: nat)
    requires Inv(s) && FreePage(s, s', p)
    ensures Inv(s')
  {
    hide PendingOk, PendingIds, Run, Stored, Once, ListStored, Ledger.All, Ledger.Ok, Core;
    var n := s.disk[p].overflow + 1;
    assert s' == GiveRun(s, p, n);
    assert MetasOk(s) by { CoreMetas(s); }
    GiveFacts(s, p, n);
    GiveCore(s, s', Run(p, n));
    assert Run(p, n) !! s.ListRun() by { CoreMetas(s); }
  }

  lemma PrepareTaken(m: State, s': State, k: nat, p: nat)
    requires Core(m) && m.writer.Editing? && k > 0
    requires m.free.Ok() && Placed(m.free, m.Top(), k, p)
    requires s' == m.(free := s'.free, writer := s'.writer) && s'.free == FreeAfter(m.free, k, p)
    requires s'.writer.Flushing? && s'.writer.meta.txid == m.NextTx()
    requires s'.writer.meta.hwm == TopAfter(m.free, m.Top(), k, p)
    requires s'.writer.dirty.Keys == m.writer.dirty.Keys + Run(p, k)
    ensures MetasOk(s') && Taken(m, s', Run(p, k)) && LedgerOk(s')
  {
    hide PendingOk, PendingIds, Run, Stored, Once, ListStored, Placed, FreeAfter, TopAfter, Ledger.Ok, Ledger.All, Served, Apart, ListOk;
    PlaceFacts(m.free, m.Top(), k, p);
    assert s'.Current() == m.Current();
    assert MetasOk(s');
    assert s'.Given() == m.Given() && s'.Older() == m.Older();
  }

  lemma PrepareCore(m: State, s': State, run: set<nat>)
    requires Core(m) && MetasOk(s') && Taken(m, s', run) && LedgerOk(s') && Apart(s') && ListOk(s')
    requires s' == m.(free := s'.free, writer := s'.writer)
    ensures Core(s')
  {
    hide PendingOk, PendingIds, Run, Stored, Once, ListStored, LedgerOk, Apart, ListOk;
    assert forall r | Served(m, r) :: Served(s', r);
    assert forall i | 0 <= i < |m.readers| :: Served(m, m.readers[i]);
  }

  lemma NewRunApart(m: State, s': State, run: set<nat>)
    requires Core(m) && MetasOk(s') && Taken(m, s', run) && Apart(s')
    ensures run !! m.Base() + m.ListRun() + m.Dirty().Keys
  {
    hide PendingOk, PendingIds, Run, Stored, Once, ListStored, ReadersOk, ListOk, LedgerOk;
    assert forall x | x in m.free.ids :: x in m.free.All();
  }

  lemma ListNotFree(s: State)
    requires Inv(s) && s.writer.Editing?
    ensures s.ListRun() !! s.free.All()
  {
    hide PendingOk, PendingIds, Run, Stored, Once, ListStored, ReadersOk, ListOk;
  }

  lemma PlanAgree(disk: map<nat, Cell>, dirty: map<nat, Cell>, cells: map<nat, Cell>, pages: set<nat>, base: set<nat>)
    requires cells.Keys !! base + dirty.Keys && pages <= base + dirty.Keys
    requires forall x | x in pages :: x in disk + dirty
    ensures Agree(disk + dirty, disk + (dirty + cells), pages)
  {
  }

  lemma PlanList(dirty: map<nat, Cell>, p: nat, overflow: nat, list: seq<nat>, words: seq<nat>)
    requires Ascending(list) && Words(list) <= words
    ensures var cells := dirty + Cells(p, overflow, FreeBlock(CountField(|list|), words));
      p in cells && cells[p] == Head(FreeBlock(CountField(|list|), words), overflow) && ListStored(cells, p, list)
  {
    hide Run, Ascending;
    var block := FreeBlock(CountField(|list|), words);
    InRun(p, overflow);
    BlockFrame(Cells(p, overflow, block), dirty + Cells(p, overflow, block), p, overflow, block);
  }

  lemma PreparePlan(s: State, s': State, tree: PTree, p: nat, list: seq<nat>, words: seq<nat>)
    requires Inv(s) && Prepare(s, s', tree, p, list, words)
    requires MetasOk(s') && s'.Given() == s.Given() + s.ListRun()
    requires s'.Base() == s.Base() && s'.ListRun() == s.ListRun()
    requires Run(p, ListPages(s)) !! s.Base() + s.ListRun() + s.Dirty().Keys
    ensures PlanOk(s')
  {
    hide PendingOk, PendingIds, Run, Once, Placed, FreeAfter, TopAfter, Ledger.Ok, Ledger.All, Ledger.Give, LedgerOk, ReadersOk, ListOk, Stored, ListStored, GivenList, ListPages, Cells, Pages;
    var k := ListPages(s);
    var block := FreeBlock(CountField(|list|), words);
    var cells := Cells(p, k - 1, block);
    assert s'.writer.dirty == s.writer.dirty + cells;
    assert Agree(s.disk + s.writer.dirty, s'.disk + s'.writer.dirty, Pages(tree)) by {
      StoredCovers(s.disk + s.writer.dirty, tree);
      PlanAgree(s.disk, s.writer.dirty, cells, Pages(tree), s.Base() + s.ListRun());
    }
    StoredFrame(s.disk + s.writer.dirty, s'.disk + s'.writer.dirty, tree);
    PlanList(s.writer.dirty, p, k - 1, list, words);
    assert s.Base() - s'.Given() <= s.Base() - s.Given();
    assert s.Given() !! s.ListRun();
  }

  /** The state once the pages of the old free list are given back. */
  ghost function ListGiven(s: State): State
    requires s.Current().freelist in s.disk && s.disk[s.Current().freelist].Head?
  {
    s.(free := GivenList(s))
  }

  lemma ListGivenCore(s: State)
    requires Inv(s) && s.writer.Editing?
    ensures MetasOk(s) && Core(ListGiven(s)) && ListGiven(s).Current() == s.Current()
    ensures ListGiven(s).Given() == s.Given() + s.ListRun() && ListGiven(s).Base() == s.Base()
    ensures ListGiven(s).ListRun() == s.ListRun() && ListGiven(s).free.Ok()
    ensures forall x | x in ListGiven(s).free.All() :: x < s.Top()
  {
    hide PendingOk, PendingIds, Run, Stored, Once, ListStored, Ledger.Ok, Ledger.All, Ledger.Give, Served, Pages, ListOk, Apart;
    var q, n := s.Current().freelist, s.disk[s.Current().freelist].overflow + 1;
    ListNotFree(s);
    GiveFacts(s, q, n);
    GiveCore(s, GiveRun(s, q, n), Run(q, n));
    assert ListGiven(s) == GiveRun(s, q, n);
  }

  lemma PrepareBase(s: State, s': State, tree: PTree, p: nat, list: seq<nat>, words: seq<nat>)
    requires Inv(s) && Prepare(s, s', tree, p, list, words)
    ensures Core(s') && s'.Given() == s.Given() + s.ListRun() && s'.Base() == s.Base() && s'.ListRun() == s.ListRun()
    ensures Run(p, ListPages(s)) !! s.Base() + s.ListRun() + s.Dirty().Keys
  {
    hide Inv, Core, Ready, Pages, Run, ListStored, Cells, Placed, FreeAfter, TopAfter, GivenList, ListPages, PendingIds, Apart, ListOk, LedgerOk;
    ListGivenCore(s);
    var m, k := ListGiven(s), ListPages(s);
    PlaceFacts(m.free, s.Top(), k, p);
    PrepareTaken(m, s', k, p);
    AllocateApart(m, s', Run(p, k));
    AllocateList(m, s', Run(p, k));
    PrepareCore(m, s', Run(p, k));
    NewRunApart(m, s', Run(p, k));
  }

  lemma PrepareKeeps(s: State, s': State, tree: PTree, p: nat, list: seq<nat>, words: seq<nat>)
    requires Inv(s) && Prepare(s, s', tree, p, list, words)
    ensures Inv(s')
  {
    hide Ready, PendingOk, PendingIds, Run, ListPages, GivenList, PlanOk, LedgerOk, Apart, ListOk, ReadersOk, Cells, Placed, FreeAfter, TopAfter;
    PrepareBase(s, s', tree, p, list, words);
    PreparePlan(s, s', tree, p, list, words);
  }

  // ---- WriteCell ----

  lemma WriteCellRest(s: State, s': State, x: nat)
    requires Inv(s) && WriteCell(s, s', x) && MetasOk(s')
    requires s'.Base() == s.Base() && s'.ListRun() == s.ListRun()
    requires s'.disk + s'.writer.dirty == s.disk + s.writer.dirty
    ensures LedgerOk(s') && Apart(s') && ListOk(s') && PlanOk(s') && GiftsOk(s')
  {
    hide PendingOk, PendingIds, Run, Stored, Once, ListStored, Ledger.Ok, Ledger.All, Pages, Served;
  }

  /** The page runs a reader may touch are neither free nor about to be written. */
  lemma CoreSafe(s: State, r: Meta)
    requires Core(s) && Served(s, r)
    ensures Pages(s.trees[r.txid]) !! s.Dirty().Keys && Pages(s.trees[r.txid]) !! s.free.ids
    ensures forall x | x in Pages(s.trees[r.txid]) :: x in s.Base() + PendingIds(s.free.pending)
  {
    hide PendingOk, Run, Stored, Once, ListStored, Pages, ListOk, ReadersOk;
    forall x | x in Pages(s.trees[r.txid]) ensures x in s.Base() + PendingIds(s.free.pending) {
      if x !in s.Base() {
        var t: nat :| r.txid < t <= s.Current().txid && t in s.free.pending && x in s.free.pending[t];
      }
    }
  }

  lemma ListFrame(s: State, s': State, x: nat)
    requires Core(s) && WriteCell(s, s', x)
    ensures MetasOk(s') && s'.ListRun() == s.ListRun() && s'.Base() == s.Base()
  {
    hide PendingOk, PendingIds, Run, Ledger.Ok, Ledger.All, Pages, Served, ListOk, LedgerOk, ReadersOk, Ascending;
    var p := s.Current().freelist;
    InRun(p, s.disk[p].overflow);
    BlockFrame(s.disk, s'.disk, p, s.disk[p].overflow, s.disk[p].block);
  }

  lemma ReaderFrame(s: State, s': State, x: nat, r: Meta)
    requires Core(s) && WriteCell(s, s', x) && MetasOk(s') && Served(s, r)
    requires s'.Base() == s.Base()
    ensures Served(s', r)
  {
    CoreSafe(s, r);
    hide PendingOk, PendingIds, Run, Ledger.Ok, Ledger.All, Pages, ListOk, LedgerOk, ReadersOk, Stored, Apart;
    StoredCovers(s.disk, s.trees[r.txid]);
    StoredFrame(s.disk, s'.disk, s.trees[r.txid]);
  }

  lemma WriteCellKeeps(s: State, s': State, x: nat)
    requires Inv(s) && WriteCell(s, s', x)
    ensures Inv(s')
  {
    hide PendingOk, PendingIds, Run, Stored, Once, ListStored, Ledger.Ok, Ledger.All, Pages, Served;
    CoreSafe(s, s.Current());
    ListFrame(s, s', x);
    assert s'.disk + s'.writer.dirty == s.disk + s.writer.dirty;
    assert MetasOk(s') && s'.Base() == s.Base() && s'.ListRun() == s.ListRun();
    ReaderFrame(s, s', x, s.Current());
    forall i | 0 <= i < |s.readers| ensures Served(s', s.readers[i]) {
      ReaderFrame(s, s', x, s.readers[i]);
    }
    WriteCellRest(s, s', x);
  }

  // ---- WriteMeta ----

  /** Publishing makes the planned tree and list the current ones. */
  lemma PublishSets(s: State, s': State)
    requires Inv(s) && WriteMeta(s, s')
    ensures MetasOk(s') && s'.Current() == s.writer.meta && s'.writer.Idle?
    ensures s'.Base() == Pages(s.writer.tree) && Stored(s'.disk, s.writer.tree)
    ensures s'.Base() + s'.ListRun() == (s.Base() + s.ListRun() - s.Given()) + s.Dirty().Keys
    ensures s'.Base() !! s'.ListRun()
    ensures s'.Top() == s.Top() && s'.lists[s'.Current().txid] == s.writer.list
  {
    hide PendingOk, PendingIds, Run, Ledger.Ok, Ledger.All, Pages, Served, ListOk, LedgerOk, ReadersOk, Ascending, Apart, Stored;
    var w := s.writer;
    var p := w.meta.freelist;
    assert s.disk + w.dirty == s.disk;
    InRun(p, w.dirty[p].overflow);
    BlockFrame(w.dirty, s.disk, p, w.dirty[p].overflow, w.dirty[p].block);
    assert ListStored(s'.disk, p, w.list);
  }

  lemma AllAboveOne(f: Ledger)
    requires f.Ok()
    ensures forall x | x in f.All() :: x >= 2
  {
  }

  /** A list that was just written is exactly the ledger. */
  lemma PublishList(s: State)
    requires MetasOk(s) && LedgerOk(s) && Apart(s) && s.writer.Idle?
    requires Elems(s.lists[s.Current().txid]) == s.free.All()
    ensures ListOk(s)
  {
    hide PendingOk, PendingIds, Run, Pages, Served, ReadersOk, Stored, ListStored, Ascending, Kept, Ledger.Ok;
    NoGifts(s);
    var list := s.lists[s.Current().txid];
    KeptWithin(list);
    assert forall x | x in list :: x in Elems(list);
    AllAboveOne(s.free);
    assert forall x | x in s.free.ids :: x in s.free.All() && x in Elems(list) && x in list;
    forall x | x in list ensures 2 <= x < s.Current().hwm && x !in s.Base() + s.ListRun() {
      assert x in s.free.All();
      assert x !in PendingIds(s.free.pending) * (s.Base() + s.ListRun());
    }
    assert forall x | x in Kept(list) :: x in Elems(Kept(list));
  }

  lemma PublishApart(s: State, s': State)
    requires Inv(s) && WriteMeta(s, s') && MetasOk(s')
    requires s'.Current() == s.writer.meta && s'.writer.Idle?
    requires s'.Base() + s'.ListRun() == (s.Base() + s.ListRun() - s.Given()) + s.Dirty().Keys
    requires s'.Base() !! s'.ListRun()
    requires s'.Top() == s.Top() && s'.lists[s'.Current().txid] == s.writer.list
    ensures LedgerOk(s') && Apart(s') && ListOk(s')
  {
    hide PendingOk, PendingIds, Run, Pages, Served, ReadersOk, Ascending, Stored, ListStored, ListOk;
    NoGifts(s');
    assert PendingIds(s.free.pending) !! (s.Base() + s.ListRun() - s.Given()) + s.Dirty().Keys;
    assert Apart(s');
    PublishList(s');
  }

  lemma PublishReader(s: State, s': State, r: Meta)
    requires Inv(s) && WriteMeta(s, s') && MetasOk(s') && Served(s, r)
    requires s'.Current() == s.writer.meta && s'.Base() == Pages(s.writer.tree)
    ensures Served(s', r)
  {
    hide PendingOk, PendingIds, Run, Pages, Stored, ListStored, Apart, LedgerOk, ListOk, ReadersOk;
    forall x | x in Pages(s.trees[r.txid]) && x !in s'.Base()
      ensures exists t: nat :: r.txid < t <= s'.Current().txid && t in s'.free.pending && x in s'.free.pending[t]
    {
      if x in s.Base() {
        assert x in s.Given();
        assert s.NextTx() in s'.free.pending && x in s'.free.pending[s.NextTx()];
      } else {
        var t: nat :| r.txid < t <= s.Current().txid && t in s.free.pending && x in s.free.pending[t];
        assert t in s'.free.pending && x in s'.free.pending[t];
      }
    }
  }

  lemma PublishReaders(s: State, s': State)
    requires Inv(s) && WriteMeta(s, s') && MetasOk(s')
    requires s'.Current() == s.writer.meta && s'.Base() == Pages(s.writer.tree) && Stored(s'.disk, s.writer.tree)
    ensures ReadersOk(s')
  {
    hide PendingOk, PendingIds, Run, Pages, Stored, ListStored, Apart, LedgerOk, ListOk;
    assert Served(s', s'.Current());
    forall i | 0 <= i < |s.readers| ensures Served(s', s.readers[i]) {
      PublishReader(s, s', s.readers[i]);
    }
  }

  lemma WriteMetaKeeps(s: State, s': State)
    requires Inv(s) && WriteMeta(s, s')
    ensures Inv(s')
  {
    PublishSets(s, s');
    PublishApart(s, s');
    PublishReaders(s, s');
    hide PendingOk, PendingIds, Run, Ledger.Ok, Ledger.All, Pages, Stored, MetasOk, LedgerOk, Apart, ListOk, ReadersOk;
  }

  // ---- Rollback and Crash ----

  lemma KeptWithin(list: seq<nat>)
    ensures Elems(Kept(list)) <= Elems(list)
  {
  }

  lemma RevertSets(s: State, s': State)
    requires Core(s) && Rollback(s, s')
    ensures MetasOk(s') && LedgerOk(s') && s'.free.pending == s.free.pending - {s.NextTx()}
    ensures PendingIds(s'.free.pending) == s.Older() == PendingIds(s.free.pending) - s.Given()
    ensures s'.free.ids == ReadList(s) - s.Older()
    ensures ReadList(s) <= Elems(s.lists[s.Current().txid])
  {
    hide PendingOk, PendingIds, Run, Pages, Stored, Once, ListStored, Served, Ascending, Apart, ReadersOk;
    KeptWithin(s.lists[s.Current().txid]);
    RevertOk(s.free, s.NextTx(), ReadList(s));
    PendingRemove(s.free.pending, s.NextTx());
  }

  lemma RollbackReader(s: State, s': State, r: Meta)
    requires Core(s) && Rollback(s, s') && MetasOk(s') && Served(s, r)
    ensures Served(s', r)
  {
    hide PendingOk, PendingIds, Run, Pages, Stored, Once, ListStored, Apart, LedgerOk, ListOk, ReadersOk;
    forall x | x in Pages(s.trees[r.txid]) && x !in s.Base()
      ensures exists t: nat :: r.txid < t <= s.Current().txid && t in s'.free.pending && x in s'.free.pending[t]
    {
      var t: nat :| r.txid < t <= s.Current().txid && t in s.free.pending && x in s.free.pending[t];
      assert t in s'.free.pending && x in s'.free.pending[t];
    }
  }

  lemma RollbackKeeps(s: State, s': State)
    requires Inv(s) && Rollback(s, s')
    ensures Inv(s')
  {
    hide PendingOk, PendingIds, Run, Pages, Stored, Once, ListStored, Served, Ascending, Kept;
    RevertSets(s, s');
    NoGifts(s');
    assert Apart(s');
    RollbackReader(s, s', s.Current());
    forall i | 0 <= i < |s.readers| ensures Served(s', s.readers[i]) {
      RollbackReader(s, s', s.readers[i]);
    }
    assert ListOk(s');
  }

  lemma CoreCurrent(s: State)
    requires Core(s)
    ensures Served(s, s.Current())
  {
  }

  lemma CrashReaders(s: State)
    requires MetasOk(s) && s.readers == [] && Served(s, s.Current())
    ensures ReadersOk(s)
  {
  }

  lemma CrashKeeps(s: State, s': State)
    requires Inv(s) && Crash(s, s')
    ensures Inv(s')
  {
    hide Run, Pages, Stored, Once, ListStored, Ascending, ReadersOk;
    KeptWithin(s.lists[s.Current().txid]);
    var none: map<nat, seq<nat>> := map[];
    assert PendingIds(none) == {} && none - {s.NextTx()} == none;
    ElemsEmpty([]);
    assert s'.Older() == {};
    assert Served(s, s.Current()) by { CoreCurrent(s); }
    assert Served(s', s'.Current());
    assert ReadersOk(s') by { CrashReaders(s'); }
  }

  /** Every action, by any transaction or none, keeps the invariant. */
  lemma StepKeeps(s: State, s': State, e: Event)
    requires Inv(s) && Step(s, s', e)
    ensures Inv(s')
  {
    hide Inv, BeginRead, EndRead, BeginWrite, Allocate, FreePage, Prepare, WriteCell, WriteMeta, Rollback, Crash;
    match e
    case EBeginRead => BeginReadKeeps(s, s');
    case EEndRead(i) => EndReadKeeps(s, s', i);
    case EBeginWrite => BeginWriteKeeps(s, s');
    case EAllocate(at, overflow, block) => AllocateKeeps(s, s', at, overflow, block);
    case EFreePage(p) => FreePageKeeps(s, s', p);
    case EPrepare(tree, at, list, words) => PrepareKeeps(s, s', tree, at, list, words);
    case EWriteCell(x) => WriteCellKeeps(s, s', x);
    case EWriteMeta => WriteMetaKeeps(s, s');
    case ERollback => RollbackKeeps(s, s');
    case ECrash => CrashKeeps(s, s');
  }
}
