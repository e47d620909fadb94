/** What holds in every run of the storage engine. */
module VersionRuns {
  import opened PageIds
  import opened FreeIds
  import opened FreelistPage
  import opened PageFile
  import opened Versions
  import opened VersionSteps

  /** A run: any interleaving of readers, the writer's actions, rollbacks and crashes. */
  ghost predicate IsRun(states: seq<State>, events: seq<Event>) {
    && |states| == |events| + 1
    && Init(states[0])
    && forall i | 0 <= i < |events| :: Step(states[i], states[i + 1], events[i])
  }

  lemma {:induction false} RunKeeps(states: seq<State>, events: seq<Event>, i: nat)
    requires IsRun(states, events) && i < |states|
    ensures Inv(states[i])
  {
    hide Init, Step, Inv;
    if i == 0 {
      InitKeeps(states[0]);
    } else {
      RunKeeps(states, events, i - 1);
      StepKeeps(states[i - 1], states[i], events[i - 1]);
    }
  }

  // ---- Snapshot safety ----

  /** The page runs of a version are neither free nor among the writer's new pages. */
  ghost predicate Untouchable(s: State, r: Meta) {
    && r.txid in s.trees && s.trees[r.txid].id == r.root
    && Stored(s.disk, s.trees[r.txid])
    && Pages(s.trees[r.txid]) !! s.free.ids && Pages(s.trees[r.txid]) !! s.Dirty().Keys
  }

  lemma Intact(s: State, r: Meta)
    requires Core(s) && Served(s, r)
    ensures Untouchable(s, r)
  {
    CoreSafe(s, r);
  }

  /** In every reachable state the current version and every open reader's version are intact,
      and none of their pages is free or about to be overwritten. */
  lemma SnapshotSafety(states: seq<State>, events: seq<Event>, i: nat)
    requires IsRun(states, events) && i < |states|
    ensures Untouchable(states[i], states[i].Current())
    ensures forall r | r in states[i].readers :: Untouchable(states[i], r)
  {
    RunKeeps(states, events, i);
    var s := states[i];
    hide IsRun;
    Intact(s, s.Current());
    forall r | r in s.readers ensures Untouchable(s, r) {
      var k :| 0 <= k < |s.readers| && s.readers[k] == r;
      Intact(s, r);
    }
  }

  /** The record of a committed version never changes. */
  lemma StepRecord(s: State, s': State, e: Event)
    requires Inv(s) && Step(s, s', e)
    ensures forall v: nat | v in s.trees :: v in s'.trees && s'.trees[v] == s.trees[v]
  {
    hide Run, Stored, ListStored, PendingIds, PendingOk;
  }

  lemma {:induction false} RunRecord(states: seq<State>, events: seq<Event>, i: nat, j: nat)
    requires IsRun(states, events) && i <= j < |states|
    ensures forall v: nat | v in states[i].trees :: v in states[j].trees && states[j].trees[v] == states[i].trees[v]
    decreases j
  {
    hide Step, Init, Inv;
    if i < j {
      RunRecord(states, events, i, j - 1);
      RunKeeps(states, events, j - 1);
      StepRecord(states[j - 1], states[j], events[j - 1]);
    }
  }

  /** A reader that is still open reads, from its own root, exactly the tree it read before,
      whatever writers, other readers and the file did in between. */
  lemma SnapshotIsolation(states: seq<State>, events: seq<Event>, i: nat, j: nat, r: Meta, seen: PTree)
    requires IsRun(states, events) && i <= j < |states|
    requires r in states[i].readers && r in states[j].readers
    requires seen.id == r.root
    ensures Stored(states[i].disk, seen) <==> Stored(states[j].disk, seen)
  {
    SnapshotSafety(states, events, i);
    SnapshotSafety(states, events, j);
    RunRecord(states, events, i, j);
    hide IsRun, Pages;
    var t := states[i].trees[r.txid];
    if Stored(states[i].disk, seen) { StoredUnique(states[i].disk, seen, t); }
    if Stored(states[j].disk, seen) { StoredUnique(states[j].disk, seen, t); }
  }

  // ---- Commit atomicity ----

  lemma StepLists(s: State, s': State, e: Event)
    requires Inv(s) && Step(s, s', e) && !e.EWriteMeta?
    ensures s'.Current() == s.Current() && s'.lists == s.lists
  {
    hide Run, Stored, ListStored, PendingIds, PendingOk;
  }

  /** Only the meta write changes the current version; until then a crash, at any point and with any
      part of the dirty pages on file, comes back with the previous version, its tree and its list. */
  lemma CommitAtomicity(s: State, s': State, e: Event)
    requires Inv(s) && Step(s, s', e) && !e.EWriteMeta?
    ensures s'.Current() == s.Current()
    ensures Untouchable(s', s.Current()) && s'.trees[s.Current().txid] == s.trees[s.Current().txid]
    ensures ListStored(s'.disk, s.Current().freelist, s.lists[s.Current().txid])
  {
    StepKeeps(s, s', e);
    StepRecord(s, s', e);
    StepLists(s, s', e);
    hide Step;
    Intact(s', s'.Current());
  }

  /** The meta write goes to the slot that does not hold the current version, and makes the
      planned version current with the next transaction id. */
  lemma MetaWritten(s: State, s': State)
    requires Inv(s) && WriteMeta(s, s')
    ensures s'.Current() == s.writer.meta && s'.Current().txid == s.Current().txid + 1
    ensures s.Current() == s'.meta0 || s.Current() == s'.meta1
    ensures s'.meta0.txid == s'.meta1.txid + 1 || s'.meta1.txid == s'.meta0.txid + 1
    ensures Untouchable(s', s'.Current()) && s'.trees[s'.Current().txid] == s.writer.tree
  {
    WriteMetaKeeps(s, s');
    PublishSets(s, s');
    Intact(s', s'.Current());
  }

  // ---- Rollback ----

  /** The ledger a rollback would restore. */
  ghost function Restored(s: State): Ledger
    requires MetasOk(s)
  {
    s.free.Revert(s.NextTx(), ReadList(s))
  }

  /** The current free-list page counts its ids without overflow. */
  predicate ShortList(s: State) {
    s.Current().txid in s.lists && |s.lists[s.Current().txid]| < 0xFFFF
  }

  lemma RestoredAtBegin(s: State, s': State)
    requires Inv(s) && BeginWrite(s, s') && Inv(s')
    requires ShortList(s)
    ensures Restored(s') == s'.free
  {
    hide PendingIds, PendingOk, ListStored, Stored, Once, ReadersOk, Pages, Run;
    NoGifts(s);
    var limit := MinTx(s.readers) - 1;
    ReleaseShape(s.free, limit);
    NoGiftsAfter(s, limit);
    var list := s.lists[s.Current().txid];
    assert Kept(list) == list;
    assert s'.free.pending - {s.NextTx()} == s'.free.pending;
    assert s'.Older() == PendingIds(s'.free.pending);
    forall x: nat ensures x in ReadList(s') - s'.Older() <==> x in s'.free.ids {
      assert x in ReadList(s') <==> x in list;
      if x in s'.free.ids { assert x in s'.free.ids + s'.Dirty().Keys && x in list; }
    }
  }

  /** An action of the writer, or of a reader, while a write transaction is open. */
  ghost predicate During(e: Event) {
    e.EBeginRead? || e.EEndRead? || e.EAllocate? || e.EFreePage? || e.EPrepare? || e.EWriteCell?
  }

  lemma RevertSame(f: Ledger, g: Ledger, txid: nat, listed: set<nat>)
    requires f.pending - {txid} == g.pending - {txid}
    ensures f.Revert(txid, listed) == g.Revert(txid, listed)
  {
  }

  lemma RestPending(s: State, s': State, e: Event)
    requires Inv(s) && Step(s, s', e) && During(e)
    ensures s'.free.pending - {s.NextTx()} == s.free.pending - {s.NextTx()}
  {
    hide PendingIds, PendingOk, ListStored, Stored, Once, ReadersOk, Pages, Run, Placed, RunSeq, Cells, Listed, Inv, ListPages;
    match e {
      case EPrepare(tree, at, list, words) =>
        assert s'.free.pending == GivenList(s).pending;
      case _ =>
    }
  }

  lemma RestoredSame(s: State, s': State, e: Event)
    requires Inv(s) && Step(s, s', e) && Inv(s') && During(e)
    ensures Restored(s') == Restored(s)
  {
    hide Step, Core, PendingIds, PlanOk, GiftsOk, MetasOk, Kept, Ledger.Revert;
    StepLists(s, s', e);
    RestPending(s, s', e);
    assert MetasOk(s) && MetasOk(s') by { CoreMetas(s); CoreMetas(s'); }
    assert ReadList(s') == ReadList(s);
    RevertSame(s.free, s'.free, s.NextTx(), ReadList(s));
  }

  lemma {:induction false} RestoredDuring(states: seq<State>, events: seq<Event>, i: nat, j: nat)
    requires IsRun(states, events) && i <= j < |states|
    requires forall k | i <= k < j :: During(events[k])
    ensures Inv(states[i]) && Inv(states[j]) && Restored(states[j]) == Restored(states[i])
    decreases j
  {
    hide Inv, Step;
    RunKeeps(states, events, i);
    if i < j {
      RestoredDuring(states, events, i, j - 1);
      RunKeeps(states, events, j);
      RestoredSame(states[j - 1], states[j], events[j - 1]);
    }
  }

  /** Whatever the writer allocated, gave back or wrote, and whichever readers came and went,
      rolling back restores the free list to what it was right after the writer began.
      Lists of 0xFFFF or more ids are the exception. */
  lemma RollbackExact(states: seq<State>, events: seq<Event>, i: nat, j: nat)
    requires IsRun(states, events) && i < j < |events|
    requires events[i].EBeginWrite? && events[j].ERollback?
    requires forall k | i < k < j :: During(events[k])
    requires ShortList(states[i])
    ensures states[j + 1].free == states[i + 1].free
  {
    RunKeeps(states, events, i);
    RunKeeps(states, events, i + 1);
    RestoredAtBegin(states[i], states[i + 1]);
    RestoredDuring(states, events, i + 1, j);
    assert Step(states[j], states[j + 1], events[j]);
  }

  // ---- Conservation ----

  /** All page ids from 2 up to, not including, n. */
  ghost function Span(n: nat): set<nat> {
    Run(2, if n < 2 then 0 else n - 2)
  }

  /** Pages of the current version. */
  ghost function Live(s: State): set<nat>
    requires MetasOk(s)
  {
    s.Base() + s.ListRun()
  }

  /** Pages no part of the running engine accounts for. */
  ghost function Lost(s: State): set<nat>
    requires MetasOk(s)
  {
    Span(s.Top()) - Live(s) - s.free.All() - s.Dirty().Keys
  }

  /** Pages the committed file does not account for. */
  ghost function LostOnFile(s: State): set<nat>
    requires MetasOk(s)
  {
    Span(s.Current().hwm) - Live(s) - Elems(s.lists[s.Current().txid])
  }

  /** What reading the current free-list page back would leave out. */
  ghost function Dropped(s: State): set<nat>
    requires MetasOk(s)
  {
    Elems(s.lists[s.Current().txid]) - ReadList(s)
  }

  lemma DroppedFrom(list: seq<nat>)
    requires Ascending(list)
    ensures Elems(list) - Elems(Kept(list)) == if |list| < COUNT_OVERFLOW then {} else {list[|list| - 1]}
  {
    KeptElems(list);
    hide Kept, Ascending;
    assert |list| >= COUNT_OVERFLOW ==> list[|list| - 1] in Elems(list);
  }

  /** Only a list of 0xFFFF ids or more drops anything, and then it is its largest id. */
  lemma DroppedExactly(s: State)
    requires Inv(s)
    ensures var list := s.lists[s.Current().txid];
      Dropped(s) == if |list| < 0xFFFF then {} else {list[|list| - 1]}
  {
    hide PendingIds, PendingOk, Stored, Once, ReadersOk, Pages, Run, PlanOk, LedgerOk, Apart, ListOk, GiftsOk, HasBlock;
    DroppedFrom(s.lists[s.Current().txid]);
    hide Inv;
  }

  /** The state is at rest: no write transaction is open. */
  lemma RestIsPartition(s: State, x: nat)
    requires Inv(s) && s.writer.Idle? && Lost(s) == {}
    ensures 2 <= x < s.Current().hwm <==> x in s.Base() + s.ListRun() + s.free.ids + PendingIds(s.free.pending)
    ensures !(x in s.Base() && x in s.ListRun()) && !(x in s.Base() && x in s.free.ids)
    ensures !(x in s.Base() && x in PendingIds(s.free.pending)) && !(x in s.ListRun() && x in s.free.ids)
    ensures !(x in s.ListRun() && x in PendingIds(s.free.pending))
    ensures !(x in s.free.ids && x in PendingIds(s.free.pending))
  {
    hide PendingIds, PendingOk, Stored, Once, ReadersOk, Pages, Run, PlanOk, ListOk, GiftsOk, ListStored;
    NoGifts(s);
    AllAboveOne(s.free);
    assert x in PendingIds(s.free.pending) ==> x in s.free.All();
    assert x in s.free.ids ==> x in s.free.All();
    assert x !in Lost(s);
    assert x !in PendingIds(s.free.pending) * (s.Base() + s.ListRun());
  }

  lemma ListInSpan(s: State)
    requires Inv(s)
    ensures Elems(s.lists[s.Current().txid]) <= Span(s.Current().hwm) && s.Older() <= Elems(s.lists[s.Current().txid])
    ensures Elems(s.lists[s.Current().txid]) !! Live(s)
  {
    hide PendingIds, PendingOk, Stored, Once, ReadersOk, Pages, PlanOk, GiftsOk, ListStored, Apart, LedgerOk, Kept;
  }

  /** Reloading the list loses exactly what the page drops and nobody still holds as pending. */
  lemma ReloadLoses(s: State, s': State, e: Event)
    requires Inv(s) && Step(s, s', e) && Inv(s') && (e.ERollback? || e.ECrash?)
    ensures Lost(s') == LostOnFile(s) + (Dropped(s) - if e.ERollback? then s.Older() else {})
    ensures LostOnFile(s') == LostOnFile(s)
  {
    hide PendingOk, Stored, Once, ReadersOk, Pages, Run, PlanOk, GiftsOk, ListStored, Apart;
    assert s'.Current() == s.Current() && Live(s') == Live(s);
    var list := Elems(s.lists[s.Current().txid]);
    KeptWithin(s.lists[s.Current().txid]);
    ListInSpan(s);
    if e.ERollback? {
      RevertSets(s, s');
      assert s'.free.All() == ReadList(s) + s.Older();
      hide PendingIds;
    } else {
      assert PendingIds(s'.free.pending) == {};
      assert s'.free.All() == ReadList(s);
    }
  }

  lemma PublishAlgebra(span: set<nat>, live: set<nat>, given: set<nat>, all: set<nat>, dirty: set<nat>)
    requires given <= all
    ensures span - ((live - given) + dirty) - all == span - live - all - dirty
    ensures span - ((live - given) + dirty) - all - {} == span - live - all - dirty
  {
  }

  lemma GivenListed(s: State)
    requires Core(s)
    ensures s.Given() <= s.free.All()
  {
    hide Stored, Once, ReadersOk, Pages, Run, ListStored, ListOk, MetasOk, Apart, PendingOk;
    assert forall x | x in Listed(s.free.pending, s.NextTx()) :: x in PendingIds(s.free.pending);
  }

  lemma PublishConserves(s: State, s': State)
    requires Inv(s) && WriteMeta(s, s') && Inv(s')
    ensures Lost(s') == Lost(s) && LostOnFile(s') == Lost(s)
  {
    PublishSets(s, s');
    hide PendingOk, PendingIds, Stored, Once, ReadersOk, Pages, Run, GiftsOk, ListStored, ListOk, LedgerOk, Ledger.All, Ledger.Ok;
    assert s.Given() <= s.free.All() by { GivenListed(s); }
    assert s'.free.All() == s.free.All() == Elems(s.writer.list);
    assert Live(s') == (Live(s) - s.Given()) + s.Dirty().Keys;
    assert s'.Dirty().Keys == {};
    PublishAlgebra(Span(s.Top()), Live(s), s.Given(), s.free.All(), s.Dirty().Keys);
    hide Inv, WriteMeta;
  }

  lemma Cores(s: State)
    requires Inv(s)
    ensures Core(s)
  {
  }

  lemma SameConserves(s: State, s': State)
    requires MetasOk(s) && MetasOk(s') && s' == s.(readers := s'.readers, disk := s'.disk)
    requires s'.Base() == s.Base() && s'.ListRun() == s.ListRun()
    ensures Lost(s') == Lost(s) && LostOnFile(s') == LostOnFile(s)
  {
    hide Run, Pages, PendingIds, ListStored;
  }

  lemma BeginConserves(s: State, s': State)
    requires Core(s) && MetasOk(s') && BeginWrite(s, s')
    ensures Lost(s') == Lost(s) && LostOnFile(s') == LostOnFile(s)
  {
    ReleaseKeeps(s.free, MinTx(s.readers) - 1);
    hide Run, Pages, PendingIds, PendingOk, ListStored, Apart, ListOk, ReadersOk, LedgerOk, Ledger.All, Ledger.Ok, Ledger.Release;
    assert s'.free.All() == s.free.All();
    assert s'.Base() == s.Base() && s'.ListRun() == s.ListRun();
  }

  lemma TakenExactly(f: Ledger, top: nat, n: nat, p: nat)
    requires f.Ok() && n > 0 && Placed(f, top, n, p) && top >= 2
    requires forall x | x in f.All() :: x < top
    ensures FreeAfter(f, n, p).All() == f.All() - Run(p, n)
    ensures Span(TopAfter(f, top, n, p)) == Span(top) + if Run(p, n) <= f.ids then {} else Run(p, n)
    ensures Run(p, n) <= f.ids ==> Run(p, n) <= Span(top)
  {
    PlaceFacts(f, top, n, p);
  }

  /** New pages leave the ledger, or the unused end of the file, for the writer's page cache. */
  lemma TakenConserves(m: State, s': State, k: nat, p: nat)
    requires MetasOk(m) && LedgerOk(m) && MetasOk(s') && m.Top() >= 2 && k > 0
    requires Placed(m.free, m.Top(), k, p) && s'.free == FreeAfter(m.free, k, p)
    requires s'.Top() == TopAfter(m.free, m.Top(), k, p)
    requires s'.Dirty().Keys == m.Dirty().Keys + Run(p, k)
    requires s'.Current() == m.Current() && s'.Base() == m.Base() && s'.ListRun() == m.ListRun()
    requires s'.lists == m.lists
    requires Run(p, k) !! Live(m)
    ensures Lost(s') == Lost(m) && LostOnFile(s') == LostOnFile(m)
  {
    TakenExactly(m.free, m.Top(), k, p);
    hide Run, Pages, PendingIds, PendingOk, ListStored, Placed, FreeAfter, TopAfter, Ledger.Ok, MetasOk;
    assert Run(p, k) <= m.free.ids ==> Run(p, k) <= m.free.All();
    assert Live(s') == Live(m);
  }

  lemma TopAboveMetas(s: State)
    requires Core(s)
    ensures s.Top() >= s.Current().hwm > 2
  {
    hide Pages, PendingIds, PendingOk, ListStored, ListOk, ReadersOk, LedgerOk;
    InRun(s.Current().freelist, s.disk[s.Current().freelist].overflow);
    assert s.Current().freelist in s.ListRun();
  }

  lemma NewRunNotLive(s: State, k: nat, p: nat)
    requires Core(s) && k > 0 && Placed(s.free, s.Top(), k, p)
    ensures Run(p, k) !! Live(s)
  {
    TopAboveMetas(s);
    PlaceFacts(s.free, s.Top(), k, p);
    hide Run, Pages, PendingIds, PendingOk, ListStored, Placed, FreeAfter, TopAfter, Ledger.Ok, Ledger.All, ListOk, ReadersOk, LedgerOk;
    forall x | x in Run(p, k) ensures x !in Live(s) { }
  }

  /** What the sets of a state are defined on. */
  lemma Known(s: State)
    requires Core(s)
    ensures MetasOk(s) && LedgerOk(s) && s.Current().txid in s.trees
    ensures s.Current().freelist in s.disk && s.disk[s.Current().freelist].Head?
  {
  }

  lemma AllocateSets(s: State, s': State, p: nat, overflow: nat, block: Block)
    requires MetasOk(s) && MetasOk(s') && Allocate(s, s', p, overflow, block)
    ensures s'.free == FreeAfter(s.free, overflow + 1, p) && s'.Top() == TopAfter(s.free, s.Top(), overflow + 1, p)
    ensures s'.Dirty().Keys == s.Dirty().Keys + Run(p, overflow + 1)
    ensures s'.Current() == s.Current() && s'.Base() == s.Base() && s'.ListRun() == s.ListRun() && s'.lists == s.lists
    ensures Placed(s.free, s.Top(), overflow + 1, p)
  {
    hide ListStored, Run, Pages, Placed, FreeAfter, TopAfter, Cells;
  }

  lemma AllocateConserves(s: State, s': State, p: nat, overflow: nat, block: Block)
    requires Core(s) && Core(s') && Allocate(s, s', p, overflow, block)
    ensures Lost(s') == Lost(s) && LostOnFile(s') == LostOnFile(s)
  {
    hide Core, Allocate, MetasOk, LedgerOk, Lost, LostOnFile, Live, Run, Pages, Placed, FreeAfter, TopAfter, Cells;
    Known(s);
    Known(s');
    TopAboveMetas(s);
    AllocateSets(s, s', p, overflow, block);
    NewRunNotLive(s, overflow + 1, p);
    TakenConserves(s, s', overflow + 1, p);
  }

  lemma GiveConserves(s: State, m: State, run: set<nat>)
    requires Core(s) && MetasOk(m) && Gave(s, m, run)
    ensures Lost(m) == Lost(s) && LostOnFile(m) == LostOnFile(s)
  {
    hide Run, Pages, PendingIds, PendingOk, ListStored, Ledger.Ok, Ledger.All, ListOk, ReadersOk, LedgerOk, Apart;
    assert Live(m) == Live(s);
    assert run <= Live(s);
  }

  lemma FreeConserves(s: State, s': State, p: nat)
    requires Core(s) && Core(s') && FreePage(s, s', p)
    ensures Lost(s') == Lost(s) && LostOnFile(s') == LostOnFile(s)
  {
    var n := s.disk[p].overflow + 1;
    hide Core, Run, Pages, PendingIds, PendingOk, RunSeq, Gave, Ledger.All;
    assert MetasOk(s) by { CoreMetas(s); }
    assert s' == GiveRun(s, p, n);
    GiveFacts(s, p, n);
    GiveConserves(s, s', Run(p, n));
  }

  lemma PrepareConserves(s: State, s': State, tree: PTree, p: nat, list: seq<nat>, words: seq<nat>)
    requires Inv(s) && Core(s') && Prepare(s, s', tree, p, list, words)
    ensures Lost(s') == Lost(s) && LostOnFile(s') == LostOnFile(s)
  {
    hide Run, Pages, PendingIds, PendingOk, ListStored, Placed, FreeAfter, TopAfter, Cells, Ledger.Ok, Ledger.All, ListOk, ReadersOk, LedgerOk, Stored, Once, RunSeq, Ledger.Give, ListPages;
    var q, n := s.Current().freelist, s.disk[s.Current().freelist].overflow + 1;
    var m, k := GiveRun(s, q, n), ListPages(s);
    ListNotFree(s);
    GiveFacts(s, q, n);
    GiveCore(s, m, Run(q, n));
    GiveConserves(s, m, Run(q, n));
    TopAboveMetas(m);
    assert m.free == GivenList(s);
    assert s'.Dirty().Keys == m.Dirty().Keys + Run(p, k);
    assert s'.Base() == m.Base() && s'.ListRun() == m.ListRun();
    TakenConserves(m, s', k, p);
  }

  lemma OtherConserves(s: State, s': State, e: Event)
    requires Inv(s) && Step(s, s', e) && Inv(s')
    requires !e.ERollback? && !e.ECrash? && !e.EWriteMeta?
    ensures Lost(s') == Lost(s) && LostOnFile(s') == LostOnFile(s)
  {
    hide Inv, BeginWrite, Allocate, FreePage, Prepare;
    assert Core(s) && Core(s') by { Cores(s); Cores(s'); }
    match e {
      case EBeginWrite => BeginConserves(s, s');
      case EAllocate(at, overflow, block) => AllocateConserves(s, s', at, overflow, block);
      case EFreePage(p) => FreeConserves(s, s', p);
      case EPrepare(tree, at, list, words) => PrepareConserves(s, s', tree, at, list, words);
      case EBeginRead => SameConserves(s, s');
      case EEndRead(i) => SameConserves(s, s');
      case EWriteCell(x) => ListFrame(s, s', x); SameConserves(s, s');
    }
  }

  /** One action changes what is lost in exactly one way: by reading back a list that overflows its
      count field, whose largest id is then lost unless it is still pending. */
  lemma ConservationLaw(s: State, s': State, e: Event)
    requires Inv(s) && Step(s, s', e)
    ensures Inv(s')
    ensures e.ERollback? || e.ECrash? ==>
      && LostOnFile(s') == LostOnFile(s)
      && Lost(s') == LostOnFile(s) + (Dropped(s) - if e.ERollback? then s.Older() else {})
    ensures e.EWriteMeta? ==> Lost(s') == Lost(s) && LostOnFile(s') == Lost(s)
    ensures !(e.ERollback? || e.ECrash? || e.EWriteMeta?) ==>
      Lost(s') == Lost(s) && LostOnFile(s') == LostOnFile(s)
  {
    StepKeeps(s, s', e);
    hide Inv, Lost, LostOnFile, Dropped;
    if e.ERollback? || e.ECrash? {
      ReloadLoses(s, s', e);
    } else if e.EWriteMeta? {
      PublishConserves(s, s');
    } else {
      OtherConserves(s, s', e);
    }
  }

  lemma SingleMinus(x: nat, s: set<nat>)
    ensures {x} - s == {} <==> x in s
  {
    if x in s {
      assert {x} - s == {};
    } else {
      assert x in {x} - s;
    }
  }

  lemma CurrentList(s: State)
    requires Inv(s)
    ensures MetasOk(s) && s.Current().txid in s.lists
  {
  }

  /** From a file that accounts for every page, a rollback or a reopening accounts for every page
      again if and only if the list did not overflow or its largest id is still pending. */
  lemma ReloadConservesIff(s: State, s': State, e: Event)
    requires Inv(s) && Step(s, s', e) && (e.ERollback? || e.ECrash?) && LostOnFile(s) == {}
    ensures Inv(s')
    ensures Lost(s') == {} <==>
      ShortList(s) || (e.ERollback? && s.lists[s.Current().txid][|s.lists[s.Current().txid]| - 1] in s.Older())
  {
    hide Inv, MetasOk, Step, Lost, LostOnFile, Dropped, State.Older;
    CurrentList(s);
    ConservationLaw(s, s', e);
    DroppedExactly(s);
    var list := s.lists[s.Current().txid];
    var older := if e.ERollback? then s.Older() else {};
    if |list| >= COUNT_OVERFLOW {
      SingleMinus(list[|list| - 1], older);
    }
  }

  lemma NextConserves(s: State, s': State, e: Event)
    requires Inv(s) && Step(s, s', e) && Lost(s) == {} && LostOnFile(s) == {}
    requires e.ERollback? || e.ECrash? ==> ShortList(s)
    ensures Inv(s') && Lost(s') == {} && LostOnFile(s') == {}
  {
    hide Inv, Step, Lost, LostOnFile, Dropped;
    ConservationLaw(s, s', e);
    DroppedExactly(s);
  }

  lemma InitLive(s: State)
    requires Init(s) && MetasOk(s)
    ensures Live(s) == {2, 3}
  {
    RunOne(3);
    RunOne(2);
    var t := PTree(3, 0, [], []);
    assert KidPages([]) == {} && Pages(t) == {3};
    hide Run, Pages, KidPages;
    assert s.Base() == {3} && s.ListRun() == {2};
  }

  lemma SpanFour()
    ensures Span(4) == {2, 3}
  {
    assert Span(4) == Run(2, 2);
    forall x ensures x in Run(2, 2) <==> x in {2, 3} {
      assert 2 <= x < 4 <==> x == 2 || x == 3;
    }
  }

  lemma InitConserves(s: State)
    requires Init(s)
    ensures MetasOk(s) && Lost(s) == {} && LostOnFile(s) == {}
  {
    InitKeeps(s);
    InitLive(s);
    SpanFour();
    hide Inv, Pages, Run, PendingIds, Span, Live;
  }

  /** In every run that never reads back an overflowing list, every page from 2 up to the high water
      mark is accounted for, in memory and on file; at rest it is in exactly one place. */
  lemma {:induction false} PageConservation(states: seq<State>, events: seq<Event>, i: nat)
    requires IsRun(states, events) && i < |states|
    requires forall k | 0 <= k < i && (events[k].ERollback? || events[k].ECrash?) :: ShortList(states[k])
    ensures Inv(states[i]) && Lost(states[i]) == {} && LostOnFile(states[i]) == {}
  {
    hide Step, Init, Core, PlanOk, GiftsOk, Live, Span;
    RunKeeps(states, events, i);
    if i == 0 {
      InitConserves(states[0]);
    } else {
      PageConservation(states, events, i - 1);
      NextConserves(states[i - 1], states[i], events[i - 1]);
    }
  }

  // ---- A failed sync after the meta write ----

  /** The meta page reaches the file but the sync that follows reports an error, so Commit rolls back:
      the gifts of the writer are forgotten, and the list is reloaded through the new meta page. */
  ghost predicate SyncFailure(s: State, s': State) {
    && MetasOk(s) && s.writer.Flushing?
    && (forall x | x in s.writer.dirty :: x in s.disk && s.disk[x] == s.writer.dirty[x])
    && s' == WithMeta(s, s.writer.meta).(writer := Idle,
      trees := s.trees[s.NextTx() := s.writer.tree],
      lists := s.lists[s.NextTx() := s.writer.list],
      free := s.free.Revert(s.NextTx(), Elems(Kept(s.writer.list))))
  }

  lemma PlannedList(s: State)
    requires Inv(s) && s.writer.Flushing?
    ensures Elems(s.writer.list) == s.free.All()
  {
  }

  lemma OlderRest(s: State)
    requires Inv(s)
    ensures s.Older() == PendingIds(s.free.pending) - s.Given()
  {
    PendingRemove(s.free.pending, s.NextTx());
  }

  lemma ReaderApart(s: State, r: Meta, k: nat)
    requires Inv(s) && k < |s.readers| && s.readers[k] == r
    ensures Pages(s.trees[r.txid]) !! s.free.ids
  {
    hide Run, Pages, Stored, Once, PendingOk, ListStored, ListOk, Ledger.Ok, PlanOk, Apart;
    assert Served(s, s.readers[k]);
    CoreSafe(s, r);
  }

  /** After such a failure the readers are safe if and only if none of them holds a page the writer
      gave back (and the list does not drop). The engine's other actions need no such condition. */
  lemma SyncFailureSafeIff(s: State, s': State)
    requires Inv(s) && SyncFailure(s, s')
    ensures (forall r | r in s.readers :: Pages(s.trees[r.txid]) !! s'.free.ids)
      <==> (forall r | r in s.readers :: Pages(s.trees[r.txid]) !! s.Given() * Elems(Kept(s.writer.list)))
  {
    hide Run, Pages, Stored, Once, PendingOk, ListStored, ListOk, Ledger.Ok, PlanOk;
    assert Elems(s.writer.list) == s.free.All() by { PlannedList(s); }
    KeptWithin(s.writer.list);
    assert s.Older() == PendingIds(s.free.pending) - s.Given() by { OlderRest(s); }
    assert s'.free.ids == Elems(Kept(s.writer.list)) - s.Older();
    hide Inv, SyncFailure;
    forall r | r in s.readers
      ensures Pages(s.trees[r.txid]) !! s'.free.ids <==> Pages(s.trees[r.txid]) !! s.Given() * Elems(Kept(s.writer.list))
    {
      var k :| 0 <= k < |s.readers| && s.readers[k] == r;
      ReaderApart(s, r, k);
      assert s.Given() !! s.Older();
    }
  }
}
