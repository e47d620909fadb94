/** Whole write transactions as runs of the engine: every transaction can be carried out, step by step, and
    leaves the bucket on file as the next one needs it. */
module CommitRuns {
  import opened PageIds
  import opened FreeIds
  import opened FreelistPage
  import opened PageFile
  import opened Versions
  import opened VersionSteps
  import opened VersionRuns
  import opened Keys
  import opened BTree
  import opened Spill
  import opened SpillLog
  import opened Images
  import Nodes
  import opened RebalanceRuns
  import opened RebalanceMarks
  import opened Transactions
  import opened Commits

  // ---- Runs between two states ----

  /** An action that does not read the free list back from the file. */
  predicate Forward(e: Event) {
    !e.ERollback? && !e.ECrash?
  }

  ghost predicate Path(states: seq<State>, events: seq<Event>) {
    && |states| == |events| + 1
    && forall i | 0 <= i < |events| :: Step(states[i], states[i + 1], events[i]) && Forward(events[i])
  }

  /** Some steps of readers and the writer, without a rollback or crash, lead from one state to the other. */
  ghost predicate Reaches(s: State, s': State) {
    exists states, events :: Path(states, events) && states[0] == s && states[|events|] == s'
  }

  lemma Stays(s: State)
    ensures Reaches(s, s)
  {
    assert Path([s], []);
  }

  lemma OneStep(s: State, s': State, e: Event)
    requires Step(s, s', e) && Forward(e)
    ensures Reaches(s, s')
  {
    hide Step, Forward;
    assert Path([s, s'], [e]);
  }

  lemma Further(s: State, m: State, s': State)
    requires Reaches(s, m) && Reaches(m, s')
    ensures Reaches(s, s')
  {
    hide Step, Forward;
    var a, ea :| Path(a, ea) && a[0] == s && a[|ea|] == m;
    var b, eb :| Path(b, eb) && b[0] == m && b[|eb|] == s';
    var c, ec := a + b[1..], ea + eb;
    forall i | 0 <= i < |ec| ensures Step(c[i], c[i + 1], ec[i]) && Forward(ec[i]) {
      if i < |ea| {
        assert Step(a[i], a[i + 1], ea[i]) && Forward(ea[i]);
        assert c[i] == a[i] && c[i + 1] == a[i + 1];
      } else {
        var k := i - |ea|;
        assert Step(b[k], b[k + 1], eb[k]) && Forward(eb[k]);
        assert c[i + 1] == b[k + 1] && c[i] == b[k];
      }
    }
    assert Path(c, ec) && c[0] == s && c[|ec|] == s';
  }

  lemma InvMetas(s: State)
    requires Inv(s)
    ensures MetasOk(s)
  {
  }

  /** Every state that a state with the invariant leads to has it as well, and as many pages are lost. */
  lemma {:induction false} PathKeeps(states: seq<State>, events: seq<Event>)
    requires Path(states, events) && Inv(states[0])
    ensures Inv(states[|events|]) && Lost(states[|events|]) == Lost(states[0])
    ensures LostOnFile(states[0]) == Lost(states[0]) ==> LostOnFile(states[|events|]) == Lost(states[|events|])
    decreases |events|
  {
    hide Step, Inv, Lost, LostOnFile;
    InvMetas(states[0]);
    if events != [] {
      var k := |events| - 1;
      assert Path(states[..k + 1], events[..k]);
      PathKeeps(states[..k + 1], events[..k]);
      assert Step(states[k], states[k + 1], events[k]) && Forward(events[k]);
      ConservationLaw(states[k], states[k + 1], events[k]);
      InvMetas(states[k + 1]);
    }
  }

  // ---- Where pages come from ----

  /** The free ids, and the end of the file. */
  datatype Pool = Pool(ids: set<nat>, top: nat)

  ghost function PoolOf(s: State): Pool {
    Pool(s.free.ids, s.Top())
  }

  ghost function LeastOf(ids: set<nat>, n: nat, q: nat): (p: nat)
    requires Run(q, n) <= ids
    ensures Run(p, n) <= ids && forall o: nat | Run(o, n) <= ids :: p <= o
  {
    if o: nat :| o < q && Run(o, n) <= ids then LeastOf(ids, n, o) else q
  }

  /** The lowest free run of n pages, or the end of the file. */
  ghost function Spot(pool: Pool, n: nat): (p: nat)
    ensures (exists q: nat :: Run(q, n) <= pool.ids) ==>
      Run(p, n) <= pool.ids && forall q: nat | Run(q, n) <= pool.ids :: p <= q
    ensures !(exists q: nat :: Run(q, n) <= pool.ids) ==> p == pool.top
  {
    if q: nat :| Run(q, n) <= pool.ids then
      LeastOf(pool.ids, n, q)
    else pool.top
  }

  ghost function PoolRest(pool: Pool, p: nat, n: nat): Pool {
    if Run(p, n) <= pool.ids then Pool(pool.ids - Run(p, n), pool.top) else Pool(pool.ids, pool.top + n)
  }

  /** What is left once these nodes have their pages. */
  ghost function PoolAfter(pool: Pool, wrote: seq<Tree>, f: Format): Pool {
    if wrote == [] then pool
    else
      var last := wrote[|wrote| - 1];
      PoolRest(PoolAfter(pool, wrote[..|wrote| - 1], f), last.pgid, Overflow(last.inodes, f) + 1)
  }

  /** The pages the engine gives from this state on. */
  ghost function Strategy(s: State, f: Format): Allocator {
    (wrote, inodes) => Spot(PoolAfter(PoolOf(s), wrote, f), Overflow(inodes, f) + 1)
  }

  lemma {:induction false} PoolBounds(pool: Pool, wrote: seq<Tree>, f: Format)
    ensures PoolAfter(pool, wrote, f).ids <= pool.ids && PoolAfter(pool, wrote, f).top >= pool.top
  {
    hide Run, Overflow;
    if wrote != [] { PoolBounds(pool, wrote[..|wrote| - 1], f); }
  }

  lemma StrategyIs(s: State, f: Format, wrote: seq<Tree>, inodes: seq<Inode>)
    ensures Strategy(s, f)(wrote, inodes) == Spot(PoolAfter(PoolOf(s), wrote, f), Overflow(inodes, f) + 1)
  {
    hide PoolAfter, Overflow;
  }

  lemma SpotPositive(pool: Pool, n: nat)
    requires pool.top > 0 && n > 0 && forall x | x in pool.ids :: x > 0
    ensures Spot(pool, n) > 0
  {
    hide Run;
    var p := Spot(pool, n);
    if Run(p, n) <= pool.ids { assert p in Run(p, n); }
  }

  lemma TopPositive(s: State)
    requires Inv(s)
    ensures s.Top() > 0 && forall x | x in s.free.ids :: x > 0
  {
    hide Run, PendingIds, PendingOk, ListStored, Stored, Once, ReadersOk, ListOk, Pages;
    InRun(s.Current().freelist, s.disk[s.Current().freelist].overflow);
    assert s.Current().freelist in s.ListRun();
  }

  lemma StrategyPositive(s: State, f: Format)
    requires Inv(s)
    ensures Positive(Strategy(s, f))
  {
    hide Inv, Overflow, Strategy, PoolAfter, Spot;
    TopPositive(s);
    forall wrote: seq<Tree>, inodes ensures Strategy(s, f)(wrote, inodes) > 0 {
      PoolBounds(PoolOf(s), wrote, f);
      StrategyIs(s, f, wrote, inodes);
      SpotPositive(PoolAfter(PoolOf(s), wrote, f), Overflow(inodes, f) + 1);
    }
  }

  // ---- Each action can be taken ----

  /** A spot is where the engine places a run, and the only such place. */
  lemma SpotPlaced(free: Ledger, top: nat, n: nat)
    ensures Placed(free, top, n, Spot(Pool(free.ids, top), n))
  {
    hide Run;
  }

  lemma PoolTaken(s: State, s': State, p: nat, overflow: nat, block: Block)
    requires Allocate(s, s', p, overflow, block)
    ensures PoolOf(s') == PoolRest(PoolOf(s), p, overflow + 1)
  {
    hide Run, Cells, Placed;
  }

  lemma PoolNext(pool: Pool, wrote: seq<Tree>, n: Tree, f: Format)
    ensures PoolAfter(pool, wrote + [n], f) == PoolRest(PoolAfter(pool, wrote, f), n.pgid, Overflow(n.inodes, f) + 1)
  {
    hide Overflow, PoolRest;
    assert (wrote + [n])[..|wrote|] == wrote;
  }

  lemma AllocateStep(s: State, p: nat, overflow: nat, block: Block) returns (s': State)
    requires s.writer.Editing? && Placed(s.free, s.writer.meta.hwm, overflow + 1, p)
    ensures Allocate(s, s', p, overflow, block)
  {
    hide Run, Cells, Placed, FreeAfter, TopAfter;
    s' := s.(free := FreeAfter(s.free, overflow + 1, p),
      writer := Editing(s.writer.meta.(hwm := TopAfter(s.free, s.writer.meta.hwm, overflow + 1, p)),
        s.writer.dirty + Cells(p, overflow, block)));
  }

  lemma DoingEdits(s0: State, s: State, wrote: seq<Tree>, gone: multiset<nat>, f: Format)
    requires Doing(s0, s, wrote, gone, f)
    ensures s.writer.Editing?
  {
  }

  lemma WriteStep(s0: State, s: State, wrote: seq<Tree>, gone: multiset<nat>, n: Tree, f: Format) returns (s': State)
    requires Doing(s0, s, wrote, gone, f) && PoolOf(s) == PoolAfter(PoolOf(s0), wrote, f)
    requires n.pgid == Strategy(s0, f)(wrote, n.inodes)
    ensures Step(s, s', EventOf(Write(n), f))
    ensures PoolOf(s') == PoolAfter(PoolOf(s0), wrote + [n], f)
  {
    hide Doing, Allocate, Placed, Overflow, BlockOf, PoolRest, PoolAfter, Strategy, Spot;
    var overflow := Overflow(n.inodes, f);
    DoingEdits(s0, s, wrote, gone, f);
    StrategyIs(s0, f, wrote, n.inodes);
    SpotPlaced(s.free, s.Top(), overflow + 1);
    s' := AllocateStep(s, n.pgid, overflow, BlockOf(n, f));
    PoolTaken(s, s', n.pgid, overflow, BlockOf(n, f));
    PoolNext(PoolOf(s0), wrote, n, f);
  }

  lemma NotListed(s: State, run: set<nat>)
    requires Inv(s) && s.Current().txid in s.trees && run <= s.Base() && run !! s.Given()
    ensures run <= s.Base() - s.free.All()
  {
    hide Run, PendingIds, PendingOk, ListStored, Stored, Once, ReadersOk, ListOk, LedgerOk, Pages;
    assert PendingIds(s.free.pending) * (s.Base() + s.ListRun()) == s.Given();
    forall x | x in run ensures x !in s.free.All() { }
  }

  lemma HeldHead(cells: map<nat, Cell>, n: Tree, f: Format)
    requires Holds(cells, n, f)
    ensures n.pgid in cells && cells[n.pgid].Head?
  {
    hide Overflow, BlockOf;
  }

  lemma {:induction false} KidAtPage(kids: seq<Tree>, p: nat) returns (n: Tree)
    requires p in AllIds(kids)
    ensures n in NodesBelow(kids) && n.pgid == p
    decreases kids, 0
  {
    hide NodesIn, BTree.PageIds;
    if p in BTree.PageIds(kids[0]) {
      n := NodeAtPage(kids[0], p);
    } else {
      n := KidAtPage(kids[1..], p);
    }
  }

  lemma {:induction false} NodeAtPage(t: Tree, p: nat) returns (n: Tree)
    requires p in BTree.PageIds(t)
    ensures n in NodesIn(t) && n.pgid == p
    decreases t, 1
  {
    if p == t.pgid {
      n := t;
    } else {
      n := KidAtPage(t.kids, p);
    }
  }

  /** The run of a stored node starts with its block. */
  lemma StoredHead(cells: map<nat, Cell>, t: Tree, p: nat, f: Format)
    requires AllHeld(cells, NodesIn(t), f) && p in BTree.PageIds(t)
    ensures p in cells && cells[p].Head? && Len(cells, p) == cells[p].overflow + 1
  {
    hide Holds, NodesIn, BTree.PageIds;
    var n := NodeAtPage(t, p);
    HeldHead(cells, n, f);
  }

  lemma DropStep(s0: State, s: State, wrote: seq<Tree>, gone: multiset<nat>, p: nat, t: Tree, f: Format) returns (s': State)
    requires Began(s0, t, f) && Doing(s0, s, wrote, gone, f) && gone + multiset{p} <= BTree.PageIds(t)
    ensures Step(s, s', EventOf(Drop(p), f)) && PoolOf(s') == PoolOf(s)
  {
    hide Run, Cover, Spread, AllHeld, RunSeq, Pages, Image, Stored, Once, Inv, BTree.PageIds, NodesIn, Given;
    CurrentStored(s);
    assert s.trees[s.Current().txid] == Image(t, f);
    StoredIs(s.disk, t, f);
    OnceIs(s.disk, t, f);
    PagesAre(s.disk, t, f);
    assert (gone + multiset{p}) + (BTree.PageIds(t) - (gone + multiset{p})) == BTree.PageIds(t);
    SpreadPart(gone + multiset{p}, BTree.PageIds(t) - (gone + multiset{p}), s.disk);
    SpreadPart(gone, multiset{p}, s.disk);
    CoverOne(p, s.disk);
    CoverLess(multiset{p}, BTree.PageIds(t), s.disk);
    StoredHead(s.disk, t, p, f);
    NotListed(s, Run(p, s.disk[p].overflow + 1));
    s' := s.(free := s.free.Give(s.NextTx(), RunSeq(p, s.disk[p].overflow + 1)));
    assert FreePage(s, s', p);
  }

  // ---- All actions of a transaction ----

  lemma {:induction false} WritesPrefix(acts: seq<Action>, k: nat)
    requires k <= |acts|
    ensures Writes(acts[..k]) <= Writes(acts) && Drops(acts[..k]) <= Drops(acts)
    decreases |acts|
  {
    if k == |acts| {
      assert acts[..k] == acts;
    } else {
      var front := acts[..|acts| - 1];
      WritesPrefix(front, k);
      assert front[..k] == acts[..k];
    }
  }

  lemma NothingWritten(pool: Pool, f: Format)
    ensures PoolAfter(pool, [], f) == pool
  {
  }

  lemma LastFollows(a: seq<Tree>, n: Tree, alloc: Allocator)
    requires Follows(a + [n], alloc, [])
    ensures n.pgid == alloc(a, n.inodes)
  {
    assert [] + (a + [n])[..|a|] == a;
    assert (a + [n])[|a|] == n;
  }

  lemma ActStep(s0: State, s: State, wrote: seq<Tree>, gone: multiset<nat>, a: Action, t: Tree, f: Format) returns (s': State)
    requires Began(s0, t, f) && Doing(s0, s, wrote, gone, f) && PoolOf(s) == PoolAfter(PoolOf(s0), wrote, f)
    requires a.Write? ==> Follows(wrote + [a.node], Strategy(s0, f), [])
    requires a.Drop? ==> gone + multiset{a.page} <= BTree.PageIds(t)
    ensures Step(s, s', EventOf(a, f))
    ensures PoolOf(s') == PoolAfter(PoolOf(s0), if a.Write? then wrote + [a.node] else wrote, f)
  {
    hide Began, Doing, Step, BTree.PageIds, Strategy, PoolOf, PoolAfter, Follows;
    match a {
      case Write(n) =>
        LastFollows(wrote, n, Strategy(s0, f));
        s' := WriteStep(s0, s, wrote, gone, n, f);
      case Drop(p) =>
        s' := DropStep(s0, s, wrote, gone, p, t, f);
    }
  }

  lemma FollowsFront(a: seq<Tree>, b: seq<Tree>, alloc: Allocator)
    requires a <= b && Follows(b, alloc, [])
    ensures Follows(a, alloc, [])
  {
    forall k | 0 <= k < |a| ensures a[k].pgid == alloc([] + a[..k], a[k].inodes) {
      assert a[..k] == b[..k];
    }
  }

  /** Whatever the order of writes and drops, as long as nodes are written where the engine's allocator
      puts them and only pages of the old tree are dropped, once each, all of them can be done. */
  lemma {:induction false} CanPerform(s0: State, acts: seq<Action>, t: Tree, f: Format) returns (states: seq<State>)
    requires Began(s0, t, f) && Follows(Writes(acts), Strategy(s0, f), []) && Drops(acts) <= BTree.PageIds(t)
    ensures Performs(states, acts, f) && states[0] == s0
    ensures PoolOf(states[|acts|]) == PoolAfter(PoolOf(s0), Writes(acts), f)
    decreases |acts|
  {
    hide Began, Doing, Step, BTree.PageIds, Strategy, PoolOf, Follows, PoolAfter, EventOf;
    if acts == [] {
      states := [s0];
      NothingWritten(PoolOf(s0), f);
    } else {
      var k := |acts| - 1;
      var front := acts[..k];
      WritesPrefix(acts, k);
      FollowsFront(Writes(front), Writes(acts), Strategy(s0, f));
      var before := CanPerform(s0, front, t, f);
      Performed(before, front, t, f);
      var s' := ActStep(s0, before[k], Writes(front), Drops(front), acts[k], t, f);
      states := before + [s'];
      forall i | 0 <= i < |acts| ensures Step(states[i], states[i + 1], EventOf(acts[i], f)) {
        if i < k { assert Step(before[i], before[i + 1], EventOf(front[i], f)); }
      }
    }
  }

  lemma PerformsReaches(states: seq<State>, acts: seq<Action>, f: Format)
    requires Performs(states, acts, f)
    ensures Reaches(states[0], states[|acts|])
  {
    hide Step;
    var events := seq(|acts|, i requires 0 <= i < |acts| => EventOf(acts[i], f));
    forall i | 0 <= i < |events| ensures Step(states[i], states[i + 1], events[i]) && Forward(events[i]) {
      assert Step(states[i], states[i + 1], EventOf(acts[i], f));
    }
    assert Path(states, events);
  }

  // ---- Commit ----

  lemma PrepareStep(s: State, tree: PTree) returns (s': State, p: nat, list: seq<nat>)
    requires Inv(s) && s.writer.Editing? && Ready(s, tree)
    ensures Prepare(s, s', tree, p, list, Words(list))
  {
    hide Run, Cells, Ready, Placed, FreeAfter, TopAfter, PendingIds, PendingOk, ListPages, GivenList, LedgerOk, Apart, ListOk, ReadersOk, PlanOk, Words;
    var free, n := GivenList(s), ListPages(s);
    p := Spot(Pool(free.ids, s.writer.meta.hwm), n);
    SpotPlaced(free, s.writer.meta.hwm, n);
    SortedExists(FreeAfter(free, n, p).All());
    list :| Ascending(list) && Elems(list) == FreeAfter(free, n, p).All();
    s' := s.(free := FreeAfter(free, n, p),
      writer := Flushing(
        Meta(s.NextTx(), tree.id, p, TopAfter(free, s.writer.meta.hwm, n, p)),
        s.writer.dirty + Cells(p, n - 1, FreeBlock(CountField(|list|), Words(list))), tree, list));
  }

  /** The dirty pages of this set are on file. */
  ghost function FileWith(s: State, todo: set<nat>): State
    requires s.writer.Flushing?
  {
    s.(disk := s.disk + map x | x in todo && x in s.writer.dirty :: s.writer.dirty[x])
  }

  lemma {:induction false} WritesReach(s: State, todo: set<nat>)
    requires s.writer.Flushing? && todo <= s.writer.dirty.Keys
    ensures Reaches(s, FileWith(s, todo))
    decreases |todo|
  {
    hide Reaches;
    if todo == {} {
      Stays(s);
      assert FileWith(s, todo) == s by { assert s.disk + map[] == s.disk; }
    } else {
      var x :| x in todo;
      var m, s' := FileWith(s, todo - {x}), FileWith(s, todo);
      WritesReach(s, todo - {x});
      assert s'.disk == m.disk[x := s.writer.dirty[x]];
      assert WriteCell(m, s', x);
      OneStep(m, s', EWriteCell(x));
      Further(s, m, s');
    }
  }

  lemma ReachKeeps(s: State, s': State)
    requires Reaches(s, s') && Inv(s)
    ensures Inv(s') && Lost(s') == Lost(s)
    ensures LostOnFile(s) == Lost(s) ==> LostOnFile(s') == Lost(s')
  {
    hide Inv, Step, Lost, LostOnFile;
    var states, events :| Path(states, events) && states[0] == s && states[|events|] == s';
    PathKeeps(states, events);
  }

  lemma Publish(w: State) returns (s': State)
    requires Inv(w) && w.writer.Flushing? && forall x | x in w.writer.dirty :: x in w.disk && w.disk[x] == w.writer.dirty[x]
    ensures WriteMeta(w, s') && Inv(s') && s'.writer.Idle? && s'.Current() == w.writer.meta
    ensures s'.trees == w.trees[w.NextTx() := w.writer.tree] && s'.lists == w.lists[w.NextTx() := w.writer.list]
    ensures s'.readers == w.readers && s'.pageSize == w.pageSize && s'.free == w.free
  {
    hide Inv;
    s' := WithMeta(w, w.writer.meta).(writer := Idle,
      trees := w.trees[w.NextTx() := w.writer.tree], lists := w.lists[w.NextTx() := w.writer.list]);
    WriteMetaKeeps(w, s');
    PublishSets(w, s');
  }

  lemma PreparedFlushes(s: State, m: State, tree: PTree, p: nat, list: seq<nat>)
    requires Prepare(s, m, tree, p, list, Words(list))
    ensures m.writer.Flushing?
  {
    hide Ready, Placed, FreeAfter, TopAfter, ListPages, GivenList, Cells;
  }

  lemma Flush(s: State, m: State, tree: PTree, p: nat, list: seq<nat>) returns (w: State)
    requires Inv(s) && Prepare(s, m, tree, p, list, Words(list))
    ensures m.writer.Flushing? && w == FileWith(m, m.writer.dirty.Keys) && Reaches(s, w) && Inv(w)
  {
    hide Inv, Reaches, Prepare, Lost;
    OneStep(s, m, EPrepare(tree, p, list, Words(list)));
    PrepareKeeps(s, m, tree, p, list, Words(list));
    PreparedFlushes(s, m, tree, p, list);
    w := FileWith(m, m.writer.dirty.Keys);
    WritesReach(m, m.writer.dirty.Keys);
    Further(s, m, w);
    ReachKeeps(s, w);
  }

  /** A complete tree can be committed: it is the current version then. */
  lemma CommitReaches(s: State, tree: PTree) returns (s': State, p: nat, list: seq<nat>)
    requires Inv(s) && s.writer.Editing? && Ready(s, tree)
    ensures Reaches(s, s') && Inv(s') && s'.writer.Idle?
    ensures s'.trees == s.trees[s.NextTx() := tree] && s'.lists == s.lists[s.NextTx() := list]
    ensures s'.Current().txid == s.NextTx() && s'.Current().root == tree.id && s'.Current().freelist == p
    ensures s'.readers == s.readers && s'.pageSize == s.pageSize
    ensures Placed(GivenList(s), s.writer.meta.hwm, ListPages(s), p)
    ensures s'.free == FreeAfter(GivenList(s), ListPages(s), p) && Ascending(list) && Elems(list) == s'.free.All()
  {
    hide Inv, Reaches, Ready, Placed, FreeAfter, TopAfter, ListPages, GivenList, Cells, Lost, Elems, Ascending;
    var m;
    m, p, list := PrepareStep(s, tree);
    var w := Flush(s, m, tree, p, list);
    s' := Publish(w);
    OneStep(w, s', EWriteMeta);
    Further(s, w, s');
  }

  // ---- Whole transactions ----

  /** At rest, and the current version is the bucket `t`, as it is on file. */
  ghost predicate Holding(s: State, t: Tree, f: Format) {
    && Inv(s) && s.writer.Idle? && s.Current().txid in s.trees && s.trees[s.Current().txid] == Image(t, f)
    && FileRoot(t)
  }

  /** A new file holds an empty bucket. */
  lemma CreatedHolds(s: State, f: Format)
    requires Init(s) && f.pageSize > Nodes.PAGE_HEADER_SIZE && f.encode(true, []) == []
    ensures Holding(s, Tree(true, false, false, [], 3, [], []), f)
  {
    hide Inv;
    InitKeeps(s);
    var t := Tree(true, false, false, [], 3, [], []);
    assert Shape(t, Open, Open, 0, 2) && FileRoot(t);
    assert Nodes.SizeOf([]) == Nodes.PAGE_HEADER_SIZE && Overflow([], f) == 0;
    assert Image(t, f) == PTree(3, 0, [], []);
  }

  lemma Begin(s: State) returns (s': State)
    requires Inv(s) && s.writer.Idle?
    ensures BeginWrite(s, s') && Inv(s') && s'.writer.Editing? && s'.writer.dirty == map[] && s'.Given() == {}
    ensures s'.Current() == s.Current() && s'.trees == s.trees && s'.disk == s.disk
  {
    hide Run, PendingIds, PendingOk, ListStored, Stored, Once, Pages, ReadersOk, ListOk, Apart, Ledger.Release;
    s' := s.(
      writer := Editing(s.Current().(txid := s.NextTx()), map[]),
      free := if MinTx(s.readers) > 0 then s.free.Release(MinTx(s.readers) - 1) else s.free);
    BeginWriteKeeps(s, s');
    NoGifts(s);
    if MinTx(s.readers) > 0 {
      NoGiftsAfter(s, MinTx(s.readers) - 1);
      ReleaseShape(s.free, MinTx(s.readers) - 1);
    }
  }

  lemma BeginStep(s: State, t: Tree, f: Format) returns (s': State)
    requires Holding(s, t, f)
    ensures BeginWrite(s, s') && Began(s', t, f) && s'.NextTx() == s.NextTx()
  {
    hide Inv, Image, FileRoot, BeginWrite;
    s' := Begin(s);
  }

  /** The writer's actions in a transaction: the nodes that spilling writes, in order, and the pages that
      rebalancing and spilling give back, at any time. */
  ghost predicate ActionsOf(acts: seq<Action>, s: State, t: Tree, edits: seq<Edit>, paths: seq<seq<nat>>, threshold: int, f: Format)
    requires CanRun(EditTree(t, edits), paths, f.pageSize)
  {
    && Writes(acts) == SavedBy(t, edits, paths, threshold, Strategy(s, f), f).wrote
    && Drops(acts) == FreedBy(t, edits, paths, threshold, Strategy(s, f), f)
  }

  lemma BeganInv(s: State, t: Tree, f: Format)
    requires Began(s, t, f)
    ensures Inv(s)
  {
  }

  lemma SameNext(s: State, states: seq<State>, acts: seq<Action>, t: Tree, f: Format)
    requires Began(s, t, f) && Performs(states, acts, f) && states[0] == s
    ensures states[|acts|].NextTx() == s.NextTx()
  {
    hide Inv, Step, Performs;
    Performed(states, acts, t, f);
  }

  /** From the beginning of a write transaction, its actions can be done in every such order; the tree they
      leave can be committed, and then the file holds the bucket with the edits made, as the next
      transaction needs it. */
  lemma EveryInterleaving(s: State, acts: seq<Action>, t: Tree, edits: seq<Edit>, paths: seq<seq<nat>>, threshold: int, f: Format)
    returns (states: seq<State>, s': State, t': Tree)
    requires Began(s, t, f) && Rebalanced(t, edits, paths, f) && ActionsOf(acts, s, t, edits, paths, threshold, f)
    ensures Performs(states, acts, f) && states[0] == s && Reaches(states[|acts|], s')
    ensures Holding(s', t', f) && Entries(t') == EditList(Entries(t), edits) && s'.Current().txid == s.NextTx()
  {
    hide Began, Inv, CanRun, RunAll, Marks, SavedBy, FreedBy, Strategy, Ready, FileRoot, Entries, Follows, BTree.PageIds, Reaches, Step, PoolOf, Image;
    var alloc := Strategy(s, f);
    BeganInv(s, t, f);
    StrategyPositive(s, f);
    SavedNodes(t, edits, paths, threshold, alloc, f);
    states := CanPerform(s, acts, t, f);
    TransactionReady(states, acts, t, edits, paths, threshold, alloc, f);
    t' := SavedBy(t, edits, paths, threshold, alloc, f).root;
    var last := states[|acts|];
    SameNext(s, states, acts, t, f);
    var p, list;
    s', p, list := CommitReaches(last, Image(t', f));
  }

  /** Some order of the actions: write all nodes, then give back all pages. */
  lemma {:induction false} SomeActions(wrote: seq<Tree>, gone: multiset<nat>) returns (acts: seq<Action>)
    ensures Writes(acts) == wrote && Drops(acts) == gone
    decreases |wrote| + |gone|
  {
    if gone != multiset{} {
      var p :| p in gone;
      var front := SomeActions(wrote, gone - multiset{p});
      acts := front + [Drop(p)];
      assert acts[..|front|] == front && gone == (gone - multiset{p}) + multiset{p};
    } else if wrote != [] {
      var k := |wrote| - 1;
      var front := SomeActions(wrote[..k], gone);
      acts := front + [Write(wrote[k])];
      assert acts[..|front|] == front && wrote == wrote[..k] + [wrote[k]];
    } else {
      acts := [];
    }
  }

  lemma BeginReaches(s: State, s': State)
    requires BeginWrite(s, s')
    ensures Reaches(s, s')
  {
    hide Reaches, BeginWrite;
    OneStep(s, s', EBeginWrite);
  }

  /** Every series of edits that puts no key below the first one can be made by a run of the engine, from
      the file at rest to the file at rest, and no page is lost. */
  lemma TransactionCommits(s: State, t: Tree, edits: seq<Edit>, threshold: int, f: Format) returns (s': State, t': Tree)
    requires Holding(s, t, f) && PutsInside(t, edits)
    ensures Reaches(s, s') && Holding(s', t', f)
    ensures Entries(t') == EditList(Entries(t), edits) && s'.Current().txid == s.NextTx()
    ensures forall e :: e in Entries(t') <==> Survives(Entries(t), edits, e)
    ensures Inv(s) && Inv(s') && Lost(s') == Lost(s)
  {
    hide Began, Lost, Survives, EditList, PutsInside, Inv, CanRun, RunAll, Marks, Strategy, FileRoot, Entries, Reaches, Step;
    TransactionRuns(t, edits, f.pageSize);
    FileEdited(t, edits);
    var paths :| CanRun(EditTree(t, edits), paths, f.pageSize)
      && Marks(RunAll(EditTree(t, edits), paths, f.pageSize).tree) == multiset{};
    var b := BeginStep(s, t, f);
    BeginReaches(s, b);
    var alloc := Strategy(b, f);
    var acts := SomeActions(SavedBy(t, edits, paths, threshold, alloc, f).wrote, FreedBy(t, edits, paths, threshold, alloc, f));
    var states;
    states, s', t' := EveryInterleaving(b, acts, t, edits, paths, threshold, f);
    PerformsReaches(states, acts, f);
    Further(s, b, states[|acts|]);
    Further(s, states[|acts|], s');
    ReachKeeps(s, s');
  }
}
