/** A run in which a failed sync after the meta write takes a page away from an open reader. */
module SyncWitness {
  import opened PageIds
  import opened FreeIds
  import opened FreelistPage
  import opened PageFile
  import opened Versions
  import opened VersionRuns

  const FIRST := Meta(1, 3, 2, 4)

  const OLD_LEAF := PTree(3, 0, [], [])

  const NEW_LEAF := PTree(4, 0, [], [])

  function Created(pageSize: nat): State {
    State(pageSize, map[2 := Head(FreeBlock(0, []), 0), 3 := Head(TreeBlock([], []), 0)],
      Meta(0, 3, 2, 4), FIRST, Ledger({}, map[]), [], Idle, map[1 := OLD_LEAF], map[1 := []])
  }

  function Reading(pageSize: nat): State {
    Created(pageSize).(readers := [FIRST])
  }

  function Writing(pageSize: nat): State {
    Reading(pageSize).(writer := Editing(Meta(2, 3, 2, 4), map[]))
  }

  function Freed(pageSize: nat): State {
    Writing(pageSize).(free := Ledger({}, map[2 := [3]]))
  }

  function Allocated(pageSize: nat): State {
    Freed(pageSize).(writer := Editing(Meta(2, 3, 2, 5), map[4 := Head(TreeBlock([], []), 0)]))
  }

  function Prepared(pageSize: nat): State {
    Allocated(pageSize).(free := Ledger({}, map[2 := [3, 2]]),
      writer := Flushing(Meta(2, 4, 5, 6),
        map[4 := Head(TreeBlock([], []), 0), 5 := Head(FreeBlock(2, [2, 3]), 0)], NEW_LEAF, [2, 3]))
  }

  function Half(pageSize: nat): State {
    var s := Prepared(pageSize);
    s.(disk := s.disk[4 := Head(TreeBlock([], []), 0)])
  }

  function Flushed(pageSize: nat): State {
    var s := Half(pageSize);
    s.(disk := s.disk[5 := Head(FreeBlock(2, [2, 3]), 0)])
  }

  function States(pageSize: nat): seq<State> {
    [Created(pageSize), Reading(pageSize), Writing(pageSize), Freed(pageSize), Allocated(pageSize), Prepared(pageSize),
     Half(pageSize), Flushed(pageSize)]
  }

  function Events(): seq<Event> {
    [EBeginRead, EBeginWrite, EFreePage(3), EAllocate(4, 0, TreeBlock([], [])),
     EPrepare(NEW_LEAF, 5, [2, 3], [2, 3]), EWriteCell(4), EWriteCell(5)]
  }

  lemma One(p: nat)
    ensures Run(p, 1) == {p} && RunSeq(p, 1) == [p]
  {
  }

  lemma LeafPages(id: nat)
    ensures Pages(PTree(id, 0, [], [])) == {id} && Once(PTree(id, 0, [], []))
  {
    One(id);
    assert KidPages([]) == {} && KidsOnce([]);
  }

  lemma NoIds()
    ensures PendingIds(map[]) == {} && Upto(map[], 0) == map[] && After(map[], 0) == map[]
  {
  }

  lemma BeginWriteStep(pageSize: nat)
    ensures BeginWrite(Reading(pageSize), Writing(pageSize))
  {
    NoIds();
    var readers := [FIRST];
    assert readers[..0] == [];
    assert MinTx([]) == MAX_TXID;
    assert MinTx(readers) == 1;
    assert Ledger({}, map[]).Release(0) == Ledger({}, map[]);
  }

  lemma FreeStep(pageSize: nat)
    ensures FreePage(Writing(pageSize), Freed(pageSize), 3)
  {
    NoIds();
    One(3);
    LeafPages(3);
    var s := Writing(pageSize);
    assert s.Base() == {3} && s.free.All() == {};
    assert [] + [3] == [3];
  }

  lemma NothingFree(free: Ledger, hwm: nat, n: nat, p: nat)
    requires free.ids == {} && n > 0 && p == hwm
    ensures Placed(free, hwm, n, p) && FreeAfter(free, n, p) == free && TopAfter(free, hwm, n, p) == hwm + n
  {
    forall q: nat ensures !(Run(q, n) <= free.ids) { assert q in Run(q, n); }
  }

  lemma AllocateStep(pageSize: nat)
    ensures Versions.Allocate(Freed(pageSize), Allocated(pageSize), 4, 0, TreeBlock([], []))
  {
    One(4);
    NothingFree(Freed(pageSize).free, 4, 1, 4);
    assert Cells(4, 0, TreeBlock([], [])) == map[4 := Head(TreeBlock([], []), 0)];
    assert map[] + map[4 := Head(TreeBlock([], []), 0)] == map[4 := Head(TreeBlock([], []), 0)];
  }

  lemma GivenBoth(pageSize: nat)
    requires pageSize > 32
    ensures var s := Allocated(pageSize);
      GivenList(s) == Ledger({}, map[2 := [3, 2]]) && GivenList(s).All() == {2, 3} && ListPages(s) == 1
  {
    One(2);
    assert [3] + [2] == [3, 2];
    var f := Ledger({}, map[2 := [3, 2]]);
    forall x ensures x in PendingIds(f.pending) <==> x in {2, 3} {
      if x == 2 || x == 3 { assert x in f.pending[2]; }
    }
    assert f.All() == {2, 3};
    assert |{2, 3}| == 2;
    assert Size(2) == 32 && 32 / pageSize == 0;
  }

  lemma TwoThree()
    ensures Ascending([2, 3]) && Elems([2, 3]) == {2, 3} && Words([2, 3]) == [2, 3] && Kept([2, 3]) == [2, 3] && CountField(2) == 2
  {
  }

  lemma OnlyThree()
    ensures Elems([3]) == {3}
  {
  }

  lemma NewListCells()
    ensures Cells(5, 0, FreeBlock(2, [2, 3])) == map[5 := Head(FreeBlock(2, [2, 3]), 0)]
  {
    One(5);
  }

  lemma NewLeafStored(cells: map<nat, Cell>)
    requires 4 in cells && cells[4] == Head(TreeBlock([], []), 0)
    ensures Stored(cells, NEW_LEAF)
  {
    assert Ids([]) == [] && AllStored(cells, []);
  }

  lemma PrepareStep(pageSize: nat)
    requires pageSize > 32
    ensures Versions.Prepare(Allocated(pageSize), Prepared(pageSize), NEW_LEAF, 5, [2, 3], [2, 3])
  {
    hide Run, Pages, Once, Stored, GivenList, ListPages, Placed, FreeAfter, TopAfter, Cells, Ascending, Words, CountField, Ledger.All, Elems;
    GivenBoth(pageSize);
    LeafPages(4);
    LeafPages(3);
    TwoThree();
    OnlyThree();
    var s := Allocated(pageSize);
    NothingFree(GivenList(s), 5, 1, 5);
    assert s.Base() == {3} && s.Given() == {3};
    NewListCells();
    NewLeafStored(s.disk + s.writer.dirty);
    assert [2, 3] <= [2, 3];
    assert s.writer.dirty + map[5 := Head(FreeBlock(2, [2, 3]), 0)]
        == map[4 := Head(TreeBlock([], []), 0), 5 := Head(FreeBlock(2, [2, 3]), 0)];
  }

  lemma WitnessStep(pageSize: nat, k: nat)
    requires pageSize > 32 && k < 7
    ensures Step(States(pageSize)[k], States(pageSize)[k + 1], Events()[k])
  {
    hide BeginWrite, FreePage, Versions.Allocate, Versions.Prepare;
    BeginWriteStep(pageSize);
    FreeStep(pageSize);
    AllocateStep(pageSize);
    PrepareStep(pageSize);
  }

  lemma WitnessRun(pageSize: nat)
    requires pageSize > 32
    ensures IsRun(States(pageSize), Events())
  {
    BeginWriteStep(pageSize);
    FreeStep(pageSize);
    AllocateStep(pageSize);
    PrepareStep(pageSize);
    var ss, es := States(pageSize), Events();
    forall k | 0 <= k < 7 ensures Step(ss[k], ss[k + 1], es[k]) {
      WitnessStep(pageSize, k);
    }
  }

  function Failed(pageSize: nat): State {
    Flushed(pageSize).(meta0 := Meta(2, 4, 5, 6), writer := Idle,
      trees := map[1 := OLD_LEAF, 2 := NEW_LEAF], lists := map[1 := [], 2 := [2, 3]],
      free := Ledger({2, 3}, map[]))
  }

  lemma ReaderLeft(pageSize: nat)
    ensures var s := Failed(pageSize);
      FIRST in s.readers && 1 in s.trees && s.trees[1] == PTree(3, 0, [], []) && 3 in s.free.ids
  {
  }

  lemma SyncStep(pageSize: nat)
    requires MetasOk(Flushed(pageSize))
    ensures SyncFailure(Flushed(pageSize), Failed(pageSize))
  {
    hide MetasOk, Kept, Elems, PendingIds;
    TwoThree();
    NoIds();
    var p: map<nat, seq<nat>> := map[2 := [3, 2]];
    assert p - {2} == map[];
    var s := Flushed(pageSize);
    assert s.trees[2 := NEW_LEAF] == map[1 := OLD_LEAF, 2 := NEW_LEAF];
    assert s.lists[2 := [2, 3]] == map[1 := [], 2 := [2, 3]];
  }

  lemma LastState(pageSize: nat)
    ensures |States(pageSize)| == 8 && States(pageSize)[7] == Flushed(pageSize)
  {
  }

  lemma InvMetas(s: State)
    requires Inv(s)
    ensures MetasOk(s)
  {
  }

  /** From a new file: a reader begins, a writer replaces the leaf and commits, its pages and its meta
      page are written, and then the sync fails. Page 3, which the reader still reads, is free. */
  lemma SyncFailureHappens(pageSize: nat)
    requires pageSize > 32
    ensures IsRun(States(pageSize), Events()) && SyncFailure(Flushed(pageSize), Failed(pageSize))
    ensures FIRST in Failed(pageSize).readers && 3 in Pages(Failed(pageSize).trees[1]) * Failed(pageSize).free.ids
  {
    hide IsRun, MetasOk, Inv, Step, Pages, States, SyncFailure, Failed, Flushed;
    WitnessRun(pageSize);
    LastState(pageSize);
    var ss := States(pageSize);
    RunKeeps(ss, Events(), 7);
    InvMetas(ss[7]);
    SyncStep(pageSize);
    LeafPages(3);
    ReaderLeft(pageSize);
  }
}
