/** The step system of the storage engine: readers, one writer, two meta pages, the free list
    and the page file. Every step is one action that other transactions, or a crash, can fall between. */
module Versions {
  import opened PageIds
  import opened FreeIds
  import opened FreelistPage
  import opened PageFile

  datatype Meta = Meta(txid: nat, root: nat, freelist: nat, hwm: nat)

  /** The write transaction. `dirty` is its page cache; `tree` and `list` are what Commit put on it. */
  datatype Writer =
    | Idle
    | Editing(meta: Meta, dirty: map<nat, Cell>)
    | Flushing(meta: Meta, dirty: map<nat, Cell>, tree: PTree, list: seq<nat>)

  /** `trees` and `lists` record, per committed transaction, the tree and the free list it wrote. */
  datatype State = State(
    pageSize: nat,
    disk: map<nat, Cell>,
    meta0: Meta,
    meta1: Meta,
    free: Ledger,
    readers: seq<Meta>,
    writer: Writer,
    trees: map<nat, PTree>,
    lists: map<nat, seq<nat>>)
  {
    /** The meta page with the higher transaction id. */
    function Current(): Meta {
      if meta0.txid > meta1.txid then meta0 else meta1
    }

    function Dirty(): map<nat, Cell> {
      if writer.Idle? then map[] else writer.dirty
    }

    function Top(): nat {
      if writer.Idle? then Current().hwm else writer.meta.hwm
    }

    /** The transaction id of the writer, present or next. */
    function NextTx(): nat {
      Current().txid + 1
    }

    /** Pages of the current version's tree. */
    ghost function Base(): set<nat>
      requires Current().txid in trees
    {
      Pages(trees[Current().txid])
    }

    /** Pages of the current version's free list. */
    ghost function ListRun(): set<nat>
      requires Current().freelist in disk && disk[Current().freelist].Head?
    {
      Run(Current().freelist, disk[Current().freelist].overflow + 1)
    }

    /** Pages of the current version that the writer has given back. */
    ghost function Given(): set<nat> {
      Elems(Listed(free.pending, NextTx()))
    }

    /** Pages given back by committed transactions. */
    ghost function Older(): set<nat> {
      PendingIds(free.pending - {NextTx()})
    }
  }

  /** The free-list page of a version holds the ascending list recorded for it. */
  ghost predicate ListStored(cells: map<nat, Cell>, p: nat, list: seq<nat>) {
    && p in cells && cells[p].Head? && cells[p].block.FreeBlock?
    && HasBlock(cells, p, cells[p].overflow, cells[p].block)
    && Ascending(list)
    && cells[p].block.count == CountField(|list|) && Words(list) <= cells[p].block.words
  }

  ghost predicate MetasOk(s: State) {
    && s.pageSize > 0
    && s.meta0.txid % 2 == 0 && s.meta1.txid % 2 == 1
    && (s.meta0.txid == s.meta1.txid + 1 || s.meta1.txid == s.meta0.txid + 1)
    && (!s.writer.Idle? ==> s.writer.meta.txid == s.NextTx() && s.writer.meta.hwm >= s.Current().hwm)
    && (forall v: nat | v in s.trees :: v <= s.Current().txid)
    && s.Current().txid in s.trees && s.Current().txid in s.lists
    && s.Current().freelist in s.disk && s.disk[s.Current().freelist].Head?
    && s.disk[s.Current().freelist].block.FreeBlock?
    && ListStored(s.disk, s.Current().freelist, s.lists[s.Current().txid])
  }

  ghost predicate LedgerOk(s: State) {
    && s.free.Ok()
    && (forall t: nat | t in s.free.pending :: t <= if s.writer.Idle? then s.Current().txid else s.NextTx())
    && (forall x | x in s.free.All() :: x < s.Top())
  }

  /** The pages of the current version, the free ids and the writer's new pages do not overlap. */
  ghost predicate Apart(s: State)
    requires MetasOk(s)
  {
    && (forall x | x in s.Base() + s.ListRun() :: 2 <= x < s.Current().hwm)
    && s.Base() !! s.ListRun()
    && s.free.ids !! s.Base() + s.ListRun()
    && PendingIds(s.free.pending) * (s.Base() + s.ListRun()) == s.Given()
    && s.Given() <= s.Base() + s.ListRun()
    && s.Dirty().Keys !! s.Base() + s.ListRun()
    && s.Dirty().Keys !! s.free.All()
    && (forall x | x in s.Dirty().Keys :: 2 <= x < s.Top())
  }

  /** What the ledger held when the writer began, less its own gifts, is what the current list says. */
  ghost predicate ListOk(s: State)
    requires MetasOk(s)
  {
    var list := s.lists[s.Current().txid];
    && (forall x | x in list :: 2 <= x < s.Current().hwm)
    && Elems(list) !! s.Base() + s.ListRun()
    && (forall x | x in s.free.ids + s.Dirty().Keys && x < s.Current().hwm :: x in list)
    && (forall x | x in s.free.ids :: x < s.Current().hwm)
    && s.Older() <= Elems(list)
    && (forall x | x in Kept(list) :: x in s.free.ids + s.Dirty().Keys + s.Older())
  }

  /** An open reader's tree is on file, and each of its pages is in the current tree or was given
      back by a transaction newer than the reader. */
  ghost predicate Served(s: State, r: Meta)
    requires MetasOk(s)
  {
    && r.txid <= s.Current().txid && r.txid in s.trees
    && s.trees[r.txid].id == r.root
    && Stored(s.disk, s.trees[r.txid]) && Once(s.trees[r.txid])
    && (forall x | x in Pages(s.trees[r.txid]) ::
      x in s.Base() || exists t: nat :: r.txid < t <= s.Current().txid && t in s.free.pending && x in s.free.pending[t])
  }

  ghost predicate ReadersOk(s: State)
    requires MetasOk(s)
  {
    Served(s, s.Current()) && forall i | 0 <= i < |s.readers| :: Served(s, s.readers[i])
  }

  /** What Commit is about to publish is complete in the writer's view of the file. */
  ghost predicate PlanOk(s: State)
    requires MetasOk(s)
  {
    s.writer.Flushing? ==>
      var w := s.writer;
      && Once(w.tree) && w.tree.id == w.meta.root
      && Stored(s.disk + w.dirty, w.tree)
      && w.meta.freelist in w.dirty && w.dirty[w.meta.freelist].Head?
      && ListStored(w.dirty, w.meta.freelist, w.list)
      && Elems(w.list) == s.free.All()
      && var run := Run(w.meta.freelist, w.dirty[w.meta.freelist].overflow + 1);
        && run <= w.dirty.Keys && run !! Pages(w.tree)
        && Pages(w.tree) + run == (s.Base() + s.ListRun() - s.Given()) + w.dirty.Keys
        && s.Base() - s.Given() <= Pages(w.tree)
        && s.ListRun() <= s.Given()
  }

  /** Until Commit, the writer gives back pages of the tree only. */
  ghost predicate GiftsOk(s: State)
    requires MetasOk(s)
  {
    s.writer.Editing? ==> s.Given() !! s.ListRun()
  }

  ghost predicate Core(s: State) {
    MetasOk(s) && LedgerOk(s) && Apart(s) && ListOk(s) && ReadersOk(s)
  }

  ghost predicate Inv(s: State) {
    Core(s) && PlanOk(s) && GiftsOk(s)
  }

  // ---- Steps ----

  ghost predicate Init(s: State) {
    && s.pageSize > 0
    && s.meta0 == Meta(0, 3, 2, 4) && s.meta1 == Meta(1, 3, 2, 4)
    && s.disk == map[2 := Head(FreeBlock(0, []), 0), 3 := Head(TreeBlock([], []), 0)]
    && s.free == Ledger({}, map[]) && s.readers == [] && s.writer == Idle
    && s.trees == map[1 := PTree(3, 0, [], [])] && s.lists == map[1 := []]
  }

  ghost predicate BeginRead(s: State, s': State) {
    s' == s.(readers := s.readers + [s.Current()])
  }

  ghost predicate EndRead(s: State, s': State, i: nat) {
    i < |s.readers| && s' == s.(readers := s.readers[..i] + s.readers[i + 1..])
  }

  const MAX_TXID := 0xFFFF_FFFF_FFFF_FFFF

  /** The oldest transaction id among the readers, or the maximum when there is none. */
  function MinTx(readers: seq<Meta>): nat {
    if readers == [] then MAX_TXID
    else
      var m := MinTx(readers[..|readers| - 1]);
      var t := readers[|readers| - 1].txid;
      if t < m then t else m
  }

  ghost predicate BeginWrite(s: State, s': State) {
    && s.writer.Idle?
    && s' == s.(
      writer := Editing(s.Current().(txid := s.NextTx()), map[]),
      free := if MinTx(s.readers) > 0 then s.free.Release(MinTx(s.readers) - 1) else s.free)
  }

  /** The cells of a new page run. */
  ghost function Cells(p: nat, overflow: nat, block: Block): (m: map<nat, Cell>)
    ensures m.Keys == Run(p, overflow + 1)
    ensures HasBlock(m, p, overflow, block)
  {
    var run := Run(p, overflow + 1);
    map x | x in run :: if x == p then Head(block, overflow) else Tail(p)
  }

  /** Where n pages come from: the lowest free run, or else the end of the file. */
  ghost predicate Placed(free: Ledger, hwm: nat, n: nat, p: nat) {
    if exists q: nat :: Run(q, n) <= free.ids
    then Run(p, n) <= free.ids && forall q: nat | Run(q, n) <= free.ids :: p <= q
    else p == hwm
  }

  ghost function FreeAfter(free: Ledger, n: nat, p: nat): Ledger {
    if Run(p, n) <= free.ids then free.Take(Run(p, n)) else free
  }

  ghost function TopAfter(free: Ledger, hwm: nat, n: nat, p: nat): nat {
    if Run(p, n) <= free.ids then hwm else hwm + n
  }

  /** Allocates a run of pages and writes a block to it, as spill does for each node. */
  ghost predicate Allocate(s: State, s': State, p: nat, overflow: nat, block: Block) {
    && s.writer.Editing?
    && Placed(s.free, s.writer.meta.hwm, overflow + 1, p)
    && s' == s.(free := FreeAfter(s.free, overflow + 1, p),
      writer := Editing(s.writer.meta.(hwm := TopAfter(s.free, s.writer.meta.hwm, overflow + 1, p)),
        s.writer.dirty + Cells(p, overflow, block)))
  }

  /** Gives back one page run of the current version's tree. */
  ghost predicate FreePage(s: State, s': State, p: nat) {
    && s.writer.Editing?
    && p in s.disk && s.disk[p].Head? && s.Current().txid in s.trees
    && Run(p, s.disk[p].overflow + 1) <= s.Base() - s.free.All()
    && s' == s.(free := s.free.Give(s.NextTx(), RunSeq(p, s.disk[p].overflow + 1)))
  }

  /** The ledger once Commit has given back the pages of the old free list. */
  ghost function GivenList(s: State): Ledger
    requires s.Current().freelist in s.disk && s.disk[s.Current().freelist].Head?
  {
    s.free.Give(s.NextTx(), RunSeq(s.Current().freelist, s.disk[s.Current().freelist].overflow + 1))
  }

  /** Pages Commit reserves for the new free list. */
  ghost function ListPages(s: State): (pages: nat)
    requires s.pageSize > 0
    requires s.Current().freelist in s.disk && s.disk[s.Current().freelist].Head?
    ensures pages > 0
  {
    Reserved(|GivenList(s).All()|, s.pageSize)
  }

  /** The writer's tree is complete: it uses no page twice, and exactly the pages of the current tree
      that were not given back and the new ones. */
  ghost predicate Ready(s: State, tree: PTree) {
    && s.Current().txid in s.trees
    && Once(tree) && Stored(s.disk + s.Dirty(), tree)
    && Pages(tree) == (s.Base() - s.Given()) + s.Dirty().Keys
  }

  /** Commit up to the point where pages go to the file: the nodes are spilled into `tree`, the old
      free-list page is given back, and the new list is laid out on freshly allocated pages. */
  ghost predicate Prepare(s: State, s': State, tree: PTree, p: nat, list: seq<nat>, words: seq<nat>) {
    && s.writer.Editing? && s.pageSize > 0
    && s.Current().freelist in s.disk && s.disk[s.Current().freelist].Head?
    && Ready(s, tree)
    && Placed(GivenList(s), s.writer.meta.hwm, ListPages(s), p)
    && Ascending(list) && Elems(list) == FreeAfter(GivenList(s), ListPages(s), p).All()
    && Words(list) <= words
    && s' == s.(free := FreeAfter(GivenList(s), ListPages(s), p),
      writer := Flushing(
        Meta(s.NextTx(), tree.id, p, TopAfter(GivenList(s), s.writer.meta.hwm, ListPages(s), p)),
        s.writer.dirty + Cells(p, ListPages(s) - 1, FreeBlock(CountField(|list|), words)), tree, list))
  }

  /** One page-sized slot of a dirty page reaches the file. */
  ghost predicate WriteCell(s: State, s': State, x: nat) {
    && s.writer.Flushing? && x in s.writer.dirty
    && s' == s.(disk := s.disk[x := s.writer.dirty[x]])
  }

  ghost function WithMeta(s: State, m: Meta): State {
    if m.txid % 2 == 0 then s.(meta0 := m) else s.(meta1 := m)
  }

  /** The meta page reaches the file, and the transaction closes. */
  ghost predicate WriteMeta(s: State, s': State) {
    && s.writer.Flushing?
    && (forall x | x in s.writer.dirty :: x in s.disk && s.disk[x] == s.writer.dirty[x])
    && s' == WithMeta(s, s.writer.meta).(writer := Idle,
      trees := s.trees[s.NextTx() := s.writer.tree],
      lists := s.lists[s.NextTx() := s.writer.list])
  }

  /** What the current free-list page reads as. */
  ghost function ReadList(s: State): set<nat>
    requires MetasOk(s)
  {
    Elems(Kept(s.lists[s.Current().txid]))
  }

  ghost predicate Rollback(s: State, s': State) {
    && MetasOk(s) && !s.writer.Idle?
    && s' == s.(writer := Idle, free := s.free.Revert(s.NextTx(), ReadList(s)))
  }

  /** The process dies and the file is opened again. */
  ghost predicate Crash(s: State, s': State) {
    && MetasOk(s)
    && s' == s.(writer := Idle, readers := [], free := Ledger(ReadList(s), map[]))
  }

  datatype Event =
    | EBeginRead | EEndRead(i: nat) | EBeginWrite
    | EAllocate(at: nat, overflow: nat, block: Block) | EFreePage(p: nat)
    | EPrepare(tree: PTree, at: nat, list: seq<nat>, words: seq<nat>) | EWriteCell(x: nat) | EWriteMeta | ERollback | ECrash

  ghost predicate Step(s: State, s': State, e: Event) {
    match e
    case EBeginRead => BeginRead(s, s')
    case EEndRead(i) => EndRead(s, s', i)
    case EBeginWrite => BeginWrite(s, s')
    case EAllocate(at, overflow, block) => Allocate(s, s', at, overflow, block)
    case EFreePage(p) => FreePage(s, s', p)
    case EPrepare(tree, at, list, words) => Prepare(s, s', tree, at, list, words)
    case EWriteCell(x) => WriteCell(s, s', x)
    case EWriteMeta => WriteMeta(s, s')
    case ERollback => Rollback(s, s')
    case ECrash => Crash(s, s')
  }
}
