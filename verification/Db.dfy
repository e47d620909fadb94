/** The database object: the same actions as the step system, on objects updated in place. */
module Database {
  import opened PageIds
  import opened FreeIds
  import opened FreelistPage
  import opened FreelistObject
  import opened PageFile
  import opened Versions
  import opened VersionSteps

  datatype Plan = NoPlan | Planned(dirty: map<nat, Cell>, tree: PTree, list: seq<nat>)

  /** A transaction: its own copy of the meta page and, for the writer, its page cache. */
  class Tx {
    var writable: bool
    var meta: Meta
    var pages: map<nat, Cell>
    ghost var plan: Plan

    constructor (writable: bool, current: Meta)
      ensures this.writable == writable && pages == map[] && plan == NoPlan
      ensures meta == if writable then current.(txid := current.txid + 1) else current
    {
      this.writable, pages, plan := writable, map[], NoPlan;
      meta := if writable then current.(txid := current.txid + 1) else current;
    }
  }

  ghost function Metas(txs: seq<Tx>): (metas: seq<Meta>)
    reads txs
    ensures |metas| == |txs| && forall i | 0 <= i < |txs| :: metas[i] == txs[i].meta
  {
    seq(|txs|, i requires 0 <= i < |txs| reads txs => txs[i].meta)
  }

  /** The file once the dirty pages below n are written. */
  ghost function Written(disk: map<nat, Cell>, pages: map<nat, Cell>, n: nat): map<nat, Cell> {
    disk + map x | x in pages && x < n :: pages[x]
  }

  lemma WrittenEnds(disk: map<nat, Cell>, pages: map<nat, Cell>, n: nat)
    requires forall x | x in pages :: x < n
    ensures Written(disk, pages, 0) == disk && Written(disk, pages, n) == disk + pages
  {
  }

  lemma WrittenGrow(disk: map<nat, Cell>, pages: map<nat, Cell>, n: nat)
    ensures Written(disk, pages, n + 1)
      == if n in pages then Written(disk, pages, n)[n := pages[n]] else Written(disk, pages, n)
  {
  }

  lemma DirtyBelow(s: State)
    requires Inv(s)
    ensures forall x | x in s.Dirty() :: x < s.Top()
  {
  }

  lemma MetaBounds(s: State)
    requires Inv(s) && s.writer.Flushing?
    ensures s.writer.meta.root < s.writer.meta.hwm && s.writer.meta.freelist < s.writer.meta.hwm
    ensures s.writer.meta.txid == s.NextTx()
  {
    hide Run, PendingOk, Stored, Once, ListStored, PendingIds, LedgerOk, ListOk, ReadersOk;
    var t := s.writer.tree;
    InRun(t.id, t.overflow);
    InRun(s.writer.meta.freelist, s.writer.dirty[s.writer.meta.freelist].overflow);
    assert t.id in Pages(t);
  }

  lemma Published(s: State, s': State)
    requires Inv(s) && Versions.WriteMeta(s, s')
    ensures s'.Current() == s.writer.meta && Stored(s'.disk, s.writer.tree)
  {
    PublishSets(s, s');
  }

  /** What the current free-list page reads as, and that it is fit to be read. */
  lemma StoredList(s: State)
    requires Inv(s)
    ensures MetasOk(s)
    ensures var block := s.disk[s.Current().freelist].block;
      && Readable(block.count, block.words)
      && Slice(block.count, block.words) == Kept(s.lists[s.Current().txid])
      && Distinct(Slice(block.count, block.words))
      && forall x | x in Slice(block.count, block.words) :: x > 1
  {
    hide Run, PendingOk, Stored, Once, PendingIds, LedgerOk, ReadersOk, Apart;
    var list := s.lists[s.Current().txid];
    ReadAfterWrite(list, s.disk[s.Current().freelist].block.words);
    KeptElems(list);
    AscendingDistinct(Kept(list));
    KeptWithin(list);
    assert forall x | x in Kept(list) :: x in Elems(Kept(list)) && x in list;
  }

  lemma PendingStays(f: Freelist)
    requires f.Valid()
    ensures PendingOk(f.pending)
  {
  }

  lemma FreshLedger(f: Freelist, s: State)
    requires Inv(s) && s.free == f.Abs() && Ascending(f.ids) && f.cache == f.Abs().All()
    ensures f.Valid()
  {
  }

  lemma CacheAll(f: Freelist)
    requires f.Valid()
    ensures f.cache == f.Abs().All()
  {
  }

  lemma CellsShape(p: nat, overflow: nat, block: Block)
    ensures forall x: nat :: x in Cells(p, overflow, block) <==> p <= x <= p + overflow
    ensures forall x | x in Cells(p, overflow, block) ::
      Cells(p, overflow, block)[x] == if x == p then Head(block, overflow) else Tail(p)
  {
    hide Run;
    forall x: nat ensures x in Cells(p, overflow, block) <==> p <= x <= p + overflow {
      assert x in Cells(p, overflow, block) <==> x in Run(p, overflow + 1);
    }
  }

  method NewCells(p: nat, overflow: nat, block: Block) returns (cells: map<nat, Cell>)
    ensures cells == Cells(p, overflow, block)
  {
    cells := map[p := Head(block, overflow)];
    for i := 0 to overflow
      invariant forall x: nat :: x in cells <==> p <= x <= p + i
      invariant forall x | x in cells :: cells[x] == if x == p then Head(block, overflow) else Tail(p)
    {
      cells := cells[p + i + 1 := Tail(p)];
    }
    CellsShape(p, overflow, block);
  }

  lemma AvailableRun(ids: seq<nat>, q: nat, n: nat)
    ensures Available(ids, q, n) <==> Run(q, n) <= Elems(ids)
  {
    hide Run;
    if Run(q, n) <= Elems(ids) {
      forall k | q <= k < q + n ensures k in ids { assert k in Run(q, n); }
    }
  }

  /** The open writer's facts that the operations rely on. */
  lemma WriterTx(s: State)
    requires Inv(s) && !s.writer.Idle?
    ensures s.writer.meta.txid == s.NextTx()
    ensures MetasOk(s) && forall x | x in s.Base() + s.ListRun() :: x > 1
    ensures s.Current().freelist in s.ListRun()
    ensures forall x | x in s.free.All() :: 1 < x < s.Top()
  {
    hide Run, PendingOk, Stored, Once, Pages, ListStored, PendingIds;
    InRun(s.Current().freelist, s.disk[s.Current().freelist].overflow);
    VersionSteps.AllAboveOne(s.free);
  }

  lemma OldList(s: State)
    requires Inv(s) && s.writer.Editing?
    ensures s.pageSize > 0 && s.Current().freelist in s.disk && s.disk[s.Current().freelist].Head?
    ensures Run(s.Current().freelist, s.disk[s.Current().freelist].overflow + 1) !! s.free.All()
    ensures s.Current().freelist > 1 && ListPages(s) == Reserved(|GivenList(s).All()|, s.pageSize)
  {
    hide Run, PendingOk, Stored, Once, Pages, ListStored, PendingIds, RunSeq, Reserved;
    WriterTx(s);
    ListNotFree(s);
    assert s.Current().freelist in s.Base() + s.ListRun();
  }

  lemma GivenBelow(s: State)
    requires Inv(s) && s.writer.Editing?
    ensures GivenList(s).Ok() && forall x | x in GivenList(s).All() :: 1 < x < s.Top()
  {
    hide Run, PendingOk, Stored, Once, Pages, ListStored, PendingIds, RunSeq;
    WriterTx(s);
    ListNotFree(s);
    var n := s.disk[s.Current().freelist].overflow + 1;
    GiveFacts(s, s.Current().freelist, n);
  }

  lemma CardSubset(a: set<nat>, b: set<nat>)
    requires a <= b
    ensures |a| <= |b|
  {
    assert b == a + (b - a);
  }

  lemma LedgerShrinks(f: Ledger, n: nat, p: nat, top: nat)
    requires f.Ok() && n > 0 && Placed(f, top, n, p) && forall x | x in f.All() :: x < top
    ensures FreeAfter(f, n, p).All() <= f.All() && |FreeAfter(f, n, p).All()| <= |f.All()|
  {
    PlaceFacts(f, top, n, p);
    CardSubset(FreeAfter(f, n, p).All(), f.All());
  }

  /** The ledger as one ascending list. */
  ghost function SortedIds(f: Freelist): (list: seq<nat>)
    requires f.Valid()
    reads f
    ensures Ascending(list) && Elems(list) == f.cache
  {
    SortedExists(f.cache);
    var list :| Ascending(list) && Elems(list) == f.cache;
    list
  }

  class Db {
    const pageSize: nat
    var disk: map<nat, Cell>
    var meta0: Meta
    var meta1: Meta
    var freelist: Freelist
    var txs: seq<Tx>
    var rwtx: Tx?
    ghost var trees: map<nat, PTree>
    ghost var lists: map<nat, seq<nat>>

    ghost function WriterAbs(): Writer
      reads this, rwtx
    {
      if rwtx == null then Idle
      else if rwtx.plan.NoPlan? then Editing(rwtx.meta, rwtx.pages)
      else Flushing(rwtx.meta, rwtx.plan.dirty, rwtx.plan.tree, rwtx.plan.list)
    }

    ghost function Abs(): State
      reads this, freelist, txs, rwtx
    {
      State(pageSize, disk, meta0, meta1, freelist.Abs(), Metas(txs), WriterAbs(), trees, lists)
    }

    ghost predicate Valid()
      reads this, freelist, txs, rwtx
    {
      && pageSize > 0 && pageSize % WORD_SIZE == 0
      && freelist.Valid()
      && (rwtx != null ==> rwtx !in txs)
      && Inv(Abs())
    }

    /** Creates the file with its two meta pages, an empty free list and an empty leaf, and opens it. */
    constructor (pageSize: nat)
      requires pageSize > 0 && pageSize % WORD_SIZE == 0
      ensures Valid() && Init(Abs()) && fresh(freelist)
    {
      this.pageSize := pageSize;
      disk := map[2 := Head(FreeBlock(0, []), 0), 3 := Head(TreeBlock([], []), 0)];
      meta0, meta1 := Meta(0, 3, 2, 4), Meta(1, 3, 2, 4);
      freelist := new Freelist();
      txs, rwtx := [], null;
      trees, lists := map[1 := PTree(3, 0, [], [])], map[1 := []];
      new;
      InitKeeps(Abs());
    }

    /** The meta page that was written last: with the two transaction ids one apart, it is the one above. */
    method CurrentMeta() returns (m: Meta)
      ensures m == meta0 || m == meta1
      ensures m.txid >= meta0.txid && m.txid >= meta1.txid
      ensures m == Abs().Current()
    {
      if meta0.txid > meta1.txid {
        return meta0;
      }
      return meta1;
    }

    method BeginTx() returns (t: Tx)
      requires Valid()
      modifies this`txs
      ensures Valid() && BeginRead(old(Abs()), Abs())
      ensures fresh(t) && t in txs && t.meta == old(Abs()).Current()
    {
      hide Inv, Freelist.Valid;
      var m := CurrentMeta();
      t := new Tx(false, m);
      ghost var was := Abs();
      txs := txs + [t];
      assert Metas(txs) == was.readers + [m];
      assert Abs() == was.(readers := was.readers + [m]);
      BeginReadKeeps(was, Abs());
    }

    method RemoveTx(t: Tx) returns (ghost at: nat)
      requires Valid() && t in txs
      modifies this`txs
      ensures Valid() && EndRead(old(Abs()), Abs(), at)
      ensures at < old(|txs|) && old(txs)[at] == t && t !in old(txs)[..at]
      ensures txs == old(txs)[..at] + old(txs)[at + 1..]
    {
      hide Inv, Freelist.Valid;
      ghost var was := Abs();
      var i := 0;
      while i < |txs| && txs[i] != t
        invariant 0 <= i <= |txs| && t !in txs[..i] && txs == old(txs)
      {
        i := i + 1;
      }
      assert i < |txs|;
      at := i;
      txs := txs[..i] + txs[i + 1..];
      assert Metas(txs) == was.readers[..i] + was.readers[i + 1..];
      EndReadKeeps(was, Abs(), i);
    }

    /** Starts the writer and hands it every page no open reader can still need. */
    method BeginRWTx() returns (t: Tx)
      requires Valid() && rwtx == null
      modifies this`rwtx, freelist
      ensures Valid() && BeginWrite(old(Abs()), Abs())
      ensures fresh(t) && rwtx == t
      ensures forall v: nat, x: nat ::
        v in old(Abs()).free.pending && x in old(Abs()).free.pending[v] && v < 0xFFFF_FFFF_FFFF_FFFF
        ==> Released(old(Abs()), Abs(), v, x)
      ensures txs == [] && old(Abs()).Current().txid < 0xFFFF_FFFF_FFFF_FFFF ==> PendingIds(Abs().free.pending) == {}
    {
      hide Inv, Freelist.Valid;
      ghost var was := Abs();
      var m := CurrentMeta();
      t := new Tx(true, m);
      rwtx := t;
      assert Metas(txs) == was.readers;
      ReleaseOld();
      BeginWriteKeeps(was, Abs());
      BeginReleases(was, Abs());
    }

    /** Everything given back before the oldest open reader's version becomes free. */
    method ReleaseOld()
      requires freelist.Valid()
      modifies freelist
      ensures freelist.Valid()
      ensures freelist.Abs() ==
        if MinTx(Metas(txs)) > 0 then old(freelist.Abs()).Release(MinTx(Metas(txs)) - 1) else old(freelist.Abs())
    {
      hide Freelist.Valid;
      var minid := OldestReader();
      if minid > 0 {
        freelist.Release(minid - 1);
      }
    }

    /** The oldest version that an open reader holds. */
    method OldestReader() returns (minid: nat)
      ensures minid == MinTx(Metas(txs))
    {
      minid := MAX_TXID;
      ghost var metas := Metas(txs);
      for i := 0 to |txs|
        invariant minid == MinTx(metas[..i])
      {
        assert metas[..i + 1][..i] == metas[..i];
        if txs[i].meta.txid < minid {
          minid := txs[i].meta.txid;
        }
      }
      assert metas[..|txs|] == metas;
    }

    /** A new page run, from the free list or from the end of the file, holding a block. */
    method Allocate(overflow: nat, block: Block) returns (p: nat)
      requires Valid() && rwtx != null && rwtx.plan.NoPlan?
      modifies freelist, rwtx
      ensures Valid() && Versions.Allocate(old(Abs()), Abs(), p, overflow, block)
      ensures rwtx.plan.NoPlan?
    {
      hide Inv, Freelist.Valid, Placed, FreeAfter, TopAfter;
      ghost var was := Abs();
      WriterTx(was);
      p := TakePages(overflow + 1);
      var cells := NewCells(p, overflow, block);
      rwtx.pages := rwtx.pages + cells;
      assert Metas(txs) == was.readers;
      AllocateKeeps(was, Abs(), p, overflow, block);
    }

    /** The page ids of an allocation: first fit, or else the high water mark moves. */
    method TakePages(n: nat) returns (p: nat)
      requires freelist.Valid() && rwtx != null && n > 0
      requires forall x | x in freelist.Abs().All() :: x > 0 && x < rwtx.meta.hwm
      modifies freelist, rwtx`meta
      ensures freelist.Valid()
      ensures Placed(old(freelist.Abs()), old(rwtx.meta.hwm), n, p)
      ensures freelist.Abs() == FreeAfter(old(freelist.Abs()), n, p)
      ensures rwtx.meta == old(rwtx.meta).(hwm := TopAfter(old(freelist.Abs()), old(rwtx.meta.hwm), n, p))
    {
      hide PendingIds, PendingOk, Run, Freelist.Valid, Available, Ascending;
      ghost var ids := freelist.ids;
      forall q: nat ensures Available(ids, q, n) <==> Run(q, n) <= freelist.Abs().ids {
        AvailableRun(ids, q, n);
      }
      p := freelist.Allocate(n);
      if p == 0 {
        p := rwtx.meta.hwm;
        rwtx.meta := rwtx.meta.(hwm := rwtx.meta.hwm + n);
      }
    }

    /** Gives back the page run of a node of the current tree. */
    method FreePage(p: nat)
      requires Valid() && rwtx != null && rwtx.plan.NoPlan?
      requires p in disk && disk[p].Head? && Abs().Current().txid in trees
      requires Run(p, disk[p].overflow + 1) <= Abs().Base() - freelist.Abs().All()
      modifies freelist
      ensures Valid() && Versions.FreePage(old(Abs()), Abs(), p)
    {
      hide Freelist.Valid, Run, PendingIds, PendingOk;
      ghost var was := Abs();
      WriterTx(was);
      InRun(p, disk[p].overflow);
      GivePage(p);
      assert Metas(txs) == was.readers;
      hide Inv;
      FreePageKeeps(was, Abs(), p);
    }

    /** Gives back the page run that starts at p. */
    method GivePage(p: nat)
      requires Valid() && rwtx != null && rwtx.meta.txid == Abs().NextTx()
      requires p in disk && disk[p].Head? && p > 1 && Run(p, disk[p].overflow + 1) !! freelist.Abs().All()
      modifies freelist
      ensures freelist.Valid()
      ensures freelist.Abs() == old(freelist.Abs()).Give(Abs().NextTx(), RunSeq(p, disk[p].overflow + 1))
    {
      hide Inv;
      freelist.Free(rwtx.meta.txid, p, disk[p].overflow);
    }

    /** Commit's work in memory, once the nodes are spilled into `tree`: swaps the free-list page. */
    method Prepare(root: nat, ghost tree: PTree) returns (p: nat, ghost list: seq<nat>, ghost words: seq<nat>)
      requires Valid() && rwtx != null && rwtx.plan.NoPlan?
      requires tree.id == root && Ready(Abs(), tree)
      modifies freelist, rwtx
      ensures Valid() && Versions.Prepare(old(Abs()), Abs(), tree, p, list, words)
      ensures rwtx.plan == Planned(rwtx.pages, tree, list)
    {
      hide Freelist.Valid, Run, PendingIds, PendingOk, Stored, Once, Pages, Placed, FreeAfter, TopAfter, Cells, RunSeq, Core, PlanOk, ListPages, GivenList, Reserved, CountField, Words, Elems, Ascending, MetasOk, Ready, Ledger.All, ListStored;
      ghost var was := Abs();
      assert MetasOk(was) by { CoreMetas(was); }
      OldList(was);
      var n;
      p, n := ReserveList();
      list := SortedIds(freelist);
      var count, w := ListPage(n, |GivenList(was).All()|, list);
      words := w;
      var cells := NewCells(p, n - 1, FreeBlock(count, w));
      rwtx.pages := rwtx.pages + cells;
      rwtx.meta := rwtx.meta.(root := root, freelist := p);
      rwtx.plan := Planned(rwtx.pages, tree, list);
      assert Metas(txs) == was.readers;
      assert freelist.cache == freelist.Abs().All() by { CacheAll(freelist); }
      hide Inv;
      assert Versions.Prepare(was, Abs(), tree, p, list, words);
      PrepareKeeps(was, Abs(), tree, p, list, words);
    }

    /** Gives back the old free-list page and takes pages for the new one; its size is computed first. */
    method ReserveList() returns (p: nat, n: nat)
      requires Valid() && rwtx != null && rwtx.plan.NoPlan? && MetasOk(Abs())
      modifies freelist, rwtx`meta
      ensures freelist.Valid() && n == ListPages(old(Abs())) && n > 0
      ensures Placed(GivenList(old(Abs())), old(rwtx.meta.hwm), n, p)
      ensures freelist.Abs() == FreeAfter(GivenList(old(Abs())), n, p)
      ensures rwtx.meta == old(rwtx.meta).(hwm := TopAfter(GivenList(old(Abs())), old(rwtx.meta.hwm), n, p))
      ensures rwtx.meta.txid == old(Abs()).NextTx()
      ensures |freelist.cache| <= |GivenList(old(Abs())).All()|
      ensures n == Reserved(|GivenList(old(Abs())).All()|, pageSize)
    {
      hide Freelist.Valid, Run, Placed, FreeAfter, TopAfter, Inv, MetasOk, Ledger.Give, Ledger.All, Ledger.Ok, ListPages, RunSeq, Elems;
      ghost var was := Abs();
      WriterTx(was);
      OldList(was);
      GivenBelow(was);
      var m := CurrentMeta();
      GivePage(m.freelist);
      assert freelist.Abs() == GivenList(was);
      CacheAll(freelist);
      var size := freelist.SizeInBytes();
      n := size / pageSize + 1;
      assert n == ListPages(was);
      p := TakePages(n);
      LedgerShrinks(GivenList(was), n, p, was.Top());
      CacheAll(freelist);
    }

    /** One slot of a dirty page goes to the file. */
    method WriteCell(x: nat)
      requires Valid() && rwtx != null && rwtx.plan.Planned? && rwtx.pages == rwtx.plan.dirty && x in rwtx.pages
      modifies this`disk
      ensures Valid() && Versions.WriteCell(old(Abs()), Abs(), x)
    {
      hide Inv, Freelist.Valid;
      ghost var was := Abs();
      disk := disk[x := rwtx.pages[x]];
      assert Metas(txs) == was.readers;
      WriteCellKeeps(was, Abs(), x);
    }

    /** Writes the dirty pages in ascending order and clears the page cache. */
    method Write()
      requires Valid() && rwtx != null && rwtx.plan.Planned? && rwtx.pages == rwtx.plan.dirty
      modifies this`disk, rwtx`pages
      ensures Valid() && Abs() == old(Abs()).(disk := old(disk) + old(rwtx.pages))
      ensures rwtx.pages == map[]
    {
      hide Inv, Freelist.Valid;
      ghost var was := Abs();
      WriteCells();
      ghost var now := Abs();
      rwtx.pages := map[];
      assert Metas(txs) == was.readers;
      assert Abs() == now;
    }

    method WriteCells()
      requires Valid() && rwtx != null && rwtx.plan.Planned? && rwtx.pages == rwtx.plan.dirty
      modifies this`disk
      ensures Valid() && Abs() == old(Abs()).(disk := old(disk) + rwtx.pages)
    {
      hide Inv, Freelist.Valid, Written;
      ghost var was := Abs();
      DirtyBelow(was);
      var pages, top := rwtx.pages, rwtx.meta.hwm;
      assert was.Dirty() == pages && was.Top() == top;
      WrittenEnds(disk, pages, top);
      for x := 0 to top
        invariant Valid() && rwtx != null && rwtx.plan.Planned? && rwtx.pages == rwtx.plan.dirty == pages
        invariant Abs() == was.(disk := Written(was.disk, pages, x))
      {
        WrittenGrow(was.disk, pages, x);
        if x in pages {
          WriteCell(x);
        }
      }
    }

    /** Publishes the new version in the meta slot of its transaction id, and closes the writer. */
    method WriteMeta()
      requires Valid() && rwtx != null && rwtx.plan.Planned?
      requires forall x | x in rwtx.plan.dirty :: x in disk && disk[x] == rwtx.plan.dirty[x]
      modifies this`meta0, this`meta1, this`rwtx, this`trees, this`lists
      ensures Valid() && Versions.WriteMeta(old(Abs()), Abs()) && rwtx == null
    {
      hide Inv, Freelist.Valid;
      ghost var was := Abs();
      MetaBounds(was);
      assert rwtx.meta.root < rwtx.meta.hwm;
      assert rwtx.meta.freelist < rwtx.meta.hwm;
      PutMeta(rwtx.meta);
      trees := trees[rwtx.meta.txid := rwtx.plan.tree];
      lists := lists[rwtx.meta.txid := rwtx.plan.list];
      rwtx := null;
      assert Metas(txs) == was.readers;
      assert Abs() == WithMeta(was, was.writer.meta).(writer := Idle,
        trees := was.trees[was.NextTx() := was.writer.tree],
        lists := was.lists[was.NextTx() := was.writer.list]);
      WriteMetaKeeps(was, Abs());
    }

    /** Writes a meta page to the slot of its transaction id. */
    method PutMeta(m: Meta)
      modifies this`meta0, this`meta1
      ensures meta0 == if m.txid % 2 == 0 then m else old(meta0)
      ensures meta1 == if m.txid % 2 == 0 then old(meta1) else m
    {
      if m.txid % 2 == 0 {
        meta0 := m;
      } else {
        meta1 := m;
      }
    }

    /** The whole of Commit once the nodes are spilled: the new tree becomes the current version,
        while every open reader keeps its own. */
    method Commit(root: nat, ghost tree: PTree)
      requires Valid() && rwtx != null && rwtx.plan.NoPlan?
      requires tree.id == root && Ready(Abs(), tree)
      modifies freelist, rwtx, this`disk, this`meta0, this`meta1, this`rwtx, this`trees, this`lists
      ensures Valid() && rwtx == null && txs == old(txs)
      ensures Abs().Current().txid == old(Abs()).NextTx() && Abs().Current().root == root
      ensures Stored(disk, tree) && Abs().readers == old(Abs().readers)
      ensures trees == old(trees)[old(Abs()).NextTx() := tree]
    {
      hide Inv, Freelist.Valid, Stored, Once, Pages, Run, Placed, ListPages, GivenList, TopAfter, FreeAfter, Cells;
      var p;
      ghost var list, words;
      p, list, words := Prepare(root, tree);
      ghost var s1 := Abs();
      Write();
      WriteMeta();
      Published(s1.(disk := s1.disk + s1.writer.dirty), Abs());
    }

    /** Abandons the writer: forgets what it gave back and reloads the list of the current version. */
    method Rollback()
      requires Valid() && rwtx != null
      modifies this`rwtx, freelist
      ensures Valid() && Versions.Rollback(old(Abs()), Abs()) && rwtx == null
    {
      hide Inv, Freelist.Valid, PendingIds, PendingOk;
      ghost var was := Abs();
      WriterTx(was);
      StoredList(was);
      freelist.Rollback(rwtx.meta.txid);
      var m := CurrentMeta();
      var block := disk[m.freelist].block;
      var words := new nat[|block.words|](i requires 0 <= i < |block.words| => block.words[i]);
      assert words[..] == block.words;
      PendingStays(freelist);
      freelist.Reload(block.count, words);
      rwtx := null;
      assert Metas(txs) == was.readers;
      assert freelist.Abs() == was.free.Revert(was.NextTx(), ReadList(was));
      RollbackKeeps(was, Abs());
    }

    /** The process is gone, with every transaction in it; the file is opened again. */
    method Reopen()
      requires Valid()
      modifies this`rwtx, this`txs, this`freelist
      ensures Valid() && Crash(old(Abs()), Abs()) && fresh(freelist)
    {
      hide Inv, PendingIds, PendingOk;
      ghost var was := Abs();
      StoredList(was);
      rwtx, txs := null, [];
      freelist := new Freelist();
      var m := CurrentMeta();
      var block := disk[m.freelist].block;
      var words := new nat[|block.words|](i requires 0 <= i < |block.words| => block.words[i]);
      assert words[..] == block.words;
      SortCorrect(Slice(block.count, words[..]));
      freelist.Read(block.count, words);
      assert Metas(txs) == [];
      assert Elems(freelist.ids) == ReadList(was);
      assert Crash(was, Abs());
      CrashKeeps(was, Abs());
      FreshLedger(freelist, Abs());
    }

    /** Lays the list out on a buffer of n pages. */
    method ListPage(n: nat, ghost reserved: nat, ghost list: seq<nat>) returns (count: nat, w: seq<nat>)
      requires freelist.Valid() && pageSize > 0 && pageSize % WORD_SIZE == 0
      requires n == Reserved(reserved, pageSize) && |freelist.cache| <= reserved
      requires Ascending(list) && Elems(list) == freelist.cache
      ensures count == CountField(|list|) && Words(list) <= w
    {
      hide Freelist.Valid;
      ReservedSuffices(reserved, |freelist.cache|, pageSize);
      var words := new nat[(n * pageSize - PAGE_HEADER_SIZE) / WORD_SIZE];
      count := freelist.Write(words);
      w := words[..];
      AscendingDistinct(list);
      DistinctCard(list);
    }
  }
}
