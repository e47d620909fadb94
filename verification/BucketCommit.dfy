/** The end of a write transaction on the database object: spilled nodes are written to the pages the
    database allocates for them, old pages are given back, and the new tree is committed. */
module BucketCommit {
  import opened PageIds
  import opened FreeIds
  import opened PageFile
  import opened Versions
  import opened Keys
  import opened BTree
  import opened Spill
  import opened SpillLog
  import opened Images
  import opened RebalanceRuns
  import opened RebalanceMarks
  import opened Transactions
  import opened Commits
  import opened CommitRuns
  import Database

  lemma LastAct(acts: seq<Action>)
    requires acts != []
    ensures var front, last := acts[..|acts| - 1], acts[|acts| - 1];
      && Writes(acts) == (if last.Write? then Writes(front) + [last.node] else Writes(front))
      && Drops(acts) == (if last.Drop? then Drops(front) + multiset{last.page} else Drops(front))
  {
  }

  lemma NextAct(s0: State, acts: seq<Action>, i: nat, f: Format)
    requires i < |acts| && Follows(Writes(acts), Strategy(s0, f), [])
    ensures Writes(acts[..i + 1]) == if acts[i].Write? then Writes(acts[..i]) + [acts[i].node] else Writes(acts[..i])
    ensures Drops(acts[..i + 1]) == if acts[i].Drop? then Drops(acts[..i]) + multiset{acts[i].page} else Drops(acts[..i])
    ensures acts[i].Write? ==> acts[i].node.pgid == Strategy(s0, f)(Writes(acts[..i]), acts[i].node.inodes)
  {
    hide Strategy, Follows, Writes, Drops;
    assert acts[..i + 1][..i] == acts[..i];
    LastAct(acts[..i + 1]);
    if acts[i].Write? {
      WritesPrefix(acts, i + 1);
      FollowsFront(Writes(acts[..i + 1]), Writes(acts), Strategy(s0, f));
      LastFollows(Writes(acts[..i]), acts[i].node, Strategy(s0, f));
    }
  }

  lemma OnePlace(free: Ledger, top: nat, n: nat, p: nat, q: nat)
    requires Placed(free, top, n, p) && Placed(free, top, n, q)
    ensures p == q
  {
    hide Run;
  }

  /** The database allocates the page the node was to have. */
  lemma SamePlace(s0: State, s: State, s': State, wrote: seq<Tree>, gone: multiset<nat>, n: Tree, p: nat, f: Format)
    requires Doing(s0, s, wrote, gone, f) && PoolOf(s) == PoolAfter(PoolOf(s0), wrote, f)
    requires n.pgid == Strategy(s0, f)(wrote, n.inodes)
    requires Allocate(s, s', p, Overflow(n.inodes, f), BlockOf(n, f))
    ensures p == n.pgid && Doing(s0, s', wrote + [n], gone, f)
    ensures PoolOf(s') == PoolAfter(PoolOf(s0), wrote + [n], f)
  {
    hide Doing, Overflow, BlockOf, PoolAfter, PoolRest, Strategy, Spot, Run, Cells, FreeAfter, TopAfter;
    var overflow := Overflow(n.inodes, f);
    StrategyIs(s0, f, wrote, n.inodes);
    SpotPlaced(s.free, s.Top(), overflow + 1);
    DoingEdits(s0, s, wrote, gone, f);
    OnePlace(s.free, s.Top(), overflow + 1, p, n.pgid);
    DoWrite(s0, s, s', wrote, gone, n, f);
    PoolTaken(s, s', p, overflow, BlockOf(n, f));
    PoolNext(PoolOf(s0), wrote, n, f);
  }

  lemma DropGuard(s: State, s': State, p: nat)
    requires FreePage(s, s', p)
    ensures p in s.disk && s.disk[p].Head? && s.Current().txid in s.trees
    ensures Run(p, s.disk[p].overflow + 1) <= s.Base() - s.free.All()
  {
  }

  lemma DropPool(s: State, s': State, p: nat)
    requires FreePage(s, s', p)
    ensures PoolOf(s') == PoolOf(s)
  {
    hide Run, RunSeq;
  }

  /** One node written, or one page run given back. */
  method TakeAct(db: Database.Db, acts: seq<Action>, i: nat, f: Format, ghost s0: State, ghost t: Tree)
    requires db.Valid() && db.rwtx != null && db.rwtx.plan.NoPlan? && i < |acts| && Began(s0, t, f)
    requires Follows(Writes(acts), Strategy(s0, f), []) && Drops(acts) <= BTree.PageIds(t)
    requires Doing(s0, db.Abs(), Writes(acts[..i]), Drops(acts[..i]), f)
    requires PoolOf(db.Abs()) == PoolAfter(PoolOf(s0), Writes(acts[..i]), f)
    modifies db.freelist, db.rwtx
    ensures db.Valid() && db.rwtx.plan.NoPlan?
    ensures Doing(s0, db.Abs(), Writes(acts[..i + 1]), Drops(acts[..i + 1]), f)
    ensures PoolOf(db.Abs()) == PoolAfter(PoolOf(s0), Writes(acts[..i + 1]), f)
  {
    hide Inv, Began, Strategy, Doing, PoolOf, PoolAfter, Follows, BTree.PageIds, Allocate, FreePage, Overflow, BlockOf;
    ghost var s := db.Abs();
    NextAct(s0, acts, i, f);
    WritesPrefix(acts, i + 1);
    match acts[i] {
      case Write(n) =>
        var p := db.Allocate(Overflow(n.inodes, f), BlockOf(n, f));
        SamePlace(s0, s, db.Abs(), Writes(acts[..i]), Drops(acts[..i]), n, p, f);
      case Drop(p) =>
        ghost var after := DropStep(s0, s, Writes(acts[..i]), Drops(acts[..i]), p, t, f);
        DropGuard(s, after, p);
        db.FreePage(p);
        DoDrop(s0, s, db.Abs(), Writes(acts[..i]), Drops(acts[..i]), p, f);
        DropPool(s, db.Abs(), p);
    }
  }

  lemma ImageRoot(t: Tree, f: Format)
    ensures Image(t, f).id == t.pgid
  {
  }

  lemma StartActs(s: State, acts: seq<Action>, t: Tree, edits: seq<Edit>, paths: seq<seq<nat>>, threshold: int, f: Format)
    requires Began(s, t, f) && Rebalanced(t, edits, paths, f) && ActionsOf(acts, s, t, edits, paths, threshold, f)
    ensures Doing(s, s, Writes(acts[..0]), Drops(acts[..0]), f) && PoolOf(s) == PoolAfter(PoolOf(s), Writes(acts[..0]), f)
    ensures Follows(Writes(acts), Strategy(s, f), []) && Drops(acts) <= BTree.PageIds(t)
  {
    hide Doing, Began, CanRun, RunAll, Marks, SavedBy, FreedBy, Strategy, FileRoot, Entries, Follows, BTree.PageIds, NodesIn, Given;
    BeganInv(s, t, f);
    StrategyPositive(s, f);
    SavedNodes(t, edits, paths, threshold, Strategy(s, f), f);
    BeganDoing(s, t, f);
    NothingWritten(PoolOf(s), f);
  }

  lemma ActsReady(s0: State, s: State, acts: seq<Action>, t: Tree, edits: seq<Edit>, paths: seq<seq<nat>>, threshold: int, f: Format)
    requires Began(s0, t, f) && Rebalanced(t, edits, paths, f) && ActionsOf(acts, s0, t, edits, paths, threshold, f)
    requires Doing(s0, s, Writes(acts), Drops(acts), f)
    ensures var t' := SavedBy(t, edits, paths, threshold, Strategy(s0, f), f).root;
      && Ready(s, Image(t', f)) && FileRoot(t') && Entries(t') == EditList(Entries(t), edits)
    ensures s.NextTx() == s0.NextTx() && s.readers == s0.readers
  {
    hide Inv, Began, CanRun, RunAll, Marks, SavedBy, FreedBy, Strategy, Ready, FileRoot, Entries, Follows, BTree.PageIds, NodesIn, Given;
    BeganInv(s0, t, f);
    StrategyPositive(s0, f);
    SavedNodes(t, edits, paths, threshold, Strategy(s0, f), f);
    BucketReady(s0, s, t, SavedBy(t, edits, paths, threshold, Strategy(s0, f), f).root, Writes(acts), Drops(acts), f);
  }

  /** What the spilled nodes, put through the database one by one, leave: the bucket with the edits made
      is the current version, and every open reader keeps its own. */
  method SaveBucket(db: Database.Db, acts: seq<Action>, root: nat, f: Format,
                    ghost t: Tree, ghost edits: seq<Edit>, ghost paths: seq<seq<nat>>, ghost threshold: int)
    requires db.Valid() && db.rwtx != null && db.rwtx.plan.NoPlan? && Began(db.Abs(), t, f)
    requires Rebalanced(t, edits, paths, f) && ActionsOf(acts, db.Abs(), t, edits, paths, threshold, f)
    requires root == SavedBy(t, edits, paths, threshold, Strategy(db.Abs(), f), f).root.pgid
    modifies db.freelist, db.rwtx, db`disk, db`meta0, db`meta1, db`rwtx, db`trees, db`lists
    ensures db.Valid() && db.rwtx == null && db.txs == old(db.txs) && db.Abs().readers == old(db.Abs().readers)
    ensures var t' := SavedBy(t, edits, paths, threshold, Strategy(old(db.Abs()), f), f).root;
      && Holding(db.Abs(), t', f) && Entries(t') == EditList(Entries(t), edits)
    ensures db.Abs().Current().txid == old(db.Abs()).NextTx() && db.Abs().Current().root == root
  {
    hide Inv, Began, ActionsOf, SavedBy, FreedBy, CanRun, RunAll, Strategy, Doing, PoolOf, PoolAfter, Entries, EditList, Ready, FileRoot, Image, Marks;
    ghost var s0 := db.Abs();
    StartActs(s0, acts, t, edits, paths, threshold, f);
    for i := 0 to |acts|
      invariant db.Valid() && db.rwtx != null && db.rwtx == old(db.rwtx) && db.rwtx.plan.NoPlan? && db.txs == old(db.txs)
      invariant Doing(s0, db.Abs(), Writes(acts[..i]), Drops(acts[..i]), f)
      invariant PoolOf(db.Abs()) == PoolAfter(PoolOf(s0), Writes(acts[..i]), f)
    {
      TakeAct(db, acts, i, f, s0, t);
    }
    assert acts[..|acts|] == acts;
    ghost var t' := SavedBy(t, edits, paths, threshold, Strategy(s0, f), f).root;
    ActsReady(s0, db.Abs(), acts, t, edits, paths, threshold, f);
    ImageRoot(t', f);
    db.Commit(root, Image(t', f));
  }
}
