/** The free list of the page file: what it holds, as a value. */
module FreeIds {
  import opened PageIds

  /** Free page ids, and the ids each transaction gave back but old readers may still need. */
  datatype Ledger = Ledger(ids: set<nat>, pending: map<nat, seq<nat>>) {

    ghost function All(): set<nat> {
      ids + PendingIds(pending)
    }

    /** No id is listed twice, and the two meta pages are never listed. */
    ghost predicate Ok() {
      && (forall x | x in ids :: x > 1)
      && PendingOk(pending)
      && ids !! PendingIds(pending)
    }

    /** Every transaction up to `limit` hands its pending ids over to the free ones. */
    ghost function Release(limit: int): Ledger {
      Ledger(ids + PendingIds(Upto(pending, limit)), After(pending, limit))
    }

    ghost function Give(txid: nat, run: seq<nat>): Ledger {
      this.(pending := pending[txid := Listed(pending, txid) + run])
    }

    ghost function Take(run: set<nat>): Ledger {
      this.(ids := ids - run)
    }

    /** The state after `rollback(txid)` and `reload` of a page that reads as `listed`. */
    ghost function Revert(txid: nat, listed: set<nat>): Ledger {
      Ledger(listed - PendingIds(pending - {txid}), pending - {txid})
    }
  }

  ghost function PendingIds(p: map<nat, seq<nat>>): set<nat> {
    set t: nat, x: nat | t in p && x in p[t] :: x
  }

  ghost predicate PendingOk(p: map<nat, seq<nat>>) {
    && (forall t: nat | t in p :: Distinct(p[t]))
    && (forall t: nat, x: nat | t in p && x in p[t] :: x > 1)
    && (forall t: nat, u: nat, x: nat | t in p && u in p && x in p[t] && x in p[u] :: t == u)
  }

  function Listed(p: map<nat, seq<nat>>, txid: nat): seq<nat> {
    if txid in p then p[txid] else []
  }

  ghost function Upto(p: map<nat, seq<nat>>, limit: int): map<nat, seq<nat>> {
    map t: nat | t in p && t <= limit :: p[t]
  }

  ghost function After(p: map<nat, seq<nat>>, limit: int): map<nat, seq<nat>> {
    map t: nat | t in p && t > limit :: p[t]
  }

  /** The ids of a run in order, as `free` lists them. */
  ghost function RunSeq(start: nat, n: nat): (r: seq<nat>)
    ensures |r| == n && forall i | 0 <= i < n :: r[i] == start + i
  {
    seq(n, i requires 0 <= i => start + i)
  }

  lemma RunSeqElems(start: nat, n: nat)
    ensures Elems(RunSeq(start, n)) == Run(start, n)
  {
    hide Run;
    var r := RunSeq(start, n);
    forall x: nat | x in Run(start, n) ensures x in Elems(r) {
      assert r[x - start] == x;
    }
  }

  lemma PendingSplit(p: map<nat, seq<nat>>, limit: int)
    ensures PendingIds(p) == PendingIds(Upto(p, limit)) + PendingIds(After(p, limit))
  {
    forall x | x in PendingIds(p)
      ensures x in PendingIds(Upto(p, limit)) + PendingIds(After(p, limit))
    {
      var t: nat :| t in p && x in p[t];
      if t <= limit { assert x in Upto(p, limit)[t]; } else { assert x in After(p, limit)[t]; }
    }
  }

  /** Adding one list under a new key adds exactly its elements. */
  lemma PendingAdd(p: map<nat, seq<nat>>, t: nat, s: seq<nat>)
    requires t !in p
    ensures PendingIds(p[t := s]) == PendingIds(p) + Elems(s)
  {
    var q := p[t := s];
    forall x | x in PendingIds(p) + Elems(s) ensures x in PendingIds(q) {
      if x in s { assert x in q[t]; } else {
        var u: nat :| u in p && x in p[u];
        assert x in q[u];
      }
    }
  }

  /** The part of `pending` a loop over its keys has seen. */
  ghost function Part(p: map<nat, seq<nat>>, done: set<nat>): map<nat, seq<nat>> {
    map t: nat | t in p && t in done :: p[t]
  }

  lemma PartBounds(p: map<nat, seq<nat>>)
    ensures PendingIds(Part(p, {})) == {} && Part(p, p.Keys) == p
  {
    assert Part(p, {}) == map[];
  }

  lemma PartStep(p: map<nat, seq<nat>>, done: set<nat>, t: nat)
    requires PendingOk(p) && t in p && t !in done
    ensures PendingIds(Part(p, done + {t})) == PendingIds(Part(p, done)) + Elems(p[t])
    ensures PendingIds(Part(p, done)) !! Elems(p[t])
    ensures PendingIds(Part(p, done)) <= PendingIds(p) && Elems(p[t]) <= PendingIds(p)
  {
    assert Part(p, done + {t}) == Part(p, done)[t := p[t]];
    PendingAdd(Part(p, done), t, p[t]);
  }

  lemma PendingRemove(p: map<nat, seq<nat>>, t: nat)
    requires PendingOk(p)
    ensures PendingIds(p - {t}) == PendingIds(p) - Elems(Listed(p, t))
    ensures PendingOk(p - {t})
  {
    var q := p - {t};
    forall x | x in PendingIds(p) - Elems(Listed(p, t)) ensures x in PendingIds(q) {
      var u: nat :| u in p && x in p[u];
      assert x in q[u];
    }
    forall x | x in PendingIds(q) ensures x in PendingIds(p) - Elems(Listed(p, t)) {
      var u: nat :| u in q && x in q[u];
      assert x in p[u];
    }
  }

  /** Release only moves ids: nothing is lost, nothing is listed twice. */
  lemma ReleaseKeeps(f: Ledger, limit: int)
    requires f.Ok()
    ensures f.Release(limit).Ok() && f.Release(limit).All() == f.All()
    ensures forall t: nat, x: nat | t in f.pending && t > limit && x in f.pending[t] :: x !in f.Release(limit).ids
  {
    PendingSplit(f.pending, limit);
  }

  lemma PendingExtend(p: map<nat, seq<nat>>, t: nat, s: seq<nat>)
    requires PendingOk(p) && Distinct(s) && Elems(s) !! PendingIds(p)
    requires forall x | x in s :: x > 1
    ensures PendingOk(p[t := Listed(p, t) + s])
    ensures PendingIds(p[t := Listed(p, t) + s]) == PendingIds(p) + Elems(s)
  {
    var q := p[t := Listed(p, t) + s];
    forall u: nat, x: nat | u in q && x in q[u]
      ensures x > 1 && ((x in Elems(s) && u == t) || (u in p && x in p[u]))
    {
    }
    forall x: nat | x in PendingIds(p) ensures x in PendingIds(q) {
      var u: nat :| u in p && x in p[u];
      assert x in q[u];
    }
    assert forall x: nat | x in Elems(s) :: x in q[t];
    assert forall u: nat, x: nat | u in p && x in p[u] :: x in PendingIds(p);
    forall u: nat, v: nat, x: nat | u in q && v in q && x in q[u] && x in q[v] ensures u == v {
      assert x in Elems(s) || x !in s;
      assert x in q[t] ==> x in s || x in Listed(p, t);
    }
    assert Distinct(q[t]) by {
      assert forall i | 0 <= i < |Listed(p, t)| :: q[t][i] in PendingIds(p);
      assert forall i | 0 <= i < |s| :: s[i] in Elems(s);
    }
  }

  lemma GiveKeeps(f: Ledger, txid: nat, start: nat, n: nat)
    requires f.Ok() && start > 1
    requires Run(start, n) !! f.All()
    ensures var g := f.Give(txid, RunSeq(start, n));
      g.Ok() && g.All() == f.All() + Run(start, n)
      && PendingIds(g.pending) == PendingIds(f.pending) + Run(start, n)
  {
    hide PendingOk, PendingIds, Run;
    var run := RunSeq(start, n);
    RunSeqElems(start, n);
    assert forall x | x in run :: x in Elems(run);
    PendingExtend(f.pending, txid, run);
    var added := f.pending[txid := Listed(f.pending, txid) + run];
    assert f.Give(txid, run) == Ledger(f.ids, added);
    assert PendingOk(added) && PendingIds(added) == PendingIds(f.pending) + Run(start, n);
    assert f.ids !! PendingIds(added);
    assert Ledger(f.ids, added).Ok();
  }

  lemma RevertOk(f: Ledger, txid: nat, listed: set<nat>)
    requires f.Ok() && forall x | x in listed :: x > 1
    ensures f.Revert(txid, listed).Ok()
    ensures f.Revert(txid, listed).All() == listed + PendingIds(f.pending - {txid})
  {
    PendingRemove(f.pending, txid);
  }
}

/** How the list of ids is laid out on a free-list page, in 8-byte words after the header. */
module FreelistPage {
  import opened PageIds

  const COUNT_OVERFLOW := 0xFFFF
  const PAGE_HEADER_SIZE := 16
  const WORD_SIZE := 8

  function CountField(n: nat): nat {
    if n < COUNT_OVERFLOW then n else COUNT_OVERFLOW
  }

  function Words(ids: seq<nat>): seq<nat> {
    if |ids| < COUNT_OVERFLOW then ids else [|ids|] + ids
  }

  ghost predicate Readable(count: nat, words: seq<nat>) {
    if count == COUNT_OVERFLOW then |words| > 0 && 1 <= words[0] <= |words| else count <= |words|
  }

  /** The slice of the page that `read` copies. */
  function Slice(count: nat, words: seq<nat>): seq<nat>
    requires Readable(count, words)
  {
    if count == COUNT_OVERFLOW then words[1..words[0]] else words[..count]
  }

  /** What survives a write followed by a read: everything below the limit, all but the last id at or above it. */
  function Kept(ids: seq<nat>): seq<nat> {
    if |ids| < COUNT_OVERFLOW then ids else ids[..|ids| - 1]
  }

  lemma ReadAfterWrite(ids: seq<nat>, page: seq<nat>)
    requires Words(ids) <= page
    ensures Readable(CountField(|ids|), page)
    ensures Slice(CountField(|ids|), page) == Kept(ids)
  {
    if |ids| >= COUNT_OVERFLOW {
      assert page[0] == |ids|;
      assert page[1..|ids|] == Words(ids)[1..|ids|] == ids[..|ids| - 1];
    }
  }

  /** On an ascending list the id lost by an overlong page is the largest one, and only that one. */
  lemma KeptElems(ids: seq<nat>)
    requires Ascending(ids)
    ensures Ascending(Kept(ids))
    ensures |ids| < 0xFFFF ==> Elems(Kept(ids)) == Elems(ids)
    ensures |ids| >= 0xFFFF ==>
      Elems(Kept(ids)) == Elems(ids) - {ids[|ids| - 1]} && forall x | x in ids :: x <= ids[|ids| - 1]
  {
    if |ids| >= COUNT_OVERFLOW {
      assert ids == ids[..|ids| - 1] + [ids[|ids| - 1]];
    }
  }

  /** Bytes of a free list of n ids, as `size` computes them. */
  function Size(n: nat): nat {
    PAGE_HEADER_SIZE + WORD_SIZE * n
  }

  /** Pages that Commit reserves for a list of n ids. */
  function Reserved(n: nat, pageSize: nat): (pages: nat)
    requires pageSize > 0
    ensures pages > 0
  {
    Size(n) / pageSize + 1
  }

  function WordCount(n: nat): nat {
    if n < COUNT_OVERFLOW then n else n + 1
  }

  lemma DivMod(a: nat, p: nat)
    requires p > 0
    ensures (a / p + 1) * p == a - a % p + p
  {
    assert a == (a / p) * p + a % p;
  }

  /** The reserved pages hold the list and its extra count word exactly when the last
      page has a word to spare or the list is short. */
  lemma ReservedHolds(n: nat, pageSize: nat)
    requires pageSize > 0
    ensures Reserved(n, pageSize) * pageSize >= Size(WordCount(n))
      <==> n < 0xFFFF || pageSize - (16 + 8 * n) % pageSize >= 8
  {
    DivMod(Size(n), pageSize);
  }

  /** Commit sizes the list before it takes the list's own pages from it, so the list only shrinks.
      With a page size divisible by 8 the reservation is always enough. */
  lemma ReservedSuffices(n: nat, written: nat, pageSize: nat)
    requires pageSize > 0 && pageSize % 8 == 0 && written <= n
    ensures Reserved(n, pageSize) * pageSize >= Size(WordCount(written))
  {
    DivMod(Size(n), pageSize);
    var r, k := Size(n) % pageSize, pageSize / WORD_SIZE;
    assert pageSize == WORD_SIZE * k;
    var q := Size(n) / pageSize;
    assert r == WORD_SIZE * (2 + n) - WORD_SIZE * (k * q) == WORD_SIZE * (2 + n - k * q) by {
      assert Size(n) == pageSize * q + r;
    }
    assert (pageSize - r) == WORD_SIZE * (k - (2 + n - k * q));
  }
}
