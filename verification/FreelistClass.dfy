/** The free list object: three collections that every operation updates in place. */
module FreelistObject {
  import opened PageIds
  import opened FreeIds
  import opened FreelistPage

  /** All n ids from start on are free. */
  ghost predicate Available(ids: seq<nat>, start: nat, n: nat) {
    forall k | start <= k < start + n :: k in ids
  }

  /** The library copy of a list into a buffer. */
  method CopyInto(list: seq<nat>, words: array<nat>, from: nat)
    requires from + |list| <= words.Length
    modifies words
    ensures words[from..from + |list|] == list
    ensures forall k | 0 <= k < words.Length && !(from <= k < from + |list|) :: words[k] == old(words[k])
  {
    for i := 0 to |list|
      invariant words[from..from + i] == list[..i]
      invariant forall k | 0 <= k < words.Length && !(from <= k < from + i) :: words[k] == old(words[k])
    {
      words[from + i] := list[i];
      assert words[from..from + i + 1] == words[from..from + i] + [list[i]];
    }
  }

  lemma AppendLarger(a: seq<nat>, ids: seq<nat>, i: nat)
    requires Ascending(ids) && i < |ids| && Ascending(a) && Elems(a) <= Elems(ids[..i])
    ensures Ascending(a + [ids[i]]) && Elems(a + [ids[i]]) == Elems(a) + {ids[i]}
  {
    forall k | 0 <= k < |a| ensures a[k] < ids[i] {
      assert a[k] in Elems(a);
    }
  }

  lemma PartGrow(p: map<nat, seq<nat>>, done: set<nat>, t: nat)
    requires t in p && t !in done
    ensures PendingIds(Part(p, done + {t})) == PendingIds(Part(p, done)) + Elems(p[t])
  {
    assert Part(p, done + {t}) == Part(p, done)[t := p[t]];
    PendingAdd(Part(p, done), t, p[t]);
  }

  lemma RunGrow(p: nat, k: nat)
    ensures Run(p, 0) == {} && Run(p, k + 1) == Run(p, k) + {p + k}
    ensures RunSeq(p, 0) == [] && RunSeq(p, k + 1) == RunSeq(p, k) + [p + k]
  {
  }

  lemma AppendOne(base: seq<nat>, added: seq<nat>, x: nat)
    ensures (base + added) + [x] == base + (added + [x])
  {
  }

  lemma AppendNone(base: seq<nat>)
    ensures base == base + []
  {
  }

  lemma TakeOne(list: seq<nat>, i: nat)
    requires i < |list|
    ensures Elems(list[..i + 1]) == Elems(list[..i]) + {list[i]}
  {
    assert list[..i + 1] == list[..i] + [list[i]];
  }

  lemma ListedApart(f: Ledger, txid: nat)
    requires f.Ok()
    ensures Elems(Listed(f.pending, txid)) !! f.ids
  {
    assert Elems(Listed(f.pending, txid)) <= PendingIds(f.pending);
  }

  /** `pending` once the loop of Release has passed the keys in `done`. */
  ghost function Without(p: map<nat, seq<nat>>, done: set<nat>, limit: nat): map<nat, seq<nat>> {
    map t: nat | t in p && !(t in done && t <= limit) :: p[t]
  }

  lemma ReleaseNone(p: map<nat, seq<nat>>, limit: nat)
    ensures PendingIds(Upto(Part(p, {}), limit)) == {} && Without(p, {}, limit) == p
  {
  }

  lemma ReleaseAll(p: map<nat, seq<nat>>, limit: nat)
    ensures Upto(Part(p, p.Keys), limit) == Upto(p, limit) && Without(p, p.Keys, limit) == After(p, limit)
  {
  }

  lemma ReleaseOne(f: Ledger, done: set<nat>, t: nat, limit: nat)
    requires f.Ok() && t in f.pending && t !in done
    ensures t <= limit ==>
      && PendingIds(Upto(Part(f.pending, done + {t}), limit))
        == PendingIds(Upto(Part(f.pending, done), limit)) + Elems(f.pending[t])
      && Elems(f.pending[t]) !! f.ids + PendingIds(Upto(Part(f.pending, done), limit))
      && Without(f.pending, done + {t}, limit) == Without(f.pending, done, limit) - {t}
    ensures t > limit ==>
      && Upto(Part(f.pending, done + {t}), limit) == Upto(Part(f.pending, done), limit)
      && Without(f.pending, done + {t}, limit) == Without(f.pending, done, limit)
    ensures Distinct(f.pending[t])
  {
    var p := f.pending;
    if t <= limit {
      assert Upto(Part(p, done + {t}), limit) == Upto(Part(p, done), limit)[t := p[t]];
      PendingAdd(Upto(Part(p, done), limit), t, p[t]);
      assert Elems(p[t]) <= PendingIds(p);
    }
  }

  lemma AllAboveOne(f: Freelist)
    requires f.Valid()
    ensures forall k | 0 <= k < |f.ids| :: f.ids[k] > 1
  {
    assert forall k | 0 <= k < |f.ids| :: f.ids[k] in f.Abs().ids;
  }

  lemma NothingAvailable(n: nat)
    requires n > 0
    ensures forall s: nat :: !Available([], s, n)
  {
    forall s: nat ensures !Available([], s, n) {
      assert s !in [];
    }
  }

  lemma TakeKeeps(f: Ledger, run: set<nat>)
    requires f.Ok() && run <= f.ids
    ensures f.Take(run).Ok() && f.Take(run).All() == f.All() - run
  {
  }

  /** ids[first..end] are consecutive, beginning with `initial`. */
  ghost predicate Block(ids: seq<nat>, first: nat, end: nat, initial: nat)
    requires first < end <= |ids|
  {
    forall k | first <= k < end :: ids[k] == initial + (k - first)
  }

  ghost predicate NoneBelow(ids: seq<nat>, initial: nat, n: nat) {
    forall s: nat | Available(ids, s, n) :: s >= initial
  }

  lemma Gap(ids: seq<nat>, i: nat)
    requires Ascending(ids) && 0 < i < |ids| && ids[i] != ids[i - 1] + 1
    ensures ids[i - 1] + 1 !in ids
  {
  }

  lemma NextBlock(ids: seq<nat>, first: nat, i: nat, initial: nat, n: nat)
    requires Ascending(ids) && first <= i < |ids| && n > 0
    requires i > 0 ==> first < i && Block(ids, first, i, initial) && ids[i] != ids[i - 1] + 1
    requires i > 0 ==> ids[i - 1] - initial + 1 < n && NoneBelow(ids, initial, n)
    ensures NoneBelow(ids, ids[i], n)
  {
    if i > 0 { Gap(ids, i); }
    forall s: nat | Available(ids, s, n) ensures s >= ids[i] {
      assert s in ids;
    }
  }

  lemma LastBlock(ids: seq<nat>, first: nat, initial: nat, n: nat)
    requires Ascending(ids) && first < |ids| && n > 0
    requires Block(ids, first, |ids|, initial) && ids[|ids| - 1] - initial + 1 < n
    requires NoneBelow(ids, initial, n)
    ensures forall s: nat :: !Available(ids, s, n)
  {
    forall s: nat ensures !Available(ids, s, n) {
      assert Available(ids, s, n) ==> s + n - 1 in ids;
    }
  }

  /** `rest` is the list without the n entries from index `first` on. */
  ghost predicate IsCut(ids: seq<nat>, first: nat, n: nat, rest: seq<nat>)
    requires first + n <= |ids|
  {
    && |rest| == |ids| - n
    && (forall k | 0 <= k < first :: rest[k] == ids[k])
    && (forall k | first + n <= k < |ids| :: rest[k - n] == ids[k])
  }

  lemma CutShape(ids: seq<nat>, first: nat, n: nat)
    requires first + n <= |ids|
    ensures IsCut(ids, first, n, ids[..first] + ids[first + n..])
  {
  }

  lemma CutAscending(ids: seq<nat>, first: nat, n: nat, rest: seq<nat>)
    requires Ascending(ids) && first + n <= |ids| && IsCut(ids, first, n, rest)
    ensures Ascending(rest)
  {
    forall i, j | 0 <= i < j < |rest| ensures rest[i] < rest[j] {
      var a, b := if i < first then i else i + n, if j < first then j else j + n;
      assert rest[i] == ids[a] && rest[j] == ids[b];
    }
  }

  lemma CutElems(ids: seq<nat>, first: nat, n: nat, rest: seq<nat>, x: nat)
    requires Ascending(ids) && first + n <= |ids| && IsCut(ids, first, n, rest)
    requires n > 0 && Block(ids, first, first + n, ids[first])
    ensures x in rest <==> x in ids && !(ids[first] <= x < ids[first] + n)
  {
    if x in ids && !(ids[first] <= x < ids[first] + n) {
      var k :| 0 <= k < |ids| && ids[k] == x;
      assert k < first || k >= first + n;
      assert x == if k < first then rest[k] else rest[k - n];
    }
    if x in rest {
      var k :| 0 <= k < |rest| && rest[k] == x;
      var j := if k < first then k else k + n;
      assert rest[k] == ids[j];
      assert ids[first + n - 1] == ids[first] + n - 1;
    }
  }

  /** Cutting a block of n ids out of an ascending list removes exactly that run. */
  lemma TakeBlock(ids: seq<nat>, first: nat, n: nat, rest: seq<nat>)
    requires Ascending(ids) && first + n <= |ids| && IsCut(ids, first, n, rest)
    requires n > 0 && Block(ids, first, first + n, ids[first])
    ensures Ascending(rest) && Elems(rest) == Elems(ids) - Run(ids[first], n)
  {
    CutAscending(ids, first, n, rest);
    forall x: nat ensures x in Elems(rest) <==> x in Elems(ids) && x !in Run(ids[first], n) {
      CutElems(ids, first, n, rest, x);
    }
  }

  lemma BlockListed(ids: seq<nat>, first: nat, n: nat)
    requires first + n <= |ids| && n > 0 && Block(ids, first, first + n, ids[first])
    ensures Available(ids, ids[first], n) && Run(ids[first], n) <= Elems(ids)
  {
    forall x: nat | ids[first] <= x < ids[first] + n ensures x in ids {
      assert ids[first + (x - ids[first])] == x;
    }
  }

  lemma AppendDistinct(a: seq<nat>, b: seq<nat>)
    requires Distinct(a) && Distinct(b) && Elems(a) !! Elems(b)
    ensures Distinct(a + b) && Elems(a + b) == Elems(a) + Elems(b)
  {
    assert forall i | 0 <= i < |a| :: a[i] in Elems(a);
    assert forall i | 0 <= i < |b| :: b[i] in Elems(b);
  }

  class Freelist {
    var ids: seq<nat>
    var pending: map<nat, seq<nat>>
    var cache: set<nat>

    ghost function Abs(): Ledger
      reads this
    {
      Ledger(Elems(ids), pending)
    }

    /** The list is ascending, nothing is listed twice, and the cache is exactly what is listed. */
    ghost predicate Valid()
      reads this
    {
      && Ascending(ids)
      && Abs().Ok()
      && cache == Abs().All()
    }

    constructor ()
      ensures Valid() && Abs() == Ledger({}, map[])
    {
      ids, pending, cache := [], map[], {};
      new;
      assert PendingIds(pending) == {};
    }

    method PendingCount() returns (count: nat)
      requires Valid()
      ensures count == |PendingIds(pending)|
    {
      hide PendingIds;
      count := 0;
      var rest, done := pending.Keys, {};
      PartBounds(pending);
      while rest != {}
        invariant rest !! done && rest + done == pending.Keys
        invariant count == |PendingIds(Part(pending, done))|
      {
        var tid :| tid in rest;
        PartStep(pending, done, tid);
        DistinctCard(pending[tid]);
        assert |PendingIds(Part(pending, done + {tid}))| == |PendingIds(Part(pending, done))| + |pending[tid]|;
        count := count + |pending[tid]|;
        rest, done := rest - {tid}, done + {tid};
      }
      assert done == pending.Keys;
    }

    /** The stored size counts every id exactly once. */
    method SizeInBytes() returns (size: nat)
      requires Valid()
      ensures size == Size(|cache|) == 16 + 8 * |cache|
    {
      var p := PendingCount();
      AscendingDistinct(ids);
      DistinctCard(ids);
      assert cache == Elems(ids) + PendingIds(pending);
      size := PAGE_HEADER_SIZE + WORD_SIZE * (|ids| + p);
    }

    method All() returns (all: seq<nat>)
      requires Valid()
      ensures Ascending(all) && Elems(all) == cache
    {
      var list := ids;
      var rest, done := pending.Keys, {};
      AscendingDistinct(ids);
      PartBounds(pending);
      while rest != {}
        invariant rest !! done && rest + done == pending.Keys
        invariant Distinct(list) && Elems(list) == Elems(ids) + PendingIds(Part(pending, done))
      {
        var tid :| tid in rest;
        PartStep(pending, done, tid);
        AppendDistinct(list, pending[tid]);
        list := list + pending[tid];
        rest, done := rest - {tid}, done + {tid};
      }
      assert done == pending.Keys;
      SortCorrect(list);
      all := Sort(list);
    }

    /** First fit: the lowest run of n free ids, taken out of the list and of the cache,
        or 0 with nothing changed when there is none. */
    method Allocate(n: nat) returns (start: nat)
      requires Valid()
      modifies this`ids, this`cache
      ensures Valid() && pending == old(pending)
      ensures start != 0 ==> n > 0 && Available(old(ids), start, n) && NoneBelow(old(ids), start, n)
      ensures start != 0 ==> Abs() == old(Abs()).Take(Run(start, n)) && Run(start, n) <= old(Abs()).ids
      ensures start == 0 ==> unchanged(this) && (n > 0 ==> forall s: nat :: !Available(old(ids), s, n))
    {
      hide PendingIds, PendingOk, NoneBelow, Available, Ascending, Run;
      start := 0;
      AllAboveOne(this);
      var initial: nat, previd: nat := 0, 0;
      ghost var first: nat := 0;
      var i := 0;
      while i < |ids|
        invariant 0 <= first <= i <= |ids| && unchanged(this)
        invariant i == 0 ==> previd == 0
        invariant i > 0 ==> first < i && previd == ids[i - 1] && initial == ids[first]
        invariant i > 0 ==> Block(ids, first, i, initial) && (n > 0 ==> previd - initial + 1 < n)
        invariant i > 0 && n > 0 ==> NoneBelow(ids, initial, n)
      {
        var id := ids[i];
        if previd == 0 || id - previd != 1 {
          if n > 0 { NextBlock(ids, first, i, initial, n); }
          initial, first := id, i;
        }
        if id - initial + 1 == n {
          BlockListed(ids, first, n);
          TakeKeeps(Abs(), Run(initial, n));
          CutOut(i, n);
          return initial;
        }
        previd := id;
        i := i + 1;
      }
      if |ids| > 0 && n > 0 { LastBlock(ids, first, initial, n); }
      if |ids| == 0 && n > 0 { NothingAvailable(n); }
    }

    /** Gives a page and its overflow pages back on behalf of a transaction. The page must not be
        a meta page, and none of its pages may be listed already. */
    method Free(txid: nat, p: nat, overflow: nat)
      requires Valid() && p > 1
      requires Run(p, overflow + 1) !! cache
      modifies this`pending, this`cache
      ensures Valid() && Abs() == old(Abs()).Give(txid, RunSeq(p, overflow + 1))
    {
      hide PendingOk, PendingIds, Run, RunSeq, Ascending, Elems, Ledger.Ok, Ledger.All, Listed;
      GiveKeeps(Abs(), txid, p, overflow + 1);
      ghost var given := Abs().Give(txid, RunSeq(p, overflow + 1));
      var list := ListRun(Listed(pending, txid), p, overflow);
      pending := pending[txid := list];
      assert Abs() == given;
    }

    /** The loop of Free: lists a page and its overflow pages, and marks them in the cache. */
    method ListRun(base: seq<nat>, p: nat, overflow: nat) returns (list: seq<nat>)
      requires Run(p, overflow + 1) !! cache
      modifies this`cache
      ensures list == base + RunSeq(p, overflow + 1) && cache == old(cache) + Run(p, overflow + 1)
    {
      hide Run, RunSeq;
      list := base;
      var id: nat := p;
      ghost var added, k: nat := [], 0;
      RunGrow(p, 0);
      AppendNone(list);
      while id <= p + overflow
        invariant id == p + k && k <= overflow + 1
        invariant added == RunSeq(p, k) && list == base + added
        invariant cache == old(cache) + Run(p, k)
      {
        assert id in Run(p, overflow + 1) && id !in cache;
        RunGrow(p, k);
        AppendOne(base, added, id);
        list, added := list + [id], added + [id];
        cache := cache + {id};
        id, k := id + 1, k + 1;
      }
      assert k == overflow + 1;
    }

    /** Hands the pending ids of every transaction up to `txid` to the free ids. */
    method Release(txid: nat)
      requires Valid()
      modifies this`ids, this`pending
      ensures Valid() && Abs() == old(Abs()).Release(txid)
    {
      hide PendingOk, PendingIds, Ascending, Elems, Distinct;
      ghost var f := Abs();
      ReleaseKeeps(f, txid);
      var rest, done := pending.Keys, {};
      AscendingDistinct(ids);
      ReleaseNone(f.pending, txid);
      var list, kept := ids, pending;
      while rest != {}
        invariant rest !! done && rest + done == f.pending.Keys
        invariant Distinct(list) && Elems(list) == f.ids + PendingIds(Upto(Part(f.pending, done), txid))
        invariant kept == Without(f.pending, done, txid)
        invariant ids == old(ids) && pending == old(pending)
      {
        var tid :| tid in rest;
        ReleaseOne(f, done, tid, txid);
        if tid <= txid {
          AppendDistinct(list, pending[tid]);
          list := list + pending[tid];
          kept := kept - {tid};
        }
        rest, done := rest - {tid}, done + {tid};
      }
      assert done == f.pending.Keys;
      ReleaseAll(f.pending, txid);
      SortCorrect(list);
      ids, pending := Sort(list), kept;
    }

    /** Forgets what a transaction gave back. */
    method Rollback(txid: nat)
      requires Valid()
      modifies this`pending, this`cache
      ensures Valid() && ids == old(ids) && pending == old(pending) - {txid}
    {
      hide PendingOk, PendingIds, Ascending, Elems;
      PendingRemove(pending, txid);
      ElemsEmpty([]);
      var list := if txid in pending then pending[txid] else [];
      for i := 0 to |list|
        invariant cache == old(cache) - Elems(list[..i])
        invariant ids == old(ids) && pending == old(pending)
      {
        TakeOne(list, i);
        cache := cache - {list[i]};
      }
      pending := pending - {txid};
      assert list[..|list|] == list;
      ListedApart(old(Abs()), txid);
    }

    /** Lays the whole list out on a page: free and pending ids in one ascending list. */
    method Write(words: array<nat>) returns (count: nat)
      requires Valid() && words.Length >= WordCount(|cache|)
      modifies words
      ensures count == CountField(|cache|)
      ensures forall all | Ascending(all) && Elems(all) == cache :: Words(all) <= words[..]
    {
      hide PendingOk, PendingIds, Ledger.Ok, Ledger.All;
      var all := All();
      AscendingDistinct(all);
      DistinctCard(all);
      forall other | Ascending(other) && Elems(other) == cache ensures other == all {
        AscendingUnique(other, all);
      }
      hide Ascending, Elems;
      if |all| < COUNT_OVERFLOW {
        count := |all|;
        CopyInto(all, words, 0);
      } else {
        count := COUNT_OVERFLOW;
        words[0] := |all|;
        CopyInto(all, words, 1);
        assert words[..|all| + 1] == [|all|] + all;
      }
      assert Words(all) == words[..|Words(all)|];
    }

    /** Replaces the free ids by those on a page. */
    method Read(count: nat, words: array<nat>)
      requires Readable(count, words[..])
      modifies this`ids, this`cache
      ensures pending == old(pending) && ids == Sort(Slice(count, words[..]))
      ensures cache == Abs().All()
    {
      var idx, n := 0, count;
      if count == COUNT_OVERFLOW {
        idx, n := 1, words[0];
      }
      assert words[idx..n] == Slice(count, words[..]);
      ids := Sort(words[idx..n]);
      Reindex();
    }

    /** Replaces the free ids by those on a page that are not pending. */
    method Reload(count: nat, words: array<nat>)
      requires Readable(count, words[..]) && Distinct(Slice(count, words[..]))
      requires PendingOk(pending) && forall x | x in Slice(count, words[..]) :: x > 1
      modifies this`ids, this`cache
      ensures Valid() && pending == old(pending)
      ensures Elems(ids) == Elems(Slice(count, words[..])) - PendingIds(pending)
    {
      hide PendingIds, PendingOk;
      SortCorrect(Slice(count, words[..]));
      Read(count, words);
      var pcache := PendingCache();
      var a := [];
      for i := 0 to |ids|
        invariant ids == Sort(Slice(count, words[..])) && pending == old(pending)
        invariant Ascending(a) && Elems(a) == Elems(ids[..i]) - pcache
      {
        TakeOne(ids, i);
        if ids[i] !in pcache {
          AppendLarger(a, ids, i);
          a := a + [ids[i]];
        }
      }
      assert ids[..|ids|] == ids;
      ids := a;
      Reindex();
    }

    /** The set of pending ids, collected list by list. */
    method PendingCache() returns (pcache: set<nat>)
      ensures pcache == PendingIds(pending)
    {
      pcache := {};
      var rest, done := pending.Keys, {};
      PartBounds(pending);
      while rest != {}
        invariant rest !! done && rest + done == pending.Keys
        invariant pcache == PendingIds(Part(pending, done))
      {
        var tid :| tid in rest;
        PartGrow(pending, done, tid);
        var list := pending[tid];
        for i := 0 to |list|
          invariant pcache == PendingIds(Part(pending, done)) + Elems(list[..i])
        {
          TakeOne(list, i);
          pcache := pcache + {list[i]};
        }
        assert list[..|list|] == list;
        rest, done := rest - {tid}, done + {tid};
      }
      assert done == pending.Keys;
    }

    /** Rebuilds the cache from the two lists. */
    method Reindex()
      modifies this`cache
      ensures cache == Abs().All()
    {
      cache := {};
      for i := 0 to |ids|
        invariant cache == Elems(ids[..i])
      {
        TakeOne(ids, i);
        cache := cache + {ids[i]};
      }
      assert ids[..|ids|] == ids;
      var pcache := PendingCache();
      cache := cache + pcache;
    }

    /** Removes the block of n ids that ends at index i, from the list and from the cache. */
    method CutOut(i: nat, n: nat)
      requires Valid() && 0 < n <= i + 1 <= |ids|
      requires Block(ids, i + 1 - n, i + 1, ids[i + 1 - n])
      modifies this`ids, this`cache
      ensures Ascending(ids) && pending == old(pending)
      ensures Elems(ids) == old(Elems(ids)) - Run(old(ids)[i + 1 - n], n)
      ensures cache == old(cache) - Run(old(ids)[i + 1 - n], n)
    {
      hide PendingIds, PendingOk, Ascending, Run, IsCut, Block, Elems;
      var initial := ids[i + 1 - n];
      ghost var rest := ids[..i + 1 - n] + ids[i + 1..];
      CutShape(ids, i + 1 - n, n);
      TakeBlock(ids, i + 1 - n, n, rest);
      if i + 1 == n {
        ids := ids[i + 1..];
      } else {
        ids := ids[..i - n + 1] + ids[i + 1..];
      }
      assert ids == rest;
      RemoveRun(initial, n);
    }

    /** Drops n ids from the cache, one by one. */
    method RemoveRun(initial: nat, n: nat)
      modifies this`cache
      ensures cache == old(cache) - Run(initial, n)
    {
      var k := 0;
      while k < n
        invariant 0 <= k <= n
        invariant cache == old(cache) - Run(initial, k)
      {
        cache := cache - {initial + k};
        k := k + 1;
      }
    }
  }
}
