/** The cron scheduler: its loop of sorting, waiting, firing and changing the list of entries. */
module Scheduler {

  /** What the loop knows of an entry. Times are positive; the zero time stands for "never". */
  datatype Record = Record(id: nat, next: int, prev: int)

  /** A job started, for the activation at `time`. */
  datatype Launch = Launch(id: nat, time: int)

  const NEVER := 0

  /** The order the entries are sorted by: by time, with the zero time at the end. */
  predicate Before(a: Record, b: Record) {
    if a.next == NEVER then false else if b.next == NEVER then true else a.next < b.next
  }

  ghost predicate InOrder(s: seq<Record>) {
    forall i, j | 0 <= i < j < |s| :: !Before(s[j], s[i])
  }

  /** Any order the library's sort may leave, ties included. */
  ghost predicate IsOrder(order: seq<Record>, s: seq<Record>) {
    multiset(order) == multiset(s) && InOrder(order)
  }

  /** The activation time of each entry, from its schedule. */
  type Plan = (nat, int) -> int

  function Effective(order: seq<Record>, idle: int): int {
    if |order| == 0 || order[0].next == NEVER then idle else order[0].next
  }

  function FireOne(plan: Plan, r: Record, effective: int): Record {
    if r.next == effective then Record(r.id, plan(r.id, effective), r.next) else r
  }

  function FireAll(plan: Plan, s: seq<Record>, effective: int): (r: seq<Record>)
    ensures |r| == |s|
  {
    seq(|s|, i requires 0 <= i < |s| => FireOne(plan, s[i], effective))
  }

  function LaunchOne(r: Record, effective: int): seq<Launch> {
    if r.next == effective then [Launch(r.id, effective)] else []
  }

  function Launches(s: seq<Record>, effective: int): seq<Launch> {
    if s == [] then []
    else Launches(s[..|s| - 1], effective) + LaunchOne(s[|s| - 1], effective)
  }

  function Planned(plan: Plan, s: seq<Record>, now: int): (r: seq<Record>)
    ensures |r| == |s|
  {
    seq(|s|, i requires 0 <= i < |s| => s[i].(next := plan(s[i].id, now)))
  }

  /** The list without the entry of that id. */
  function Without(s: seq<Record>, id: nat): seq<Record> {
    if s == [] then [] else if s[0].id == id then s[1..] else [s[0]] + Without(s[1..], id)
  }

  ghost predicate Distinct(s: seq<Record>) {
    forall i, j | 0 <= i < j < |s| :: s[i].id != s[j].id
  }

  // ---- The scheduler ----

  class Entry {
    const id: nat
    var next: int
    var prev: int

    constructor (id: nat)
      ensures this.id == id && next == NEVER && prev == NEVER
    {
      this.id, next, prev := id, NEVER, NEVER;
    }

    function View(): Record
      reads this
    {
      Record(id, next, prev)
    }
  }

  lemma WithoutShift(s: seq<Record>, index: int)
    requires 0 < index < |s|
    ensures [s[0]] + (s[1..][..index - 1] + s[1..][index..]) == s[..index] + s[index + 1..]
  {
  }

  lemma {:induction false} WithoutAt(s: seq<Record>, id: nat, index: int)
    requires if index == -1 then forall i | 0 <= i < |s| :: s[i].id != id else 0 <= index < |s| && s[index].id == id && Distinct(s)
    ensures Without(s, id) == if index == -1 then s else s[..index] + s[index + 1..]
  {
    if s != [] && index != 0 {
      assert s[0].id != id;
      var rest := s[1..];
      WithoutAt(rest, id, if index == -1 then -1 else index - 1);
      assert s == [s[0]] + rest;
      if index > 0 { WithoutShift(s, index); }
    }
  }

  lemma LaunchStep(s: seq<Record>, effective: int, i: nat)
    requires i < |s|
    ensures Launches(s[..i + 1], effective) == Launches(s[..i], effective) + LaunchOne(s[i], effective)
  {
    assert s[..i + 1][..i] == s[..i];
  }

  lemma NoLaunch(s: seq<Record>, effective: int)
    ensures Launches(s[..0], effective) == []
  {
  }

  lemma {:induction false} NoMore(s: seq<Record>, effective: int, i: nat)
    requires i <= |s| && forall k | i <= k < |s| :: s[k].next != effective
    ensures Launches(s[..i], effective) == Launches(s, effective)
    decreases |s|
  {
    if i < |s| {
      var front := s[..|s| - 1];
      NoMore(front, effective, i);
      assert front[..i] == s[..i];
    } else {
      assert s[..i] == s;
    }
  }

  /** In order, the entries due at the effective time come first. */
  lemma {:induction false} NoneLater(s: seq<Record>, idle: int, i: nat)
    requires InOrder(s) && i <= |s| && idle != NEVER
    requires var effective := Effective(s, idle);
      (forall k | 0 <= k < i :: s[k].next == effective) && (i < |s| ==> s[i].next != effective)
    ensures var effective := Effective(s, idle);
      && (forall k | i <= k < |s| :: s[k].next != effective)
      && Launches(s[..i], effective) == Launches(s, effective)
  {
    var effective := Effective(s, idle);
    forall k | i <= k < |s| ensures s[k].next != effective {
      if k > i { assert !Before(s[k], s[i]) && !Before(s[i], s[0]) && !Before(s[k], s[0]); }
    }
    NoMore(s, effective, i);
  }

  class Cron {
    const plan: Plan
    var entries: seq<Entry>
    var now: int
    var launched: seq<Launch>

    constructor (plan: Plan)
      ensures this.plan == plan && entries == [] && launched == [] && Valid()
    {
      this.plan, entries, now, launched := plan, [], NEVER, [];
    }

    ghost predicate Valid()
      reads this
    {
      forall i, j | 0 <= i < j < |entries| :: entries[i].id != entries[j].id
    }

    function Records(): (s: seq<Record>)
      reads this, entries
      ensures |s| == |entries|
    {
      seq(|entries|, i requires 0 <= i < |entries| reads this, entries => entries[i].View())
    }

    /** Plans every entry when the scheduler starts. */
    method Start(time: int)
      requires Valid()
      modifies this`now, entries
      ensures Valid() && now == time
      ensures Records() == Planned(plan, old(Records()), time)
    {
      ghost var before := Records();
      now := time;
      for i := 0 to |entries|
        invariant now == time
        invariant forall k | 0 <= k < i :: entries[k].View() == before[k].(next := plan(before[k].id, time))
        invariant forall k | i <= k < |entries| :: entries[k].View() == before[k]
      {
        var entry := entries[i];
        assert forall k | 0 <= k < |entries| && k != i :: entries[k].id != entry.id;
        entry.next := plan(entry.id, now);
      }
      assert forall k | 0 <= k < |before| :: Records()[k] == Planned(plan, before, time)[k];
    }

    /** The timer case: every entry due at the effective time is run and planned anew. */
    method Fire(at: int, idle: int)
      requires Valid() && InOrder(Records()) && idle != NEVER
      modifies this`now, this`launched, entries
      ensures Valid() && now == at
      ensures var effective := Effective(old(Records()), idle);
        && Records() == FireAll(plan, old(Records()), effective)
        && launched == old(launched) + Launches(old(Records()), effective)
    {
      ghost var before := Records();
      hide Launches, InOrder;
      var effective := if |entries| == 0 || entries[0].next == NEVER then idle else entries[0].next;
      now := at;
      NoLaunch(before, effective);
      var i := 0;
      while i < |entries|
        invariant 0 <= i <= |entries| && now == at
        invariant forall k | 0 <= k < i :: entries[k].View() == FireOne(plan, before[k], effective) && before[k].next == effective
        invariant forall k | i <= k < |entries| :: entries[k].View() == before[k]
        invariant launched == old(launched) + Launches(before[..i], effective)
      {
        var e := entries[i];
        if e.next != effective {
          break;
        }
        LaunchStep(before, effective, i);
        assert before[i] == e.View();
        assert forall k | 0 <= k < |entries| && k != i :: entries[k].id != e.id;
        launched := launched + [Launch(e.id, effective)];
        e.prev := e.next;
        e.next := plan(e.id, effective);
        i := i + 1;
      }
      NoneLater(before, idle, i);
      assert forall k | 0 <= k < |before| :: Records()[k] == FireAll(plan, before, effective)[k];
    }

    /** A new entry is planned from the time the loop last saw. */
    method Add(entry: Entry, at: int)
      requires Valid() && forall i | 0 <= i < |entries| :: entries[i].id != entry.id
      modifies this`now, this`entries, entry
      ensures Valid() && now == at
      ensures Records() == old(Records()) + [Record(entry.id, plan(entry.id, old(now)), old(entry.prev))]
    {
      entries := entries + [entry];
      entry.next := plan(entry.id, now);
      now := at;
    }

    method Index(id: nat) returns (index: int)
      requires Valid()
      ensures if index == -1 then forall i | 0 <= i < |entries| :: entries[i].id != id
        else 0 <= index < |entries| && entries[index].id == id
    {
      for i := 0 to |entries|
        invariant forall k | 0 <= k < i :: entries[k].id != id
      {
        if entries[i].id == id {
          return i;
        }
      }
      return -1;
    }

    /** Takes the entry out, if it is there. */
    method Remove(id: nat, at: int)
      requires Valid()
      modifies this`now, this`entries
      ensures Valid() && now == at && Records() == Without(old(Records()), id)
    {
      var index := Index(id);
      WithoutAt(Records(), id, index);
      if index != -1 {
        entries := entries[..index] + entries[index + 1..];
      }
      now := at;
    }

    /** A copy of the list, by value. */
    method Snapshot() returns (copy: seq<Record>)
      ensures copy == Records()
    {
      copy := [];
      for i := 0 to |entries|
        invariant copy == Records()[..i]
      {
        copy := copy + [Record(entries[i].id, entries[i].next, entries[i].prev)];
      }
    }
  }
}
