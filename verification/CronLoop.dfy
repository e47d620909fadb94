/** One turn of the scheduler's loop on the scheduler object. */
module SchedulerLoop {
  import opened Scheduler
  import opened SchedulerRuns

  /** What wakes the loop: the timer, a new entry, the id of an entry to remove, or a request for a copy. */
  datatype Wake = Tick(idle: int) | NewEntry(entry: Entry) | Gone(id: nat) | Look

  ghost function Views(entries: seq<Entry>): (s: seq<Record>)
    reads entries
    ensures |s| == |entries| && forall i | 0 <= i < |s| :: s[i] == entries[i].View()
  {
    seq(|entries|, i requires 0 <= i < |entries| reads entries => entries[i].View())
  }

  ghost function StateOf(c: Cron, starts: map<nat, int>): State
    reads c, c.entries
  {
    State(c.Records(), c.now, c.launched, starts)
  }

  lemma ViewsPlus(a: seq<Entry>, b: seq<Entry>)
    ensures Views(a + b) == Views(a) + Views(b)
  {
  }

  lemma ViewsOne(a: Entry)
    ensures Views([a]) == [a.View()]
  {
  }

  lemma Removed(s: seq<Entry>, k: nat)
    requires k < |s|
    ensures s == s[..k] + ([s[k]] + s[k + 1..])
    ensures multiset(s[..k] + s[k + 1..]) + multiset{s[k]} == multiset(s)
  {
    var a, b := s[..k], s[k + 1..];
    assert s == a + ([s[k]] + b);
    assert multiset(s) == multiset(a) + multiset([s[k]] + b) == multiset(a) + (multiset([s[k]]) + multiset(b));
  }

  lemma Cancels(a: multiset<Entry>, b: multiset<Entry>, c: multiset<Entry>)
    requires a + c == b + c
    ensures a == b
  {
    assert a == (a + c) - c;
    assert b == (b + c) - c;
  }

  lemma TakeOut(a: seq<Entry>, b: seq<Entry>) returns (k: nat)
    requires multiset(a) == multiset(b) && a != []
    ensures k < |b| && b[k] == a[0] && b == b[..k] + ([b[k]] + b[k + 1..])
    ensures multiset(a[1..]) == multiset(b[..k] + b[k + 1..])
  {
    assert a[0] in multiset(b);
    k :| 0 <= k < |b| && b[k] == a[0];
    Removed(a, 0);
    Removed(b, k);
    assert a[..0] + a[1..] == a[1..];
    Cancels(multiset(a[1..]), multiset(b[..k] + b[k + 1..]), multiset{a[0]});
  }

  /** The same entries in another order have the same records. */
  lemma {:induction false} ViewsPermute(a: seq<Entry>, b: seq<Entry>)
    requires multiset(a) == multiset(b)
    ensures multiset(Views(a)) == multiset(Views(b))
    decreases |a|
  {
    hide Views;
    if a == [] {
      assert |b| == |multiset(b)| == 0;
      assert b == a;
    } else {
      var k := TakeOut(a, b);
      ViewsPermute(a[1..], b[..k] + b[k + 1..]);
      assert a == [a[0]] + a[1..];
      ViewsPlus([a[0]], a[1..]);
      ViewsPlus(b[..k], [b[k]] + b[k + 1..]);
      ViewsPlus([b[k]], b[k + 1..]);
      ViewsPlus(b[..k], b[k + 1..]);
      ViewsOne(a[0]);
    }
  }

  lemma ArrangedValid(c: Cron, arranged: seq<Entry>)
    requires c.Valid() && multiset(arranged) == multiset(c.entries)
    ensures multiset(Views(arranged)) == multiset(c.Records())
    ensures forall i, j | 0 <= i < j < |arranged| :: arranged[i].id != arranged[j].id
  {
    ViewsPermute(arranged, c.entries);
    assert Views(c.entries) == c.Records();
    assert Distinct(c.Records());
    DistinctOrder(Views(arranged), c.Records());
    forall i, j | 0 <= i < j < |arranged| ensures arranged[i].id != arranged[j].id {
      assert Views(arranged)[i].id != Views(arranged)[j].id;
    }
  }

  /** A turn of the loop takes a step of the run: the entries are put in the order the sort gave them,
      which may be any sorted one, and then the case of what woke the loop is done. */
  method Turn(c: Cron, arranged: seq<Entry>, wake: Wake, at: int, ghost starts: map<nat, int>)
    returns (copy: seq<Record>, ghost starts': map<nat, int>, ghost e: Event)
    requires c.Valid() && multiset(arranged) == multiset(c.entries) && InOrder(Views(arranged))
    requires at >= c.now > NEVER && forall i | 0 <= i < |c.entries| :: c.entries[i].id in starts
    requires wake.Tick? ==> wake.idle > NEVER && at >= Effective(Views(arranged), wake.idle)
    requires wake.NewEntry? ==> wake.entry.id !in starts && wake.entry.prev == NEVER
    modifies c`entries, c`now, c`launched, c.entries, if wake.NewEntry? then {wake.entry} else {}
    ensures c.Valid() && c.now == at
    ensures Step(c.plan, old(StateOf(c, starts)), StateOf(c, starts'), old(Views(arranged)), e)
    ensures match wake
      case Tick(idle) => e == Timer(idle) && starts' == starts
      case NewEntry(entry) => e == AddEntry(entry.id) && starts' == starts[entry.id := old(c.now)]
      case Gone(id) => e == RemoveEntry(id) && starts' == starts
      case Look => e == Snap && starts' == starts && copy == c.Records()
  {
    ArrangedValid(c, arranged);
    ghost var order := Views(arranged);
    assert IsOrder(order, c.Records());
    forall i | 0 <= i < |arranged| ensures arranged[i] in c.entries && arranged[i].id in starts {
      assert arranged[i] in multiset(arranged);
    }
    c.entries := arranged;
    assert c.Records() == order;
    copy, starts' := [], starts;
    match wake {
      case Tick(idle) =>
        e := Timer(idle);
        c.Fire(at, idle);
      case NewEntry(entry) =>
        e := AddEntry(entry.id);
        starts' := starts[entry.id := c.now];
        c.Add(entry, at);
      case Gone(id) =>
        e := RemoveEntry(id);
        c.Remove(id, at);
      case Look =>
        e := Snap;
        copy := c.Snapshot();
        c.now := at;
    }
  }
}
