/** Whole runs of the scheduler's loop. */
module SchedulerRuns {
  import opened Scheduler

  /** The loop's state, with the jobs started so far and the time from which each entry was first planned. */
  datatype State = State(entries: seq<Record>, now: int, launched: seq<Launch>, starts: map<nat, int>)

  datatype Event = Timer(idle: int) | AddEntry(id: nat) | RemoveEntry(id: nat) | Snap

  /** The loop is entered with some entries, all planned from the same time. */
  ghost predicate Init(plan: Plan, s: State) {
    exists before: seq<Record> ::
      && Distinct(before) && (forall i | 0 <= i < |before| :: before[i].prev == NEVER)
      && s.entries == Planned(plan, before, s.now) && s.launched == []
      && (forall i | 0 <= i < |before| :: before[i].id in s.starts && s.starts[before[i].id] == s.now)
  }

  /** One turn of the loop: the entries are sorted in some order, and then one of the cases happens.
      The timer does not fire before the time it was set for. */
  ghost predicate Step(plan: Plan, s: State, s': State, order: seq<Record>, e: Event) {
    && IsOrder(order, s.entries) && s'.now >= s.now > NEVER
    && match e
      case Timer(idle) =>
        var effective := Effective(order, idle);
        && idle > NEVER && s'.now >= effective
        && s' == s.(entries := FireAll(plan, order, effective), now := s'.now, launched := s.launched + Launches(order, effective))
      case AddEntry(id) =>
        && id !in s.starts
        && s' == s.(entries := order + [Record(id, plan(id, s.now), NEVER)], now := s'.now, starts := s.starts[id := s.now])
      case RemoveEntry(id) =>
        s' == s.(entries := Without(order, id), now := s'.now)
      case Snap =>
        s' == s.(entries := order, now := s'.now)
  }

  ghost predicate IsRun(plan: Plan, states: seq<State>, orders: seq<seq<Record>>, events: seq<Event>) {
    && |states| == |orders| + 1 == |events| + 1 && Init(plan, states[0])
    && forall k | 0 <= k < |events| :: Step(plan, states[k], states[k + 1], orders[k], events[k])
  }

  function OneRun(l: Launch, id: nat): seq<int> {
    if l.id == id then [l.time] else []
  }

  /** The times an entry was run for. */
  function RunsOf(launched: seq<Launch>, id: nat): seq<int> {
    if launched == [] then []
    else RunsOf(launched[..|launched| - 1], id) + OneRun(launched[|launched| - 1], id)
  }

  lemma NoRuns(id: nat)
    ensures RunsOf([], id) == []
  {
  }

  lemma RunsLast(l: seq<Launch>, id: nat)
    requires l != []
    ensures RunsOf(l, id) == RunsOf(l[..|l| - 1], id) + OneRun(l[|l| - 1], id)
  {
  }

  lemma {:induction false} RunsPlus(a: seq<Launch>, b: seq<Launch>, id: nat)
    ensures RunsOf(a + b, id) == RunsOf(a, id) + RunsOf(b, id)
    decreases |b|
  {
    hide RunsOf, OneRun;
    if b == [] {
      assert a + b == a;
      NoRuns(id);
    } else {
      var front, last := b[..|b| - 1], b[|b| - 1];
      RunsPlus(a, front, id);
      RunsLast(a + b, id);
      RunsLast(b, id);
      assert (a + b)[..|a + b| - 1] == a + front && (a + b)[|a + b| - 1] == last;
      assert (RunsOf(a, id) + RunsOf(front, id)) + OneRun(last, id) == RunsOf(a, id) + (RunsOf(front, id) + OneRun(last, id));
    }
  }

  function LastOf(start: int, runs: seq<int>): int {
    if runs == [] then start else runs[|runs| - 1]
  }

  /** Each run is what the schedule gives for the one before; the first comes from the start. */
  ghost predicate Consecutive(plan: Plan, id: nat, start: int, runs: seq<int>) {
    forall k | 0 <= k < |runs| :: runs[k] == plan(id, LastOf(start, runs[..k]))
  }

  lemma Extend(plan: Plan, id: nat, start: int, runs: seq<int>, t: int)
    requires Consecutive(plan, id, start, runs) && t == plan(id, LastOf(start, runs))
    ensures Consecutive(plan, id, start, runs + [t])
  {
    var more := runs + [t];
    forall k | 0 <= k < |more| ensures more[k] == plan(id, LastOf(start, more[..k])) {
      assert more[..k] == runs[..k];
      if k == |runs| { assert runs[..k] == runs; }
    }
  }

  /** An entry stands at the end of its own history. */
  ghost predicate UpToDate(plan: Plan, s: State, r: Record) {
    && r.id in s.starts
    && r.next == plan(r.id, LastOf(s.starts[r.id], RunsOf(s.launched, r.id)))
    && r.prev == LastOf(NEVER, RunsOf(s.launched, r.id))
  }

  ghost predicate AllUpToDate(plan: Plan, s: State) {
    Distinct(s.entries) && forall i | 0 <= i < |s.entries| :: UpToDate(plan, s, s.entries[i])
  }

  /** The history of every entry there ever was follows its schedule. */
  ghost predicate Histories(plan: Plan, s: State) {
    forall id: nat ::
      if id in s.starts then Consecutive(plan, id, s.starts[id], RunsOf(s.launched, id)) else RunsOf(s.launched, id) == []
  }

  // ---- What sorting keeps ----

  lemma OrderSame(order: seq<Record>, s: seq<Record>)
    requires multiset(order) == multiset(s)
    ensures forall r :: r in order <==> r in s
  {
    forall r ensures r in order <==> r in s {
      assert r in order <==> r in multiset(order);
    }
  }

  lemma {:induction false} DistinctCount(s: seq<Record>)
    requires Distinct(s)
    ensures forall r :: multiset(s)[r] <= 1
  {
    if s != [] {
      var front, last := s[..|s| - 1], s[|s| - 1];
      DistinctCount(front);
      assert s == front + [last];
      assert last !in front;
    }
  }

  lemma Twice(s: seq<Record>, i: nat, j: nat)
    requires i < j < |s| && s[i] == s[j]
    ensures multiset(s)[s[i]] >= 2
  {
    assert s == s[..j] + [s[j]] + s[j + 1..];
    assert s[..j][i] == s[i];
    assert s[i] in multiset(s[..j]);
  }

  lemma DistinctOrder(order: seq<Record>, s: seq<Record>)
    requires multiset(order) == multiset(s) && Distinct(s)
    ensures Distinct(order)
  {
    DistinctCount(s);
    forall i, j | 0 <= i < j < |order| ensures order[i].id != order[j].id {
      if order[i].id == order[j].id {
        OrderSame(order, s);
        assert order[i] in s && order[j] in s;
        var a :| 0 <= a < |s| && s[a] == order[i];
        var b :| 0 <= b < |s| && s[b] == order[j];
        assert a == b;
        Twice(order, i, j);
        assert false;
      }
    }
  }

  lemma SameRecord(plan: Plan, s: State, order: seq<Record>, r: Record)
    requires UpToDate(plan, s, r)
    ensures UpToDate(plan, s.(entries := order), r)
  {
  }

  lemma Ordered(plan: Plan, s: State, order: seq<Record>)
    requires AllUpToDate(plan, s) && IsOrder(order, s.entries)
    ensures AllUpToDate(plan, s.(entries := order))
  {
    hide InOrder, UpToDate;
    DistinctOrder(order, s.entries);
    OrderSame(order, s.entries);
    forall i | 0 <= i < |order| ensures UpToDate(plan, s.(entries := order), order[i]) {
      assert order[i] in s.entries;
      SameRecord(plan, s, order, order[i]);
    }
  }

  // ---- What a timer step fires ----

  lemma OneLaunch(r: Record, effective: int, id: nat)
    ensures RunsOf(LaunchOne(r, effective), id) == if r.id == id && r.next == effective then [effective] else []
  {
    if r.next == effective {
      assert [Launch(r.id, effective)][..0] == [];
    }
  }

  lemma {:induction false} NoneOf(s: seq<Record>, effective: int, id: nat)
    requires forall i | 0 <= i < |s| :: s[i].id != id
    ensures RunsOf(Launches(s, effective), id) == []
  {
    if s != [] {
      var front, last := s[..|s| - 1], s[|s| - 1];
      NoneOf(front, effective, id);
      RunsPlus(Launches(front, effective), LaunchOne(last, effective), id);
      OneLaunch(last, effective, id);
    }
  }

  lemma {:induction false} OnceOf(s: seq<Record>, effective: int, i: nat)
    requires Distinct(s) && i < |s|
    ensures RunsOf(Launches(s, effective), s[i].id) == if s[i].next == effective then [effective] else []
    decreases |s|
  {
    hide RunsOf;
    var front, last := s[..|s| - 1], s[|s| - 1];
    RunsPlus(Launches(front, effective), LaunchOne(last, effective), s[i].id);
    OneLaunch(last, effective, s[i].id);
    if i == |s| - 1 {
      assert forall k | 0 <= k < |front| :: front[k] == s[k];
      NoneOf(front, effective, last.id);
    } else {
      OnceOf(front, effective, i);
    }
  }

  /** An entry due at the effective time is run once, all others not at all. */
  lemma LaunchesOf(s: seq<Record>, effective: int, id: nat)
    requires Distinct(s)
    ensures forall i | 0 <= i < |s| && s[i].id == id ::
      RunsOf(Launches(s, effective), id) == if s[i].next == effective then [effective] else []
    ensures (forall i | 0 <= i < |s| :: s[i].id != id) ==> RunsOf(Launches(s, effective), id) == []
  {
    hide RunsOf, Launches;
    if forall i | 0 <= i < |s| :: s[i].id != id {
      NoneOf(s, effective, id);
    }
    forall i | 0 <= i < |s| && s[i].id == id
      ensures RunsOf(Launches(s, effective), id) == if s[i].next == effective then [effective] else []
    {
      OnceOf(s, effective, i);
    }
  }

  /** The timer is set for the least time that is not "never". */
  lemma EffectiveIsLeast(order: seq<Record>, entries: seq<Record>, idle: int)
    requires IsOrder(order, entries)
    ensures var effective := Effective(order, idle);
      && (forall i | 0 <= i < |entries| && entries[i].next != NEVER :: effective <= entries[i].next)
      && (if exists i | 0 <= i < |entries| :: entries[i].next != NEVER
          then exists i | 0 <= i < |entries| :: entries[i].next == effective != NEVER else effective == idle)
  {
    OrderSame(order, entries);
    forall i | 0 <= i < |entries| && entries[i].next != NEVER ensures Effective(order, idle) <= entries[i].next {
      assert entries[i] in order;
      var k :| 0 <= k < |order| && order[k] == entries[i];
      if k > 0 { assert !Before(order[k], order[0]); }
    }
    if order != [] {
      assert order[0] in entries;
    }
    if i :| 0 <= i < |entries| && entries[i].next != NEVER {
      assert entries[i] in order;
      var k :| 0 <= k < |order| && order[k] == entries[i];
      if k > 0 { assert !Before(order[k], order[0]); }
      var j :| 0 <= j < |entries| && entries[j] == order[0];
      assert entries[j].next == Effective(order, idle);
    }
  }

  lemma {:induction false} LaunchFrom(s: seq<Record>, effective: int, l: Launch)
    requires l in Launches(s, effective)
    ensures l.time == effective && exists r :: r in s && r.id == l.id
  {
    var front, last := s[..|s| - 1], s[|s| - 1];
    assert s == front + [last];
    if l in Launches(front, effective) {
      LaunchFrom(front, effective, l);
      var r :| r in front && r.id == l.id;
      assert r in s;
    } else {
      assert last in s && last.id == l.id;
    }
  }

  /** Each timer step runs exactly the entries whose next time is the least one, each once, for that
      time. */
  lemma FiresExactly(plan: Plan, s: State, s': State, order: seq<Record>, idle: int)
    requires Step(plan, s, s', order, Timer(idle)) && Distinct(s.entries)
    ensures var effective := Effective(order, idle);
      && s'.launched == s.launched + Launches(order, effective)
      && (forall i | 0 <= i < |s.entries| && s.entries[i].next != NEVER :: effective <= s.entries[i].next)
      && (forall i | 0 <= i < |s.entries| ::
            RunsOf(Launches(order, effective), s.entries[i].id) == if s.entries[i].next == effective then [effective] else [])
      && (forall l | l in Launches(order, effective) :: l.time == effective && exists i | 0 <= i < |s.entries| :: s.entries[i].id == l.id)
  {
    hide RunsOf, Launches, Effective;
    EffectiveIsLeast(order, s.entries, idle);
    DistinctOrder(order, s.entries);
    OrderSame(order, s.entries);
    var effective := Effective(order, idle);
    forall i | 0 <= i < |s.entries|
      ensures RunsOf(Launches(order, effective), s.entries[i].id) == if s.entries[i].next == effective then [effective] else []
    {
      LaunchesOf(order, effective, s.entries[i].id);
      assert s.entries[i] in order;
    }
    forall l | l in Launches(order, effective) ensures l.time == effective && exists i | 0 <= i < |s.entries| :: s.entries[i].id == l.id {
      LaunchFrom(order, effective, l);
      var r :| r in order && r.id == l.id;
      assert r in s.entries;
    }
  }

  // ---- Every step ----

  lemma InitKeeps(plan: Plan, s: State)
    requires Init(plan, s)
    ensures AllUpToDate(plan, s) && Histories(plan, s)
  {
  }

  lemma TimerEntry(plan: Plan, s: State, s': State, order: seq<Record>, idle: int, i: nat)
    requires Step(plan, s, s', order, Timer(idle)) && Distinct(order) && i < |order|
    requires UpToDate(plan, s, order[i])
    ensures UpToDate(plan, s', s'.entries[i])
    ensures s'.entries[i].id == order[i].id
  {
    hide RunsOf, Launches, IsOrder;
    var effective := Effective(order, idle);
    LaunchesOf(order, effective, order[i].id);
    RunsPlus(s.launched, Launches(order, effective), order[i].id);
  }

  lemma StepOrder(plan: Plan, s: State, s': State, order: seq<Record>, e: Event)
    requires Step(plan, s, s', order, e)
    ensures IsOrder(order, s.entries)
    ensures e.Timer? ==> |s'.entries| == |order|
  {
    hide InOrder, Launches;
  }

  lemma TimerHistories(plan: Plan, s: State, s': State, order: seq<Record>, idle: int)
    requires Step(plan, s, s', order, Timer(idle)) && Histories(plan, s) && Distinct(order)
    requires forall i | 0 <= i < |order| :: UpToDate(plan, s.(entries := order), order[i])
    ensures Histories(plan, s')
  {
    hide RunsOf, Launches, IsOrder;
    var effective := Effective(order, idle);
    forall id: nat
      ensures if id in s'.starts then Consecutive(plan, id, s'.starts[id], RunsOf(s'.launched, id)) else RunsOf(s'.launched, id) == []
    {
      LaunchesOf(order, effective, id);
      RunsPlus(s.launched, Launches(order, effective), id);
      if i :| 0 <= i < |order| && order[i].id == id {
        assert UpToDate(plan, s.(entries := order), order[i]);
        if order[i].next == effective {
          Extend(plan, id, s.starts[id], RunsOf(s.launched, id), effective);
        } else {
          assert RunsOf(s.launched, id) + [] == RunsOf(s.launched, id);
        }
      } else {
        assert RunsOf(s.launched, id) + [] == RunsOf(s.launched, id);
      }
    }
  }

  lemma TimerKeeps(plan: Plan, s: State, s': State, order: seq<Record>, idle: int)
    requires Step(plan, s, s', order, Timer(idle)) && AllUpToDate(plan, s) && Histories(plan, s)
    ensures AllUpToDate(plan, s') && Histories(plan, s')
  {
    hide RunsOf, Launches, InOrder, UpToDate, Step, Histories;
    StepOrder(plan, s, s', order, Timer(idle));
    Ordered(plan, s, order);
    forall i | 0 <= i < |s'.entries| ensures UpToDate(plan, s', s'.entries[i]) && s'.entries[i].id == order[i].id {
      SameRecord(plan, s.(entries := order), s.entries, order[i]);
      assert s.(entries := order).(entries := s.entries) == s;
      TimerEntry(plan, s, s', order, idle, i);
    }
    TimerHistories(plan, s, s', order, idle);
  }

  lemma OthersHistory(plan: Plan, s: State, s': State, r: Record, id: nat)
    requires UpToDate(plan, s, r) && id !in s.starts && s'.starts == s.starts[id := s.now] && s'.launched == s.launched
    ensures UpToDate(plan, s', r)
  {
  }

  lemma AddKeeps(plan: Plan, s: State, s': State, order: seq<Record>, id: nat)
    requires Step(plan, s, s', order, AddEntry(id)) && AllUpToDate(plan, s) && Histories(plan, s)
    ensures AllUpToDate(plan, s') && Histories(plan, s')
  {
    hide RunsOf, InOrder;
    Ordered(plan, s, order);
    forall i | 0 <= i < |s'.entries| ensures UpToDate(plan, s', s'.entries[i]) {
      if i < |order| {
        OthersHistory(plan, s.(entries := order), s', order[i], id);
      } else {
        assert s'.entries[i] == Record(id, plan(id, s.now), NEVER);
        assert RunsOf(s.launched, id) == [];
      }
    }
    forall i | 0 <= i < |order| ensures order[i].id != id { assert UpToDate(plan, s.(entries := order), order[i]); }
  }

  lemma {:induction false} WithoutKeeps(s: seq<Record>, id: nat)
    requires Distinct(s)
    ensures Distinct(Without(s, id)) && forall i | 0 <= i < |Without(s, id)| :: Without(s, id)[i] in s && Without(s, id)[i].id != id
  {
    if s != [] {
      if s[0].id == id {
        assert forall i | 0 <= i < |s[1..]| :: s[1..][i] == s[i + 1];
      } else {
        var rest := s[1..];
        WithoutKeeps(rest, id);
        var w := Without(rest, id);
        forall i | 0 <= i < |w| ensures w[i].id != s[0].id && w[i] in s {
          assert w[i] in rest;
          var k :| 0 <= k < |rest| && rest[k] == w[i];
          assert rest[k] == s[k + 1];
        }
      }
    }
  }

  lemma SameHistory(plan: Plan, s: State, s': State, r: Record)
    requires UpToDate(plan, s, r) && s'.starts == s.starts && s'.launched == s.launched
    ensures UpToDate(plan, s', r)
  {
  }

  lemma RemoveKeeps(plan: Plan, s: State, s': State, order: seq<Record>, id: nat)
    requires Step(plan, s, s', order, RemoveEntry(id)) && AllUpToDate(plan, s) && Histories(plan, s)
    ensures AllUpToDate(plan, s') && Histories(plan, s')
  {
    hide RunsOf, InOrder, UpToDate, Without;
    Ordered(plan, s, order);
    WithoutKeeps(order, id);
    forall i | 0 <= i < |s'.entries| ensures UpToDate(plan, s', s'.entries[i]) {
      assert s'.entries[i] in order;
      SameHistory(plan, s.(entries := order), s', s'.entries[i]);
    }
  }

  lemma StepKeeps(plan: Plan, s: State, s': State, order: seq<Record>, e: Event)
    requires Step(plan, s, s', order, e) && AllUpToDate(plan, s) && Histories(plan, s)
    ensures AllUpToDate(plan, s') && Histories(plan, s')
  {
    hide RunsOf, InOrder, UpToDate, Without, Launches;
    match e {
      case Timer(idle) => TimerKeeps(plan, s, s', order, idle);
      case AddEntry(id) => AddKeeps(plan, s, s', order, id);
      case RemoveEntry(id) => RemoveKeeps(plan, s, s', order, id);
      case Snap =>
        Ordered(plan, s, order);
        forall i | 0 <= i < |order| ensures UpToDate(plan, s', order[i]) {
          SameHistory(plan, s.(entries := order), s', order[i]);
        }
    }
  }

  /** Over a whole run, however entries come and go, each entry is run for exactly the successive times
      its schedule gives, starting from when it was first planned; and an entry in the list is next due
      at the time that continues its history. */
  lemma {:induction false} WholeRun(plan: Plan, states: seq<State>, orders: seq<seq<Record>>, events: seq<Event>, k: nat)
    requires IsRun(plan, states, orders, events) && k < |states|
    ensures AllUpToDate(plan, states[k]) && Histories(plan, states[k])
  {
    hide Step, Init, AllUpToDate, Histories;
    if k == 0 {
      InitKeeps(plan, states[0]);
    } else {
      WholeRun(plan, states, orders, events, k - 1);
      assert Step(plan, states[k - 1], states[k - 1 + 1], orders[k - 1], events[k - 1]);
      StepKeeps(plan, states[k - 1], states[k], orders[k - 1], events[k - 1]);
    }
  }

  // ---- Time goes forward ----

  /** A schedule's next time is later than the time it is asked for, if there is one. */
  ghost predicate Advancing(plan: Plan) {
    forall id: nat, t: int :: plan(id, t) == NEVER || plan(id, t) > t
  }

  /** Jobs were started in the order of their times, none of them early, and whatever is due is due
      later than everything started so far. */
  ghost predicate Timely(s: State) {
    && (forall i, j | 0 <= i < j < |s.launched| :: s.launched[i].time <= s.launched[j].time)
    && (forall i | 0 <= i < |s.launched| :: NEVER < s.launched[i].time <= s.now)
    && (forall i | 0 <= i < |s.entries| :: s.entries[i].next == NEVER ||
          (s.entries[i].next > NEVER && forall j | 0 <= j < |s.launched| :: s.entries[i].next > s.launched[j].time))
  }

  lemma {:induction false} LaunchTimes(s: seq<Record>, effective: int)
    ensures forall i | 0 <= i < |Launches(s, effective)| :: Launches(s, effective)[i].time == effective
  {
    if s != [] {
      LaunchTimes(s[..|s| - 1], effective);
    }
  }

  /** If nothing is due, nothing is started. */
  lemma {:induction false} NothingDue(s: seq<Record>, effective: int)
    requires forall i | 0 <= i < |s| :: s[i].next != effective
    ensures Launches(s, effective) == []
  {
    if s != [] { NothingDue(s[..|s| - 1], effective); }
  }

  lemma TimelyOrder(s: State, order: seq<Record>)
    requires Timely(s) && multiset(order) == multiset(s.entries)
    ensures Timely(s.(entries := order))
  {
    OrderSame(order, s.entries);
    forall i | 0 <= i < |order|
      ensures order[i].next == NEVER || (order[i].next > NEVER && forall j | 0 <= j < |s.launched| :: order[i].next > s.launched[j].time)
    {
      assert order[i] in s.entries;
    }
  }

  lemma TimelyAt(s: State, i: nat, j: nat)
    requires Timely(s) && i < |s.entries| && j < |s.launched| && s.entries[i].next != NEVER
    ensures s.entries[i].next > s.launched[j].time
  {
  }

  lemma TimerTimely(plan: Plan, s: State, s': State, order: seq<Record>, idle: int)
    requires Advancing(plan) && Step(plan, s, s', order, Timer(idle)) && Timely(s)
    ensures Timely(s')
  {
    hide Launches;
    TimelyOrder(s, order);
    var effective := Effective(order, idle);
    EffectiveIsLeast(order, order, idle);
    LaunchTimes(order, effective);
    if order == [] || order[0].next == NEVER {
      forall i | 0 <= i < |order| ensures order[i].next == NEVER {
        if i > 0 { assert !Before(order[i], order[0]); }
      }
      NothingDue(order, effective);
    } else {
      forall i | 0 <= i < |s'.entries|
        ensures s'.entries[i].next == NEVER || (s'.entries[i].next > effective && s'.entries[i].next > NEVER)
      {
        var r := order[i];
        assert s'.entries[i] == FireOne(plan, r, effective);
        assert plan(r.id, effective) == NEVER || plan(r.id, effective) > effective;
      }
      forall j | 0 <= j < |s.launched| ensures s.launched[j].time < effective {
        TimelyAt(s.(entries := order), 0, j);
      }
    }
  }

  lemma {:induction false} WithoutFrom(s: seq<Record>, id: nat)
    ensures forall r | r in Without(s, id) :: r in s
  {
    if s != [] && s[0].id != id { WithoutFrom(s[1..], id); }
  }

  /** With advancing schedules, jobs are started in the order of their times, never early, and never
      twice for the same time. */
  lemma StepTimely(plan: Plan, s: State, s': State, order: seq<Record>, e: Event)
    requires Advancing(plan) && Step(plan, s, s', order, e) && Timely(s)
    ensures Timely(s')
  {
    hide Launches, Without, InOrder, FireAll, Effective;
    match e {
      case Timer(idle) => TimerTimely(plan, s, s', order, idle);
      case AddEntry(id) =>
        TimelyOrder(s, order);
        assert plan(id, s.now) == NEVER || plan(id, s.now) > s.now;
      case RemoveEntry(id) =>
        TimelyOrder(s, order);
        WithoutFrom(order, id);
        forall i | 0 <= i < |s'.entries| ensures s'.entries[i] in order { }
      case Snap =>
        TimelyOrder(s, order);
    }
  }

  lemma InitTimely(plan: Plan, s: State)
    requires Advancing(plan) && Init(plan, s) && s.now > NEVER
    ensures Timely(s)
  {
    forall i | 0 <= i < |s.entries| ensures s.entries[i].next == NEVER || s.entries[i].next > NEVER {
      assert plan(s.entries[i].id, s.now) == NEVER || plan(s.entries[i].id, s.now) > s.now;
    }
  }

  /** All of that holds at every point of a run. */
  lemma {:induction false} WholeRunTimely(plan: Plan, states: seq<State>, orders: seq<seq<Record>>, events: seq<Event>, k: nat)
    requires Advancing(plan) && IsRun(plan, states, orders, events) && k < |states| && states[0].now > NEVER
    ensures Timely(states[k])
  {
    hide Step, Init, Timely, Advancing;
    if k == 0 {
      InitTimely(plan, states[0]);
    } else {
      WholeRunTimely(plan, states, orders, events, k - 1);
      assert Step(plan, states[k - 1], states[k - 1 + 1], orders[k - 1], events[k - 1]);
      StepTimely(plan, states[k - 1], states[k], orders[k - 1], events[k - 1]);
    }
  }

  /** An entry's runs are at strictly later and later times. */
  lemma {:induction false} RunsIncrease(plan: Plan, id: nat, start: int, runs: seq<int>, i: nat, j: nat)
    requires Advancing(plan) && Consecutive(plan, id, start, runs) && i < j < |runs|
    requires forall k | 0 <= k < |runs| :: runs[k] != NEVER
    ensures start < runs[0] && runs[i] < runs[j]
    decreases j
  {
    assert runs[..0] == [] && runs[0] == plan(id, LastOf(start, runs[..0]));
    assert runs[j] == plan(id, LastOf(start, runs[..j])) && LastOf(start, runs[..j]) == runs[j - 1];
    assert plan(id, start) == NEVER || plan(id, start) > start;
    assert plan(id, runs[j - 1]) == NEVER || plan(id, runs[j - 1]) > runs[j - 1];
    if i < j - 1 { RunsIncrease(plan, id, start, runs, i, j - 1); }
  }

  // ---- Entries come and go ----

  ghost function IdsOf(entries: seq<Record>): set<nat> {
    set i | 0 <= i < |entries| :: entries[i].id
  }

  lemma IdsOrder(order: seq<Record>, s: seq<Record>)
    requires multiset(order) == multiset(s)
    ensures IdsOf(order) == IdsOf(s)
  {
    OrderSame(order, s);
    forall i | 0 <= i < |order| ensures order[i].id in IdsOf(s) { assert order[i] in s; }
    forall i | 0 <= i < |s| ensures s[i].id in IdsOf(order) { assert s[i] in order; }
  }

  /** Taking an entry out takes out that entry and no other. */
  lemma {:induction false} WithoutMembers(s: seq<Record>, id: nat, r: Record)
    requires Distinct(s)
    ensures r in Without(s, id) <==> r in s && r.id != id
  {
    if s != [] {
      assert s == [s[0]] + s[1..];
      WithoutMembers(s[1..], id, r);
      assert forall i | 1 <= i < |s| :: s[i].id != s[0].id;
      assert r in s[1..] ==> r.id != s[0].id;
    }
  }

  lemma IdsPlus(s: seq<Record>, r: Record)
    ensures IdsOf(s + [r]) == IdsOf(s) + {r.id}
  {
    var t := s + [r];
    assert t[|s|] == r;
    forall i | 0 <= i < |s| ensures s[i].id in IdsOf(t) { assert t[i] == s[i]; }
  }

  lemma IdsWithout(s: seq<Record>, id: nat)
    requires Distinct(s)
    ensures IdsOf(Without(s, id)) == IdsOf(s) - {id}
  {
    var w := Without(s, id);
    forall i | 0 <= i < |w| ensures w[i].id in IdsOf(s) - {id} {
      WithoutMembers(s, id, w[i]);
      assert w[i] in s;
    }
    forall i | 0 <= i < |s| && s[i].id != id ensures s[i].id in IdsOf(w) {
      WithoutMembers(s, id, s[i]);
      assert s[i] in w;
    }
  }

  /** The entries of the loop change by being added and removed, and in no other way. */
  lemma StepIds(plan: Plan, s: State, s': State, order: seq<Record>, e: Event)
    requires Step(plan, s, s', order, e) && Distinct(s.entries)
    ensures IdsOf(s'.entries) == match e
      case AddEntry(id) => IdsOf(s.entries) + {id}
      case RemoveEntry(id) => IdsOf(s.entries) - {id}
      case _ => IdsOf(s.entries)
  {
    hide InOrder, Launches, Effective;
    IdsOrder(order, s.entries);
    DistinctOrder(order, s.entries);
    match e {
      case Timer(idle) =>
        var effective := Effective(order, idle);
        assert forall i | 0 <= i < |order| :: s'.entries[i].id == order[i].id;
      case AddEntry(id) =>
        IdsPlus(order, Record(id, plan(id, s.now), NEVER));
      case RemoveEntry(id) =>
        IdsWithout(order, id);
      case Snap =>
    }
  }

  lemma GoneStep(plan: Plan, s: State, s': State, order: seq<Record>, e: Event, id: nat)
    requires Step(plan, s, s', order, e) && Distinct(s.entries) && id !in IdsOf(s.entries) && id in s.starts
    ensures id !in IdsOf(s'.entries) && id in s'.starts && RunsOf(s'.launched, id) == RunsOf(s.launched, id)
  {
    StepIds(plan, s, s', order, e);
    IdsOrder(order, s.entries);
    if e.Timer? {
      var effective := Effective(order, e.idle);
      forall i | 0 <= i < |order| ensures order[i].id != id { assert order[i].id in IdsOf(order); }
      NoneOf(order, effective, id);
      RunsPlus(s.launched, Launches(order, effective), id);
    }
  }

  lemma RemovedRuns(plan: Plan, s: State, s': State, order: seq<Record>, id: nat)
    requires Step(plan, s, s', order, RemoveEntry(id))
    ensures s'.launched == s.launched && s'.starts == s.starts
  {
  }

  /** A removed entry is out of the loop for good: its job does not start again. */
  lemma {:induction false} RemovedForGood(plan: Plan, states: seq<State>, orders: seq<seq<Record>>, events: seq<Event>,
                                          i: nat, j: nat, id: nat)
    requires IsRun(plan, states, orders, events) && i < j < |states| && events[i] == RemoveEntry(id) && id in states[i].starts
    ensures id !in IdsOf(states[j].entries) && id in states[j].starts
    ensures RunsOf(states[j].launched, id) == RunsOf(states[i].launched, id)
    decreases j
  {
    hide Init, Step, UpToDate, Histories, RunsOf, Distinct;
    WholeRun(plan, states, orders, events, j - 1);
    assert Step(plan, states[j - 1], states[j], orders[j - 1], events[j - 1]);
    if i == j - 1 {
      StepIds(plan, states[i], states[j], orders[i], events[i]);
      RemovedRuns(plan, states[i], states[j], orders[i], id);
    } else {
      RemovedForGood(plan, states, orders, events, i, j - 1, id);
      GoneStep(plan, states[j - 1], states[j], orders[j - 1], events[j - 1], id);
    }
  }
}
