/** Priorities and parameter counts: what every insertion keeps true of them. */
module RouterRank {
  import opened Router
  import opened RouterRoutes

  /** Number of handles in a subtree. */
  ghost function Handles<H>(n: Node<H>): nat {
    (if n.handle.Some? then 1 else 0) + HandlesOf(n.children)
  }

  ghost function HandlesOf<H>(children: seq<Node<H>>): nat {
    if children == [] then 0 else Handles(children[0]) + HandlesOf(children[1..])
  }

  /** The largest number of parameters on a way down from a node. */
  ghost function Depth<H>(n: Node<H>): nat {
    (if n.nType.Param? then 1 else 0) + DepthOf(n.children)
  }

  ghost function DepthOf<H>(children: seq<Node<H>>): nat {
    if children == [] then 0 else Max(Depth(children[0]), DepthOf(children[1..]))
  }

  ghost predicate Descending<H>(children: seq<Node<H>>) {
    forall i, j | 0 <= i < j < |children| :: children[i].priority >= children[j].priority
  }

  /** A priority is the number of handles below, siblings are in descending priority, and a parameter
      node has room for every parameter that can be bound from it on. */
  ghost predicate Ranked<H>(n: Node<H>) {
    && n.priority == Handles(n) && Descending(n.children) && (n.nType.Param? ==> n.maxParams >= Depth(n))
    && forall i | 0 <= i < |n.children| :: Ranked(n.children[i])
  }

  ghost predicate AllRanked<H>(children: seq<Node<H>>) {
    forall i | 0 <= i < |children| :: Ranked(children[i])
  }

  // ---- Sums and maxima over children ----

  lemma {:induction false} HandlesSum<H>(a: seq<Node<H>>, b: seq<Node<H>>)
    ensures HandlesOf(a + b) == HandlesOf(a) + HandlesOf(b)
  {
    if a == [] {
      assert a + b == b;
    } else {
      assert (a + b)[1..] == a[1..] + b;
      HandlesSum(a[1..], b);
    }
  }

  lemma {:induction false} DepthSum<H>(a: seq<Node<H>>, b: seq<Node<H>>)
    ensures DepthOf(a + b) == Max(DepthOf(a), DepthOf(b))
  {
    if a == [] {
      assert a + b == b;
    } else {
      assert (a + b)[1..] == a[1..] + b;
      DepthSum(a[1..], b);
    }
  }

  lemma OneChild<H>(c: Node<H>)
    ensures HandlesOf([c]) == Handles(c) && DepthOf([c]) == Depth(c)
  {
    assert [c][1..] == [];
  }

  lemma FourSums<H>(a: seq<Node<H>>, b: seq<Node<H>>, c: seq<Node<H>>, d: seq<Node<H>>)
    ensures HandlesOf(a + b + c + d) == HandlesOf(a) + HandlesOf(b) + HandlesOf(c) + HandlesOf(d)
    ensures DepthOf(a + b + c + d) == Max(Max(Max(DepthOf(a), DepthOf(b)), DepthOf(c)), DepthOf(d))
  {
    hide HandlesOf, DepthOf, Max;
    HandlesSum(a + b + c, d); HandlesSum(a + b, c); HandlesSum(a, b);
    DepthSum(a + b + c, d); DepthSum(a + b, c); DepthSum(a, b);
  }

  lemma MoveSums<H>(s: seq<Node<H>>, from: nat, to: nat)
    requires to <= from < |s|
    ensures HandlesOf(Move(s, from, to)) == HandlesOf(s) && DepthOf(Move(s, from, to)) == DepthOf(s)
  {
    hide HandlesOf, DepthOf;
    FourSums(s[..to], s[to..from], [s[from]], s[from + 1..]);
    FourSums(s[..to], [s[from]], s[to..from], s[from + 1..]);
    Pieces(s, from, to);
  }

  lemma Pieces<T>(s: seq<T>, from: nat, to: nat)
    requires to <= from < |s|
    ensures s == s[..to] + s[to..from] + [s[from]] + s[from + 1..]
  {
  }

  lemma ReplaceSums<H>(s: seq<Node<H>>, k: nat, d: Node<H>)
    requires k < |s|
    ensures HandlesOf(s[k := d]) == HandlesOf(s) - Handles(s[k]) + Handles(d)
    ensures DepthOf(s[k := d]) <= Max(DepthOf(s), Depth(d)) && Depth(s[k]) <= DepthOf(s)
    ensures Handles(s[k]) <= HandlesOf(s)
  {
    var a, b := s[..k], s[k + 1..];
    assert s == a + [s[k]] + b && s[k := d] == a + [d] + b;
    OneChild(s[k]);
    OneChild(d);
    hide HandlesOf, DepthOf;
    HandlesSum(a + [s[k]], b); HandlesSum(a, [s[k]]);
    HandlesSum(a + [d], b); HandlesSum(a, [d]);
    DepthSum(a + [s[k]], b); DepthSum(a, [s[k]]);
    DepthSum(a + [d], b); DepthSum(a, [d]);
  }

  lemma {:induction false} DepthMember<H>(s: seq<Node<H>>, k: nat)
    requires k < |s|
    ensures Depth(s[k]) <= DepthOf(s)
  {
    if k > 0 { DepthMember(s[1..], k - 1); }
  }

  /** Where the entry at position x of a moved list came from. */
  ghost function Source(x: nat, from: nat, to: nat): nat {
    if x == to then from else if to < x <= from then x - 1 else x
  }

  /** Moving one entry to the front of all smaller ones restores the order. */
  lemma MoveDescending<H>(t: seq<Node<H>>, from: nat, to: nat, m: seq<Node<H>>)
    requires to <= from < |t| && |m| == |t|
    requires forall x | 0 <= x < |t| :: m[x] == t[Source(x, from, to)]
    requires forall x, y | 0 <= x < y < |t| && x != from && y != from :: t[x].priority >= t[y].priority
    requires forall y | from < y < |t| :: t[from].priority >= t[y].priority
    requires forall x | to <= x < from :: t[x].priority < t[from].priority
    requires to > 0 ==> t[to - 1].priority >= t[from].priority
    ensures Descending(m)
  {
    forall x, y | 0 <= x < y < |m| ensures m[x].priority >= m[y].priority {
      var a, b := Source(x, from, to), Source(y, from, to);
      assert m[x] == t[a] && m[y] == t[b];
      if a != from && b != from {
        assert a < b;
      } else if b == from {
        assert a <= to - 1;
        assert a < to - 1 ==> t[a].priority >= t[to - 1].priority;
      } else {
        assert b > from || to <= b < from;
      }
    }
  }

  lemma MoveSource<T>(t: seq<T>, from: nat, to: nat)
    requires to <= from < |t|
    ensures |Move(t, from, to)| == |t|
    ensures forall x | 0 <= x < |t| :: Move(t, from, to)[x] == t[Source(x, from, to)]
  {
    MoveShape(t, from, to);
    hide Move;
  }

  /** Raising one child keeps siblings in descending priority once it has moved. */
  lemma RaisedDescending<H>(s: seq<Node<H>>, k: nat, d: Node<H>)
    requires Descending(s) && k < |s| && d.priority == s[k].priority + 1
    ensures Descending(Move(s[k := d], k, NewPosition(s, s[k].priority + 1, k)))
  {
    var j, t := NewPosition(s, s[k].priority + 1, k), s[k := d];
    hide Move;
    MoveSource(t, k, j);
    MoveDescending(t, k, j, Move(t, k, j));
  }

  lemma AppendedDescending<H>(s: seq<Node<H>>, c: Node<H>)
    requires Descending(s)
    ensures Descending(Move(s + [c], |s|, NewPosition(s + [c], c.priority, |s|)))
  {
    var t := s + [c];
    assert forall i | 0 <= i < |s| :: t[i] == s[i];
    var j := NewPosition(t, c.priority, |s|);
    hide Move;
    MoveSource(t, |s|, j);
    MoveDescending(t, |s|, j, Move(t, |s|, j));
  }

  // ---- Insertion ----

  lemma {:induction false} InsertChildRank<H>(n: Node<H>, numParams: nat, path: string, handle: H)
    requires n.children == [] && n.nType.Static? && (numParams == 0 ==> n.handle == None)
    requires InsertChild(n, numParams, path, handle).Some?
    ensures var r := InsertChild(n, numParams, path, handle).value;
      && Handles(r) == Handles(n) + 1 && AllRanked(r.children) && Descending(r.children)
      && Depth(r) <= numParams && r.priority == n.priority && r.nType == n.nType
    decreases |path|
  {
    hide Colon, SegmentEnd, Ranked, HandlesOf, DepthOf, AllRanked, Descending;
    NoChildren<H>();
    var r := InsertChild(n, numParams, path, handle).value;
    if numParams > 0 {
      var i := Colon(path);
      var end := SegmentEnd(path, i + 1);
      var c := r.children[0];
      if end < |path| {
        var empty := Node("", false, Static, numParams - 1, [], [], None, 1);
        InsertChildRank(empty, numParams - 1, path[end..], handle);
        ParamRank(c, numParams);
      } else {
        LastRank(c, numParams);
      }
      SingleRank(c);
      assert r.children == [c];
    }
  }

  lemma NoChildren<H>()
    ensures HandlesOf<H>([]) == 0 && DepthOf<H>([]) == 0 && AllRanked<H>([]) && Descending<H>([])
  {
  }

  lemma SingleRank<H>(c: Node<H>)
    requires Ranked(c)
    ensures HandlesOf([c]) == Handles(c) && DepthOf([c]) == Depth(c) && AllRanked([c]) && Descending([c])
  {
    OneChild(c);
  }

  lemma ParamRank<H>(c: Node<H>, numParams: nat)
    requires |c.children| == 1 && c.nType.Param? && c.handle.None? && c.priority == 1 && c.maxParams == numParams
    requires var b := c.children[0];
      b.nType.Static? && b.priority == 1 == Handles(b) && AllRanked(b.children) && Descending(b.children) && Depth(b) < numParams
    ensures Ranked(c) && Handles(c) == 1 && Depth(c) <= numParams
  {
    var b := c.children[0];
    assert Ranked(b);
    SingleRank(b);
    assert c.children == [b];
  }

  lemma LastRank<H>(c: Node<H>, numParams: nat)
    requires c.children == [] && c.nType.Param? && c.handle.Some? && c.priority == 1 && c.maxParams == numParams > 0
    ensures Ranked(c) && Handles(c) == 1 && Depth(c) <= numParams
  {
  }

  /** What every insertion at a node keeps, given how many parameters it may add below. */
  ghost predicate RankKept<H>(n: Node<H>, r: Node<H>, numParams: nat) {
    && Handles(r) == Handles(n) + 1 && r.priority == n.priority && AllRanked(r.children) && Descending(r.children)
    && r.nType == n.nType && r.maxParams >= n.maxParams
    && Depth(r) <= Max(Depth(n), (if n.nType.Param? then 1 else 0) + numParams)
  }

  lemma AddChildRank<H>(s: Node<H>, numParams: nat, rest: string, handle: H)
    requires rest != "" && |s.indices| == |s.children| && AllRanked(s.children) && Descending(s.children)
    requires numParams == CountParams(rest) && (rest[0] == ':' ==> s.nType.Static?)
    requires AddChild(s, numParams, rest, handle).Some?
    ensures RankKept(s, AddChild(s, numParams, rest, handle).value, numParams)
  {
    hide InsertChild, NewPosition, Move, HandlesOf, DepthOf;
    var r := AddChild(s, numParams, rest, handle).value;
    NoChildren<H>();
    if rest[0] == ':' {
      assert numParams > 0;
      BareOnly(s, numParams, rest, handle);
      InsertChildRank(s, numParams, rest, handle);
    } else {
      var empty := Node("", false, Static, numParams, [], [], None, 1);
      InsertChildRank(empty, numParams, rest, handle);
      var c := InsertChild(empty, numParams, rest, handle).value;
      assert Ranked(c);
      AppendRank(s, c, r, numParams);
    }
  }

  lemma BareOnly<H>(s: Node<H>, numParams: nat, rest: string, handle: H)
    requires numParams > 0 && InsertChild(s, numParams, rest, handle).Some?
    ensures s.children == [] && InsertChild(s, numParams, rest, handle).value.maxParams == s.maxParams
  {
  }

  lemma AppendRank<H>(s: Node<H>, c: Node<H>, r: Node<H>, numParams: nat)
    requires AllRanked(s.children) && Descending(s.children) && Ranked(c) && c.priority == 1
    requires Depth(c) <= numParams
    requires var t := s.children + [c];
      r == s.(indices := r.indices, children := Move(t, |s.children|, NewPosition(t, 1, |s.children|)))
    ensures RankKept(s, r, numParams)
  {
    var t, last := s.children + [c], |s.children|;
    var j := NewPosition(t, 1, last);
    AppendedDescending(s.children, c);
    MoveSums(t, last, j);
    HandlesSum(s.children, [c]);
    DepthSum(s.children, [c]);
    OneChild(c);
    assert AllRanked(t);
    hide Ranked, HandlesOf, DepthOf, Descending;
    MovedRank(t, last, j);
  }

  lemma MovedRank<H>(t: seq<Node<H>>, from: nat, to: nat)
    requires to <= from < |t| && AllRanked(t)
    ensures AllRanked(Move(t, from, to))
  {
    hide Ranked;
    MoveSource(t, from, to);
    var m := Move(t, from, to);
    hide Move;
    forall x | 0 <= x < |m| ensures Ranked(m[x]) {
      assert m[x] == t[Source(x, from, to)];
    }
  }

  /** What the loop may rely on at a node whose priority has been raised. */
  ghost predicate Raised<H>(n: Node<H>, numParams: nat) {
    && n.priority == Handles(n) + 1 && AllRanked(n.children) && Descending(n.children)
    && (n.nType.Param? ==> n.maxParams >= Depth(n) && n.maxParams >= numParams + 1)
  }

  lemma {:induction false} WalkRank<H>(n: Node<H>, numParams: nat, path: string, handle: H)
    requires Reaches(n, numParams, path) && Raised(n, numParams) && Walk(n, numParams, path, handle).Some?
    ensures RankKept(n, Walk(n, numParams, path, handle).value, numParams)
    decreases Height(n), 1
  {
    hide Simple, Ranked;
    var m := Widened(n, numParams);
    var i := CommonPrefix(path, n.path);
    var r := Walk(n, numParams, path, handle).value;
    if i < |n.path| {
      SplitRank(n, numParams, path, handle);
    } else if i < |path| {
      BelowRank(n, numParams, path, handle);
    }
  }

  lemma SplitRank<H>(n: Node<H>, numParams: nat, path: string, handle: H)
    requires Reaches(n, numParams, path) && Raised(n, numParams) && Walk(n, numParams, path, handle).Some?
    requires CommonPrefix(path, n.path) < |n.path|
    ensures RankKept(n, Walk(n, numParams, path, handle).value, numParams)
  {
    var i, m := CommonPrefix(path, n.path), Widened(n, numParams);
    PrefixPositive(path, n.path);
    var s := Split(m, i);
    var c := s.children[0];
    OneChild(c);
    assert Handles(c) == Handles(n) && Depth(c) == Depth(n);
    assert Ranked(c);
    if i < |path| {
      assert path[..i] == n.path[..i];
      StaticPrefix(n.path, path, i);
      CutStatic(path, i);
      hide Ranked, Simple, WF;
      AddChildRank(s, numParams, path[i..], handle);
    }
  }

  lemma BelowRank<H>(n: Node<H>, numParams: nat, path: string, handle: H)
    requires Reaches(n, numParams, path) && n.path <= path && |n.path| < |path|
    requires Raised(n, numParams) && WalkBelow(n, numParams, path, handle).Some?
    ensures RankKept(n, WalkBelow(n, numParams, path, handle).value, numParams)
    decreases Height(n), 0
  {
    hide Simple, CountParams, RankKept, CommonPrefix;
    var m, rest := Widened(n, numParams), path[|n.path|..];
    AfterEdge(n, numParams, path);
    if n.wildChild {
      WildRank(n, numParams, path, handle);
    } else if n.nType.Param? && rest[0] == '/' && |n.children| == 1 {
      ParamNodeRank(n, numParams, path, handle);
    } else {
      var k := IndexOf(n.indices, rest[0]);
      if k < |n.indices| {
        IndexRank(n, numParams, path, handle, k);
      } else {
        NoneJoins(n, rest[0]);
        AddChildRank(m, numParams, rest, handle);
        WidenedRank(n, m, WalkBelow(n, numParams, path, handle).value, numParams);
      }
    }
  }

  lemma ParamNodeRank<H>(n: Node<H>, numParams: nat, path: string, handle: H)
    requires Reaches(n, numParams, path) && n.path <= path && |n.path| < |path| && !n.wildChild
    requires n.nType.Param? && path[|n.path|] == '/' && |n.children| == 1
    requires Raised(n, numParams) && WalkBelow(n, numParams, path, handle).Some?
    ensures RankKept(n, WalkBelow(n, numParams, path, handle).value, numParams)
    decreases Height(n), 0, 0
  {
    hide Simple, CountParams, RankKept, CommonPrefix;
    var rest := path[|n.path|..];
    AfterEdge(n, numParams, path);
    var c := Bumped(n.children[0]);
    assert Joins(n, 0, rest[0]);
    RaisedChild(n.children[0], c, numParams);
    WalkRank(c, numParams, rest, handle);
    hide Raised, WF;
    OnlyChildRank(n, c, Walk(c, numParams, rest, handle).value, WalkBelow(n, numParams, path, handle).value, numParams);
  }

  lemma IndexRank<H>(n: Node<H>, numParams: nat, path: string, handle: H, k: nat)
    requires Reaches(n, numParams, path) && n.path <= path && |n.path| < |path| && !n.wildChild
    requires !(n.nType.Param? && path[|n.path|] == '/' && |n.children| == 1)
    requires k == IndexOf(n.indices, path[|n.path|]) < |n.indices|
    requires Raised(n, numParams) && WalkBelow(n, numParams, path, handle).Some?
    ensures RankKept(n, WalkBelow(n, numParams, path, handle).value, numParams)
    decreases Height(n), 0, 0
  {
    hide Simple, CountParams, RankKept, CommonPrefix;
    var rest := path[|n.path|..];
    AfterEdge(n, numParams, path);
    assert Joins(n, k, rest[0]);
    var c := Bumped(n.children[k]);
    RaisedChild(n.children[k], c, numParams);
    WalkRank(c, numParams, rest, handle);
    IndexedRank(n, k, c, Walk(c, numParams, rest, handle).value, WalkBelow(n, numParams, path, handle).value, numParams);
  }

  lemma WidenedRank<H>(n: Node<H>, m: Node<H>, r: Node<H>, numParams: nat)
    requires m == n.(maxParams := m.maxParams) && m.maxParams >= n.maxParams && RankKept(m, r, numParams)
    ensures RankKept(n, r, numParams)
  {
  }

  lemma WildRank<H>(n: Node<H>, numParams: nat, path: string, handle: H)
    requires Reaches(n, numParams, path) && n.path <= path && |n.path| < |path| && n.wildChild
    requires Raised(n, numParams) && WalkBelow(n, numParams, path, handle).Some?
    ensures RankKept(n, WalkBelow(n, numParams, path, handle).value, numParams)
    decreases Height(n), 0, 0
  {
    hide Simple, CountParams, RankKept, CommonPrefix;
    var rest := path[|n.path|..];
    AfterEdge(n, numParams, path);
    var c := Widened(Bumped(n.children[0]), numParams);
    ParamReached(n, numParams, path);
    RaisedChild(n.children[0], c, numParams - 1);
    WalkRank(c, numParams - 1, rest, handle);
    hide Raised, WF;
    OnlyChildRank(n, c, Walk(c, numParams - 1, rest, handle).value, WalkBelow(n, numParams, path, handle).value, numParams);
  }

  /** A child as the loop enters it: priority raised, and widened if it is a parameter. */
  lemma RaisedChild<H>(c0: Node<H>, c: Node<H>, numParams: nat)
    requires Ranked(c0) && c == c0.(priority := c0.priority + 1, maxParams := c.maxParams)
    requires c.maxParams >= c0.maxParams && (c.nType.Param? ==> c.maxParams >= numParams + 1)
    ensures Raised(c, numParams) && Handles(c) == Handles(c0) && Depth(c) == Depth(c0)
  {
  }

  /** The child as the loop leaves it. */
  lemma GrownRank<H>(c: Node<H>, d: Node<H>, numParams: nat)
    requires Raised(c, numParams) && RankKept(c, d, numParams)
    ensures Ranked(d) && Handles(d) == Handles(c) + 1 && d.priority == c.priority
    ensures Depth(d) <= Max(Depth(c), (if c.nType.Param? then 1 else 0) + numParams)
  {
  }

  lemma OnlyChildRank<H>(n: Node<H>, c: Node<H>, d: Node<H>, r: Node<H>, numParams: nat)
    requires |n.children| == 1 && r == n.(maxParams := Max(n.maxParams, numParams), children := [d])
    requires c == n.children[0].(priority := c.priority, maxParams := c.maxParams)
    requires numParams >= (if c.nType.Param? then 1 else 0)
    requires var k := numParams - if c.nType.Param? then 1 else 0;
      Raised(c, k) && RankKept(c, d, k)
    ensures RankKept(n, r, numParams)
  {
    GrownRank(c, d, numParams - if c.nType.Param? then 1 else 0);
    OneChild(d);
    OneChild(n.children[0]);
    assert n.children == [n.children[0]];
    assert Depth(c) == Depth(n.children[0]) && Handles(c) == Handles(n.children[0]);
  }

  lemma IndexedRank<H>(n: Node<H>, k: nat, c: Node<H>, d: Node<H>, r: Node<H>, numParams: nat)
    requires k < |n.children| && AllRanked(n.children) && Descending(n.children)
    requires c == Bumped(n.children[k]) && c.nType.Static? && Raised(c, numParams) && RankKept(c, d, numParams)
    requires r == n.(maxParams := Max(n.maxParams, numParams), indices := r.indices,
      children := Move(n.children[k := d], k, NewPosition(n.children, n.children[k].priority + 1, k)))
    ensures RankKept(n, r, numParams)
  {
    GrownRank(c, d, numParams);
    assert Depth(c) == Depth(n.children[k]) && Handles(c) == Handles(n.children[k]);
    var t, j := n.children[k := d], NewPosition(n.children, n.children[k].priority + 1, k);
    RaisedDescending(n.children, k, d);
    assert AllRanked(t);
    hide Ranked, Raised, HandlesOf, DepthOf, Descending, Move;
    ReplaceSums(n.children, k, d);
    MoveSums(t, k, j);
    MovedRank(t, k, j);
  }

  /** Every registration keeps priorities, the order of siblings and the room for parameters. */
  lemma AddRouteRank<H(!new)>(n: Node<H>, path: string, handle: H)
    requires Registrable(path) && Tree(n) && Ranked(n) && AddRoute(n, path, handle).Some?
    ensures Ranked(AddRoute(n, path, handle).value)
    ensures Handles(AddRoute(n, path, handle).value) == Handles(n) + 1
  {
    var b := Bumped(n);
    if |n.path| > 0 || |n.children| > 0 {
      BumpedWF(n);
      WalkRank(b, CountParams(path), path, handle);
    } else {
      InsertChildRank(b, CountParams(path), path, handle);
    }
  }

  lemma RootRanked<H>()
    ensures Ranked(Root<H>()) && Handles(Root<H>()) == 0
  {
  }
}
