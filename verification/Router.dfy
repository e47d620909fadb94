/** The router's radix tree: nodes, insertion and lookup. */
module Router {

  datatype Option<+T> = None | Some(value: T)

  datatype NodeType = Static | Param

  datatype Node<H> = Node(
    path: string,
    wildChild: bool,
    nType: NodeType,
    maxParams: nat,
    indices: seq<char>,
    children: seq<Node<H>>,
    handle: Option<H>,
    priority: nat)

  datatype Binding = Binding(key: string, value: string)

  /** The empty tree. */
  function Root<H>(): Node<H> {
    Node("", false, Static, 0, [], [], None, 0)
  }

  function CountParams(path: string): nat {
    if path == "" then 0 else (if path[0] == ':' then 1 else 0) + CountParams(path[1..])
  }

  /** Index of the first ':'. */
  function Colon(path: string): (i: nat)
    ensures i <= |path| && (i < |path| ==> path[i] == ':')
  {
    if path == "" || path[0] == ':' then 0 else 1 + Colon(path[1..])
  }

  /** Index of the first '/' at or after `from`, or the end of the path. */
  function SegmentEnd(path: string, from: nat): (i: nat)
    requires from <= |path|
    ensures from <= i <= |path| && (i < |path| ==> path[i] == '/')
    decreases |path| - from
  {
    if from == |path| || path[from] == '/' then from else SegmentEnd(path, from + 1)
  }

  /** Length of the longest common prefix. */
  function CommonPrefix(a: string, b: string): (i: nat)
    ensures i <= |a| && i <= |b| && a[..i] == b[..i]
    ensures i < |a| && i < |b| ==> a[i] != b[i]
  {
    if a == "" || b == "" || a[0] != b[0] then 0 else 1 + CommonPrefix(a[1..], b[1..])
  }

  function IndexOf(indices: seq<char>, c: char): (i: nat)
    ensures i <= |indices| && (i < |indices| ==> indices[i] == c)
  {
    if indices == [] || indices[0] == c then 0 else 1 + IndexOf(indices[1..], c)
  }

  lemma {:induction false} ColonFirst(path: string)
    ensures forall k | 0 <= k < Colon(path) :: path[k] != ':'
  {
    if path != "" && path[0] != ':' {
      ColonFirst(path[1..]);
      assert forall k | 1 <= k < Colon(path) :: path[k] == path[1..][k - 1];
    }
  }

  lemma {:induction false} SegmentFirst(path: string, from: nat)
    requires from <= |path|
    ensures forall k | from <= k < SegmentEnd(path, from) :: path[k] != '/'
    decreases |path| - from
  {
    if from < |path| && path[from] != '/' { SegmentFirst(path, from + 1); }
  }

  lemma {:induction false} IndexFirst(indices: seq<char>, c: char)
    ensures forall k | 0 <= k < IndexOf(indices, c) :: indices[k] != c
  {
    if indices != [] && indices[0] != c {
      IndexFirst(indices[1..], c);
      assert forall k | 1 <= k < IndexOf(indices, c) :: indices[k] == indices[1..][k - 1];
    }
  }

  function Max(a: nat, b: nat): nat {
    if a < b then b else a
  }

  function MaxOfChildren<H>(children: seq<Node<H>>): nat {
    if children == [] then 0 else Max(children[0].maxParams, MaxOfChildren(children[1..]))
  }

  function Height<H>(n: Node<H>): nat {
    1 + Heights(n.children)
  }

  function Heights<H>(children: seq<Node<H>>): nat {
    if children == [] then 0 else Max(Height(children[0]), Heights(children[1..]))
  }

  lemma {:induction false} ChildHeight<H>(children: seq<Node<H>>, i: nat)
    requires i < |children|
    ensures Height(children[i]) <= Heights(children)
  {
    if i > 0 { ChildHeight(children[1..], i - 1); }
  }

  /** Hangs the rest of a path below a node: static text, then a parameter, then the rest again.
      None stands for the panics of the original. */
  function InsertChild<H>(n: Node<H>, numParams: nat, path: string, handle: H): Option<Node<H>>
    decreases |path|
  {
    if numParams == 0 then Some(n.(path := path, handle := Some(handle)))
    else
      var i := Colon(path);
      if i == |path| || n.children != [] then None
      else
        var end := SegmentEnd(path, i + 1);
        if end - i < 2 then None
        else
          var prefix := if i > 0 then path[..i] else n.path;
          if end < |path| then
            var below := InsertChild(Node("", false, Static, numParams - 1, [], [], None, 1), numParams - 1, path[end..], handle);
            if below.None? then None
            else Some(n.(path := prefix, wildChild := true,
                         children := [Node(path[i..end], false, Param, numParams, [], [below.value], None, 1)]))
          else Some(n.(path := prefix, wildChild := true,
                       children := [Node(path[i..], false, Param, numParams, [], [], Some(handle), 1)]))
  }

  /** Moves the child at index i towards the front past every child of smaller priority. */
  function NewPosition<H>(children: seq<Node<H>>, prio: nat, i: nat): (j: nat)
    requires i <= |children|
    ensures j <= i && (forall k | j <= k < i :: children[k].priority < prio)
    ensures j > 0 ==> children[j - 1].priority >= prio
  {
    if i > 0 && children[i - 1].priority < prio then NewPosition(children, prio, i - 1) else i
  }

  function Move<T>(s: seq<T>, from: nat, to: nat): seq<T>
    requires to <= from < |s|
  {
    s[..to] + [s[from]] + s[to..from] + s[from + 1..]
  }

  ghost predicate NoColon(s: string) {
    forall k | 0 <= k < |s| :: s[k] != ':'
  }

  /** ':' followed by a name. */
  ghost predicate ParamPath(s: string) {
    |s| >= 2 && s[0] == ':' && forall k | 1 <= k < |s| :: s[k] != ':' && s[k] != '/'
  }

  /** The shape every insertion keeps: static and parameter nodes, one parameter child or static
      children told apart by their first bytes, which `indices` lists. */
  ghost predicate WF<H>(n: Node<H>) {
    && (n.nType.Param? ==> ParamPath(n.path) && ParamShape(n))
    && (n.nType.Static? ==> NoColon(n.path) && if n.wildChild then WildShape(n) else StaticShape(n))
    && forall i | 0 <= i < |n.children| :: WF(n.children[i])
  }

  ghost predicate WildShape<H>(n: Node<H>) {
    |n.children| == 1 && n.children[0].nType.Param? && n.indices == []
  }

  ghost predicate StaticShape<H>(n: Node<H>) {
    && |n.indices| == |n.children|
    && (forall i | 0 <= i < |n.children| :: n.children[i].nType.Static? && n.children[i].path != "")
    && (forall i | 0 <= i < |n.children| :: n.indices[i] == n.children[i].path[0])
    && (forall i, j | 0 <= i < j < |n.children| :: n.indices[i] != n.indices[j])
  }

  ghost predicate ParamShape<H>(n: Node<H>) {
    && !n.wildChild && |n.children| <= 1 && |n.indices| <= |n.children|
    && (forall i | 0 <= i < |n.children| :: n.children[i].nType.Static? && n.children[i].path != "" && n.children[i].path[0] == '/')
    && (forall i | 0 <= i < |n.indices| :: n.indices[i] == '/')
  }

  /** At most one parameter in each segment. */
  ghost predicate Simple(path: string) {
    OneEach(path, false)
  }

  /** `seen` says that the current segment already has its parameter. */
  ghost predicate OneEach(path: string, seen: bool) {
    if path == "" then true
    else if path[0] == '/' then OneEach(path[1..], false)
    else if path[0] == ':' then !seen && OneEach(path[1..], true)
    else OneEach(path[1..], seen)
  }

  /** What the insertion loop knows when it reaches a node. */
  ghost predicate Reaches<H>(n: Node<H>, numParams: nat, path: string) {
    && WF(n) && n.path != "" && path != "" && n.path[0] == path[0]
    && (n.nType.Static? ==> Simple(path) && numParams == CountParams(path))
    && (n.nType.Param? ==>
      && n.path <= path && (|path| > |n.path| ==> path[|n.path|] == '/')
      && Simple(path[|n.path|..]) && numParams == CountParams(path[|n.path|..]))
  }

  /** Splits the edge of a node after i characters. */
  function Split<H>(n: Node<H>, i: nat): Node<H>
    requires i < |n.path|
  {
    var below := Node(n.path[i..], n.wildChild, Static, MaxOfChildren(n.children), n.indices, n.children, n.handle,
                      if n.priority > 0 then n.priority - 1 else 0);
    n.(path := n.path[..i], wildChild := false, indices := [n.path[i]], children := [below], handle := None)
  }

  function Bumped<H>(n: Node<H>): Node<H> {
    n.(priority := n.priority + 1)
  }

  function Widened<H>(n: Node<H>, numParams: nat): Node<H> {
    n.(maxParams := Max(n.maxParams, numParams))
  }

  /** Adds a child for a path no child shares a byte with. */
  function AddChild<H>(s: Node<H>, numParams: nat, rest: string, handle: H): Option<Node<H>>
    requires rest != "" && |s.indices| == |s.children|
  {
    if rest[0] == ':' then InsertChild(s, numParams, rest, handle)
    else
      var child := InsertChild(Node("", false, Static, numParams, [], [], None, 1), numParams, rest, handle);
      if child.None? then None
      else
        var children, last := s.children + [child.value], |s.children|;
        var j := NewPosition(children, 1, last);
        Some(s.(indices := Move(s.indices + [rest[0]], last, j), children := Move(children, last, j)))
  }

  /** The insertion loop from a node whose priority has been raised. */
  function Walk<H>(n: Node<H>, numParams: nat, path: string, handle: H): Option<Node<H>>
    requires Reaches(n, numParams, path)
    decreases Height(n), 1
  {
    var m := Widened(n, numParams);
    var i := CommonPrefix(path, n.path);
    if i < |n.path| then
      if i == |path| then Some(Split(m, i).(handle := Some(handle)))
      else AddChild(Split(m, i), numParams, path[i..], handle)
    else if i == |path| then
      if m.handle.Some? then None else Some(m.(handle := Some(handle)))
    else WalkBelow(n, numParams, path, handle)
  }

  /** The part of a round below the edge of a node that is a proper prefix of the path. */
  function WalkBelow<H>(n: Node<H>, numParams: nat, path: string, handle: H): Option<Node<H>>
    requires Reaches(n, numParams, path) && n.path <= path && |n.path| < |path|
    decreases Height(n), 0
  {
    var m := Widened(n, numParams);
    var rest := path[|n.path|..];
    AfterEdge(n, numParams, path);
    if n.wildChild then
      var c := Widened(Bumped(n.children[0]), numParams);
      if c.path <= rest && (|c.path| == |rest| || rest[|c.path|] == '/') then
        ParamReached(n, numParams, path);
        var r := Walk(c, numParams - 1, rest, handle);
        if r.None? then None else Some(m.(children := [r.value]))
      else None
    else if n.nType.Param? && rest[0] == '/' && |n.children| == 1 then
      var r := Walk(Bumped(n.children[0]), numParams, rest, handle);
      if r.None? then None else Some(m.(children := [r.value]))
    else
      var k := IndexOf(n.indices, rest[0]);
      if k < |n.indices| then
        assert Joins(n, k, rest[0]);
        var r := Walk(Bumped(n.children[k]), numParams, rest, handle);
        if r.None? then None
        else
          var j := NewPosition(n.children, n.children[k].priority + 1, k);
          Some(m.(indices := Move(n.indices, k, j), children := Move(n.children[k := r.value], k, j)))
      else AddChild(m, numParams, rest, handle)
  }

  /** Registers a handle for a path; None when the original panics. */
  function AddRoute<H>(n: Node<H>, path: string, handle: H): Option<Node<H>>
    requires Registrable(path) && (n == Root() || (WF(n) && n.nType.Static? && n.path != "" && n.path[0] == '/'))
  {
    if |n.path| > 0 || |n.children| > 0 then Walk(Bumped(n), CountParams(path), path, handle)
    else InsertChild(Bumped(n), CountParams(path), path, handle)
  }

  const MAX_PARAMS := 255

  /** Paths begin with '/', have at most one parameter in a segment, no catch-all, and fewer parameters
      than the counter of the original can hold. */
  ghost predicate Registrable(path: string) {
    path != "" && path[0] == '/' && Simple(path) && '*' !in path && CountParams(path) < MAX_PARAMS
  }

  // ---- Facts about paths ----

  lemma {:induction false} CountSum(a: string, b: string)
    ensures CountParams(a + b) == CountParams(a) + CountParams(b)
  {
    if a == "" {
      assert a + b == b;
    } else {
      assert (a + b)[1..] == a[1..] + b;
      CountSum(a[1..], b);
    }
  }

  lemma {:induction false} CountNone(a: string)
    requires NoColon(a)
    ensures CountParams(a) == 0
  {
    if a != "" { CountNone(a[1..]); }
  }

  /** Cutting static text off the front changes neither the count nor the shape. */
  lemma {:induction false} CutStatic(path: string, i: nat)
    requires Simple(path) && i <= |path| && NoColon(path[..i])
    ensures Simple(path[i..]) && CountParams(path[i..]) == CountParams(path)
    decreases i
  {
    if i > 0 {
      assert path[..i][0] == path[0];
      CutOne(path);
      assert path[1..][..i - 1] == path[..i][1..];
      CutStatic(path[1..], i - 1);
      assert path[1..][i - 1..] == path[i..];
    } else {
      assert path[0..] == path;
    }
  }

  lemma CutOne(path: string)
    requires Simple(path) && path != "" && path[0] != ':'
    ensures Simple(path[1..]) && CountParams(path[1..]) == CountParams(path)
  {
  }

  lemma Slices(path: string, i: nat, a: nat, b: nat)
    requires i + a <= i + b <= |path|
    ensures path[i..][a..b] == path[i + a..i + b] && path[i..][b..] == path[i + b..]
  {
  }

  lemma SegmentCut(path: string, i: nat, from: nat)
    requires i <= from <= |path|
    ensures SegmentEnd(path[i..], from - i) == SegmentEnd(path, from) - i
    decreases |path| - from
  {
    if from < |path| {
      assert path[i..][from - i] == path[from];
      if path[from] != '/' { SegmentCut(path, i, from + 1); }
    }
  }

  /** A path that begins with a parameter: its text, and what follows it. */
  lemma ParamFront(path: string)
    requires Simple(path) && path != "" && path[0] == ':'
    ensures var e := SegmentEnd(path, 1);
      && Simple(path[e..]) && CountParams(path[e..]) + 1 == CountParams(path)
      && NoColon(path[1..e])
  {
    RestOfSegment(path, 1);
  }

  lemma {:induction false} RestOfSegment(path: string, from: nat)
    requires from <= |path| && OneEach(path[from..], true)
    ensures var e := SegmentEnd(path, from);
      && Simple(path[e..]) && CountParams(path[e..]) == CountParams(path[from..])
      && NoColon(path[from..e])
    decreases |path| - from
  {
    if from < |path| && path[from] != '/' {
      assert path[from..][1..] == path[from + 1..];
      RestOfSegment(path, from + 1);
      var e := SegmentEnd(path, from);
      assert path[from..e] == [path[from]] + path[from + 1..e];
    }
  }

  // ---- What Walk relies on ----

  /** The step from a node to the child that a round continues with. */
  lemma AfterEdge<H>(n: Node<H>, numParams: nat, path: string)
    requires Reaches(n, numParams, path) && n.path <= path && |n.path| < |path|
    ensures Simple(path[|n.path|..]) && numParams == CountParams(path[|n.path|..])
    ensures n.nType.Param? ==> path[|n.path|] == '/'
    ensures forall k | 0 <= k < |n.children| :: Height(n.children[k]) < Height(n) && WF(n.children[k])
    ensures forall k | 0 <= k < |n.children| && !n.wildChild && Joins(n, k, path[|n.path|]) ::
      Reaches(Bumped(n.children[k]), numParams, path[|n.path|..]) && Height(Bumped(n.children[k])) < Height(n)
  {
    assert path[..|n.path|] == n.path;
    if n.nType.Static? { CutStatic(path, |n.path|); }
    forall k | 0 <= k < |n.children| ensures Height(n.children[k]) < Height(n) && WF(n.children[k]) {
      ChildHeight(n.children, k);
    }
    hide Simple, CountParams, SegmentEnd, CommonPrefix;
    forall k | 0 <= k < |n.children| && !n.wildChild && Joins(n, k, path[|n.path|])
      ensures Reaches(Bumped(n.children[k]), numParams, path[|n.path|..])
    {
      BumpedWF(n.children[k]);
    }
  }

  /** A static child that takes a path going on with c. */
  ghost predicate Joins<H>(n: Node<H>, k: nat, c: char)
    requires k < |n.children|
  {
    if n.nType.Param? then c == '/' else k < |n.indices| && n.indices[k] == c
  }

  lemma BumpedWF<H>(n: Node<H>)
    requires WF(n)
    ensures WF(Bumped(n)) && forall m :: WF(Widened(n, m))
  {
  }

  lemma ParamReached<H>(n: Node<H>, numParams: nat, path: string)
    requires Reaches(n, numParams, path) && n.path <= path && |n.path| < |path| && n.wildChild
    requires var rest, c := path[|n.path|..], n.children[0];
      WF(n) && c.path <= rest && (|c.path| == |rest| || rest[|c.path|] == '/')
    ensures numParams > 0 && Reaches(Widened(Bumped(n.children[0]), numParams), numParams - 1, path[|n.path|..])
  {
    AfterEdge(n, numParams, path);
    BumpedWF(n.children[0]);
    BumpedWF(Bumped(n.children[0]));
    var rest, c := path[|n.path|..], n.children[0];
    assert WF(c) && rest[..|c.path|] == c.path;
    ParamFront(rest);
    EndOfParam(rest, c.path);
  }

  lemma EndOfParam(rest: string, p: string)
    requires ParamPath(p) && p <= rest && (|p| == |rest| || rest[|p|] == '/')
    ensures SegmentEnd(rest, 1) == |p|
  {
    assert forall k | 1 <= k < |p| :: rest[k] == p[k];
    SegmentFirst(rest, 1);
  }
}
