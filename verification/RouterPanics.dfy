/** When a registration panics, told from the patterns alone. */
module RouterPanics {
  import opened Router
  import opened RouterRoutes
  import opened RouterRank
  import opened RouterLookup

  // ---- Patterns that cannot stand together ----

  /** Every parameter has a name. */
  ghost predicate NamesOk(p: string) {
    forall k | 0 <= k < |p| && p[k] == ':' :: k + 1 < |p| && p[k + 1] != '/'
  }

  /** The position is after a ':', in the same segment. */
  ghost predicate InName(p: string, k: nat)
    requires k <= |p|
  {
    exists j | 0 <= j < k :: p[j] == ':' && '/' !in p[j..k]
  }

  predicate SegmentEnds(p: string, k: nat)
    requires k <= |p|
  {
    k == |p| || p[k] == '/'
  }

  /** Where the common prefix ends: both patterns go on, and one with a parameter; or they part inside the
      name of a parameter. Or they are the same. */
  ghost predicate Conflict(a: string, b: string) {
    var k := CommonPrefix(a, b);
    || a == b
    || (k < |a| && k < |b| && (a[k] == ':' || b[k] == ':'))
    || (InName(a, k) && !(SegmentEnds(a, k) && SegmentEnds(b, k)))
  }

  lemma PrefixIs(a: string, b: string, k: nat)
    requires k <= |a| && k <= |b| && a[..k] == b[..k] && (k < |a| && k < |b| ==> a[k] != b[k])
    ensures CommonPrefix(a, b) == k
  {
    var c := CommonPrefix(a, b);
    assert forall i | 0 <= i < k :: a[i] == a[..k][i] == b[i];
    assert forall i | 0 <= i < c :: a[i] == a[..c][i] == b[i];
  }

  lemma InNameSame(a: string, b: string, k: nat)
    requires k <= |a| && k <= |b| && a[..k] == b[..k]
    ensures InName(a, k) <==> InName(b, k)
  {
    assert forall j | 0 <= j < k :: a[j] == a[..k][j] == b[j];
    assert forall j | 0 <= j < k :: a[j..k] == a[..k][j..] == b[j..k];
  }

  /** It does not matter which of the two was there first. */
  lemma ConflictSymmetric(a: string, b: string)
    ensures Conflict(a, b) <==> Conflict(b, a)
  {
    hide InName;
    var k := CommonPrefix(a, b);
    PrefixIs(b, a, k);
    InNameSame(a, b, k);
  }

  // ---- The same for what follows a common text ----

  lemma NoName(p: string, k: nat)
    requires k <= |p| && NoColon(p[..k])
    ensures !InName(p, k)
  {
    assert forall j | 0 <= j < k :: p[j] == p[..k][j];
  }

  lemma Crosses(c: string, a: string, k: nat, j: nat)
    requires j < |c| && 0 < k <= |a| && a[0] == '/'
    ensures '/' in (c + a)[j..|c| + k]
  {
    assert (c + a)[j..|c| + k][|c| - j] == a[0];
  }

  lemma SliceAfter(c: string, a: string, j: nat, k: nat)
    requires j <= k <= |a|
    ensures (c + a)[|c| + j..|c| + k] == a[j..k]
  {
  }

  lemma NameAfter(c: string, a: string, k: nat)
    requires k <= |a| && (NoColon(c) || (k > 0 && a[0] == '/')) && InName(c + a, |c| + k)
    ensures InName(a, k)
  {
    var p := c + a;
    var j :| 0 <= j < |c| + k && p[j] == ':' && '/' !in p[j..|c| + k];
    if j < |c| && k > 0 && a[0] == '/' { Crosses(c, a, k, j); }
    assert j >= |c|;
    SliceAfter(c, a, j - |c|, k);
  }

  /** After a common text, in whose last segment no parameter began or after which a new segment begins, the
      rest tells. */
  lemma InNameCut(c: string, a: string, k: nat)
    requires k <= |a| && (NoColon(c) || (k > 0 && a[0] == '/'))
    ensures InName(c + a, |c| + k) <==> InName(a, k)
  {
    if InName(a, k) {
      var j :| 0 <= j < k && a[j] == ':' && '/' !in a[j..k];
      SliceAfter(c, a, j, k);
      assert (c + a)[|c| + j] == ':';
    }
    hide InName;
    if InName(c + a, |c| + k) { NameAfter(c, a, k); }
  }

  lemma ConflictCut(c: string, a: string, b: string)
    requires NoColon(c) || (a != "" && b != "" && a[0] == '/' && b[0] == '/')
    ensures Conflict(c + a, c + b) <==> Conflict(a, b)
  {
    hide InName;
    var k := CommonPrefix(a, b);
    assert (c + a)[..|c| + k] == c + a[..k] && (c + b)[..|c| + k] == c + b[..k];
    PrefixIs(c + a, c + b, |c| + k);
    InNameCut(c, a, k);
    assert c + a == c + b ==> a == b by {
      if c + a == c + b { assert (c + a)[|c|..] == a && (c + b)[|c|..] == b; }
    }
  }

  /** Texts that begin with different characters, none of them ':'. */
  lemma ApartFirst(a: string, b: string)
    requires a != "" && b != "" && a[0] != b[0]
    ensures Conflict(a, b) <==> a[0] == ':' || b[0] == ':'
  {
    PrefixIs(a, b, 0);
    assert a[..0] == "";
    NoName(a, 0);
  }

  /** The texts part in a text without a parameter. */
  lemma ApartStatic(a: string, b: string, k: nat)
    requires k < |a| && k <= |b| && a[..k] == b[..k] && NoColon(a[..k]) && a[k] != ':' && (k < |b| ==> a[k] != b[k])
    ensures Conflict(a, b) <==> k < |b| && b[k] == ':'
  {
    PrefixIs(a, b, k);
    NoName(a, k);
  }

  /** One of them ends where the other goes on: with a static text before, or with a new segment. */
  lemma OneEnds(c: string, a: string)
    requires a != "" && (NoColon(c) || a[0] == '/')
    ensures !Conflict(c + a, c) && !Conflict(c, c + a)
  {
    var p := c + a;
    assert p[..|c|] == c == c[..|c|];
    PrefixIs(p, c, |c|);
    PrefixIs(c, p, |c|);
    if NoColon(c) {
      NoName(p, |c|);
      NoName(c, |c|);
    }
  }

  lemma NameSoFar(p: string, q: string, k: nat)
    requires ParamPath(p) && p <= q && 0 < k <= |p|
    ensures InName(q, k) && (k < |p| ==> !SegmentEnds(q, k))
  {
    assert forall i | 0 <= i < |p| :: q[i] == p[i];
    assert q[0] == ':' && '/' !in q[0..k];
  }

  /** A parameter, and a text that does not begin with the same parameter. */
  lemma OtherParam(p: string, q: string, rest: string)
    requires ParamPath(p) && p <= q && (|q| > |p| ==> q[|p|] == '/') && rest != ""
    requires !(p <= rest && (|p| == |rest| || rest[|p|] == '/'))
    ensures Conflict(q, rest)
  {
    assert q[..|p|] == p;
    if rest[0] != ':' {
      ApartFirst(q, rest);
    } else {
      var k := CommonPrefix(q, rest);
      assert forall i | 0 <= i < k :: q[i] == q[..k][i] == rest[i];
      assert k >= |p| ==> p <= rest;
      NameSoFar(p, q, k);
    }
  }

  lemma NamesCut(c: string, a: string)
    requires NoColon(c) || (ParamPath(c) && (a == "" || a[0] == '/'))
    ensures NamesOk(c + a) <==> NamesOk(a)
  {
    var p := c + a;
    if NamesOk(p) {
      forall k | 0 <= k < |a| && a[k] == ':' ensures k + 1 < |a| && a[k + 1] != '/' {
        assert p[|c| + k] == ':';
        assert p[|c| + k + 1] == a[k + 1];
      }
    }
    if NamesOk(a) {
      forall k | 0 <= k < |p| && p[k] == ':' ensures k + 1 < |p| && p[k + 1] != '/' {
        if k >= |c| {
          assert a[k - |c|] == ':';
        } else {
          assert c[k] == ':' && k == 0 && p[1] == c[1];
        }
      }
    }
  }

  // ---- Every node is on the way to a route ----

  ghost predicate Full<H>(n: Node<H>) {
    (n.handle.Some? || n.children != []) && forall i | 0 <= i < |n.children| :: Full(n.children[i])
  }

  lemma ShapeOf<H>(n: Node<H>)
    requires WF(n)
    ensures n.nType.Param? ==> ParamShape(n)
    ensures n.nType.Static? ==> NoColon(n.path) && if n.wildChild then WildShape(n) else StaticShape(n)
    ensures forall i | 0 <= i < |n.children| :: WF(n.children[i])
  {
    hide ParamShape, StaticShape, WildShape, NoColon, ParamPath;
  }

  lemma TextOf<H>(n: Node<H>)
    requires WF(n)
    ensures n.nType.Param? ==> ParamPath(n.path)
    ensures n.nType.Static? ==> NoColon(n.path)
  {
    hide ParamShape, StaticShape, WildShape, NoColon, ParamPath;
  }

  lemma ChildPath<H>(n: Node<H>, i: nat)
    requires WF(n) && i < |n.children|
    ensures WF(n.children[i]) && n.children[i].path != ""
    ensures n.nType.Param? ==> n.children[i].path[0] == '/'
    ensures n.wildChild ==> n.nType.Static? && n.children[i].nType.Param? && ParamPath(n.children[i].path)
    ensures n.nType.Static? && !n.wildChild ==> n.children[i].nType.Static? && NoColon(n.children[i].path)
  {
    ShapeOf(n);
    TextOf(n.children[i]);
    hide WF, NoColon;
  }

  lemma {:induction false} SomeRoute<H>(n: Node<H>) returns (pat: string, h: H)
    requires WF(n) && Full(n)
    ensures Has(n, pat, h) && n.path <= pat
    ensures n.nType.Param? && |pat| > |n.path| ==> pat[|n.path|] == '/'
  {
    if n.handle.Some? {
      pat, h := n.path, n.handle.value;
      assert n.path + "" == n.path;
      HasParts(n, "", h);
    } else {
      var q;
      q, h := SomeRoute(n.children[0]);
      ChildPath(n, 0);
      HasFirst(n.children[0], q, h);
      pat := n.path + q;
      assert Has(n.children[0], q, h);
      HasParts(n, q, h);
    }
  }

  lemma OneFull<H>(n: Node<H>, c: Node<H>)
    requires n.children == [c] && Full(c)
    ensures Full(n)
  {
  }

  lemma LeafFull<H>(n: Node<H>)
    requires n.handle.Some? && n.children == []
    ensures Full(n)
  {
  }

  lemma {:induction false} InsertFull<H>(n: Node<H>, numParams: nat, path: string, handle: H)
    requires InsertChild(n, numParams, path, handle).Some? && (numParams == 0 ==> n.children == [])
    ensures Full(InsertChild(n, numParams, path, handle).value)
    decreases |path|
  {
    hide Colon, SegmentEnd, Full;
    var r := InsertChild(n, numParams, path, handle).value;
    if numParams == 0 {
      LeafFull(r);
    } else {
      var end := SegmentEnd(path, Colon(path) + 1);
      if end < |path| {
        var empty := Node("", false, Static, numParams - 1, [], [], None, 1);
        InsertFull(empty, numParams - 1, path[end..], handle);
        OneFull(r.children[0], InsertChild(empty, numParams - 1, path[end..], handle).value);
      } else {
        LeafFull(r.children[0]);
      }
      OneFull(r, r.children[0]);
    }
  }

  lemma MoveFull<H>(s: seq<Node<H>>, from: nat, to: nat)
    requires to <= from < |s| && forall i | 0 <= i < |s| :: Full(s[i])
    ensures forall i | 0 <= i < |s| :: Full(Move(s, from, to)[i])
    ensures |Move(s, from, to)| == |s|
  {
    hide Full;
    MoveShape(s, from, to);
    var m := Move(s, from, to);
    forall i | 0 <= i < |s| ensures Full(m[i]) {
      assert m[i] == s[if i == to then from else if to < i <= from then i - 1 else i];
    }
  }

  lemma AddChildFull<H>(s: Node<H>, numParams: nat, rest: string, handle: H)
    requires rest != "" && |s.indices| == |s.children| && AddChild(s, numParams, rest, handle).Some?
    requires (forall i | 0 <= i < |s.children| :: Full(s.children[i])) && (rest[0] == ':' ==> numParams > 0)
    ensures Full(AddChild(s, numParams, rest, handle).value)
  {
    if rest[0] == ':' {
      InsertFull(s, numParams, rest, handle);
    } else {
      var empty := Node("", false, Static, numParams, [], [], None, 1);
      InsertFull(empty, numParams, rest, handle);
      var children, last := s.children + [InsertChild(empty, numParams, rest, handle).value], |s.children|;
      var j := NewPosition(children, 1, last);
      MoveFull(children, last, j);
    }
  }

  /** What is left when an edge is split. */
  lemma SplitParams<H>(n: Node<H>, numParams: nat, path: string, i: nat)
    requires Reaches(n, numParams, path) && i == CommonPrefix(path, n.path) && i < |n.path| && i < |path|
    ensures n.nType.Static? && NoColon(n.path) && Simple(path[i..]) && numParams == CountParams(path[i..])
    ensures path[i] == ':' ==> numParams > 0
  {
    PrefixPositive(path, n.path);
    StaticPrefix(n.path, path, i);
    CutStatic(path, i);
    if path[i] == ':' { ParamFront(path[i..]); }
  }

  lemma SplitFull<H>(n: Node<H>, numParams: nat, path: string, handle: H, i: nat)
    requires Reaches(n, numParams, path) && Full(n) && Walk(n, numParams, path, handle).Some?
    requires i == CommonPrefix(path, n.path) && i < |n.path|
    ensures Full(Walk(n, numParams, path, handle).value)
  {
    hide WF, Simple, CountParams, AddChild;
    var s := Split(Widened(n, numParams), i);
    assert Full(s.children[0]);
    if i < |path| {
      SplitParams(n, numParams, path, i);
      AddChildFull(s, numParams, path[i..], handle);
    }
  }

  lemma OneParam<H>(n: Node<H>, numParams: nat, path: string)
    requires Reaches(n, numParams, path) && n.wildChild
    ensures |n.children| == 1 && WF(n.children[0]) && n.children[0].nType.Param? && n.nType.Static?
  {
  }

  lemma Listed<H>(n: Node<H>, k: nat)
    requires WF(n) && !n.wildChild && k < |n.indices|
    ensures k < |n.children| && n.children[k].path != "" && n.indices[k] == n.children[k].path[0]
    ensures n.nType.Param? ==> |n.children| == 1
  {
  }

  lemma NoneListed<H>(n: Node<H>, c: char)
    requires WF(n) && !n.wildChild && IndexOf(n.indices, c) == |n.indices|
    requires n.nType.Param? ==> c == '/' && |n.children| != 1
    ensures |n.indices| == |n.children|
  {
  }

  lemma {:induction false} BelowFull<H>(n: Node<H>, numParams: nat, path: string, handle: H)
    requires Reaches(n, numParams, path) && n.path <= path && |n.path| < |path| && Full(n)
    requires WalkBelow(n, numParams, path, handle).Some?
    ensures Full(WalkBelow(n, numParams, path, handle).value)
    decreases Height(n), 0
  {
    hide WF, Simple, CountParams;
    var m := Widened(n, numParams);
    var rest := path[|n.path|..];
    AfterEdge(n, numParams, path);
    if n.wildChild {
      OneParam(n, numParams, path);
      ParamReached(n, numParams, path);
      WalkFull(Widened(Bumped(n.children[0]), numParams), numParams - 1, rest, handle);
    } else if n.nType.Param? && rest[0] == '/' && |n.children| == 1 {
      assert Joins(n, 0, rest[0]);
      WalkFull(Bumped(n.children[0]), numParams, rest, handle);
    } else {
      var k := IndexOf(n.indices, rest[0]);
      if k < |n.indices| {
        Listed(n, k);
        assert Joins(n, k, rest[0]);
        WalkFull(Bumped(n.children[k]), numParams, rest, handle);
        var d := Walk(Bumped(n.children[k]), numParams, rest, handle).value;
        MoveFull(n.children[k := d], k, NewPosition(n.children, n.children[k].priority + 1, k));
      } else {
        NoneListed(n, rest[0]);
        if rest[0] == ':' { ParamFront(rest); }
        AddChildFull(m, numParams, rest, handle);
      }
    }
  }

  lemma {:induction false} WalkFull<H>(n: Node<H>, numParams: nat, path: string, handle: H)
    requires Reaches(n, numParams, path) && Full(n) && Walk(n, numParams, path, handle).Some?
    ensures Full(Walk(n, numParams, path, handle).value)
    decreases Height(n), 1
  {
    hide WF, Simple, CountParams;
    var i := CommonPrefix(path, n.path);
    if i < |n.path| {
      SplitFull(n, numParams, path, handle, i);
    } else if i < |path| {
      BelowFull(n, numParams, path, handle);
    }
  }

  // ---- Exactly when a registration succeeds ----

  /** No route of the tree conflicts with the pattern. */
  ghost predicate Free<H(!new)>(n: Node<H>, path: string) {
    forall pat, h | Has(n, pat, h) :: !Conflict(pat, path)
  }

  ghost predicate AllFree<H(!new)>(children: seq<Node<H>>, path: string) {
    forall i | 0 <= i < |children| :: Free(children[i], path)
  }

  lemma NoNameAt(path: string, i: nat)
    requires i < |path| && path[i] == ':' && SegmentEnd(path, i + 1) - i < 2
    ensures !NamesOk(path)
  {
  }

  /** The names of a path are those of its first parameter and of what follows. */
  lemma FirstName(path: string)
    requires Simple(path) && CountParams(path) > 0
    ensures var i := Colon(path);
      && i < |path| && var end := SegmentEnd(path, i + 1);
      NamesOk(path) <==> end - i >= 2 && NamesOk(path[end..])
  {
    hide Simple, CountParams, Colon, NoColon, SegmentEnd, NamesOk;
    FrontOfParam(path, CountParams(path));
    var i := Colon(path);
    var end := SegmentEnd(path, i + 1);
    ColonPrefix(path);
    assert path == path[..i] + path[i..];
    NamesCut(path[..i], path[i..]);
    if end - i < 2 {
      NoNameAt(path, i);
    } else {
      ParamText(path, i);
      assert path[i..] == path[i..end] + path[end..];
      NamesCut(path[i..end], path[end..]);
    }
  }

  lemma InsertCases<H>(n: Node<H>, numParams: nat, path: string, handle: H)
    requires n.children == [] && numParams > 0 && Colon(path) < |path|
    ensures var i := Colon(path);
      var end := SegmentEnd(path, i + 1);
      InsertChild(n, numParams, path, handle).Some? <==>
        end - i >= 2
        && (end < |path| ==>
              InsertChild(Node("", false, Static, numParams - 1, [], [], None, 1), numParams - 1, path[end..], handle).Some?)
  {
    hide Colon, SegmentEnd;
  }

  lemma InsertLeaf<H>(n: Node<H>, path: string, handle: H)
    ensures InsertChild(n, 0, path, handle).Some?
  {
  }

  lemma NoNames(path: string)
    requires NoColon(path)
    ensures NamesOk(path)
  {
  }

  lemma NothingNamed(path: string, end: nat)
    requires end == |path|
    ensures NamesOk(path[end..])
  {
  }

  lemma {:induction false} InsertExactly<H>(n: Node<H>, numParams: nat, path: string, handle: H)
    requires n.children == [] && Simple(path) && numParams == CountParams(path)
    ensures InsertChild(n, numParams, path, handle).Some? <==> NamesOk(path)
    decreases |path|
  {
    hide Simple, CountParams, Colon, NoColon, SegmentEnd, NamesOk, InsertChild;
    if numParams == 0 {
      NoParams(path);
      NoNames(path);
      InsertLeaf(n, path, handle);
    } else {
      FrontOfParam(path, numParams);
      FirstName(path);
      InsertCases(n, numParams, path, handle);
      var end := SegmentEnd(path, Colon(path) + 1);
      if end < |path| {
        InsertExactly(Node("", false, Static, numParams - 1, [], [], None, 1), numParams - 1, path[end..], handle);
      } else {
        NothingNamed(path, end);
      }
    }
  }

  lemma NotBeside<H>(s: Node<H>, numParams: nat, rest: string, handle: H)
    requires s.children != [] && numParams > 0
    ensures InsertChild(s, numParams, rest, handle).None?
  {
  }

  /** Adding a child works exactly when no child stands in the way of a parameter, and names are there. */
  lemma AddChildExactly<H>(s: Node<H>, numParams: nat, rest: string, handle: H)
    requires rest != "" && |s.indices| == |s.children| && Simple(rest) && numParams == CountParams(rest)
    ensures AddChild(s, numParams, rest, handle).Some? <==> NamesOk(rest) && (rest[0] == ':' ==> s.children == [])
  {
    hide Simple, CountParams, NamesOk, InsertChild;
    if rest[0] == ':' {
      ParamFront(rest);
      if s.children == [] { InsertExactly(s, numParams, rest, handle); } else { NotBeside(s, numParams, rest, handle); }
    } else {
      InsertExactly(Node("", false, Static, numParams, [], [], None, 1), numParams, rest, handle);
    }
  }

  lemma HasPrefix<H>(n: Node<H>, pat: string, h: H)
    requires Has(n, pat, h)
    ensures n.path <= pat && pat == n.path + pat[|n.path|..] && Below(n, pat[|n.path|..], h)
  {
  }

  /** A pattern that leaves the edge of a node: it conflicts if it goes on with a parameter. */
  lemma SplitFree<H(!new)>(n: Node<H>, path: string, i: nat)
    requires WF(n) && Full(n) && NoColon(n.path) && i == CommonPrefix(path, n.path) && i < |n.path|
    ensures Free(n, path) <==> (i == |path| || path[i] != ':')
    ensures i == |path| ==> NamesOk(path)
    ensures NamesOk(path) <==> NamesOk(path[i..])
  {
    hide Has, Conflict, NamesOk, Full;
    StaticPrefix(n.path, path, i);
    assert path == path[..i] + path[i..];
    NamesCut(path[..i], path[i..]);
    if i == |path| { assert path[..i] == path; NoNames(path); }
    forall pat, h | Has(n, pat, h) ensures Conflict(pat, path) <==> i < |path| && path[i] == ':' {
      HasPrefix(n, pat, h);
      assert forall k | 0 <= k < |n.path| :: pat[k] == n.path[k];
      assert pat[..i] == n.path[..i];
      ApartStatic(pat, path, i);
    }
    var pat, h := SomeRoute(n);
  }

  lemma SameConflict(p: string)
    ensures Conflict(p, p)
  {
  }

  lemma BelowHere<H>(n: Node<H>, h: H)
    ensures Below(n, "", h) <==> n.handle == Some(h)
  {
  }

  lemma NodeNames<H>(n: Node<H>)
    requires WF(n)
    ensures NamesOk(n.path)
  {
  }

  /** What is below a node comes from a child, and begins a segment if the node is a parameter. */
  lemma BelowNode<H>(n: Node<H>, q: string, h: H)
    requires WF(n) && Below(n, q, h) && q != ""
    ensures exists i :: 0 <= i < |n.children| && Has(n.children[i], q, h)
    ensures NoColon(n.path) || q[0] == '/'
  {
    var i :| 0 <= i < |n.children| && Has(n.children[i], q, h);
    ChildPath(n, i);
    HasFirst(n.children[i], q, h);
  }

  /** A pattern that ends at a node: it conflicts if the node has a handle. */
  lemma EndFree<H(!new)>(n: Node<H>)
    requires WF(n) && n.path != ""
    ensures Free(n, n.path) <==> n.handle.None?
    ensures NamesOk(n.path)
  {
    hide Has, Below, Conflict;
    assert n.path + "" == n.path;
    forall pat, h | Has(n, pat, h) ensures Conflict(pat, n.path) <==> pat == n.path {
      HasPrefix(n, pat, h);
      var q := pat[|n.path|..];
      if q == "" {
        SameConflict(pat);
      } else {
        BelowNode(n, q, h);
        OneEnds(n.path, q);
      }
    }
    forall h ensures Has(n, n.path, h) <==> n.handle == Some(h) {
      HasParts(n, "", h);
      BelowHere(n, h);
    }
    if n.handle.Some? { assert Has(n, n.path, n.handle.value); SameConflict(n.path); }
    NodeNames(n);
  }

  lemma StaticOrParam<H>(n: Node<H>)
    requires WF(n)
    ensures NoColon(n.path) || (n.nType.Param? && ParamPath(n.path))
  {
  }

  lemma UnderChild<H>(n: Node<H>, i: nat, q: string, h: H)
    requires i < |n.children| && Has(n.children[i], q, h) && q != ""
    ensures Below(n, q, h)
  {
  }

  /** A pattern that goes on below a node conflicts with what its rest conflicts with below. */
  lemma BelowFree<H(!new)>(n: Node<H>, rest: string)
    requires WF(n) && rest != "" && (n.nType.Param? ==> rest[0] == '/')
    ensures Free(n, n.path + rest) <==> AllFree(n.children, rest)
    ensures NamesOk(n.path + rest) <==> NamesOk(rest)
  {
    hide Has, Below, Conflict, NamesOk;
    StaticOrParam(n);
    NamesCut(n.path, rest);
    if AllFree(n.children, rest) {
      forall pat, h | Has(n, pat, h) ensures !Conflict(pat, n.path + rest) {
        HasPrefix(n, pat, h);
        var q := pat[|n.path|..];
        if q == "" {
          assert pat == n.path;
          OneEnds(n.path, rest);
        } else {
          BelowNode(n, q, h);
          ConflictCut(n.path, q, rest);
          var i :| 0 <= i < |n.children| && Has(n.children[i], q, h);
          assert Free(n.children[i], rest);
        }
      }
    }
    if Free(n, n.path + rest) {
      forall i, q, h | 0 <= i < |n.children| && Has(n.children[i], q, h) ensures !Conflict(q, rest) {
        ChildPath(n, i);
        HasFirst(n.children[i], q, h);
        UnderChild(n, i, q, h);
        HasParts(n, q, h);
        ConflictCut(n.path, q, rest);
      }
    }
  }

  lemma SameFree<H(!new)>(n: Node<H>, c: Node<H>, path: string)
    requires c.path == n.path && c.children == n.children && c.handle == n.handle
    ensures Free(c, path) <==> Free(n, path)
    ensures Full(c) <==> Full(n)
  {
    hide Has, Conflict;
    HasSame(n, c);
  }

  lemma SplitStatic<H>(n: Node<H>, numParams: nat, path: string, i: nat)
    requires Reaches(n, numParams, path) && i == CommonPrefix(path, n.path) && i < |n.path|
    ensures NoColon(n.path)
  {
    PrefixPositive(path, n.path);
  }

  lemma SplitExactly<H(!new)>(n: Node<H>, numParams: nat, path: string, handle: H, i: nat)
    requires Reaches(n, numParams, path) && Full(n) && i == CommonPrefix(path, n.path) && i < |n.path|
    ensures Walk(n, numParams, path, handle).Some? <==> NamesOk(path) && Free(n, path)
  {
    hide WF, Simple, CountParams, NamesOk, Free, Full, AddChild;
    if i < |path| {
      SplitParams(n, numParams, path, i);
      SplitFree(n, path, i);
      AddChildExactly(Split(Widened(n, numParams), i), numParams, path[i..], handle);
    } else {
      SplitStatic(n, numParams, path, i);
      SplitFree(n, path, i);
    }
  }

  lemma FullBelow<H>(n: Node<H>)
    requires Full(n)
    ensures forall i | 0 <= i < |n.children| :: Full(n.children[i])
  {
  }

  lemma OneFree<H(!new)>(children: seq<Node<H>>, rest: string)
    requires |children| == 1
    ensures AllFree(children, rest) <==> Free(children[0], rest)
  {
    hide Free;
  }

  /** The parameter in place conflicts with everything that does not begin with it. */
  lemma WildBlocks<H(!new)>(c: Node<H>, rest: string)
    requires WF(c) && Full(c) && c.nType.Param? && rest != ""
    requires !(c.path <= rest && (|c.path| == |rest| || rest[|c.path|] == '/'))
    ensures !Free(c, rest)
  {
    hide Has, Conflict, Full;
    var pat, h := SomeRoute(c);
    OtherParam(c.path, pat, rest);
  }

  /** Children that begin with another character are no obstacle. */
  lemma OthersFree<H(!new)>(n: Node<H>, k: nat, rest: string)
    requires WF(n) && !n.wildChild && k < |n.indices| && k < |n.children| && rest != "" && n.indices[k] == rest[0]
    ensures AllFree(n.children, rest) <==> Free(n.children[k], rest)
  {
    hide Has, Conflict;
    ChildPath(n, k);
    assert n.children[k].path[0] == rest[0] && rest[0] != ':';
    forall i, q, h | 0 <= i < |n.children| && i != k && Has(n.children[i], q, h) ensures !Conflict(q, rest) {
      ChildPath(n, i);
      HasFirst(n.children[i], q, h);
      ApartFirst(q, rest);
    }
  }

  /** With no child for the next character, only a parameter meets an obstacle, which is any child. */
  lemma NewFree<H(!new)>(n: Node<H>, rest: string)
    requires WF(n) && !n.wildChild && rest != "" && forall i | 0 <= i < |n.children| :: Full(n.children[i])
    requires forall i | 0 <= i < |n.children| :: n.children[i].path[0] != rest[0]
    ensures AllFree(n.children, rest) <==> (rest[0] == ':' ==> n.children == [])
  {
    hide Has, Conflict, Full;
    forall i, q, h | 0 <= i < |n.children| && Has(n.children[i], q, h) ensures Conflict(q, rest) <==> rest[0] == ':' {
      ChildPath(n, i);
      HasFirst(n.children[i], q, h);
      ApartFirst(q, rest);
    }
    if n.children != [] {
      ChildPath(n, 0);
      var q, h := SomeRoute(n.children[0]);
    }
  }

  lemma {:induction false} BelowExactly<H(!new)>(n: Node<H>, numParams: nat, path: string, handle: H)
    requires Reaches(n, numParams, path) && n.path <= path && |n.path| < |path| && Full(n)
    ensures WalkBelow(n, numParams, path, handle).Some? <==> NamesOk(path) && Free(n, path)
    decreases Height(n), 0
  {
    hide WF, Simple, CountParams, NamesOk, Free, Full, AllFree, Conflict;
    var m := Widened(n, numParams);
    var rest := path[|n.path|..];
    assert path == n.path + rest;
    AfterEdge(n, numParams, path);
    BelowFree(n, rest);
    FullBelow(n);
    if n.wildChild {
      OneParam(n, numParams, path);
      var c := n.children[0];
      OneFree(n.children, rest);
      if c.path <= rest && (|c.path| == |rest| || rest[|c.path|] == '/') {
        ParamReached(n, numParams, path);
        SameFree(c, Widened(Bumped(c), numParams), rest);
        WalkExactly(Widened(Bumped(c), numParams), numParams - 1, rest, handle);
      } else {
        WildBlocks(c, rest);
      }
    } else if n.nType.Param? && rest[0] == '/' && |n.children| == 1 {
      assert Joins(n, 0, rest[0]);
      OneFree(n.children, rest);
      SameFree(n.children[0], Bumped(n.children[0]), rest);
      WalkExactly(Bumped(n.children[0]), numParams, rest, handle);
    } else {
      var k := IndexOf(n.indices, rest[0]);
      if k < |n.indices| {
        Listed(n, k);
        assert Joins(n, k, rest[0]);
        OthersFree(n, k, rest);
        SameFree(n.children[k], Bumped(n.children[k]), rest);
        WalkExactly(Bumped(n.children[k]), numParams, rest, handle);
      } else {
        NoneJoins(n, rest[0]);
        NewFree(n, rest);
        AddChildExactly(m, numParams, rest, handle);
      }
    }
  }

  lemma {:induction false} WalkExactly<H(!new)>(n: Node<H>, numParams: nat, path: string, handle: H)
    requires Reaches(n, numParams, path) && Full(n)
    ensures Walk(n, numParams, path, handle).Some? <==> NamesOk(path) && Free(n, path)
    decreases Height(n), 1
  {
    hide WF, Simple, CountParams, NamesOk, Free, Full;
    var i := CommonPrefix(path, n.path);
    if i < |n.path| {
      SplitExactly(n, numParams, path, handle, i);
    } else if i == |path| {
      assert path[..i] == n.path[..i];
      assert path == n.path;
      EndFree(n);
    } else {
      assert n.path <= path;
      BelowExactly(n, numParams, path, handle);
    }
  }

  // ---- Lists of patterns ----

  lemma EmptyFree<H(!new)>(path: string)
    ensures Free(Root<H>(), path)
  {
    RootEmpty<H>();
  }

  lemma AddRouteExactly<H(!new)>(n: Node<H>, path: string, handle: H)
    requires Registrable(path) && Tree(n) && (n == Root() || Full(n))
    ensures AddRoute(n, path, handle).Some? <==> NamesOk(path) && Free(n, path)
    ensures AddRoute(n, path, handle).Some? ==> Full(AddRoute(n, path, handle).value)
  {
    hide NamesOk, Free, Full;
    var b := Bumped(n);
    if |n.path| > 0 || |n.children| > 0 {
      BumpedWF(n);
      SameFree(n, b, path);
      WalkExactly(b, CountParams(path), path, handle);
      if AddRoute(n, path, handle).Some? { WalkFull(b, CountParams(path), path, handle); }
    } else {
      InsertExactly(b, CountParams(path), path, handle);
      EmptyFree<H>(path);
      if AddRoute(n, path, handle).Some? { InsertFull(b, CountParams(path), path, handle); }
    }
  }

  lemma {:induction false} BuildFull<H(!new)>(routes: seq<(string, H)>)
    requires forall i | 0 <= i < |routes| :: Registrable(routes[i].0)
    requires Build(routes).Some?
    ensures Build(routes).value == Root() || Full(Build(routes).value)
    decreases |routes|
  {
    hide Registrable, AddRoute, WF, Full;
    if routes != [] {
      var last := |routes| - 1;
      BuildFull(routes[..last]);
      AddRouteExactly(Build(routes[..last]).value, routes[last].0, routes[last].1);
    }
  }

  /** One more registration succeeds exactly when the parameters of the pattern have names and it conflicts
      with no pattern registered before. */
  lemma RegistrationExactly<H(!new)>(routes: seq<(string, H)>, p: string, h: H)
    requires Registrable(p) && forall i | 0 <= i < |routes| :: Registrable(routes[i].0)
    requires Build(routes).Some?
    ensures forall i | 0 <= i < |routes + [(p, h)]| :: Registrable((routes + [(p, h)])[i].0)
    ensures Build(routes + [(p, h)]).Some? <==> NamesOk(p) && forall q | q in routes :: !Conflict(q.0, p)
  {
    hide Registrable, AddRoute, WF, Full, Has, Conflict, NamesOk;
    BuildFull(routes);
    BuildHolds(routes);
    var t := Build(routes).value;
    AddRouteExactly(t, p, h);
    var more := routes + [(p, h)];
    assert more[..|more| - 1] == routes && more[|more| - 1] == (p, h);
    assert Free(t, p) <==> forall q | q in routes :: !Conflict(q.0, p) by {
      forall q | q in routes ensures Has(t, q.0, q.1) { assert (q.0, q.1) == q; }
      if Free(t, p) {
        forall q | q in routes ensures !Conflict(q.0, p) { assert Has(t, q.0, q.1); }
      }
    }
  }

  /** All registrations succeed exactly when every parameter has a name and no two patterns conflict. The
      order of the list does not matter to that. */
  lemma {:induction false} BuildExactly<H(!new)>(routes: seq<(string, H)>)
    requires forall i | 0 <= i < |routes| :: Registrable(routes[i].0)
    ensures Build(routes).Some? <==>
      && (forall i | 0 <= i < |routes| :: NamesOk(routes[i].0))
      && forall i, j | 0 <= i < j < |routes| :: !Conflict(routes[i].0, routes[j].0)
    decreases |routes|
  {
    hide Registrable, AddRoute, WF, Full, Has, Conflict, NamesOk;
    if routes != [] {
      var last := |routes| - 1;
      var front := routes[..last];
      BuildExactly(front);
      assert routes == front + [routes[last]] && routes[last] == (routes[last].0, routes[last].1);
      if Build(front).Some? {
        RegistrationExactly(front, routes[last].0, routes[last].1);
        assert forall i | 0 <= i < last :: front[i] == routes[i] && front[i] in front;
      }
    }
  }
}
