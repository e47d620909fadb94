/** The radix tree stands for a flat set of routes, and insertion adds exactly one. */
module RouterRoutes {
  import opened Router

  /** The route `pat` with handle h is in the tree: the texts along some path spell it. */
  ghost predicate Has<H>(n: Node<H>, pat: string, h: H)
    decreases n, 1
  {
    n.path <= pat && Below(n, pat[|n.path|..], h)
  }

  /** The same, for what follows the node's own text. */
  ghost predicate Below<H>(n: Node<H>, rest: string, h: H)
    decreases n, 0
  {
    if rest == "" then n.handle == Some(h)
    else exists i :: 0 <= i < |n.children| && Has(n.children[i], rest, h)
  }

  ghost predicate Any<H>(children: seq<Node<H>>, rest: string, h: H) {
    exists i :: 0 <= i < |children| && Has(children[i], rest, h)
  }

  /** The tree holds the one route and nothing else. */
  ghost predicate Only<H(!new)>(n: Node<H>, pat: string, handle: H) {
    forall p, h :: Has(n, p, h) <==> p == pat && h == handle
  }

  /** The routes of r are those of n and the given one, which is new. */
  ghost predicate Adds<H(!new)>(n: Node<H>, r: Node<H>, pat: string, handle: H) {
    && (forall p, h :: Has(r, p, h) <==> Has(n, p, h) || (p == pat && h == handle))
    && forall h :: !Has(n, pat, h)
  }

  ghost predicate AnyAdds<H(!new)>(a: seq<Node<H>>, b: seq<Node<H>>, pat: string, handle: H) {
    && (forall p, h :: Any(b, p, h) <==> Any(a, p, h) || (p == pat && h == handle))
    && forall h :: !Any(a, pat, h)
  }

  lemma HasParts<H>(n: Node<H>, rest: string, h: H)
    ensures Has(n, n.path + rest, h) <==> Below(n, rest, h)
  {
    assert (n.path + rest)[|n.path|..] == rest;
  }

  lemma HasFirst<H>(n: Node<H>, pat: string, h: H)
    requires Has(n, pat, h) && n.path != ""
    ensures pat != "" && pat[0] == n.path[0]
  {
  }

  /** A node that gains one route below its text gains exactly that route. */
  lemma ParentAdds<H(!new)>(n: Node<H>, r: Node<H>, rest: string, handle: H)
    requires r.path == n.path && r.handle == n.handle && rest != ""
    requires AnyAdds(n.children, r.children, rest, handle)
    ensures Adds(n, r, n.path + rest, handle)
  {
    forall p, h ensures Has(r, p, h) <==> Has(n, p, h) || (p == n.path + rest && h == handle) {
      if n.path <= p {
        var q := p[|n.path|..];
        assert p == n.path + q;
        assert (n.path + rest)[|n.path|..] == rest;
        assert q != "" ==> (Below(r, q, h) <==> Any(r.children, q, h)) && (Below(n, q, h) <==> Any(n.children, q, h));
      }
    }
    forall h ensures !Has(n, n.path + rest, h) {
      HasParts(n, rest, h);
      assert Below(n, rest, h) <==> Any(n.children, rest, h);
    }
  }

  lemma LeafOnly<H(!new)>(n: Node<H>, handle: H)
    requires n.children == [] && n.handle == Some(handle)
    ensures Only(n, n.path, handle)
  {
    forall p, h ensures Has(n, p, h) <==> p == n.path && h == handle {
      if n.path <= p { assert p == n.path + p[|n.path|..]; }
    }
  }

  lemma ChainOnly<H(!new)>(n: Node<H>, c: Node<H>, rest: string, handle: H)
    requires n.children == [c] && n.handle == None && Only(c, rest, handle) && rest != ""
    ensures Only(n, n.path + rest, handle)
  {
    forall p, h ensures Has(n, p, h) <==> p == n.path + rest && h == handle {
      if n.path <= p {
        var q := p[|n.path|..];
        assert p == n.path + q;
        assert (n.path + rest)[|n.path|..] == rest;
        assert Below(n, q, h) <==> q != "" && Has(n.children[0], q, h);
      }
    }
  }

  lemma NoneBelow<H(!new)>(n: Node<H>)
    requires n.children == []
    ensures forall p, h :: !Any(n.children, p, h)
  {
  }

  /** One child more, holding one route that no other child begins. */
  lemma AppendAdds<H(!new)>(children: seq<Node<H>>, c: Node<H>, pat: string, handle: H)
    requires Only(c, pat, handle) && pat != ""
    requires forall i | 0 <= i < |children| :: children[i].path != "" && children[i].path[0] != pat[0]
    ensures AnyAdds(children, children + [c], pat, handle)
  {
    var b := children + [c];
    forall p, h ensures Any(b, p, h) <==> Any(children, p, h) || (p == pat && h == handle) {
      assert b[|children|] == c;
      assert forall i | 0 <= i < |children| :: b[i] == children[i];
      if Any(children, p, h) {
        var i :| 0 <= i < |children| && Has(children[i], p, h);
        assert Has(b[i], p, h);
      }
      if Has(c, p, h) { assert Has(b[|children|], p, h); }
    }
    forall h ensures !Any(children, pat, h) {
      if Any(children, pat, h) {
        var i :| 0 <= i < |children| && Has(children[i], pat, h);
        HasFirst(children[i], pat, h);
      }
    }
  }

  /** One child gains a route that no other child begins. */
  lemma ReplaceAdds<H(!new)>(children: seq<Node<H>>, k: nat, r: Node<H>, pat: string, handle: H)
    requires k < |children| && Adds(children[k], r, pat, handle) && pat != ""
    requires forall i | 0 <= i < |children| && i != k :: children[i].path != "" && children[i].path[0] != pat[0]
    ensures AnyAdds(children, children[k := r], pat, handle)
  {
    var b := children[k := r];
    forall p, h ensures Any(b, p, h) <==> Any(children, p, h) || (p == pat && h == handle) {
      if Any(children, p, h) {
        var i :| 0 <= i < |children| && Has(children[i], p, h);
        assert Has(b[i], p, h);
      }
      if Any(b, p, h) {
        var i :| 0 <= i < |b| && Has(b[i], p, h);
        assert i != k ==> Has(children[i], p, h);
        assert i == k ==> Has(children[k], p, h) || (p == pat && h == handle);
      }
      if p == pat && h == handle { assert Has(b[k], p, h); }
    }
    forall h ensures !Any(children, pat, h) {
      if Any(children, pat, h) {
        var i :| 0 <= i < |children| && Has(children[i], pat, h);
        if i != k { HasFirst(children[i], pat, h); }
      }
    }
  }

  lemma MoveShape<T>(s: seq<T>, from: nat, to: nat)
    requires to <= from < |s|
    ensures var m := Move(s, from, to);
      && |m| == |s| && m[to] == s[from]
      && (forall i | 0 <= i < to || from < i < |s| :: m[i] == s[i])
      && (forall i | to <= i < from :: m[i + 1] == s[i])
  {
  }

  /** Reordering children changes no route. */
  lemma MoveAny<H(!new)>(children: seq<Node<H>>, from: nat, to: nat)
    requires to <= from < |children|
    ensures forall p, h :: Any(Move(children, from, to), p, h) <==> Any(children, p, h)
  {
    hide Has;
    MoveShape(children, from, to);
    var m := Move(children, from, to);
    hide Move;
    forall p, h ensures Any(m, p, h) <==> Any(children, p, h) {
      if Any(children, p, h) {
        var i :| 0 <= i < |children| && Has(children[i], p, h);
        assert Has(m[if i == from then to else if to <= i < from then i + 1 else i], p, h);
      }
      if Any(m, p, h) {
        var i :| 0 <= i < |m| && Has(m[i], p, h);
        assert Has(children[if i == to then from else if to < i <= from then i - 1 else i], p, h);
      }
    }
  }

  lemma PrefixJoin(a: string, b: string, q: string)
    ensures b <= q ==> a + b <= a + q
  {
  }

  lemma SameBelow<H>(n: Node<H>, c: Node<H>, rest: string, h: H)
    requires n.children == c.children && n.handle == c.handle
    ensures Below(n, rest, h) <==> Below(c, rest, h)
  {
  }

  /** Splitting an edge changes no route. */
  lemma SplitHas<H(!new)>(n: Node<H>, i: nat)
    requires i < |n.path|
    ensures forall p, h :: Has(Split(n, i), p, h) <==> Has(n, p, h)
  {
    var s := Split(n, i);
    var c := s.children[0];
    forall p, h ensures Has(s, p, h) <==> Has(n, p, h) {
      assert n.path == s.path + c.path;
      if n.path <= p {
        var q := p[|n.path|..];
        assert p[i..] == c.path + q && p[i..][|c.path|..] == q;
        SameBelow(n, c, q, h);
        HasParts(c, q, h);
        assert Below(s, p[i..], h) <==> Has(s.children[0], p[i..], h);
        assert p[|s.path|..] == p[i..] && s.path <= p;
      } else if s.path <= p {
        var q := p[i..];
        assert p == s.path + q;
        assert Below(s, q, h) ==> q != "" && Has(s.children[0], q, h) && c.path <= q;
        PrefixJoin(s.path, c.path, q);
      }
    }
  }

  // ---- InsertChild ----

  /** A static node with nothing below it. */
  ghost predicate Bare<H>(n: Node<H>) {
    n.nType.Static? && n.children == [] && n.indices == [] && !n.wildChild
  }

  /** The chain of nodes that InsertChild hangs below a node holds exactly the new route. */
  lemma {:induction false} InsertChildOnly<H(!new)>(n: Node<H>, numParams: nat, path: string, handle: H)
    requires Bare(n) && n.path == "" && n.handle == None
    requires path != "" && path[0] != ':' && Simple(path) && numParams == CountParams(path)
    requires InsertChild(n, numParams, path, handle).Some?
    ensures var r := InsertChild(n, numParams, path, handle).value;
      && WF(r) && r.nType == Static && r.path != "" && r.path[0] == path[0] && r.priority == n.priority
      && Only(r, path, handle)
    decreases |path|, 1
  {
    hide Simple, CountParams, NoColon, SegmentEnd, Only;
    var r := InsertChild(n, numParams, path, handle).value;
    if numParams == 0 {
      NoParams(path);
      LeafOnly(r, handle);
    } else {
      var i := Colon(path);
      ColonPrefix(path);
      assert i > 0;
      hide Colon;
      assert path == path[..i] + path[i..];
      ParamChild(n, numParams, path, handle);
      ChainOnly(r, r.children[0], path[i..], handle);
    }
  }

  /** The parameter node, and what follows it. */
  lemma {:induction false} ParamChild<H(!new)>(n: Node<H>, numParams: nat, path: string, handle: H)
    requires Bare(n) && numParams == CountParams(path) && numParams > 0 && Simple(path)
    requires InsertChild(n, numParams, path, handle).Some?
    ensures var r, i := InsertChild(n, numParams, path, handle).value, Colon(path);
      && i < |path| && r.wildChild && r.handle == n.handle && |r.children| == 1 && r.indices == []
      && r.nType == Static && r.priority == n.priority
      && r.path == (if i > 0 then path[..i] else n.path)
      && WF(r.children[0]) && r.children[0].nType == Param && Only(r.children[0], path[i..], handle)
    decreases |path|, 0
  {
    hide Simple, CountParams, Colon, NoColon, SegmentEnd, Only;
    FrontOfParam(path, numParams);
    var r, i := InsertChild(n, numParams, path, handle).value, Colon(path);
    var end := SegmentEnd(path, i + 1);
    ParamText(path, i);
    if end < |path| {
      var empty := Node("", false, Static, numParams - 1, [], [], None, 1);
      InsertChildOnly(empty, numParams - 1, path[end..], handle);
      var below := InsertChild(empty, numParams - 1, path[end..], handle).value;
      ParamInner(r.children[0], path[i..end], path[end..], below, handle);
      assert path[i..] == path[i..end] + path[end..];
    } else {
      assert path[i..end] == path[i..];
      LeafOnly(r.children[0], handle);
    }
  }

  lemma ParamInner<H(!new)>(c: Node<H>, text: string, rest: string, below: Node<H>, handle: H)
    requires c.path == text && c.children == [below] && c.indices == [] && !c.wildChild && c.nType.Param? && c.handle == None
    requires ParamPath(text) && rest != "" && rest[0] == '/'
    requires WF(below) && below.nType.Static? && below.path != "" && below.path[0] == '/' && Only(below, rest, handle)
    ensures WF(c) && Only(c, text + rest, handle)
  {
    ChainOnly(c, below, rest, handle);
  }

  lemma FrontOfParam(path: string, numParams: nat)
    requires numParams == CountParams(path) && numParams > 0 && Simple(path)
    ensures var i := Colon(path);
      && i < |path| && var end := SegmentEnd(path, i + 1);
      && NoColon(path[i + 1..end]) && Simple(path[end..]) && CountParams(path[end..]) == numParams - 1
  {
    hide Simple, CountParams, Colon, NoColon, SegmentEnd;
    HasColon(path);
    ColonPrefix(path);
    var i := Colon(path);
    CutStatic(path, i);
    ParamFront(path[i..]);
    SegmentCut(path, i, i + 1);
    Slices(path, i, 1, SegmentEnd(path[i..], 1));
  }

  lemma {:induction false} HasColon(path: string)
    requires CountParams(path) > 0
    ensures Colon(path) < |path|
  {
    if path[0] != ':' { HasColon(path[1..]); }
  }

  lemma ColonPrefix(path: string)
    ensures NoColon(path[..Colon(path)])
  {
    ColonFirst(path);
  }

  lemma ParamText(path: string, i: nat)
    requires i < |path| && path[i] == ':' && i + 2 <= SegmentEnd(path, i + 1)
    requires NoColon(path[i + 1..SegmentEnd(path, i + 1)])
    ensures ParamPath(path[i..SegmentEnd(path, i + 1)])
  {
    SegmentFirst(path, i + 1);
    hide SegmentEnd;
    var end := SegmentEnd(path, i + 1);
    assert forall k | 1 <= k < end - i :: path[i..end][k] == path[i + 1..end][k - 1];
  }

  lemma {:induction false} NoParams(path: string)
    requires CountParams(path) == 0
    ensures NoColon(path)
  {
    if path != "" {
      NoParams(path[1..]);
      assert forall k | 1 <= k < |path| :: path[k] == path[1..][k - 1];
    }
  }

  // ---- AddChild ----

  lemma AddChildAdds<H(!new)>(s: Node<H>, numParams: nat, rest: string, handle: H)
    requires WF(s) && rest != "" && Simple(rest) && numParams == CountParams(rest)
    requires !s.wildChild && |s.indices| == |s.children|
    requires s.nType.Param? ==> s.children == [] && rest[0] == '/'
    requires forall i | 0 <= i < |s.children| :: s.children[i].path[0] != rest[0]
    requires AddChild(s, numParams, rest, handle).Some?
    ensures var r := AddChild(s, numParams, rest, handle).value;
      && WF(r) && r.nType == s.nType && r.path == s.path && Adds(s, r, s.path + rest, handle)
  {
    var r := AddChild(s, numParams, rest, handle).value;
    if rest[0] == ':' {
      assert numParams > 0 by { ParamFront(rest); }
      assert s.children == [];
      ParamChild(s, numParams, rest, handle);
      assert Colon(rest) == 0 && rest[0..] == rest;
      AppendAdds([], r.children[0], rest, handle);
      assert [] + [r.children[0]] == r.children;
      ParentAdds(s, r, rest, handle);
      assert WildShape(r);
    } else {
      var empty := Node("", false, Static, numParams, [], [], None, 1);
      InsertChildOnly(empty, numParams, rest, handle);
      var c := InsertChild(empty, numParams, rest, handle).value;
      var children, last := s.children + [c], |s.children|;
      var j := NewPosition(children, 1, last);
      AppendAdds(s.children, c, rest, handle);
      MoveAny(children, last, j);
      ParentAdds(s, r, rest, handle);
      AppendShape(s, c, rest[0], j, r);
    }
  }

  lemma AppendShape<H>(s: Node<H>, c: Node<H>, first: char, j: nat, r: Node<H>)
    requires WF(s) && !s.wildChild && |s.indices| == |s.children| && j <= |s.children|
    requires WF(c) && c.nType.Static? && c.path != "" && c.path[0] == first
    requires s.nType.Param? ==> s.children == [] && first == '/'
    requires forall i | 0 <= i < |s.children| :: s.children[i].path[0] != first
    requires r == s.(indices := Move(s.indices + [first], |s.children|, j),
                     children := Move(s.children + [c], |s.children|, j))
    ensures WF(r)
  {
    var last := |s.children|;
    var cs, ix := s.children + [c], s.indices + [first];
    AppendedOk(s, c, first);
    hide Move, ParamPath, NoColon;
    MovedWF(cs, last, j);
    if s.nType.Static? {
      MovedStatic(cs, ix, last, j, r);
      assert NoColon(r.path);
    } else {
      MoveShape(cs, last, j);
      MoveShape(ix, last, j);
      assert r.children == [c] && ParamShape(r);
      assert ParamPath(r.path);
    }
    hide WF;
    WFWhole(r);
  }

  lemma AppendedOk<H>(s: Node<H>, c: Node<H>, first: char)
    requires WF(s) && !s.wildChild && |s.indices| == |s.children|
    requires WF(c) && c.nType.Static? && c.path != "" && c.path[0] == first
    requires forall i | 0 <= i < |s.children| :: s.children[i].path[0] != first
    ensures s.nType.Static? ==> CasesOk(s.children + [c], s.indices + [first])
    ensures forall i | 0 <= i < |s.children| + 1 :: WF((s.children + [c])[i])
  {
    var cs, ix := s.children + [c], s.indices + [first];
    assert forall i | 0 <= i < |s.children| :: cs[i] == s.children[i] && ix[i] == s.indices[i];
    assert cs[|s.children|] == c && ix[|s.children|] == first;
  }

  lemma MovedWF<H>(cs: seq<Node<H>>, from: nat, to: nat)
    requires to <= from < |cs| && forall i | 0 <= i < |cs| :: WF(cs[i])
    ensures forall i | 0 <= i < |cs| :: WF(Move(cs, from, to)[i])
    ensures |Move(cs, from, to)| == |cs|
  {
    hide WF;
    MoveShape(cs, from, to);
    var m := Move(cs, from, to);
    forall i | 0 <= i < |cs| ensures WF(m[i]) {
      assert m[i] == cs[if i == to then from else if to < i <= from then i - 1 else i];
    }
  }

  ghost predicate CasesOk<H>(cs: seq<Node<H>>, ix: seq<char>) {
    && |ix| == |cs|
    && (forall i | 0 <= i < |cs| :: cs[i].nType.Static? && cs[i].path != "" && ix[i] == cs[i].path[0])
    && (forall i, j | 0 <= i < j < |cs| :: ix[i] != ix[j])
  }

  lemma MovedStatic<H>(cs: seq<Node<H>>, ix: seq<char>, from: nat, to: nat, r: Node<H>)
    requires CasesOk(cs, ix) && to <= from < |cs|
    requires r.indices == Move(ix, from, to) && r.children == Move(cs, from, to)
    ensures StaticShape(r)
  {
    hide Move;
    MoveShape(cs, from, to);
    MoveShape(ix, from, to);
    forall i | 0 <= i < |r.children|
      ensures var k := if i == to then from else if to < i <= from then i - 1 else i;
        r.children[i] == cs[k] && r.indices[i] == ix[k]
    {
    }
  }

  lemma WFWhole<H>(n: Node<H>)
    requires n.nType.Param? ==> ParamPath(n.path) && ParamShape(n)
    requires n.nType.Static? ==> NoColon(n.path) && if n.wildChild then WildShape(n) else StaticShape(n)
    requires forall i | 0 <= i < |n.children| :: WF(n.children[i])
    ensures WF(n)
  {
  }

  // ---- Walk ----

  /** What the insertion loop makes of a node: the same node with one route more. */
  ghost predicate Grown<H(!new)>(n: Node<H>, r: Node<H>, path: string, handle: H) {
    && WF(r) && r.nType == n.nType && n.path != "" && r.path != "" && r.path[0] == n.path[0]
    && (n.nType.Param? ==> r.path == n.path)
    && Adds(n, r, path, handle)
  }

  lemma HasSame<H(!new)>(n: Node<H>, m: Node<H>)
    requires m.path == n.path && m.children == n.children && m.handle == n.handle
    ensures forall p, h :: Has(m, p, h) <==> Has(n, p, h)
  {
    forall p, h ensures Has(m, p, h) <==> Has(n, p, h) {
      if n.path <= p { SameBelow(n, m, p[|n.path|..], h); }
    }
  }

  lemma HandleAdds<H(!new)>(n: Node<H>, r: Node<H>, handle: H)
    requires n.handle == None && r.path == n.path && r.children == n.children && r.handle == Some(handle)
    ensures Adds(n, r, n.path, handle)
  {
    forall p, h ensures Has(r, p, h) <==> Has(n, p, h) || (p == n.path && h == handle) {
      if n.path <= p {
        var q := p[|n.path|..];
        assert p == n.path + q;
        assert q != "" ==> (Below(r, q, h) <==> Below(n, q, h));
      }
    }
    forall h ensures !Has(n, n.path, h) {
      assert n.path == n.path + "";
      HasParts(n, "", h);
    }
  }

  lemma AddsAfterSame<H(!new)>(n: Node<H>, m: Node<H>, r: Node<H>, path: string, handle: H)
    requires Adds(m, r, path, handle) && forall p, h :: Has(m, p, h) <==> Has(n, p, h)
    ensures Adds(n, r, path, handle)
  {
  }

  lemma {:induction false} WalkGrows<H(!new)>(n: Node<H>, numParams: nat, path: string, handle: H)
    requires Reaches(n, numParams, path) && Walk(n, numParams, path, handle).Some?
    ensures Grown(n, Walk(n, numParams, path, handle).value, path, handle)
    decreases Height(n), 1
  {
    var m := Widened(n, numParams);
    var i := CommonPrefix(path, n.path);
    var r := Walk(n, numParams, path, handle).value;
    assert n.path[..i] == path[..i];
    assert path == path[..i] + path[i..];
    HasSame(n, m);
    if i < |n.path| {
      SplitGrows(n, numParams, path, handle, i);
    } else if i == |path| {
      assert path == n.path;
      HandleAdds(m, r, handle);
      WFHandle(m, r);
      AddsAfterSame(n, m, r, path, handle);
    } else {
      BelowGrows(n, numParams, path, handle);
    }
  }

  lemma WFHandle<H>(n: Node<H>, r: Node<H>)
    requires WF(n) && r == n.(handle := r.handle)
    ensures WF(r)
  {
  }

  lemma PrefixPositive(path: string, text: string)
    requires path != "" && text != "" && path[0] == text[0]
    ensures CommonPrefix(path, text) > 0
    ensures text <= path ==> CommonPrefix(path, text) == |text|
  {
    if text <= path {
      assert forall i | 0 <= i < |text| :: path[i] == path[..|text|][i] == text[i];
    }
  }

  lemma SplitGrows<H(!new)>(n: Node<H>, numParams: nat, path: string, handle: H, i: nat)
    requires Reaches(n, numParams, path) && Walk(n, numParams, path, handle).Some?
    requires i == CommonPrefix(path, n.path) && i < |n.path|
    ensures Grown(n, Walk(n, numParams, path, handle).value, path, handle)
  {
    PrefixPositive(path, n.path);
    assert n.nType.Static?;
    var m := Widened(n, numParams);
    HasSame(n, m);
    SplitWF(m, i);
    SplitHas(m, i);
    var s := Split(m, i);
    var r := Walk(n, numParams, path, handle).value;
    assert path == s.path + path[i..];
    if i == |path| {
      assert path == s.path;
      HandleAdds(s, r, handle);
      WFHandle(s, r);
    } else {
      assert path[..i] == n.path[..i];
      StaticPrefix(n.path, path, i);
      CutStatic(path, i);
      hide WF, Has, Simple, CountParams;
      AddChildAdds(s, numParams, path[i..], handle);
    }
    hide WF, Has, Simple, CountParams;
    AddsAfterSame(n, s, r, path, handle);
  }

  lemma StaticPrefix(text: string, path: string, i: nat)
    requires i <= |text| && i <= |path| && text[..i] == path[..i] && NoColon(text)
    ensures NoColon(path[..i])
  {
    assert forall k | 0 <= k < i :: path[..i][k] == text[..i][k];
  }

  lemma SplitWF<H>(n: Node<H>, i: nat)
    requires WF(n) && n.nType.Static? && 0 < i < |n.path|
    ensures WF(Split(n, i))
  {
    var s := Split(n, i);
    assert WF(s.children[0]);
  }

  lemma BelowGrows<H(!new)>(n: Node<H>, numParams: nat, path: string, handle: H)
    requires Reaches(n, numParams, path) && n.path <= path && |n.path| < |path|
    requires WalkBelow(n, numParams, path, handle).Some?
    ensures Grown(n, WalkBelow(n, numParams, path, handle).value, path, handle)
    decreases Height(n), 0
  {
    hide Simple, CountParams, Has;
    var m := Widened(n, numParams);
    HasSame(n, m);
    BumpedWF(n);
    var rest := path[|n.path|..];
    assert path == n.path + rest;
    AfterEdge(n, numParams, path);
    var r := WalkBelow(n, numParams, path, handle).value;
    if n.wildChild {
      WildGrows(n, numParams, path, handle);
    } else if n.nType.Param? && rest[0] == '/' && |n.children| == 1 {
      var c := Bumped(n.children[0]);
      assert Joins(n, 0, rest[0]);
      WalkGrows(c, numParams, rest, handle);
      hide WF;
      OnlyChildGrows(m, r, c, Walk(c, numParams, rest, handle).value, rest, handle);
    } else {
      var k := IndexOf(n.indices, rest[0]);
      if k < |n.indices| {
        assert Joins(n, k, rest[0]);
        var c := Bumped(n.children[k]);
        WalkGrows(c, numParams, rest, handle);
        HasSame(n.children[k], c);
        var d := Walk(c, numParams, rest, handle).value;
        AddsAfterSame(n.children[k], c, d, rest, handle);
        IndexedGrows(m, r, k, d, rest, handle);
      } else {
        NoneJoins(n, rest[0]);
        AddChildAdds(m, numParams, rest, handle);
      }
    }
    AddsAfterSame(n, m, r, path, handle);
  }

  /** The case of a parameter child. */
  lemma WildGrows<H(!new)>(n: Node<H>, numParams: nat, path: string, handle: H)
    requires Reaches(n, numParams, path) && n.path <= path && |n.path| < |path| && n.wildChild
    requires WalkBelow(n, numParams, path, handle).Some?
    ensures var r := WalkBelow(n, numParams, path, handle).value;
      WF(r) && r.path == n.path && r.nType == n.nType && Adds(Widened(n, numParams), r, path, handle)
    decreases Height(n), 0, 0
  {
    hide Simple, CountParams, Has, Adds, CommonPrefix;
    var m := Widened(n, numParams);
    BumpedWF(n);
    AfterEdge(n, numParams, path);
    var rest := path[|n.path|..];
    assert path == n.path + rest;
    var r := WalkBelow(n, numParams, path, handle).value;
    var c := Widened(Bumped(n.children[0]), numParams);
    ParamReached(n, numParams, path);
    WalkGrows(c, numParams - 1, rest, handle);
    hide WF;
    OnlyChildGrows(m, r, c, Walk(c, numParams - 1, rest, handle).value, rest, handle);
  }

  /** The only child of a node grows, so the node does. */
  lemma OnlyChildGrows<H(!new)>(m: Node<H>, r: Node<H>, c: Node<H>, d: Node<H>, rest: string, handle: H)
    requires WF(m) && |m.children| == 1 && r == m.(children := [d]) && rest != ""
    requires c == m.children[0].(priority := c.priority, maxParams := c.maxParams)
    requires m.wildChild || m.nType.Param?
    requires Grown(c, d, rest, handle)
    ensures WF(r) && Adds(m, r, m.path + rest, handle)
  {
    hide Has;
    HasSame(m.children[0], c);
    AddsAfterSame(m.children[0], c, d, rest, handle);
    OnlyChildAdds(m, r, d, rest, handle);
    OneChildWF(m, r, d);
  }

  lemma NoneJoins<H>(n: Node<H>, c: char)
    requires WF(n) && !n.wildChild && IndexOf(n.indices, c) == |n.indices|
    requires n.nType.Param? ==> c == '/' && |n.children| != 1
    ensures |n.indices| == |n.children|
    ensures forall i | 0 <= i < |n.children| :: n.children[i].path[0] != c
  {
    IndexFirst(n.indices, c);
  }

  /** The only child of a node gains the route. */
  lemma OnlyChildAdds<H(!new)>(m: Node<H>, r: Node<H>, d: Node<H>, rest: string, handle: H)
    requires |m.children| == 1 && r == m.(children := [d]) && rest != ""
    requires Adds(m.children[0], d, rest, handle)
    ensures Adds(m, r, m.path + rest, handle)
  {
    ReplaceAdds(m.children, 0, d, rest, handle);
    assert m.children[0 := d] == [d];
    ParentAdds(m, r, rest, handle);
  }

  lemma OneChildWF<H>(m: Node<H>, r: Node<H>, d: Node<H>)
    requires WF(m) && |m.children| == 1 && r == m.(children := [d])
    requires WF(d) && d.nType == m.children[0].nType && d.path != ""
    requires m.children[0].path != "" && d.path[0] == m.children[0].path[0]
    requires m.wildChild || m.nType.Param?
    ensures WF(r)
  {
  }

  lemma IndexedGrows<H(!new)>(m: Node<H>, r: Node<H>, k: nat, d: Node<H>, rest: string, handle: H)
    requires WF(m) && !m.wildChild && m.nType.Static? && k < |m.children| && rest != "" && m.indices[k] == rest[0]
    requires WF(d) && d.nType.Static? && d.path != "" && d.path[0] == m.children[k].path[0]
    requires Adds(m.children[k], d, rest, handle)
    requires var j := NewPosition(m.children, m.children[k].priority + 1, k);
      r == m.(indices := Move(m.indices, k, j), children := Move(m.children[k := d], k, j))
    ensures WF(r) && Adds(m, r, m.path + rest, handle)
  {
    var j := NewPosition(m.children, m.children[k].priority + 1, k);
    var cs := m.children[k := d];
    ReplacedOk(m, k, d, rest[0], cs);
    ReplaceAdds(m.children, k, d, rest, handle);
    hide Move, Has, WF, CasesOk, Any;
    MoveAny(cs, k, j);
    ParentAdds(m, r, rest, handle);
    MovedWF(cs, k, j);
    MovedStatic(cs, m.indices, k, j, r);
    WFWhole(r);
  }

  lemma ReplacedOk<H>(m: Node<H>, k: nat, d: Node<H>, first: char, cs: seq<Node<H>>)
    requires WF(m) && !m.wildChild && m.nType.Static? && k < |m.children| && m.indices[k] == first
    requires WF(d) && d.nType.Static? && d.path != "" && d.path[0] == m.children[k].path[0]
    requires cs == m.children[k := d]
    ensures NoColon(m.path) && CasesOk(cs, m.indices)
    ensures forall i | 0 <= i < |cs| :: WF(cs[i])
    ensures forall i | 0 <= i < |m.children| && i != k :: m.children[i].path != "" && m.children[i].path[0] != first
  {
    forall i | 0 <= i < |m.children| && i != k ensures m.children[i].path[0] != first {
      assert m.indices[i] != m.indices[k];
    }
  }

  /** Registering a route adds exactly that route, which was not there before, and keeps the shape. */
  lemma AddRouteAdds<H(!new)>(n: Node<H>, path: string, handle: H)
    requires Registrable(path) && Tree(n) && AddRoute(n, path, handle).Some?
    ensures var r := AddRoute(n, path, handle).value;
      && Tree(r) && r.path != "" && Adds(n, r, path, handle)
  {
    var b := Bumped(n);
    if |n.path| > 0 || |n.children| > 0 {
      BumpedWF(n);
      HasSame(n, b);
      WalkGrows(b, CountParams(path), path, handle);
      AddsAfterSame(n, b, AddRoute(n, path, handle).value, path, handle);
    } else {
      InsertChildOnly(b, CountParams(path), path, handle);
      RootEmpty<H>();
    }
  }

  /** The root: empty, or a static node whose text begins with '/'. */
  ghost predicate Tree<H>(n: Node<H>) {
    n == Root() || (WF(n) && n.nType.Static? && n.path != "" && n.path[0] == '/')
  }

  lemma RootEmpty<H(!new)>()
    ensures forall p, h: H :: !Has(Root(), p, h)
  {
  }
}
