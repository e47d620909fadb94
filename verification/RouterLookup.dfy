/** Looking a path up in the radix tree agrees with matching it against every registered route. */
module RouterLookup {
  import opened Router
  import opened RouterRoutes
  import opened RouterRank

  // ---- The reference: one pattern, one path ----

  /** A pattern against a path: static bytes must agree, and a parameter takes the rest of its
      segment, which may be empty only when a '/' follows. */
  function Match(pat: string, path: string): Option<seq<Binding>>
    decreases |pat|
  {
    if pat == "" then (if path == "" then Some([]) else None)
    else if pat[0] == ':' then
      if path == "" then None
      else
        var e, v := SegmentEnd(pat, 1), SegmentEnd(path, 0);
        match Match(pat[e..], path[v..])
        case None => None
        case Some(bs) => Some([Binding(pat[1..e], path[..v])] + bs)
    else if path != "" && path[0] == pat[0] then Match(pat[1..], path[1..])
    else None
  }

  /** What the tree answers, round by round. */
  function Lookup<H>(n: Node<H>, path: string): Option<(H, seq<Binding>)>
    requires WF(n)
    decreases n
  {
    if |path| > |n.path| then
      if n.path <= path then
        var rest := path[|n.path|..];
        if !n.wildChild then
          var k := IndexOf(n.indices, rest[0]);
          if k < |n.indices| then Lookup(n.children[k], rest) else None
        else
          var c, end := n.children[0], SegmentEnd(rest, 0);
          assert WF(c) && ParamPath(c.path);
          var b := Binding(c.path[1..], rest[..end]);
          if end < |rest| then
            if |c.children| > 0 then
              match Lookup(c.children[0], rest[end..])
              case None => None
              case Some((h, bs)) => Some((h, [b] + bs))
            else None
          else if c.handle.Some? then Some((c.handle.value, [b])) else None
      else None
    else if path == n.path && n.handle.Some? then Some((n.handle.value, []))
    else None
  }

  lemma {:induction false} MatchStatic(text: string, rest: string, path: string)
    requires NoColon(text)
    ensures Match(text + rest, path) == if text <= path then Match(rest, path[|text|..]) else None
  {
    if text == "" {
      assert text + rest == rest && path[0..] == path;
    } else {
      assert (text + rest)[1..] == text[1..] + rest;
      assert text[0] != ':';
      if path != "" && path[0] == text[0] {
        MatchStatic(text[1..], rest, path[1..]);
        assert text <= path <==> text[1..] <= path[1..] by {
          assert text == [text[0]] + text[1..] && path == [path[0]] + path[1..];
        }
        assert text <= path ==> path[1..][|text| - 1..] == path[|text|..];
      }
    }
  }

  lemma MatchParam(p: string, rest: string, path: string)
    requires ParamPath(p) && (rest == "" || rest[0] == '/') && path != ""
    ensures var v := SegmentEnd(path, 0);
      Match(p + rest, path) == match Match(rest, path[v..])
        case None => None
        case Some(bs) => Some([Binding(p[1..], path[..v])] + bs)
  {
    assert p <= p + rest;
    EndOfParam(p + rest, p);
    assert (p + rest)[1..|p|] == p[1..] && (p + rest)[|p|..] == rest;
  }

  // ---- Agreement on one tree ----

  lemma {:induction false} LookupComplete<H>(n: Node<H>, pat: string, h: H, path: string, bs: seq<Binding>)
    requires WF(n) && n.nType.Static? && Has(n, pat, h) && Match(pat, path) == Some(bs)
    ensures Lookup(n, path) == Some((h, bs))
    decreases n
  {
    hide Match;
    var q := pat[|n.path|..];
    assert pat == n.path + q;
    MatchStatic(n.path, q, path);
    var rest := path[|n.path|..];
    assert path == n.path + rest;
    if q != "" {
      var i :| 0 <= i < |n.children| && Has(n.children[i], q, h);
      assert WF(n.children[i]);
      if !n.wildChild {
        HasFirst(n.children[i], q, h);
        StaticNext(q, rest);
        Finds(n, i, rest[0]);
        LookupComplete(n.children[i], q, h, rest, bs);
      } else {
        ParamComplete(n, q, h, rest, bs);
      }
    } else {
      MatchEnd(rest);
    }
  }

  lemma MatchEnd(path: string)
    ensures Match("", path) == if path == "" then Some([]) else None
  {
  }

  lemma MatchNotEmpty(q: string, path: string)
    requires q != "" && Match(q, path).Some?
    ensures path != ""
  {
  }

  lemma StaticNext(q: string, rest: string)
    requires q != "" && q[0] != ':' && Match(q, rest).Some?
    ensures rest != "" && rest[0] == q[0]
  {
  }

  lemma Finds<H>(n: Node<H>, i: nat, c: char)
    requires WF(n) && n.nType.Static? && !n.wildChild && i < |n.children| && n.children[i].path[0] == c
    ensures IndexOf(n.indices, c) == i
  {
    IndexFirst(n.indices, c);
    assert n.indices[i] == c;
    var k := IndexOf(n.indices, c);
    assert k <= i;
  }

  lemma ParamComplete<H>(n: Node<H>, q: string, h: H, rest: string, bs: seq<Binding>)
    requires WF(n) && n.nType.Static? && n.wildChild && q != ""
    requires Has(n.children[0], q, h) && Match(q, rest) == Some(bs)
    ensures Lookup(n, n.path + rest) == Some((h, bs))
    decreases n, 0
  {
    hide Match;
    var c := n.children[0];
    var q2 := q[|c.path|..];
    assert q == c.path + q2;
    assert WF(c) && ParamPath(c.path);
    MatchNotEmpty(q, rest);
    if q2 != "" {
      var j :| 0 <= j < |c.children| && Has(c.children[j], q2, h);
      HasFirst(c.children[j], q2, h);
      assert q2[0] == '/';
    }
    MatchParam(c.path, q2, rest);
    var v := SegmentEnd(rest, 0);
    assert (n.path + rest)[|n.path|..] == rest;
    if q2 != "" {
      StaticNext(q2, rest[v..]);
      LookupComplete(c.children[0], q2, h, rest[v..], Match(q2, rest[v..]).value);
    } else {
      MatchEnd(rest[v..]);
      assert Below(c, q2, h) && c.handle == Some(h);
      assert v == |rest|;
      assert bs == [Binding(c.path[1..], rest[..v])];
    }
  }

  lemma {:induction false} LookupSound<H>(n: Node<H>, path: string) returns (pat: string)
    requires WF(n) && n.nType.Static? && Lookup(n, path).Some?
    ensures Has(n, pat, Lookup(n, path).value.0) && Match(pat, path) == Some(Lookup(n, path).value.1)
    decreases n
  {
    var h, bs := Lookup(n, path).value.0, Lookup(n, path).value.1;
    var q := "";
    if |path| > |n.path| {
      var rest := path[|n.path|..];
      assert path == n.path + rest;
      if !n.wildChild {
        var k := IndexOf(n.indices, rest[0]);
        q := LookupSound(n.children[k], rest);
        HasFirst(n.children[k], q, h);
        assert Has(n.children[k], q, h);
      } else {
        q := ParamSound(n, path);
        assert Has(n.children[0], q, h);
      }
      MatchStatic(n.path, q, path);
    } else {
      assert n.path + q == path;
      MatchStatic(n.path, q, path);
    }
    pat := n.path + q;
    HasParts(n, q, h);
  }

  lemma ParamSound<H>(n: Node<H>, path: string) returns (q: string)
    requires WF(n) && n.nType.Static? && n.wildChild && |path| > |n.path| && Lookup(n, path).Some?
    ensures q != "" && Has(n.children[0], q, Lookup(n, path).value.0)
    ensures Match(q, path[|n.path|..]) == Some(Lookup(n, path).value.1)
    decreases n, 0
  {
    hide Match;
    var rest, c := path[|n.path|..], n.children[0];
    var h, v := Lookup(n, path).value.0, SegmentEnd(rest, 0);
    assert WF(c) && ParamPath(c.path);
    var q2 := "";
    if v < |rest| {
      q2 := LookupSound(c.children[0], rest[v..]);
      HasFirst(c.children[0], q2, h);
      assert Has(c.children[0], q2, h);
    } else {
      assert rest[v..] == "" && c.handle == Some(h);
      assert Below(c, "", h);
      MatchEnd(rest[v..]);
      assert Lookup(n, path).value.1 == [Binding(c.path[1..], rest[..v])] + [];
    }
    q := c.path + q2;
    HasParts(c, q2, h);
    MatchParam(c.path, q2, rest);
  }

  // ---- Whole runs of registrations ----

  /** Registers a list of routes in order; None when some registration panics. */
  function Build<H(!new)>(routes: seq<(string, H)>): (t: Option<Node<H>>)
    requires forall i | 0 <= i < |routes| :: Registrable(routes[i].0)
    ensures t.Some? ==> Tree(t.value)
    decreases |routes|
  {
    if routes == [] then Some(Root())
    else
      var last := |routes| - 1;
      var t := Build(routes[..last]);
      if t.None? then None
      else
        var r := AddRoute(t.value, routes[last].0, routes[last].1);
        assert r.Some? ==> Tree(r.value) by {
          if r.Some? { AddRouteAdds(t.value, routes[last].0, routes[last].1); }
        }
        r
  }

  /** The tree built from a list of routes holds exactly those routes, each pattern once. */
  lemma {:induction false} BuildHolds<H(!new)>(routes: seq<(string, H)>)
    requires forall i | 0 <= i < |routes| :: Registrable(routes[i].0)
    requires Build(routes).Some?
    ensures forall pat, h :: Has(Build(routes).value, pat, h) <==> (pat, h) in routes
    ensures forall i, j | 0 <= i < j < |routes| :: routes[i].0 != routes[j].0
    decreases |routes|
  {
    hide Has, Registrable, AddRoute, WF;
    if routes == [] {
      RootEmpty<H>();
    } else {
      var last := |routes| - 1;
      var t := Build(routes[..last]).value;
      BuildHolds(routes[..last]);
      AddRouteAdds(t, routes[last].0, routes[last].1);
      assert routes == routes[..last] + [routes[last]];
      forall i | 0 <= i < last ensures routes[i].0 != routes[last].0 {
        assert routes[..last][i] == routes[i];
        assert Has(t, routes[i].0, routes[i].1);
      }
    }
  }

  /** After any registrations that do not panic, in any order, a path is answered with a handle and
      bindings exactly when a registered pattern with that handle matches the path with them. */
  lemma RouterCorrect<H(!new)>(routes: seq<(string, H)>, path: string, h: H, bs: seq<Binding>)
    requires forall i | 0 <= i < |routes| :: Registrable(routes[i].0)
    requires Build(routes).Some?
    ensures Lookup(Build(routes).value, path) == Some((h, bs))
      <==> exists pat :: (pat, h) in routes && Match(pat, path) == Some(bs)
  {
    var t := Build(routes).value;
    BuildHolds(routes);
    assert WF(t) && t.nType.Static?;
    if pat :| (pat, h) in routes && Match(pat, path) == Some(bs) {
      LookupComplete(t, pat, h, path, bs);
    }
    if Lookup(t, path) == Some((h, bs)) {
      var pat := LookupSound(t, path);
    }
  }

  /** Every tree built by registrations keeps the ranks, and the root counts the routes. */
  lemma {:induction false} BuildRanked<H(!new)>(routes: seq<(string, H)>)
    requires forall i | 0 <= i < |routes| :: Registrable(routes[i].0)
    requires Build(routes).Some?
    ensures Ranked(Build(routes).value) && Build(routes).value.priority == |routes|
    decreases |routes|
  {
    hide Ranked, Handles;
    if routes == [] {
      RootRanked<H>();
      RankedPriority(Root<H>());
    } else {
      var last := |routes| - 1;
      BuildRanked(routes[..last]);
      var t := Build(routes[..last]).value;
      AddRouteRank(t, routes[last].0, routes[last].1);
      RankedPriority(t);
      RankedPriority(Build(routes).value);
    }
  }

  lemma RankedPriority<H>(n: Node<H>)
    requires Ranked(n)
    ensures n.priority == Handles(n)
  {
  }

  // ---- The loop ----

  /** The answer at an inner round, with the bindings of the rounds before. */
  function Resumed<H>(p: seq<Binding>, answer: Option<(H, seq<Binding>)>): Option<(H, seq<Binding>)> {
    match answer
    case None => None
    case Some((h, bs)) => Some((h, p + bs))
  }

  /** The lookup loop. Bindings are collected in a list whose room is fixed when the first parameter
      is met; the assertion before each append says that the room is never exceeded. */
  method GetValue<H>(root: Node<H>, request: string) returns (handle: Option<H>, p: seq<Binding>)
    requires WF(root) && root.nType.Static? && Ranked(root)
    ensures handle.Some? ==> Lookup(root, request) == Some((handle.value, p))
    ensures handle.None? ==> Lookup(root, request).None?
  {
    hide Ranked, WF, Handles, HandlesOf, Depth, DepthOf;
    var n, path := root, request;
    var room := 0;
    handle, p := None, [];
    ResumedNothing(Lookup(root, request));
    while true
      invariant WF(n) && Ranked(n) && n.nType.Static? && handle.None?
      invariant Lookup(root, request) == Resumed(p, Lookup(n, path))
      invariant p != [] ==> |p| + Depth(n) <= room
      decreases n
    {
      Parts(n);
      assert p + [] == p;
      if |path| > |n.path| && n.path <= path {
        path := path[|n.path|..];
        if !n.wildChild {
          var k := IndexOf(n.indices, path[0]);
          if k == |n.indices| {
            return;
          }
          n := n.children[k];
        } else {
          var c, end := n.children[0], SegmentEnd(path, 0);
          if p == [] {
            room := c.maxParams;
          }
          assert |p| < room;
          ghost var was := p;
          p := p + [Binding(c.path[1..], path[..end])];
          if end == |path| {
            handle := c.handle;
            return;
          }
          if |c.children| == 0 {
            return;
          }
          path, n := path[end..], c.children[0];
          Regroup(was, p[|p| - 1], Lookup(n, path));
        }
      } else {
        if path == n.path {
          handle := n.handle;
        }
        return;
      }
    }
  }

  lemma ResumedNothing<H>(answer: Option<(H, seq<Binding>)>)
    ensures Resumed([], answer) == answer
  {
    assert answer.Some? ==> [] + answer.value.1 == answer.value.1;
  }

  lemma Regroup<H>(p: seq<Binding>, b: Binding, answer: Option<(H, seq<Binding>)>)
    ensures answer.Some? ==> p + ([b] + answer.value.1) == (p + [b]) + answer.value.1
  {
  }

  /** What the loop uses about a node and the children it may go on with. */
  lemma Parts<H>(n: Node<H>)
    requires WF(n) && Ranked(n) && n.nType.Static?
    ensures forall k | 0 <= k < |n.children| :: WF(n.children[k]) && Ranked(n.children[k]) && Depth(n.children[k]) <= Depth(n)
    ensures !n.wildChild ==> |n.indices| == |n.children| && forall k | 0 <= k < |n.children| :: n.children[k].nType.Static?
    ensures n.wildChild ==> |n.children| == 1 && var c := n.children[0];
      && c.nType.Param? && ParamPath(c.path) && c.maxParams >= Depth(c) >= 1
      && |c.children| <= 1
      && forall k | 0 <= k < |c.children| ::
        WF(c.children[k]) && Ranked(c.children[k]) && c.children[k].nType.Static? && Depth(c.children[k]) + 1 <= Depth(c)
  {
    forall k | 0 <= k < |n.children| ensures Depth(n.children[k]) <= Depth(n) { DepthMember(n.children, k); }
    if n.wildChild {
      var c := n.children[0];
      assert WF(c) && Ranked(c);
      forall k | 0 <= k < |c.children| ensures Depth(c.children[k]) + 1 <= Depth(c) { DepthMember(c.children, k); }
    }
  }
}
