/** What it means that a pattern matches a path. */
module RouterMatch {
  import opened Router
  import opened RouterLookup

  /** The path that a pattern stands for, with these values for its parameters. */
  function Filled(pat: string, bs: seq<Binding>): string {
    if pat == "" then ""
    else if pat[0] == ':' && bs != [] then bs[0].value + Filled(pat[SegmentEnd(pat, 1)..], bs[1..])
    else [pat[0]] + Filled(pat[1..], bs)
  }

  /** One binding for each parameter, under its name. A value stays within a segment, and is not empty if
      the pattern ends with the parameter. */
  ghost predicate Fits(pat: string, bs: seq<Binding>) {
    if pat == "" then bs == []
    else if pat[0] == ':' then
      var e := SegmentEnd(pat, 1);
      && bs != [] && bs[0].key == pat[1..e] && '/' !in bs[0].value
      && (e == |pat| ==> bs[0].value != "")
      && Fits(pat[e..], bs[1..])
    else Fits(pat[1..], bs)
  }

  lemma SegmentIs(path: string, v: nat)
    requires v <= |path| && '/' !in path[..v] && (v == |path| || path[v] == '/')
    ensures SegmentEnd(path, 0) == v
  {
    SegmentFirst(path, 0);
    var e := SegmentEnd(path, 0);
    assert forall i | 0 <= i < v :: path[i] == path[..v][i];
  }

  lemma SegmentFree(path: string)
    ensures '/' !in path[..SegmentEnd(path, 0)]
  {
    SegmentFirst(path, 0);
  }

  /** What follows a parameter begins a segment. */
  lemma FilledFirst(pat: string, bs: seq<Binding>)
    requires pat != "" && pat[0] == '/'
    ensures Filled(pat, bs) != "" && Filled(pat, bs)[0] == '/'
  {
  }

  lemma ParamMeaning(pat: string, path: string, bs: seq<Binding>)
    requires pat != "" && pat[0] == ':'
    ensures Match(pat, path) == Some(bs) <==> Fits(pat, bs) && path == Filled(pat, bs)
    decreases |pat|, 0
  {
    var e, v := SegmentEnd(pat, 1), SegmentEnd(path, 0);
    if Match(pat, path) == Some(bs) {
      MatchMeaning(pat[e..], path[v..], bs[1..]);
      SegmentFree(path);
      assert path == path[..v] + path[v..];
    }
    if Fits(pat, bs) && path == Filled(pat, bs) {
      var value, rest := bs[0].value, Filled(pat[e..], bs[1..]);
      assert path == value + rest;
      if e < |pat| { FilledFirst(pat[e..], bs[1..]); }
      assert path[..|value|] == value && path[|value|..] == rest;
      SegmentIs(path, |value|);
      MatchMeaning(pat[e..], rest, bs[1..]);
      assert bs == [bs[0]] + bs[1..];
    }
  }

  /** A pattern matches a path with some bindings exactly when the path is the pattern with the values of
      these bindings in place of its parameters. */
  lemma {:induction false} MatchMeaning(pat: string, path: string, bs: seq<Binding>)
    ensures Match(pat, path) == Some(bs) <==> Fits(pat, bs) && path == Filled(pat, bs)
    decreases |pat|
  {
    if pat == "" {
    } else if pat[0] == ':' {
      ParamMeaning(pat, path, bs);
    } else {
      if path != "" {
        MatchMeaning(pat[1..], path[1..], bs);
        assert path == [path[0]] + path[1..];
      }
      assert ([pat[0]] + Filled(pat[1..], bs))[1..] == Filled(pat[1..], bs);
    }
  }
}
