/** The router's path cleaner: a loop over one buffer against a stack of path elements. */
module CleanPath {

  // ---- What a clean path is ----

  function Slash(s: string): (i: nat)
    ensures i <= |s| && (i < |s| ==> s[i] == '/')
    ensures forall k | 0 <= k < i :: s[k] != '/'
  {
    if s == "" || s[0] == '/' then 0 else 1 + Slash(s[1..])
  }

  /** The elements between slashes. */
  function Parts(s: string): (parts: seq<string>)
    ensures parts != []
    decreases |s|
  {
    var i := Slash(s);
    if i == |s| then [s] else [s[..i]] + Parts(s[i + 1..])
  }

  /** Empty elements and "." count for nothing, ".." takes the last element away if there is one. */
  function Step(stack: seq<string>, part: string): seq<string> {
    if part == "" || part == "." then stack
    else if part == ".." then if stack == [] then [] else stack[..|stack| - 1]
    else stack + [part]
  }

  function Resolve(stack: seq<string>, parts: seq<string>): seq<string>
    decreases |parts|
  {
    if parts == [] then stack else Resolve(Step(stack, parts[0]), parts[1..])
  }

  function Joined(stack: seq<string>): string {
    if stack == [] then "" else Joined(stack[..|stack| - 1]) + "/" + stack[|stack| - 1]
  }

  /** Each element after a slash; a single slash if there is none. */
  function Render(stack: seq<string>): string {
    if stack == [] then "/" else Joined(stack)
  }

  predicate EndsInSlash(p: string) {
    |p| > 2 && p[|p| - 1] == '/'
  }

  /** The last element is ".". */
  predicate EndsInDot(p: string) {
    |p| > 0 && p[|p| - 1] == '.' && (|p| == 1 || p[|p| - 2] == '/')
  }

  /** The elements that are left, with a slash after the last one when the path ended in a slash or in
      the element ".". */
  function Clean(p: string): string {
    var stack := Resolve([], Parts(p));
    if stack != [] && (EndsInSlash(p) || EndsInDot(p)) then Render(stack) + "/" else Render(stack)
  }

  /** Elements that are kept. */
  predicate Plain(part: string) {
    part != "" && part != "." && part != ".." && '/' !in part
  }

  predicate AllPlain(stack: seq<string>) {
    forall i | 0 <= i < |stack| :: Plain(stack[i])
  }

  // ---- Facts about parts and rendering ----

  lemma {:induction false} PartsPlain(s: string)
    ensures forall i | 0 <= i < |Parts(s)| :: '/' !in Parts(s)[i]
    decreases |s|
  {
    var i := Slash(s);
    if i < |s| {
      PartsPlain(s[i + 1..]);
      var parts := Parts(s);
      assert forall k | 1 <= k < |parts| :: parts[k] == Parts(s[i + 1..])[k - 1];
    }
  }

  lemma {:induction false} ResolvePlain(stack: seq<string>, parts: seq<string>)
    requires AllPlain(stack) && forall i | 0 <= i < |parts| :: '/' !in parts[i]
    ensures AllPlain(Resolve(stack, parts))
    decreases |parts|
  {
    if parts != [] { ResolvePlain(Step(stack, parts[0]), parts[1..]); }
  }

  lemma SlashAt(s: string, i: nat)
    requires i <= |s| && (forall k | 0 <= k < i :: s[k] != '/') && (i < |s| ==> s[i] == '/')
    ensures Slash(s) == i
  {
    var j := Slash(s);
    var a := if i < |s| then s[i] else '/';
    var b := if j < |s| then s[j] else '/';
  }

  lemma PartsUnfold(s: string)
    ensures Parts(s) == if Slash(s) == |s| then [s] else [s[..Slash(s)]] + Parts(s[Slash(s) + 1..])
  {
    hide Slash;
  }

  lemma PartsAt(s: string, i: nat)
    requires i <= |s| && (forall k | 0 <= k < i :: s[k] != '/') && (i < |s| ==> s[i] == '/')
    ensures Parts(s) == if i == |s| then [s] else [s[..i]] + Parts(s[i + 1..])
  {
    hide Slash, Parts;
    SlashAt(s, i);
    PartsUnfold(s);
  }

  lemma EmptyStep(stack: seq<string>)
    ensures Step(stack, "") == stack
  {
  }

  lemma OneMore(stack: seq<string>, part: string, parts: seq<string>)
    ensures Resolve(stack, [part] + parts) == Resolve(Step(stack, part), parts)
  {
    assert ([part] + parts)[1..] == parts;
  }

  /** An element taken off the front is a step on the stack. */
  lemma ElementStep(p: string, r: nat, e: nat, stack: seq<string>)
    requires r <= e <= |p| && (forall k | r <= k < e :: p[k] != '/') && (e < |p| ==> p[e] == '/')
    ensures Resolve(stack, Parts(p[r..])) == Resolve(Step(stack, p[r..e]), Parts(p[e..]))
  {
    hide Parts, Step, Resolve;
    var s, t := p[r..], p[e..];
    PartsAt(s, e - r);
    PartsAt(t, 0);
    assert s[..e - r] == p[r..e];
    var rest := if e < |p| then Parts(p[e + 1..]) else [];
    if e < |p| {
      assert s[e - r + 1..] == p[e + 1..] == t[1..];
      assert t[..0] == "";
    } else {
      assert s == p[r..e] && t == "";
    }
    assert Parts(s) == [p[r..e]] + rest && Parts(t) == [""] + rest;
    OneMore(stack, p[r..e], rest);
    OneMore(Step(stack, p[r..e]), "", rest);
    EmptyStep(Step(stack, p[r..e]));
  }

  /** A slash taken off the front changes nothing. */
  lemma SlashStep(p: string, r: nat, stack: seq<string>)
    requires r < |p| && p[r] == '/'
    ensures Resolve(stack, Parts(p[r..])) == Resolve(stack, Parts(p[r + 1..]))
  {
    var s := p[r..];
    PartsAt(s, 0);
    assert s[..0] == "" && s[1..] == p[r + 1..];
    OneMore(stack, "", Parts(p[r + 1..]));
  }

  lemma PushRender(stack: seq<string>, part: string)
    ensures Render(stack + [part]) == if stack == [] then "/" + part else Render(stack) + "/" + part
  {
    var t := stack + [part];
    assert t[..|t| - 1] == stack;
    if stack == [] { assert Joined(stack) + "/" + part == "/" + part; }
  }

  lemma RenderNothing()
    ensures Render([]) == "/"
  {
  }

  lemma LongRender(stack: seq<string>)
    requires stack != [] && AllPlain(stack)
    ensures |Render(stack)| > 1
  {
    var rest, last := stack[..|stack| - 1], stack[|stack| - 1];
    assert stack == rest + [last];
    PushRender(rest, last);
    assert Plain(last);
  }

  lemma LastPart(t: string, last: string)
    requires '/' !in last
    ensures var s := t + "/" + last;
      s[..|t|] == t && s[|t|] == '/' && forall k | |t| + 1 <= k < |s| :: s[k] != '/'
  {
    var s := t + "/" + last;
    forall k | |t| + 1 <= k < |s| ensures s[k] != '/' { assert s[k] == last[k - |t| - 1]; }
  }

  /** Without its last element, a path ends before that element's slash. */
  lemma PopRender(stack: seq<string>)
    requires stack != [] && AllPlain(stack)
    ensures var s, t := Render(stack), Render(stack[..|stack| - 1]);
      && |t| < |s| && s[..|t|] == t
      && (forall k | (if |stack| == 1 then 1 else |t| + 1) <= k < |s| :: s[k] != '/')
      && (|stack| > 1 ==> s[|t|] == '/')
      && |t| >= 1 && (|stack| > 1 ==> |t| > 1)
  {
    hide Render;
    var rest, last := stack[..|stack| - 1], stack[|stack| - 1];
    assert stack == rest + [last];
    PushRender(rest, last);
    assert Plain(last);
    if rest == [] {
      RenderNothing();
    } else {
      LongRender(rest);
      LastPart(Render(rest), last);
    }
  }

  lemma RenderSize(stack: seq<string>)
    requires AllPlain(stack)
    ensures |Render(stack)| >= 1 && (|Render(stack)| > 1 <==> stack != [])
  {
    if stack != [] { PopRender(stack); }
  }

  // ---- The loop ----

  /** The first `w` bytes of the result so far: those of the path itself until a buffer is needed. */
  ghost predicate HasText(p: string, buf: array?<char>, w: nat, text: string)
    reads if buf == null then {} else {buf}
  {
    if buf == null then w <= |p| && p[..w] == text else w <= buf.Length && buf[..w] == text
  }

  /** Writes a byte, making the buffer first if the path has another one there. */
  method BufApp(buf: array?<char>, s: string, w: nat, c: char, ghost text: string) returns (r: array?<char>)
    requires if buf == null then w < |s| else w < buf.Length
    requires HasText(s, buf, w, text)
    modifies if buf == null then {} else {buf}
    ensures HasText(s, r, w + 1, text + [c])
    ensures if r == null then buf == null else r == buf || (buf == null && fresh(r) && r.Length == |s|)
    ensures buf != null ==> r == buf
  {
    r := buf;
    if r == null {
      if s[w] == c {
        assert s[..w + 1] == s[..w] + [c];
        return;
      }
      r := new char[|s|](i requires 0 <= i < |s| => if i < w then s[i] else ' ');
      assert r[..w] == s[..w];
    }
    r[w] := c;
    assert r[..w + 1] == r[..w] + [c];
  }

  /** The byte before is the end of an element, or none is open. */
  predicate AtEdge(p: string, r: nat)
    requires r <= |p|
  {
    r == |p| || p[r] == '/' || r == 0 || p[r - 1] == '/'
  }

  /** Room for a slash before the next element or at the end. */
  predicate Room(p: string, r: nat, w: nat, off: nat)
    requires r <= |p|
  {
    && off <= 1 <= w <= r + off
    && (w > 1 && r > 0 && (p[r - 1] == '/' || (r == |p| && EndsInDot(p))) ==> w < r + off)
  }

  ghost predicate Inv(p: string, buf: array?<char>, r: nat, w: nat, off: nat, stack: seq<string>, trailing: bool)
    reads if buf == null then {} else {buf}
  {
    && r <= |p| && AtEdge(p, r) && Room(p, r, w, off)
    && (if buf == null then off == 0 else buf.Length == |p| + off)
    && AllPlain(stack) && HasText(p, buf, w, Render(stack)) && w == |Render(stack)|
    && Resolve(stack, Parts(p[r..])) == Resolve([], Parts(p))
    && (trailing <==> EndsInSlash(p) || (r == |p| && EndsInDot(p)))
  }

  lemma StartInv(p: string, buf: array?<char>, r: nat, w: nat, off: nat, trailing: bool)
    requires p != "" && w == 1 && (trailing <==> EndsInSlash(p))
    requires if p[0] == '/' then buf == null && r == 1 && off == 0 else buf != null && buf.Length == |p| + 1 && r == 0 && off == 1
    requires buf != null ==> buf[0] == '/'
    ensures Inv(p, buf, r, w, off, [], trailing)
  {
    hide Parts, Resolve;
    assert p[0..] == p;
    if p[0] == '/' {
      SlashStep(p, 0, []);
      assert p[..1] == "/";
    } else {
      assert buf[..1] == "/";
    }
  }

  lemma SlashInv(p: string, buf: array?<char>, r: nat, w: nat, off: nat, stack: seq<string>, trailing: bool)
    requires Inv(p, buf, r, w, off, stack, trailing) && r < |p| && p[r] == '/'
    ensures Inv(p, buf, r + 1, w, off, stack, trailing)
  {
    hide Parts, Resolve, Render, AllPlain, HasText;
    SlashStep(p, r, stack);
  }

  lemma DotInv(p: string, buf: array?<char>, r: nat, w: nat, off: nat, stack: seq<string>, trailing: bool)
    requires Inv(p, buf, r, w, off, stack, trailing)
    requires r < |p| && p[r] == '.' && (r + 1 == |p| || p[r + 1] == '/')
    ensures Inv(p, buf, r + 1, w, off, stack, trailing || r + 1 == |p|)
  {
    hide Parts, Resolve, Render, AllPlain, HasText;
    ElementStep(p, r, r + 1, stack);
    assert p[r..r + 1] == ".";
  }

  function Popped(stack: seq<string>): seq<string> {
    if stack == [] then [] else stack[..|stack| - 1]
  }

  lemma DotDotInv(p: string, buf: array?<char>, r: nat, w: nat, w': nat, off: nat, stack: seq<string>, trailing: bool)
    requires Inv(p, buf, r, w, off, stack, trailing)
    requires r + 1 < |p| && p[r] == '.' && p[r + 1] == '.' && (r + 2 == |p| || p[r + 2] == '/')
    requires HasText(p, buf, w', Render(Popped(stack))) && w' == |Render(Popped(stack))| <= w
    ensures Inv(p, buf, r + 2, w', off, Popped(stack), trailing)
  {
    hide Parts, Resolve, Render, HasText;
    ElementStep(p, r, r + 2, stack);
    assert p[r..r + 2] == "..";
    RenderSize(Popped(stack));
  }

  /** Back over the last element and its slash, but not over the first slash. */
  method Backtrack(p: string, buf: array?<char>, w: nat, ghost stack: seq<string>) returns (w': nat)
    requires AllPlain(stack) && HasText(p, buf, w, Render(stack)) && w == |Render(stack)|
    ensures HasText(p, buf, w', Render(Popped(stack))) && w' == |Render(Popped(stack))| <= w
  {
    hide Render;
    RenderSize(stack);
    RenderSize(Popped(stack));
    ghost var text, rest := Render(stack), Render(Popped(stack));
    w' := w;
    if w' > 1 {
      PopRender(stack);
      w' := w' - 1;
      if buf == null {
        while w' > 1 && p[w'] != '/'
          invariant |rest| <= w' < w
        {
          assert p[w'] == text[w'];
          w' := w' - 1;
        }
        assert p[w'] == text[w'];
        assert p[..w'] == p[..w][..w'];
      } else {
        while w' > 1 && buf[w'] != '/'
          invariant |rest| <= w' < w
        {
          assert buf[w'] == buf[..w][w'];
          w' := w' - 1;
        }
        assert buf[w'] == buf[..w][w'];
        assert buf[..w'] == buf[..w][..w'];
      }
    }
  }

  lemma PlainStep(stack: seq<string>, part: string)
    requires AllPlain(stack) && Plain(part)
    ensures AllPlain(stack + [part]) && Step(stack, part) == stack + [part]
  {
  }

  lemma AppendInv(p: string, buf: array?<char>, r0: nat, r: nat, w: nat, off: nat, stack: seq<string>, trailing: bool)
    requires r0 < r <= |p| && (forall k | r0 <= k < r :: p[k] != '/') && (r < |p| ==> p[r] == '/')
    requires Plain(p[r0..r]) && !(r == |p| && EndsInDot(p)) && off <= 1 <= w <= r + off
    requires if buf == null then off == 0 else buf.Length == |p| + off
    requires AllPlain(stack) && HasText(p, buf, w, Render(stack + [p[r0..r]])) && w == |Render(stack + [p[r0..r]])|
    requires Resolve(stack, Parts(p[r0..])) == Resolve([], Parts(p)) && (trailing <==> EndsInSlash(p))
    ensures Inv(p, buf, r, w, off, stack + [p[r0..r]], trailing)
  {
    hide Parts, Resolve, Render, HasText, Plain, EndsInDot, EndsInSlash;
    ElementStep(p, r0, r, stack);
    PlainStep(stack, p[r0..r]);
  }

  lemma ElementPlain(p: string, r0: nat, r: nat)
    requires r0 < r <= |p| && (forall k | r0 <= k < r :: p[k] != '/') && (r < |p| ==> p[r] == '/')
    requires !(p[r0] == '.' && (r0 + 1 == |p| || p[r0 + 1] == '/'))
    requires !(p[r0] == '.' && p[r0 + 1] == '.' && (r0 + 2 == |p| || p[r0 + 2] == '/'))
    ensures Plain(p[r0..r]) && !(r == |p| && EndsInDot(p))
  {
    var e := p[r0..r];
    assert e[0] == p[r0];
    if r > r0 + 1 { assert e[1] == p[r0 + 1]; }
  }

  lemma ElementPushed(stack: seq<string>, part: string)
    requires AllPlain(stack) && Plain(part)
    ensures AllPlain(stack + [part]) && Step(stack, part) == stack + [part]
    ensures Render(stack + [part]) == (if stack == [] then Render(stack) else Render(stack) + ['/']) + part
    ensures |Render(stack)| > 1 <==> stack != []
  {
    PushRender(stack, part);
    RenderSize(stack);
  }

  /** Copies one element, after a slash if it is not the first. */
  method AppendElement(p: string, buf0: array?<char>, r0: nat, w0: nat, ghost off: nat, ghost stack: seq<string>, ghost trailing: bool)
    returns (buf: array?<char>, r: nat, w: nat)
    requires Inv(p, buf0, r0, w0, off, stack, trailing) && r0 < |p| && p[r0] != '/'
    requires !(p[r0] == '.' && (r0 + 1 == |p| || p[r0 + 1] == '/'))
    requires !(p[r0] == '.' && p[r0 + 1] == '.' && (r0 + 2 == |p| || p[r0 + 2] == '/'))
    modifies if buf0 == null then {} else {buf0}
    ensures r0 < r <= |p| && Inv(p, buf, r, w, off, stack + [p[r0..r]], trailing)
    ensures if buf0 == null then buf == null || fresh(buf) else buf == buf0
  {
    hide Parts, Resolve, Render, AllPlain, HasText;
    buf, r, w := buf0, r0, w0;
    ghost var text := Render(stack);
    if w > 1 {
      buf := BufApp(buf, p, w, '/', text);
      w := w + 1;
      text := text + ['/'];
    }
    ghost var gap: int := r + off - w;
    ghost var first := text;
    assert p[r0..r0] == "" && first + "" == first;
    while r < |p| && p[r] != '/'
      invariant r0 <= r <= |p| && r + off - w == gap >= 0 && w >= 1
      invariant if buf == null then off == 0 && buf0 == null else buf.Length == |p| + off && (buf == buf0 || (buf0 == null && fresh(buf)))
      invariant buf0 != null ==> buf == buf0
      invariant forall k | r0 <= k < r :: p[k] != '/'
      invariant text == first + p[r0..r] && HasText(p, buf, w, text) && w == |text|
      decreases |p| - r
    {
      buf := BufApp(buf, p, w, p[r], text);
      assert p[r0..r + 1] == p[r0..r] + [p[r]];
      text := text + [p[r]];
      w := w + 1;
      r := r + 1;
    }
    ElementPlain(p, r0, r);
    ElementPushed(stack, p[r0..r]);
    AppendInv(p, buf, r0, r, w, off, stack, trailing);
  }

  lemma EndInv(p: string, buf: array?<char>, r: nat, w: nat, off: nat, stack: seq<string>, trailing: bool)
    requires Inv(p, buf, r, w, off, stack, trailing) && r == |p| && p != ""
    ensures Resolve([], Parts(p)) == stack && (w > 1 <==> stack != [])
    ensures trailing && w > 1 ==> w < |p| + off
  {
    hide Render, HasText;
    assert p[r..] == "";
    PartsAt("", 0);
    EmptyStep(stack);
    assert Parts("") == [""] && [""][1..] == [];
    RenderSize(stack);
  }

  lemma EmptyPath()
    ensures Clean("") == "/"
  {
    assert Parts("") == [""] && [""][1..] == [];
  }

  method CleanPath(p: string) returns (result: string)
    ensures result == Clean(p)
  {
    hide Parts, Resolve, Render;
    if p == "" {
      EmptyPath();
      return "/";
    }
    var n := |p|;
    var buf: array?<char> := null;
    var r: nat, w: nat := 1, 1;
    ghost var off: nat := if p[0] == '/' then 0 else 1;
    if p[0] != '/' {
      r := 0;
      buf := new char[n + 1];
      buf[0] := '/';
    }
    var trailing := n > 2 && p[n - 1] == '/';
    ghost var stack: seq<string> := [];
    StartInv(p, buf, r, w, off, trailing);
    while r < n
      invariant Inv(p, buf, r, w, off, stack, trailing)
      invariant buf == null || fresh(buf)
      decreases n - r
    {
      if p[r] == '/' {
        SlashInv(p, buf, r, w, off, stack, trailing);
        r := r + 1;
      } else if p[r] == '.' && r + 1 == n {
        DotInv(p, buf, r, w, off, stack, trailing);
        trailing := true;
        r := r + 1;
      } else if p[r] == '.' && p[r + 1] == '/' {
        DotInv(p, buf, r, w, off, stack, trailing);
        r := r + 1;
      } else if p[r] == '.' && p[r + 1] == '.' && (r + 2 == n || p[r + 2] == '/') {
        ghost var w0 := w;
        w := Backtrack(p, buf, w, stack);
        DotDotInv(p, buf, r, w0, w, off, stack, trailing);
        stack := Popped(stack);
        r := r + 2;
      } else {
        ghost var start := r;
        buf, r, w := AppendElement(p, buf, r, w, off, stack, trailing);
        stack := stack + [p[start..r]];
      }
    }
    EndInv(p, buf, r, w, off, stack, trailing);
    if trailing && w > 1 {
      buf := BufApp(buf, p, w, '/', Render(stack));
      w := w + 1;
    }
    if buf == null {
      return p[..w];
    }
    return buf[..w];
  }

  // ---- Cleaning twice ----

  lemma {:induction false} JoinedFront(stack: seq<string>)
    requires stack != []
    ensures Joined(stack) == "/" + stack[0] + Joined(stack[1..])
  {
    var rest, last := stack[..|stack| - 1], stack[|stack| - 1];
    if rest == [] {
      assert stack == [last] && stack[1..] == [];
      assert "" + "/" + last == "/" + last + "";
    } else {
      JoinedFront(rest);
      var tail := stack[1..];
      assert tail[..|tail| - 1] == rest[1..] && tail[|tail| - 1] == last;
      assert rest[0] == stack[0];
      assert Joined(stack) == ("/" + stack[0] + Joined(rest[1..])) + "/" + last;
      assert Joined(tail) == Joined(rest[1..]) + "/" + last;
    }
  }

  lemma NothingJoined()
    ensures Joined([]) == ""
  {
  }

  lemma JoinedStarts(stack: seq<string>)
    ensures if stack == [] then Joined(stack) == "" else |Joined(stack)| > 0 && Joined(stack)[0] == '/'
  {
    if stack != [] { JoinedFront(stack); }
  }

  lemma Walked(p: string, r: nat, e: string, after: string)
    requires r <= |p| && p[r..] == "/" + e + after && '/' !in e && (after == "" || after[0] == '/')
    ensures var end := r + 1 + |e|;
      && end <= |p| && p[r] == '/' && p[r + 1..end] == e && p[end..] == after
      && (forall k | r + 1 <= k < end :: p[k] != '/') && (end < |p| ==> p[end] == '/')
  {
    var end, s := r + 1 + |e|, p[r..];
    assert forall k | 0 <= k < |s| :: s[k] == p[r + k];
    assert s == ("/" + e) + after;
    assert forall k | 0 <= k < |e| :: p[r + (1 + k)] == s[1 + k] == e[k];
    forall k | r + 1 <= k < end ensures p[k] != '/' {
      assert p[r + (1 + (k - r - 1))] == e[k - r - 1];
    }
    assert p[r + 1..end] == e;
    assert p[end..] == after;
  }

  lemma ReadTail(done: seq<string>, tail: string)
    requires tail == "" || tail == "/"
    ensures Resolve(done, Parts(tail)) == done
  {
    assert Parts("") == [""] && [""][1..] == [];
    if tail == "/" {
      assert "/"[..0] == "" && "/"[1..] == "";
      assert Parts(tail) == [""] + [""];
      assert (["", ""])[1..] == [""];
    }
  }

  /** Reading a rendered path gives its elements back, with or without a slash at the end. */
  lemma {:induction false} ReadJoined(p: string, r: nat, done: seq<string>, rest: seq<string>, tail: string)
    requires r <= |p| && p[r..] == Joined(rest) + tail && (tail == "" || tail == "/") && AllPlain(rest)
    ensures Resolve(done, Parts(p[r..])) == done + rest
    decreases |rest|
  {
    hide Resolve, Parts, Joined;
    if rest == [] {
      NothingJoined();
      assert p[r..] == tail;
      ReadTail(done, tail);
      assert done + rest == done;
    } else {
      JoinedFront(rest);
      var e := rest[0];
      assert Plain(e);
      var end := r + 1 + |e|;
      JoinedStarts(rest[1..]);
      Walked(p, r, e, Joined(rest[1..]) + tail);
      SlashStep(p, r, done);
      ElementStep(p, r + 1, end, done);
      assert p[r + 1..end] == e;
      ReadJoined(p, end, done + [e], rest[1..], tail);
      assert done + [e] + rest[1..] == done + rest;
    }
  }

  lemma StackPlain(p: string)
    ensures AllPlain(Resolve([], Parts(p)))
  {
    PartsPlain(p);
    ResolvePlain([], Parts(p));
  }

  lemma Endings(stack: seq<string>)
    requires AllPlain(stack)
    ensures !EndsInSlash(Render(stack)) && !EndsInDot(Render(stack))
    ensures stack != [] ==> EndsInSlash(Render(stack) + "/") && !EndsInDot(Render(stack) + "/")
  {
    if stack != [] {
      var rest, last := stack[..|stack| - 1], stack[|stack| - 1];
      assert stack == rest + [last];
      PushRender(rest, last);
      assert Plain(last);
      RenderSize(rest);
    }
  }

  /** A clean path is left as it is. */
  lemma CleanTwice(p: string)
    ensures Clean(Clean(p)) == Clean(p)
  {
    hide Resolve, Parts, EndsInSlash, EndsInDot;
    var stack, c := Resolve([], Parts(p)), Clean(p);
    StackPlain(p);
    Endings(stack);
    assert c[0..] == c;
    if stack == [] {
      ReadTail([], "/");
    } else {
      var tail := if EndsInSlash(p) || EndsInDot(p) then "/" else "";
      assert Joined(stack) + "" == Joined(stack);
      ReadJoined(c, 0, [], stack, tail);
      assert [] + stack == stack;
    }
  }

  // ---- The rules of cleaning ----

  lemma {:induction false} PartsJoin(a: string, b: string)
    ensures Parts(a + "/" + b) == Parts(a) + Parts(b)
    decreases |a|
  {
    hide Slash;
    var p, i := a + "/" + b, Slash(a);
    if i == |a| {
      PartsAt(p, |a|);
      assert p[..|a|] == a && p[|a| + 1..] == b;
    } else {
      PartsAt(p, i);
      assert p[..i] == a[..i] && p[i + 1..] == a[i + 1..] + "/" + b;
      PartsJoin(a[i + 1..], b);
      assert Parts(a) == [a[..i]] + Parts(a[i + 1..]);
      assert Parts(p) == [a[..i]] + (Parts(a[i + 1..]) + Parts(b));
    }
  }

  lemma {:induction false} ResolveJoin(stack: seq<string>, a: seq<string>, b: seq<string>)
    ensures Resolve(stack, a + b) == Resolve(Resolve(stack, a), b)
    decreases |a|
  {
    if a == [] {
      assert a + b == b;
    } else {
      assert (a + b)[1..] == a[1..] + b;
      ResolveJoin(Step(stack, a[0]), a[1..], b);
    }
  }

  lemma PartsOne(e: string)
    requires '/' !in e
    ensures Parts(e) == [e]
  {
    PartsAt(e, |e|);
    assert e[..|e|] == e;
  }

  /** An element in the middle of a path is one step. */
  lemma MiddleStep(a: string, e: string, b: string)
    requires '/' !in e
    ensures Resolve([], Parts(a + "/" + e + "/" + b)) == Resolve(Step(Resolve([], Parts(a)), e), Parts(b))
  {
    hide Parts, Step;
    PartsJoin(a + "/" + e, b);
    PartsJoin(a, e);
    PartsOne(e);
    ResolveJoin([], Parts(a) + [e], Parts(b));
    ResolveJoin([], Parts(a), [e]);
    assert [e][1..] == [];
  }

  /** What follows decides the last slash. */
  lemma SameEnd(a: string, c: string, b: string)
    requires b != ""
    ensures |a + "/" + b| > 2 ==> (EndsInSlash(a + "/" + c + "/" + b) <==> EndsInSlash(a + "/" + b))
    ensures EndsInDot(a + "/" + c + "/" + b) <==> EndsInDot(a + "/" + b)
    ensures |a + "/" + b| <= 2 && EndsInSlash(a + "/" + c + "/" + b) ==> a == "" && b == "/"
  {
  }

  lemma NoElements()
    ensures Parts("") == [""] && Parts("/") == ["", ""]
  {
    PartsOne("");
    PartsJoin("", "");
    assert "" + "/" + "" == "/";
  }

  lemma ShortEnd(p: string)
    ensures |p| <= 2 ==> !EndsInSlash(p)
  {
  }

  /** A path with something taken out of its middle that leaves no trace on the stack. */
  lemma SameClean(a: string, c: string, b: string)
    requires b != "" && Resolve([], Parts(a + "/" + c + "/" + b)) == Resolve(Resolve([], Parts(a)), Parts(b))
    requires a == "" && b == "/" ==> Resolve([], Parts(a + "/" + c + "/" + b)) == []
    ensures Clean(a + "/" + c + "/" + b) == Clean(a + "/" + b)
  {
    hide Parts, Resolve, Render, EndsInSlash, EndsInDot;
    PartsJoin(a, b);
    ResolveJoin([], Parts(a), Parts(b));
    SameEnd(a, c, b);
    ShortEnd(a + "/" + b);
  }

  lemma RootEmpty()
    ensures Resolve([], Parts("")) == [] && Resolve([], Parts("/")) == []
  {
    NoElements();
    assert [""][1..] == [] && ["", ""][1..] == [""];
  }

  lemma LastStep(stack: seq<string>, e: string)
    ensures Resolve(stack, [e]) == Step(stack, e)
  {
    assert [e][1..] == [];
  }

  lemma UpAndDown(a: string, e: string, b: string)
    requires Plain(e)
    ensures Resolve([], Parts(a + "/" + (e + "/..") + "/" + b)) == Resolve(Resolve([], Parts(a)), Parts(b))
  {
    hide Parts, Resolve;
    var p := a + "/" + (e + "/..") + "/" + b;
    assert p == (a + "/" + e) + "/" + ".." + "/" + b;
    MiddleStep(a + "/" + e, "..", b);
    PartsJoin(a, e);
    PartsOne(e);
    ResolveJoin([], Parts(a), [e]);
    LastStep(Resolve([], Parts(a)), e);
    assert (Resolve([], Parts(a)) + [e])[..|Resolve([], Parts(a))|] == Resolve([], Parts(a));
  }

  /** The rules that the cleaner is to apply: double slashes are one, "." is nothing, ".." takes the element
      before it away, or nothing at the root. */
  lemma CleaningRules(a: string, e: string, b: string)
    requires b != "" && Plain(e)
    ensures Clean(a + "/" + "" + "/" + b) == Clean(a + "/" + b)
    ensures Clean(a + "/" + "." + "/" + b) == Clean(a + "/" + b)
    ensures Clean(a + "/" + (e + "/..") + "/" + b) == Clean(a + "/" + b)
    ensures Clean("" + "/" + ".." + "/" + b) == Clean("" + "/" + b)
  {
    hide Clean, Parts;
    RootEmpty();
    MiddleStep(a, "", b);
    MiddleStep(a, ".", b);
    MiddleStep("", "..", b);
    UpAndDown(a, e, b);
    SameClean(a, "", b);
    SameClean(a, ".", b);
    SameClean(a, e + "/..", b);
    SameClean("", "..", b);
  }
}
