/** Lists of page ids: order, membership, and the library sort the free list relies on. */
module PageIds {

  ghost predicate Ascending(s: seq<nat>) {
    forall i, j :: 0 <= i < j < |s| ==> s[i] < s[j]
  }

  ghost predicate Distinct(s: seq<nat>) {
    forall i, j :: 0 <= i < j < |s| ==> s[i] != s[j]
  }

  ghost function Elems(s: seq<nat>): set<nat> {
    set x | x in s
  }

  /** The page ids start, start + 1, ..., start + n - 1. */
  ghost function Run(start: nat, n: nat): (r: set<nat>)
    ensures forall x :: x in r <==> start <= x < start + n
    decreases n
  {
    if n == 0 then {} else Run(start, n - 1) + {start + n - 1}
  }

  function Insert(x: nat, s: seq<nat>): seq<nat> {
    if s == [] then [x]
    else if x <= s[0] then [x] + s
    else [s[0]] + Insert(x, s[1..])
  }

  /** The library sort on page ids. */
  function Sort(s: seq<nat>): seq<nat> {
    if s == [] then [] else Insert(s[0], Sort(s[1..]))
  }

  lemma Prepend(x: nat, t: seq<nat>)
    requires Ascending(t) && (t == [] || x < t[0])
    ensures Ascending([x] + t) && Elems([x] + t) == Elems(t) + {x}
  {
  }

  lemma {:induction false} InsertSorted(x: nat, s: seq<nat>)
    requires Ascending(s) && x !in s
    ensures var r := Insert(x, s);
      Ascending(r) && Elems(r) == Elems(s) + {x} && r[0] == if s == [] || x <= s[0] then x else s[0]
  {
    if s != [] && x > s[0] {
      InsertSorted(x, s[1..]);
      Prepend(s[0], Insert(x, s[1..]));
      Prepend(s[0], s[1..]);
      assert s == [s[0]] + s[1..];
    } else {
      Prepend(x, s);
    }
  }

  /** On a list without repetitions the sort is the ascending list of the same elements. */
  lemma {:induction false} SortCorrect(s: seq<nat>)
    requires Distinct(s)
    ensures Ascending(Sort(s)) && Elems(Sort(s)) == Elems(s)
  {
    if s != [] {
      SortCorrect(s[1..]);
      assert s[0] !in Elems(s[1..]);
      assert s[0] !in Sort(s[1..]);
      InsertSorted(s[0], Sort(s[1..]));
      assert Elems(s) == {s[0]} + Elems(s[1..]);
    }
  }

  lemma ElemsEmpty(s: seq<nat>)
    ensures Elems(s) == {} <==> s == []
  {
    if s != [] { assert s[0] in Elems(s); }
  }

  /** An ascending list is determined by its elements. */
  lemma {:induction false} AscendingUnique(a: seq<nat>, b: seq<nat>)
    requires Ascending(a) && Ascending(b) && Elems(a) == Elems(b)
    ensures a == b
  {
    ElemsEmpty(a);
    ElemsEmpty(b);
    if a != [] && b != [] {
      assert a[0] in Elems(a) && b[0] in Elems(b);
      assert a[0] == b[0];
      assert Elems(a[1..]) == Elems(a) - {a[0]};
      assert Elems(b[1..]) == Elems(b) - {b[0]};
      AscendingUnique(a[1..], b[1..]);
      assert a == [a[0]] + a[1..] && b == [b[0]] + b[1..];
    }
  }

  lemma {:induction false} DistinctCard(s: seq<nat>)
    requires Distinct(s)
    ensures |Elems(s)| == |s|
  {
    if s != [] {
      var p, l := s[..|s| - 1], s[|s| - 1];
      assert s == p + [l];
      DistinctCard(p);
      assert Elems(s) == Elems(p) + {l};
      assert l !in Elems(p);
    }
  }

  lemma SortedExists(s: set<nat>)
    ensures exists list :: Ascending(list) && Elems(list) == s
  {
    if s == {} {
      assert Ascending([]) && Elems([]) == s;
    } else {
      var x :| x in s;
      SortedExists(s - {x});
      var list :| Ascending(list) && Elems(list) == s - {x};
      assert x !in Elems(list);
      InsertSorted(x, list);
      assert Elems(Insert(x, list)) == s;
    }
  }

  lemma AscendingDistinct(s: seq<nat>)
    requires Ascending(s)
    ensures Distinct(s)
  {
  }
}
