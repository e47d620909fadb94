/** The cursor: a stack of positions that walks a bucket's tree. */
module Cursors {
  import opened Keys
  import opened BTree
  import opened TreeLookup

  /** A position in a node. In a leaf the index may be one past the last element, and -1 if there is none. */
  datatype Ref = Ref(node: Tree, index: int)

  datatype Option<+T> = None | Some(value: T)

  /** What a move returns. The value of a nested bucket is not shown. */
  datatype Item = Nil | Item(key: Bytes, value: Option<Bytes>)

  const BUCKET_LEAF_FLAG := 1

  predicate IsBucket(x: Inode) {
    x.flags % 2 == BUCKET_LEAF_FLAG
  }

  function Shown(x: Inode): Item {
    Item(x.key, if IsBucket(x) then None else Some(x.value))
  }

  /** The entry at a position of the list, if there is one. */
  function ItemAt(entries: seq<Inode>, p: int): Item {
    if 0 <= p < |entries| then Shown(entries[p]) else Nil
  }

  /** No node below the root is empty. */
  ghost predicate Walkable(t: Tree) {
    && (if t.isLeaf then t.kids == [] else |t.kids| == |t.inodes| > 0)
    && forall i | 0 <= i < |t.kids| :: t.kids[i].inodes != [] && Walkable(t.kids[i])
  }

  lemma {:induction false} NonEmpty(t: Tree)
    requires Walkable(t) && t.inodes != []
    ensures |Entries(t)| > 0
  {
    if !t.isLeaf {
      NonEmpty(t.kids[0]);
      assert t.kids == [t.kids[0]] + t.kids[1..];
    }
  }

  function Count(r: Ref): nat {
    |r.node.inodes|
  }

  predicate RefOk(r: Ref) {
    if r.node.isLeaf then (if r.node.inodes == [] then -1 else 0) <= r.index <= |r.node.inodes|
    else 0 <= r.index < |r.node.kids| == |r.node.inodes|
  }

  ghost predicate Linked(r: Ref, below: Ref) {
    !r.node.isLeaf && RefOk(r) && below.node == r.node.kids[r.index] && below.node.inodes != []
  }

  /** The stack leads from the root downwards. */
  ghost predicate OnPath(root: Tree, s: seq<Ref>) {
    && s != [] && s[0].node == root && Walkable(root)
    && (forall k | 0 <= k < |s| :: RefOk(s[k]) && Walkable(s[k].node))
    && (forall k | 0 < k < |s| :: Linked(s[k - 1], s[k]))
  }

  /** Entries of the node before the position. */
  function Local(r: Ref): int
    requires RefOk(r)
  {
    if r.node.isLeaf then r.index else |AllEntries(r.node.kids[..r.index])|
  }

  /** Entries of the whole tree before the position. */
  ghost function Before(s: seq<Ref>): int
    requires forall k | 0 <= k < |s| :: RefOk(s[k])
  {
    if s == [] then 0 else Before(s[..|s| - 1]) + Local(s[|s| - 1])
  }

  /** Where the entries of the node at level `k` end. */
  ghost function End(s: seq<Ref>, k: nat): int
    requires (forall i | 0 <= i < |s| :: RefOk(s[i])) && k < |s|
  {
    Before(s[..k]) + |Entries(s[k].node)|
  }

  lemma LastBefore(s: seq<Ref>)
    requires s != [] && forall k | 0 <= k < |s| :: RefOk(s[k])
    ensures Before(s) == Before(s[..|s| - 1]) + Local(s[|s| - 1])
  {
    hide RefOk, Local;
  }

  lemma PushPath(root: Tree, s: seq<Ref>, r: Ref)
    requires OnPath(root, s) && Linked(s[|s| - 1], r) && RefOk(r) && Walkable(r.node)
    ensures OnPath(root, s + [r])
    ensures forall k | 0 <= k < |s + [r]| :: RefOk((s + [r])[k])
  {
    hide Walkable, RefOk, Linked;
    var t := s + [r];
    forall k | 0 < k < |t| ensures Linked(t[k - 1], t[k]) {
      if k < |s| { assert Linked(s[k - 1], s[k]); }
    }
  }

  lemma PushBefore(root: Tree, s: seq<Ref>, r: Ref)
    requires OnPath(root, s) && Linked(s[|s| - 1], r) && RefOk(r) && Walkable(r.node)
    ensures OnPath(root, s + [r]) && Before(s + [r]) == Before(s) + Local(r)
  {
    hide *;
    var t := s + [r];
    assert t[..|t| - 1] == s;
    PushPath(root, s, r);
    LastBefore(t);
  }

  lemma Prefix(root: Tree, s: seq<Ref>, i: nat)
    requires OnPath(root, s) && 0 < i <= |s|
    ensures OnPath(root, s[..i])
  {
    hide Walkable, RefOk;
    var t := s[..i];
    assert forall k | 0 <= k < |t| :: t[k] == s[k];
    forall k | 0 < k < |t| ensures Linked(t[k - 1], t[k]) { assert Linked(s[k - 1], s[k]); }
  }

  /** The entries of one child are a stretch of those of its parent. */
  lemma Stretch(r: Ref)
    requires RefOk(r) && !r.node.isLeaf
    ensures var kid, all := r.node.kids[r.index], Entries(r.node);
      && 0 <= Local(r) && Local(r) + |Entries(kid)| <= |all|
      && all[Local(r)..Local(r) + |Entries(kid)|] == Entries(kid)
      && (r.index + 1 == |r.node.kids| ==> Local(r) + |Entries(kid)| == |all|)
      && (r.index + 1 < |r.node.kids| ==> Local(r.(index := r.index + 1)) == Local(r) + |Entries(kid)|)
      && (r.index == 0 ==> Local(r) == 0)
  {
    hide Entries, AllEntries;
    Three(r.node, r.index);
    var kids, i := r.node.kids, r.index;
    AllEntriesPlus(kids[..i], [kids[i]]);
    OneEntries(kids[i]);
    assert kids[..i + 1] == kids[..i] + [kids[i]];
    if i + 1 == |kids| { NoEntries(kids[i + 1..]); }
    if i == 0 { NoEntries(kids[..i]); }
  }

  lemma SubSlice<T>(s: seq<T>, a: int, b: int, l: int, n: nat)
    requires 0 <= a <= b <= |s| && 0 <= l && l + n <= b - a
    ensures s[a..b][l..l + n] == s[a + l..a + l + n]
  {
    var mid := s[a..b];
    var x, y := mid[l..l + n], s[a + l..a + l + n];
    forall k | 0 <= k < n ensures x[k] == y[k] {
      assert mid[l + k] == s[a + l + k];
    }
  }

  /** The entries of the node at level `k` are a stretch of all entries. */
  lemma {:induction false} Span(root: Tree, s: seq<Ref>, k: nat)
    requires OnPath(root, s) && k < |s|
    ensures var a := Before(s[..k]);
      && 0 <= a && End(s, k) <= |Entries(root)|
      && Entries(root)[a..End(s, k)] == Entries(s[k].node)
      && (k == 0 ==> a == 0)
  {
    hide Walkable, Entries, Local, RefOk;
    if k > 0 {
      var a := Before(s[..k - 1]);
      Span(root, s, k - 1);
      assert Linked(s[k - 1], s[k]);
      Stretch(s[k - 1]);
      assert s[..k][..k - 1] == s[..k - 1];
      var all, node := Entries(root), Entries(s[k - 1].node);
      var l, n := Local(s[k - 1]), |Entries(s[k].node)|;
      SubSlice(all, a, a + |node|, l, n);
    }
  }

  /** A position in a leaf is the position of its entry in the whole list. */
  lemma EntryAt(root: Tree, s: seq<Ref>)
    requires OnPath(root, s) && s[|s| - 1].node.isLeaf
    ensures var top, p := s[|s| - 1], Before(s);
      && -1 <= p <= |Entries(root)|
      && (0 <= top.index < |top.node.inodes| ==> 0 <= p < |Entries(root)| && Entries(root)[p] == top.node.inodes[top.index])
      && End(s, |s| - 1) == p - top.index + |top.node.inodes|
  {
    hide Walkable;
    Span(root, s, |s| - 1);
    var top, a := s[|s| - 1], Before(s[..|s| - 1]);
    var all := Entries(root);
    if 0 <= top.index < |top.node.inodes| {
      assert all[a..a + |top.node.inodes|][top.index] == all[a + top.index];
    }
  }

  lemma Untouched(s: seq<Ref>, i: nat, r: Ref)
    requires i < |s| && RefOk(r) && forall k | 0 <= k < |s| :: RefOk(s[k])
    ensures s[i := r][..i] == s[..i]
    ensures Before(s[i := r][..i + 1]) == Before(s[..i]) + Local(r)
  {
    hide Local, RefOk;
    var t := s[i := r][..i + 1];
    assert t[..|t| - 1] == s[..i];
  }

  /** A bucket's tree as the operations on keys need it: separators bound, and as read from the file. */
  /** In the order of bytes.Compare. */
  ghost predicate NotAfter(a: Bytes, b: Bytes) {
    a == b || Precedes(a, b)
  }

  ghost predicate InBounds(root: Tree) {
    Tight(root) && exists h: nat :: Shape(root, Open, Open, h, 2)
  }

  lemma BucketSorted(root: Tree)
    requires InBounds(root)
    ensures Sorted(Entries(root))
  {
    hide Shape, Tight;
    var h: nat :| Shape(root, Open, Open, h, 2);
    EntriesContent(root, Open, Open, h, 2);
  }

  lemma OrderIs(a: Bytes, b: Bytes)
    ensures NotAfter(a, b) <==> !Less(b, a)
  {
    hide Less, Precedes;
    Order();
    Lexicographic(a, b);
  }

  lemma FirstLeast(s: seq<Inode>)
    requires Sorted(s)
    ensures forall e | e in s :: s != [] && NotAfter(s[0].key, e.key)
  {
    hide Less, NotAfter;
    Order();
    forall e | e in s ensures NotAfter(s[0].key, e.key) {
      var i :| 0 <= i < |s| && s[i] == e;
      OrderIs(s[0].key, e.key);
      assert i > 0 ==> Less(s[0].key, s[i].key);
    }
  }

  lemma SeekLeast(s: seq<Inode>, key: Bytes)
    requires Sorted(s)
    ensures var r := Rank(s, key);
      && (r < |s| ==> NotAfter(key, s[r].key))
      && (forall e | e in s && NotAfter(key, e.key) :: r < |s| && NotAfter(s[r].key, e.key))
      && (forall e | e in s && key <= e.key :: r < |s| && key <= s[r].key && NotAfter(s[r].key, e.key))
  {
    hide Less, NotAfter, Rank;
    Order();
    RankCorrect(s, key);
    var r := Rank(s, key);
    if r < |s| { OrderIs(key, s[r].key); }
    forall e | e in s && NotAfter(key, e.key) ensures r < |s| && NotAfter(s[r].key, e.key) {
      var i :| 0 <= i < |s| && s[i] == e;
      OrderIs(key, e.key);
      OrderIs(s[r].key, e.key);
      assert i > r ==> Less(s[r].key, s[i].key);
    }
    var hi := PrefixTogether(s, key);
    forall e | e in s && key <= e.key ensures r < |s| && key <= s[r].key && NotAfter(s[r].key, e.key) {
      var i :| 0 <= i < |s| && s[i] == e;
      OrderIs(s[r].key, e.key);
      assert i > r ==> Less(s[r].key, s[i].key);
    }
  }

  /** The entry at or after `key` in the leaf for `key`. */
  function LeafEntry(root: Tree, key: Bytes): Option<Inode> {
    var leaf := LeafFor(root, key).inodes;
    var i := Rank(leaf, key);
    if i < |leaf| then Some(leaf[i]) else None
  }

  /** What a search below a node leaves on the stack, when no node is empty. */
  ghost predicate Sought(root: Tree, before: seq<Ref>, after: seq<Ref>, node: Tree, key: Bytes) {
    Walkable(root) ==>
      && OnPath(root, after) && (before != [] ==> OnPath(root, before))
      && Before(after) == Before(before) + Rank(Entries(node), key)
  }

  /** The next node belongs on top of the stack, when no node is empty. */
  ghost predicate Reaching(root: Tree, s: seq<Ref>, node: Tree) {
    Walkable(root) ==>
      if s == [] then node == root else OnPath(root, s) && Linked(s[|s| - 1], Ref(node, 0))
  }

  lemma PushRoot(root: Tree, r: Ref)
    requires Walkable(root) && r.node == root && RefOk(r)
    ensures OnPath(root, [r]) && Before([r]) == Before([]) + Local(r)
  {
    hide Local, RefOk, Walkable, Linked;
    assert [r][..0] == [];
    LastBefore([r]);
  }

  lemma NodeWalkable(root: Tree, s: seq<Ref>, r: Ref)
    requires OnPath(root, s) && Linked(s[|s| - 1], Ref(r.node, 0))
    ensures Walkable(r.node) && Linked(s[|s| - 1], r)
  {
    var top := s[|s| - 1];
    assert Walkable(top.node);
  }

  lemma PushAny(root: Tree, s: seq<Ref>, r: Ref)
    requires Walkable(root) && Reaching(root, s, r.node) && RefOk(r)
    ensures OnPath(root, s + [r]) && (s != [] ==> OnPath(root, s))
    ensures Before(s + [r]) == Before(s) + Local(r)
  {
    hide Local, RefOk, Walkable, OnPath, Linked, Before;
    if s == [] {
      assert s + [r] == [r];
      PushRoot(root, r);
    } else {
      NodeWalkable(root, s, r);
      PushBefore(root, s, r);
    }
  }

  lemma SoughtLeaf(root: Tree, s: seq<Ref>, node: Tree, key: Bytes)
    requires Reaching(root, s, node) && node.isLeaf
    ensures Sought(root, s, s + [Ref(node, Rank(node.inodes, key))], node, key)
  {
    if Walkable(root) { PushAny(root, s, Ref(node, Rank(node.inodes, key))); }
  }

  lemma SoughtStep(root: Tree, s: seq<Ref>, node: Tree, i: nat, after: seq<Ref>, key: Bytes)
    requires Reaching(root, s, node) && CanDescend(node) && i < |node.kids|
    requires Sought(root, s + [Ref(node, i)], after, node.kids[i], key)
    requires Rank(Entries(node), key) == |AllEntries(node.kids[..i])| + Rank(Entries(node.kids[i]), key)
    ensures Sought(root, s, after, node, key)
  {
    hide OnPath, Walkable, Rank, Linked;
    if Walkable(root) { PushAny(root, s, Ref(node, i)); }
  }

  lemma ReachingKid(root: Tree, s: seq<Ref>, node: Tree, i: nat)
    requires Reaching(root, s, node) && CanDescend(node) && i < |node.kids|
    ensures Reaching(root, s + [Ref(node, i)], node.kids[i])
  {
    if Walkable(root) {
      PushAny(root, s, Ref(node, i));
      var t := s + [Ref(node, i)];
      assert Walkable(t[|t| - 1].node);
    }
  }

  /** Where one entry forward leads from a position. */
  ghost function Following(s: seq<Ref>): int
    requires s != [] && forall k | 0 <= k < |s| :: RefOk(s[k])
  {
    var top := s[|s| - 1];
    if top.index < Count(top) then Before(s) + 1 else Before(s)
  }

  lemma ChildForIs(inodes: seq<Inode>, key: Bytes)
    requires inodes != []
    ensures var i := Rank(inodes, key);
      ChildFor(inodes, key) == if !(i < |inodes| && inodes[i].key == key) && i > 0 then i - 1 else i
  {
  }

  lemma BodySorted(t: Tree, lo: Bound, hi: Bound, h: nat)
    requires Body(t.inodes, t.kids, lo, hi, h)
    ensures Sorted(t.inodes)
  {
  }

  /** The position of the last entry below the top of the stack. */
  ghost function LastBelow(s: seq<Ref>): int
    requires s != [] && forall k | 0 <= k < |s| :: RefOk(s[k])
  {
    var top := s[|s| - 1];
    if top.node.isLeaf then Before(s) else Before(s) + |Entries(top.node.kids[top.index])| - 1
  }

  lemma EndsAtLast(ref: Ref, next: Ref)
    requires Walkable(ref.node) && RefOk(ref) && !ref.node.isLeaf
    requires next.node == ref.node.kids[ref.index] && next.index == |next.node.inodes| - 1
    ensures Linked(ref, next) && RefOk(next) && next.index >= 0
    ensures if next.node.isLeaf then Local(next) == |Entries(next.node)| - 1
      else Local(next) + |Entries(next.node.kids[next.index])| == |Entries(next.node)|
  {
    if !next.node.isLeaf { Stretch(next); }
  }

  /** Only an empty root leaf has no entries. */
  lemma RootEntries(t: Tree)
    requires Walkable(t)
    ensures Entries(t) == [] <==> t.inodes == []
    ensures !t.isLeaf ==> t.inodes != []
  {
    if t.inodes != [] { NonEmpty(t); }
  }

  lemma LastOfRoot(t: Tree)
    requires Walkable(t)
    ensures var s := [Ref(t, |t.inodes| - 1)];
      && OnPath(t, s) && LastBelow(s) == |Entries(t)| - 1
  {
    var r := Ref(t, |t.inodes| - 1);
    if !t.isLeaf { Stretch(r); }
    assert Before([r]) == Local(r);
  }

  lemma StartsAtZero(r: Ref)
    requires RefOk(r) && r.index == 0
    ensures Local(r) == 0
  {
    if !r.node.isLeaf { NoEntries(r.node.kids[..r.index]); }
  }

  lemma PopBefore(root: Tree, s: seq<Ref>)
    requires OnPath(root, s) && s[|s| - 1].index <= 0
    ensures var t := s[..|s| - 1];
      && (t != [] ==> OnPath(root, t) && Before(t) == Before(s))
      && (t == [] ==> Before(s) <= 0)
  {
    var top := s[|s| - 1];
    if top.index == 0 { StartsAtZero(top); }
    if |s| > 1 {
      Prefix(root, s, |s| - 1);
      assert Linked(s[|s| - 2], s[|s| - 1]);
    }
  }

  /** A leaf at the top of the stack: what follows its last element is where the leaf ends. */
  lemma AtLeaf(root: Tree, s: seq<Ref>)
    requires OnPath(root, s) && s[|s| - 1].node.isLeaf
    ensures var top := s[|s| - 1]; top.index >= Count(top) - 1 ==> End(s, |s| - 1) == Following(s)
  {
    EntryAt(root, s);
  }

  /** Below level `i` everything is done: going on at level `i` leads to the following entry. */
  lemma StepForward(root: Tree, s: seq<Ref>, i: nat)
    requires OnPath(root, s) && s[|s| - 1].node.isLeaf && i < |s| && s[i].index < Count(s[i]) - 1
    requires i < |s| - 1 ==> End(s, i + 1) == Following(s)
    ensures var t := s[i := s[i].(index := s[i].index + 1)][..i + 1];
      && OnPath(root, t) && Before(t) == Following(s) && 0 <= t[i].index < Count(t[i])
  {
    hide Walkable;
    var r := s[i].(index := s[i].index + 1);
    if !s[i].node.isLeaf {
      assert Linked(s[i], s[i + 1]);
      Stretch(s[i]);
    }
    Untouched(s, i, r);
    Untouched(s, i, s[i]);
    assert s[i := s[i]] == s;
    Prefix(root, s, i + 1);
    var u, t := s[..i + 1], s[i := r][..i + 1];
    forall k | 0 < k < |t| ensures Linked(t[k - 1], t[k]) { assert Linked(u[k - 1], u[k]); }
  }

  /** The last element of level `i`: where it ends is where the level ends. */
  lemma LevelDone(root: Tree, s: seq<Ref>, i: nat)
    requires OnPath(root, s) && s[|s| - 1].node.isLeaf && i < |s| && s[i].index >= Count(s[i]) - 1
    requires i < |s| - 1 ==> End(s, i + 1) == Following(s)
    ensures End(s, i) == Following(s)
  {
    hide Walkable;
    if i == |s| - 1 {
      AtLeaf(root, s);
    } else {
      assert Linked(s[i], s[i + 1]);
      Stretch(s[i]);
      Untouched(s, i, s[i]);
      assert s[i := s[i]] == s;
    }
  }

  lemma RootDone(root: Tree, s: seq<Ref>)
    requires OnPath(root, s) && End(s, 0) == Following(s)
    ensures Following(s) == |Entries(root)|
  {
    assert s[..0] == [];
  }

  lemma StepBack(root: Tree, s: seq<Ref>)
    requires OnPath(root, s) && s[|s| - 1].index > 0
    ensures var top := s[|s| - 1];
      var t := s[|s| - 1 := top.(index := top.index - 1)];
      && OnPath(root, t) && LastBelow(t) == Before(s) - 1
      && (top.node.isLeaf ==> 0 <= top.index - 1 < |top.node.inodes|)
  {
    hide Walkable;
    var n := |s| - 1;
    var top := s[n];
    var r := top.(index := top.index - 1);
    var t := s[n := r];
    if !top.node.isLeaf { Stretch(r); }
    Untouched(s, n, r);
    assert s[..n + 1] == s && t[..n + 1] == t;
    forall k | 0 < k < |t| ensures Linked(t[k - 1], t[k]) { assert Linked(s[k - 1], s[k]); }
  }

  lemma KidWalkable(r: Ref)
    requires Walkable(r.node) && RefOk(r) && !r.node.isLeaf
    ensures 0 <= r.index < |r.node.kids|
    ensures var kid := r.node.kids[r.index]; Walkable(kid) && kid.inodes != [] && kid < r.node
    ensures Linked(r, Ref(r.node.kids[r.index], 0)) && RefOk(Ref(r.node.kids[r.index], 0))
  {
  }

  class Cursor {
    const root: Tree
    var stack: seq<Ref>

    constructor (root: Tree)
      ensures this.root == root && stack == []
    {
      this.root, stack := root, [];
    }

    /** The stack is empty or leads to a leaf. */
    ghost predicate Placed()
      reads this
    {
      Walkable(root) && (stack != [] ==> OnPath(root, stack) && stack[|stack| - 1].node.isLeaf)
    }

    /** The position in the list of entries. */
    ghost function Position(): int
      requires Placed()
      reads this
    {
      Before(stack)
    }

    /** The cursor stands on an entry, not past the last one of a leaf. */
    ghost predicate OnEntry()
      reads this
    {
      stack != [] && 0 <= stack[|stack| - 1].index < Count(stack[|stack| - 1])
    }

    /** Down to the first element below the last position. */
    method DescendFirst()
      requires OnPath(root, stack)
      modifies this`stack
      ensures OnPath(root, stack) && stack[|stack| - 1].node.isLeaf
      ensures Before(stack) == Before(old(stack))
      ensures |stack| >= |old(stack)|
      ensures |stack| > |old(stack)| ==> 0 == stack[|stack| - 1].index < Count(stack[|stack| - 1])
      ensures |stack| == |old(stack)| ==> stack == old(stack)
    {
      hide Walkable, RefOk, Local, Linked, Before;
      while true
        invariant OnPath(root, stack) && |stack| >= |old(stack)|
        invariant Before(stack) == Before(old(stack))
        invariant |stack| > |old(stack)| ==> 0 == stack[|stack| - 1].index < Count(stack[|stack| - 1])
        invariant |stack| == |old(stack)| ==> stack == old(stack)
        decreases stack[|stack| - 1].node
      {
        var ref := stack[|stack| - 1];
        if ref.node.isLeaf {
          break;
        }
        KidWalkable(ref);
        var next := Ref(ref.node.kids[ref.index], 0);
        StartsAtZero(next);
        PushBefore(root, stack, next);
        stack := stack + [next];
      }
    }

    /** Down to the last element below the last position. */
    method DescendLast()
      requires OnPath(root, stack)
      modifies this`stack
      ensures OnPath(root, stack) && stack[|stack| - 1].node.isLeaf
      ensures Before(stack) == old(LastBelow(stack))
      ensures |stack| >= |old(stack)|
      ensures |stack| > |old(stack)| ==> 0 <= stack[|stack| - 1].index < Count(stack[|stack| - 1])
      ensures |stack| == |old(stack)| ==> stack == old(stack)
    {
      hide Walkable, RefOk, Local, Linked;
      while true
        invariant OnPath(root, stack) && |stack| >= |old(stack)|
        invariant LastBelow(stack) == LastBelow(old(stack))
        invariant |stack| > |old(stack)| && stack[|stack| - 1].node.isLeaf ==>
          0 <= stack[|stack| - 1].index < Count(stack[|stack| - 1])
        invariant |stack| == |old(stack)| ==> stack == old(stack)
        decreases stack[|stack| - 1].node
      {
        var ref := stack[|stack| - 1];
        if ref.node.isLeaf {
          break;
        }
        KidWalkable(ref);
        var kid := ref.node.kids[ref.index];
        var next := Ref(kid, |kid.inodes| - 1);
        EndsAtLast(ref, next);
        PushBefore(root, stack, next);
        stack := stack + [next];
      }
    }

    /** The entry at the top of the stack. */
    method KeyValue() returns (x: Option<Inode>)
      requires stack != [] && RefOk(stack[|stack| - 1]) && stack[|stack| - 1].node.isLeaf
      ensures x == if OnEntry() then Some(stack[|stack| - 1].node.inodes[stack[|stack| - 1].index]) else None
      ensures Placed() && OnEntry() ==> 0 <= Position() < |Entries(root)| && x == Some(Entries(root)[Position()])
    {
      if OnPath(root, stack) { EntryAt(root, stack); }
      var ref := stack[|stack| - 1];
      if Count(ref) == 0 || ref.index >= Count(ref) {
        return None;
      }
      x := Some(ref.node.inodes[ref.index]);
    }

    /** The first entry of the bucket. */
    method First() returns (item: Item)
      requires Walkable(root)
      modifies this`stack
      ensures Placed() && stack != [] && Position() == 0
      ensures item == ItemAt(Entries(root), 0)
      ensures item != Nil ==> OnEntry()
      ensures InBounds(root) ==> forall e | e in Entries(root) :: item.Item? && NotAfter(item.key, e.key)
    {
      if InBounds(root) {
        BucketSorted(root);
        FirstLeast(Entries(root));
      }
      stack := [Ref(root, 0)];
      StartsAtZero(stack[0]);
      DescendFirst();
      EntryAt(root, stack);
      RootEntries(root);
      var x := KeyValue();
      item := if x.None? then Nil else Shown(x.value);
    }

    /** The last entry of the bucket. */
    method Last() returns (item: Item)
      requires Walkable(root)
      modifies this`stack
      ensures Placed() && stack != [] && Position() == |Entries(root)| - 1
      ensures item == ItemAt(Entries(root), |Entries(root)| - 1)
    {
      stack := [Ref(root, |root.inodes| - 1)];
      RootEntries(root);
      LastOfRoot(root);
      DescendLast();
      EntryAt(root, stack);
      var x := KeyValue();
      item := if x.None? then Nil else Shown(x.value);
    }

    /** Down to the leaf for a key, and to the key's place there. */
    method Search(key: Bytes, node: Tree, ghost lo: Bound, ghost hi: Bound, ghost h: nat)
      requires Shape(node, lo, hi, h, 2) && Tight(node) && LeadsFrom(node, lo) && Above(key, lo) && Below(key, hi)
      requires Reaching(root, stack, node)
      modifies this`stack
      ensures |stack| > |old(stack)| && Sought(root, old(stack), stack, node, key)
      ensures var top := stack[|stack| - 1];
        top.node == LeafFor(node, key) && top.node.isLeaf && top.index == Rank(top.node.inodes, key)
      decreases h
    {
      hide Less, KidOk, Body, Content, Shape, Reaching, Sought, Walkable, Between, Rank, ChildFor, LoAt, HiAt, Above, Below;
      ghost var before := stack;
      BodyOf(node, lo, hi, h);
      BodySorted(node, lo, hi, h);
      stack := stack + [Ref(node, 0)];
      var index, exact := Keys.Search(node.inodes, key);
      RankCorrect(node.inodes, key);
      RankUnique(node.inodes, key, index, Rank(node.inodes, key));
      if node.isLeaf {
        stack := stack[|stack| - 1 := Ref(node, index)];
        assert stack == before + [Ref(node, index)];
        SoughtLeaf(root, before, node, key);
        return;
      }
      Around(node, lo, hi, h, key);
      Descend(node, lo, hi, h, key);
      ChildForIs(node.inodes, key);
      if !exact && index > 0 {
        index := index - 1;
      }
      stack := stack[|stack| - 1 := Ref(node, index)];
      assert stack == before + [Ref(node, index)];
      ReachingKid(root, before, node, index);
      MiddleFound(AllEntries(node.kids[..index]), Entries(node.kids[index]), AllEntries(node.kids[index + 1..]), key);
      Search(key, node.kids[index], LoAt(node.inodes, lo, index), HiAt(node.inodes, hi, index), h - 1);
      SoughtStep(root, before, node, index, stack, key);
    }

    /** To the place of a key in its leaf, with the entry there. Nothing is returned past the end of
        that leaf, even if more leaves follow. */
    method SeekLeaf(key: Bytes) returns (x: Option<Inode>)
      requires InBounds(root)
      modifies this`stack
      ensures stack != [] && RefOk(stack[|stack| - 1])
      ensures var top := stack[|stack| - 1];
        top.node == LeafFor(root, key) && top.node.isLeaf && top.index == Rank(top.node.inodes, key)
      ensures x == LeafEntry(root, key)
      ensures Walkable(root) ==> Placed() && Position() == Rank(Entries(root), key)
    {
      hide Walkable, Shape;
      stack := [];
      ghost var h: nat :| Shape(root, Open, Open, h, 2);
      Search(key, root, Open, Open, h);
      var ref := stack[|stack| - 1];
      if ref.index >= Count(ref) {
        return None;
      }
      x := KeyValue();
    }

    /** The entry with the least key not below the given one. With a prefix for a key, that is the first of
        the entries that begin with it. */
    method Seek(key: Bytes) returns (item: Item)
      requires InBounds(root) && Walkable(root)
      modifies this`stack
      ensures Placed() && stack != [] && Position() == Rank(Entries(root), key)
      ensures item == ItemAt(Entries(root), Rank(Entries(root), key))
      ensures item.Item? ==> NotAfter(key, item.key)
      ensures forall e | e in Entries(root) && NotAfter(key, e.key) :: item.Item? && NotAfter(item.key, e.key)
      ensures forall e | e in Entries(root) && key <= e.key :: item.Item? && key <= item.key && NotAfter(item.key, e.key)
    {
      hide Walkable, InBounds, Rank, NotAfter;
      BucketSorted(root);
      SeekLeast(Entries(root), key);
      var x := SeekLeaf(key);
      var ref := stack[|stack| - 1];
      EntryAt(root, stack);
      if ref.index >= Count(ref) {
        x := Advance();
      }
      item := if x.None? then Nil else Shown(x.value);
    }

    /** One entry forward. At the last entry the cursor stays and nothing is returned. From past the
        end of a leaf the next entry is the first of the next leaf. */
    method Advance() returns (x: Option<Inode>)
      requires Placed()
      modifies this`stack
      ensures Placed() && (stack == [] <==> old(stack) == [])
      ensures old(stack) == [] ==> x.None?
      ensures old(stack) != [] ==>
        var q := old(Following(stack));
        if 0 <= q < |Entries(root)| then OnEntry() && Position() == q && x == Some(Entries(root)[q])
        else stack == old(stack) && x.None?
    {
      hide Walkable, RefOk, Local, Linked;
      var i := |stack| - 1;
      if i >= 0 { AtLeaf(root, stack); }
      while i >= 0
        invariant -1 <= i < |stack| && stack == old(stack)
        invariant stack != [] && i == |stack| - 1 ==> OnPath(root, stack) && stack[i].node.isLeaf
        invariant stack != [] && i < |stack| - 1 ==> End(stack, i + 1) == Following(stack)
      {
        var elem := stack[i];
        if elem.index < Count(elem) - 1 {
          StepForward(root, stack, i);
          stack := stack[i := elem.(index := elem.index + 1)];
          break;
        }
        LevelDone(root, stack, i);
        i := i - 1;
      }
      if i == -1 {
        if stack != [] { RootDone(root, stack); }
        return None;
      }
      stack := stack[..i + 1];
      DescendFirst();
      x := KeyValue();
    }

    method Next() returns (item: Item)
      requires Placed()
      modifies this`stack
      ensures Placed() && (stack == [] <==> old(stack) == [])
      ensures old(stack) == [] ==> item == Nil
      ensures old(stack) != [] ==> item == ItemAt(Entries(root), old(Following(stack)))
      ensures item != Nil ==> OnEntry() && Position() == old(Following(stack))
      ensures item == Nil ==> stack == old(stack)
    {
      var x := Advance();
      item := if x.None? then Nil else Shown(x.value);
    }

    /** One entry back. Before the first entry the stack is left empty. */
    method Prev() returns (item: Item)
      requires Placed()
      modifies this`stack
      ensures Placed()
      ensures old(stack) == [] ==> stack == [] && item == Nil
      ensures old(stack) != [] && old(Position()) <= 0 ==> stack == [] && item == Nil
      ensures old(stack) != [] && old(Position()) > 0 ==>
        stack != [] && Position() == old(Position()) - 1 && item == ItemAt(Entries(root), Position())
    {
      hide Walkable, RefOk, Local, Linked;
      if stack != [] { EntryAt(root, stack); }
      ghost var p := Before(stack);
      var i := |stack| - 1;
      while i >= 0
        invariant -1 <= i == |stack| - 1
        invariant stack != [] ==> OnPath(root, stack) && Before(stack) == p
        invariant stack == [] ==> p <= 0
      {
        var elem := stack[i];
        if elem.index > 0 {
          break;
        }
        PopBefore(root, stack);
        stack := stack[..i];
        i := i - 1;
      }
      if |stack| == 0 {
        return Nil;
      }
      StepBack(root, stack);
      stack := stack[i := stack[i].(index := stack[i].index - 1)];
      DescendLast();
      EntryAt(root, stack);
      var x := KeyValue();
      item := if x.None? then Nil else Shown(x.value);
    }
  }
}
