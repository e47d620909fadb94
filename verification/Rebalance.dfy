/** What happens at commit to the nodes from which keys were deleted. */
module Rebalance {
  import opened Keys
  import opened Nodes
  import opened BTree

  function MinKeys(n: Tree): nat {
    if n.isLeaf then 1 else 2
  }

  /** Above a quarter of a page, with enough keys: left alone. */
  predicate HasEnough(n: Tree, pageSize: nat) {
    SizeOf(n.inodes) > pageSize / 4 && |n.inodes| > MinKeys(n)
  }

  /** The parent after one child was looked at, the pages given back, and whether the parent itself
      is rebalanced next. */
  datatype Fixed = Fixed(tree: Tree, freed: multiset<nat>, again: bool)

  function DropKid(p: Tree, i: nat): Tree
    requires i < |p.kids|
  {
    var key := p.kids[i].key;
    p.(unbalanced := p.unbalanced || Found(p.inodes, key),
       inodes := DeleteFrom(p.inodes, key),
       kids := p.kids[..i] + p.kids[i + 1..])
  }

  /** Gives the child at `i` the key of its first element, in the child and in the parent. */
  function Rekey(p: Tree, i: nat): Tree
    requires i < |p.kids| && p.kids[i].inodes != []
  {
    var n := p.kids[i];
    var key := n.inodes[0].key;
    p.(inodes := PutInto(p.inodes, n.key, Inode(0, n.pgid, key, [])), kids := p.kids[i := n.(key := key)])
  }

  function GainLast(x: Tree, y: Tree): Tree
    requires y.inodes != []
  {
    x.(inodes := x.inodes + y.inodes[..1], kids := x.kids + Take(y.kids, 1))
  }

  function LoseFirst(y: Tree): Tree
    requires y.inodes != []
  {
    y.(loaded := true, inodes := y.inodes[1..], kids := Rest(y.kids, 1))
  }

  function LoseLast(x: Tree): Tree
    requires x.inodes != []
  {
    var last := |x.inodes| - 1;
    x.(loaded := true, inodes := x.inodes[..last], kids := Take(x.kids, last))
  }

  function GainFirst(x: Tree, y: Tree): Tree
    requires x.inodes != []
  {
    var last := |x.inodes| - 1;
    y.(inodes := x.inodes[last..] + y.inodes, kids := Rest(x.kids, last) + y.kids)
  }

  function Merged(x: Tree, y: Tree): Tree {
    x.(inodes := x.inodes + y.inodes, kids := x.kids + y.kids)
  }

  /** The first child gets the first element of the second. */
  function BorrowNext(p: Tree): Tree
    requires |p.kids| > 1 && p.kids[0].inodes != [] && |p.kids[1].inodes| > 1
  {
    var n, target := p.kids[0], p.kids[1];
    Rekey(Rekey(p.(kids := p.kids[0 := GainLast(n, target)][1 := LoseFirst(target)]), 1), 0)
  }

  /** The child at `i` gets the last element of the one before it. */
  function BorrowPrev(p: Tree, i: nat): Tree
    requires 0 < i < |p.kids| && |p.kids[i - 1].inodes| > 1
  {
    var n, target := p.kids[i], p.kids[i - 1];
    Rekey(p.(kids := p.kids[i - 1 := LoseLast(target)][i := GainFirst(target, n)]), i)
  }

  /** The second child's elements go to the first. */
  function MergeNext(p: Tree): Tree
    requires |p.kids| > 1
  {
    DropKid(p.(kids := p.kids[0 := Merged(p.kids[0], p.kids[1])]), 1)
  }

  /** The elements of the child at `i` go to the one before it. */
  function MergePrev(p: Tree, i: nat): Tree
    requires 0 < i < |p.kids|
  {
    DropKid(p.(kids := p.kids[i - 1 := Merged(p.kids[i - 1].(loaded := true), p.kids[i])]), i)
  }

  /** Rebalances the child at `i` of `p`. */
  function FixChild(p: Tree, i: nat, pageSize: nat): Fixed
    requires i < |p.kids| && |p.kids| > 1
  {
    var n := p.kids[i];
    var seen := p.(kids := p.kids[i := n.(unbalanced := false)]);
    if !n.unbalanced then Fixed(p, multiset{}, false)
    else if HasEnough(n, pageSize) then Fixed(seen, multiset{}, false)
    else if n.inodes == [] then Fixed(DropKid(seen, i), multiset{n.pgid}, true)
    else if i == 0 then
      var target := p.kids[1];
      if |target.inodes| > MinKeys(target) then Fixed(BorrowNext(seen), multiset{}, false)
      else Fixed(MergeNext(seen), multiset{target.pgid}, true)
    else
      var target := p.kids[i - 1];
      if |target.inodes| > MinKeys(target) then Fixed(BorrowPrev(seen, i), multiset{}, false)
      else Fixed(MergePrev(seen, i), multiset{n.pgid}, true)
  }

  lemma DropSize(p: Tree, i: nat)
    requires i < |p.kids|
    ensures |DropKid(p, i).kids| == |p.kids| - 1
  {
    hide DeleteFrom;
  }

  lemma BorrowNextSize(p: Tree)
    requires |p.kids| > 1 && p.kids[0].inodes != [] && |p.kids[1].inodes| > 1
    ensures |BorrowNext(p).kids| == |p.kids|
    ensures |BorrowNext(p).kids[0].inodes| == |p.kids[0].inodes| + 1
    ensures |BorrowNext(p).kids[1].inodes| == |p.kids[1].inodes| - 1
  {
    hide PutInto;
  }

  lemma BorrowPrevSize(p: Tree, i: nat)
    requires 0 < i < |p.kids| && |p.kids[i - 1].inodes| > 1
    ensures |BorrowPrev(p, i).kids| == |p.kids|
    ensures |BorrowPrev(p, i).kids[i].inodes| == |p.kids[i].inodes| + 1
    ensures |BorrowPrev(p, i).kids[i - 1].inodes| == |p.kids[i - 1].inodes| - 1
  {
    hide PutInto;
  }

  lemma MergeNextSize(p: Tree)
    requires |p.kids| > 1
    ensures |MergeNext(p).kids| == |p.kids| - 1
  {
    hide DeleteFrom;
  }

  lemma MergePrevSize(p: Tree, i: nat)
    requires 0 < i < |p.kids|
    ensures |MergePrev(p, i).kids| == |p.kids| - 1
  {
    hide DeleteFrom;
  }

  /** A marked child is left as it is exactly when it takes more than a quarter of a page and has more than
      one entry, or two children. Otherwise it goes, or it gains an element, from one neighbour, which
      keeps that many. */
  lemma QuarterPage(p: Tree, i: nat, pageSize: nat)
    requires i < |p.kids| && |p.kids| > 1 && p.kids[i].unbalanced
    ensures var n, r := p.kids[i], FixChild(p, i, pageSize);
      if 4 * SizeOf(n.inodes) > pageSize && |n.inodes| > (if n.isLeaf then 1 else 2)
      then r.tree == p.(kids := p.kids[i := n.(unbalanced := false)]) && r.freed == multiset{} && !r.again
      else if r.again then |r.tree.kids| == |p.kids| - 1 && |r.freed| == 1
      else
        var j := if i == 0 then 1 else i - 1;
        && |r.tree.kids| == |p.kids| && |r.tree.kids[i].inodes| == |n.inodes| + 1 && r.freed == multiset{}
        && |r.tree.kids[j].inodes| == |p.kids[j].inodes| - 1 >= (if p.kids[j].isLeaf then 1 else 2)
  {
    hide SizeOf, BorrowNext, BorrowPrev, MergeNext, MergePrev, DropKid;
    var n := p.kids[i];
    var seen := p.(kids := p.kids[i := n.(unbalanced := false)]);
    assert SizeOf(n.inodes) > pageSize / 4 <==> 4 * SizeOf(n.inodes) > pageSize;
    if HasEnough(n, pageSize) {
    } else if n.inodes == [] {
      DropSize(seen, i);
    } else if i == 0 {
      if |p.kids[1].inodes| > MinKeys(p.kids[1]) { BorrowNextSize(seen); } else { MergeNextSize(seen); }
    } else {
      if |p.kids[i - 1].inodes| > MinKeys(p.kids[i - 1]) { BorrowPrevSize(seen, i); } else { MergePrevSize(seen, i); }
    }
  }

  /** The child at `i` takes an element from the one before it whose key is not above that one's
      separator, which can only be when keys below the separator were put there. */
  predicate BorrowsBelow(p: Tree, i: nat, pageSize: nat)
    requires i < |p.kids|
  {
    var n := p.kids[i];
    && n.unbalanced && !HasEnough(n, pageSize) && n.inodes != [] && i > 0
    && var target := p.kids[i - 1];
      && |target.inodes| > MinKeys(target)
      && AtMost(target.inodes[|target.inodes| - 1].key, target.key)
  }

  // ---- The parent's view: a pair of neighbours becomes two or one ----

  /** Replacing two neighbours by nodes with the same entries changes no entries. */
  lemma PairEntries(kids: seq<Tree>, j: nat, xs: seq<Tree>, freed: multiset<nat>)
    requires j + 1 < |kids|
    requires AllEntries(xs) == Entries(kids[j]) + Entries(kids[j + 1])
    requires AllIds(xs) + freed == PageIds(kids[j]) + PageIds(kids[j + 1])
    ensures AllEntries(kids[..j] + xs + kids[j + 2..]) == AllEntries(kids)
    ensures AllIds(kids[..j] + xs + kids[j + 2..]) + freed == AllIds(kids)
  {
    hide Entries, PageIds, AllEntries, AllIds;
    var a, b := kids[..j], kids[j + 2..];
    var pair := [kids[j]] + [kids[j + 1]];
    assert kids == a + pair + b;
    AllEntriesPlus(a + pair, b);
    AllEntriesPlus(a, pair);
    AllEntriesPlus([kids[j]], [kids[j + 1]]);
    OneEntries(kids[j]);
    OneEntries(kids[j + 1]);
    AllEntriesPlus(a + xs, b);
    AllEntriesPlus(a, xs);
  }

  /** A node that stands under the separator `key` of its parent. */
  ghost predicate Under(x: Tree, inode: Inode, lo: Bound, hi: Bound, h: nat) {
    && h > 0 && x.key == inode.key && x.pgid == inode.pgid && x.pgid > 0
    && (x.inodes == [] ==> x.unbalanced)
    && Shape(x, lo, hi, h - 1, 2)
  }

  lemma PairSorted(inodes: seq<Inode>, lo: Bound, hi: Bound, j: nat, a: Inode, b: Inode)
    requires Content(inodes, lo, hi) && j + 1 < |inodes|
    requires if j == 0 then Above(a.key, lo) else a.key == inodes[j].key
    requires Less(a.key, b.key) && Above(b.key, lo) && Below(a.key, hi) && Below(b.key, HiAt(inodes, hi, j + 1))
    ensures Content(inodes[j := a][j + 1 := b], lo, hi)
  {
    hide Less;
    Order();
    var inodes' := inodes[j := a][j + 1 := b];
    if j + 2 < |inodes| { assert Less(b.key, inodes[j + 2].key) && Below(inodes[j + 2].key, hi); }
    forall k, l | 0 <= k < l < |inodes'| ensures Less(inodes'[k].key, inodes'[l].key) {
      if l == j + 1 && k < j { assert Less(inodes[k].key, inodes[j].key); }
      if k == j + 1 && l > j + 2 { assert Less(inodes[j + 2].key, inodes[l].key); }
      if k == j && l > j + 2 { assert Less(inodes[j + 2].key, inodes[l].key); }
    }
  }

  lemma PairTwo(inodes: seq<Inode>, kids: seq<Tree>, lo: Bound, hi: Bound, h: nat, j: nat,
                a: Inode, b: Inode, x: Tree, y: Tree)
    requires Body(inodes, kids, lo, hi, h) && j + 1 < |kids|
    requires if j == 0 then Above(a.key, lo) else a.key == inodes[j].key
    requires Less(a.key, b.key) && Above(b.key, lo) && Below(a.key, hi) && Below(b.key, HiAt(inodes, hi, j + 1))
    requires Under(x, a, if j == 0 && lo.Open? then Open else At(a.key), At(b.key), h)
    requires Under(y, b, At(b.key), HiAt(inodes, hi, j + 1), h)
    ensures Body(inodes[j := a][j + 1 := b], kids[j := x][j + 1 := y], lo, hi, h)
  {
    hide Less, Shape;
    Order();
    var inodes', kids' := inodes[j := a][j + 1 := b], kids[j := x][j + 1 := y];
    assert Content(inodes', lo, hi) by { PairSorted(inodes, lo, hi, j, a, b); }
    forall i | 0 <= i < |kids'| ensures KidOk(inodes', kids'[i], lo, hi, h, i) {
      assert KidOk(inodes, kids[i], lo, hi, h, i);
    }
  }

  lemma PairOne(inodes: seq<Inode>, kids: seq<Tree>, lo: Bound, hi: Bound, h: nat, j: nat, a: Inode, x: Tree)
    requires Body(inodes, kids, lo, hi, h) && j + 1 < |kids|
    requires a == inodes[j] || (j == 0 && a == inodes[1])
    requires Under(x, a, if j == 0 && lo.Open? then Open else At(a.key), HiAt(inodes, hi, j + 1), h)
    ensures Body(inodes[..j] + [a] + inodes[j + 2..], kids[..j] + [x] + kids[j + 2..], lo, hi, h)
  {
    hide Less, Shape;
    Order();
    var inodes', kids' := inodes[..j] + [a] + inodes[j + 2..], kids[..j] + [x] + kids[j + 2..];
    assert forall k | 0 <= k < |inodes'| :: inodes'[k] == if k == j then a else inodes[if k < j then k else k + 1];
    assert Content(inodes', lo, hi);
    forall i | 0 <= i < |kids'| ensures KidOk(inodes', kids'[i], lo, hi, h, i) {
      assert KidOk(inodes, kids[if i < j then i else i + 1], lo, hi, h, if i < j then i else i + 1);
    }
  }

  // ---- Looking up a child by its key ----

  /** A child's key leads back to its place in the parent. */
  lemma ChildIndex(inodes: seq<Inode>, i: nat)
    requires Sorted(inodes) && i < |inodes|
    ensures Rank(inodes, inodes[i].key) == i && Found(inodes, inodes[i].key)
  {
    hide Less;
    Order();
    RankCorrect(inodes, inodes[i].key);
    RankUnique(inodes, inodes[i].key, i, Rank(inodes, inodes[i].key));
  }

  lemma RekeyIs(p: Tree, i: nat)
    requires i < |p.kids| == |p.inodes| && p.kids[i].inodes != []
    requires Sorted(p.inodes) && p.kids[i].key == p.inodes[i].key
    ensures var n := p.kids[i];
      var key := n.inodes[0].key;
      Rekey(p, i) == p.(inodes := p.inodes[i := Inode(0, n.pgid, key, [])], kids := p.kids[i := n.(key := key)])
  {
    ChildIndex(p.inodes, i);
  }

  lemma DropIs(p: Tree, i: nat)
    requires i < |p.kids| == |p.inodes| && Sorted(p.inodes) && p.kids[i].key == p.inodes[i].key
    ensures DropKid(p, i) == p.(unbalanced := true,
      inodes := p.inodes[..i] + p.inodes[i + 1..], kids := p.kids[..i] + p.kids[i + 1..])
  {
    ChildIndex(p.inodes, i);
  }

  // ---- The cases ----

  /** The child a parent is left with when it is about to be rebalanced: it may have a single child
      of its own, and is marked if so. */
  ghost predicate Weak(n: Tree, inode: Inode, lo: Bound, hi: Bound, h: nat) {
    && h > 0 && n.key == inode.key && n.pgid == inode.pgid && n.pgid > 0
    && (n.inodes == [] ==> n.unbalanced)
    && Shape(n, lo, hi, h - 1, 1)
    && (!n.isLeaf && |n.kids| < 2 ==> n.unbalanced)
  }

  /** A parent with its children in order, but for the one at `i`. */
  ghost predicate Parent(p: Tree, lo: Bound, hi: Bound, h: nat, i: nat, n: Tree) {
    && !p.isLeaf && h > 0 && Body(p.inodes, p.kids, lo, hi, h)
    && i < |p.kids| && |p.kids| > 1
    && Weak(n, p.inodes[i], LoAt(p.inodes, lo, i), HiAt(p.inodes, hi, i), h)
  }

  function With(p: Tree, i: nat, n: Tree): Tree
    requires i < |p.kids|
  {
    p.(kids := p.kids[i := n.(unbalanced := false)])
  }

  lemma NarrowLo(inodes: seq<Inode>, kids: seq<Tree>, lo: Bound, hi: Bound, h: nat)
    requires Body(inodes, kids, lo, hi, h) && inodes != [] && lo.At?
    ensures Body(inodes, kids, At(inodes[0].key), hi, h)
  {
    hide Less, Shape;
    Order();
    forall i | 0 <= i < |kids| ensures KidOk(inodes, kids[i], At(inodes[0].key), hi, h, i) {
      assert KidOk(inodes, kids[i], lo, hi, h, i);
    }
  }

  lemma KeyBounds(inodes: seq<Inode>, lo: Bound, hi: Bound, i: nat)
    requires Content(inodes, lo, hi) && i < |inodes|
    ensures Sorted(inodes) && Above(inodes[i].key, lo) && Below(inodes[i].key, hi)
    ensures i > 0 ==> Less(inodes[0].key, inodes[i].key)
  {
    hide Less, Above, Below;
  }

  lemma NonEmptyBounds(inodes: seq<Inode>, lo: Bound, hi: Bytes)
    requires Content(inodes, lo, At(hi)) && inodes != []
    ensures LoWider(lo, At(hi))
  {
    hide Less;
    Order();
    assert Above(inodes[0].key, lo) && Below(inodes[0].key, At(hi));
  }

  /** The first element of `y` moves to the end of `x`. */
  lemma ShiftLeft(x: Tree, y: Tree, lo: Bound, s: Bytes, hi: Bound, h: nat)
    requires Shape(x, lo, At(s), h, 1) && Shape(y, At(s), hi, h, 2)
    requires x.inodes != [] && |y.inodes| > MinKeys(y)
    ensures Shape(GainLast(x, y), if lo.Open? then Open else At(x.inodes[0].key), At(y.inodes[1].key), h, 2)
    ensures Shape(LoseFirst(y), At(y.inodes[1].key), hi, h, 2)
    ensures Less(s, y.inodes[1].key) && Below(y.inodes[1].key, hi)
  {
    hide Less, KidOk, Content;
    Order();
    var t := y.inodes[1].key;
    CutBody(y.inodes, y.kids, At(s), hi, h, 1);
    KeyBounds(y.inodes, At(s), hi, 0);
    KeyBounds(y.inodes, At(s), hi, 1);
    NonEmptyBounds(x.inodes, lo, s);
    JoinBody(x.inodes, x.kids, y.inodes[..1], Take(y.kids, 1), lo, s, At(t), h);
    var x' := GainLast(x, y);
    if lo.At? { NarrowLo(x'.inodes, x'.kids, lo, At(t), h); }
  }

  /** The last element of `x` moves to the front of `y`. */
  lemma ShiftRight(x: Tree, y: Tree, lo: Bound, s: Bytes, hi: Bound, h: nat)
    requires Shape(x, lo, At(s), h, 2) && Shape(y, At(s), hi, h, 1)
    requires |x.inodes| > MinKeys(x) && y.inodes != []
    ensures var m := x.inodes[|x.inodes| - 1].key;
      && Shape(LoseLast(x), lo, At(m), h, 2) && Shape(GainFirst(x, y), At(m), hi, h, 2)
      && Less(m, s) && Below(m, hi) && Above(m, lo) && (lo.At? ==> Less(lo.key, m))
  {
    hide Less, KidOk, Content;
    Order();
    var last := |x.inodes| - 1;
    var m := x.inodes[last].key;
    CutBody(x.inodes, x.kids, lo, At(s), h, last);
    KeyBounds(x.inodes, lo, At(s), last);
    KeyBounds(x.inodes, lo, At(s), 0);
    KeyBounds(y.inodes, At(s), hi, 0);
    JoinBody(x.inodes[last..], Rest(x.kids, last), y.inodes, y.kids, At(m), s, hi, h);
  }

  lemma Merge(x: Tree, y: Tree, lo: Bound, s: Bytes, hi: Bound, h: nat)
    requires Shape(x, lo, At(s), h, 1) && Shape(y, At(s), hi, h, 1)
    requires LoWider(lo, At(s)) && HiWider(hi, At(s))
    ensures Shape(Merged(x, y), lo, hi, h, 2)
  {
    JoinBody(x.inodes, x.kids, y.inodes, y.kids, lo, s, hi, h);
  }

  /** Two neighbouring separators, and a key `t` of the second child. */
  lemma Separators(inodes: seq<Inode>, lo: Bound, hi: Bound, j: nat, t: Bytes)
    requires Content(inodes, lo, hi) && j + 1 < |inodes|
    ensures Above(inodes[j].key, lo) && Below(inodes[j].key, hi)
    ensures Less(inodes[j].key, inodes[j + 1].key)
    ensures Less(inodes[j + 1].key, t) ==> Less(inodes[j].key, t) && Above(t, lo)
    ensures Below(t, HiAt(inodes, hi, j)) ==> Less(t, inodes[j + 1].key) && Below(t, hi)
    ensures Below(t, HiAt(inodes, hi, j + 1)) ==> Below(t, hi)
  {
    hide Less;
    Order();
    if j + 2 < |inodes| { assert Below(inodes[j + 2].key, hi); }
    assert Below(inodes[j + 1].key, hi);
  }

  /** The entry a parent has for `x` once its key is that of its first element. */
  function FirstInode(x: Tree): Inode
    requires x.inodes != []
  {
    Inode(0, x.pgid, x.inodes[0].key, [])
  }

  function Rekeyed(x: Tree): Tree
    requires x.inodes != []
  {
    x.(key := x.inodes[0].key)
  }

  lemma RekeyBoth(p: Tree, x: Tree, y: Tree, lo: Bound, hi: Bound)
    requires Content(p.inodes, lo, hi) && |p.kids| == |p.inodes| > 1
    requires x.inodes != [] && y.inodes != [] && x.key == p.inodes[0].key && y.key == p.inodes[1].key
    requires Less(p.inodes[0].key, y.inodes[0].key)
    requires Above(y.inodes[0].key, lo) && Below(y.inodes[0].key, HiAt(p.inodes, hi, 1))
    ensures Rekey(Rekey(p.(kids := p.kids[0 := x][1 := y]), 1), 0)
         == p.(inodes := p.inodes[0 := FirstInode(x)][1 := FirstInode(y)], kids := p.kids[0 := Rekeyed(x)][1 := Rekeyed(y)])
  {
    hide Less, Rekey;
    var a, b := FirstInode(x), FirstInode(y);
    var q := p.(kids := p.kids[0 := x][1 := y]);
    RekeyIs(q, 1);
    PairSorted(p.inodes, lo, hi, 0, p.inodes[0], b);
    assert p.inodes[0 := p.inodes[0]][1 := b] == p.inodes[1 := b];
    RekeyIs(Rekey(q, 1), 0);
    assert p.inodes[1 := b][0 := a] == p.inodes[0 := a][1 := b];
    assert q.kids[1 := Rekeyed(y)][0 := Rekeyed(x)] == p.kids[0 := Rekeyed(x)][1 := Rekeyed(y)];
  }

  lemma Ordered(a: Bytes, s: Bytes, t: Bytes, hi: Bound, next: Bound)
    requires Below(a, At(s)) && Less(s, t) && (Below(t, next) ==> Below(t, hi)) && Below(t, next)
    ensures Less(a, t) && Below(a, hi)
  {
    hide Less;
    Order();
  }

  lemma WiderAt(lo: Bound, s: Bytes)
    requires Above(s, lo)
    ensures LoWider(lo, if lo.Open? then Open else At(s))
  {
    hide Less;
  }

  lemma BorrowNextIs(p: Tree, lo: Bound, hi: Bound, n: Tree)
    requires Content(p.inodes, lo, hi) && |p.kids| == |p.inodes| > 1
    requires n.key == p.inodes[0].key && p.kids[1].key == p.inodes[1].key
    requires n.inodes != [] && |p.kids[1].inodes| > 1
    requires var t := p.kids[1].inodes[1].key;
      Less(p.inodes[0].key, t) && Above(t, lo) && Below(t, HiAt(p.inodes, hi, 1))
    ensures GainLast(n.(unbalanced := false), p.kids[1]).inodes != [] && LoseFirst(p.kids[1]).inodes != []
    ensures var x, y := GainLast(n.(unbalanced := false), p.kids[1]), LoseFirst(p.kids[1]);
      BorrowNext(With(p, 0, n)) == p.(inodes := p.inodes[0 := FirstInode(x)][1 := FirstInode(y)],
                                      kids := p.kids[0 := Rekeyed(x)][1 := Rekeyed(y)])
  {
    hide Less, Content, Rekey;
    var x', y' := GainLast(n.(unbalanced := false), p.kids[1]), LoseFirst(p.kids[1]);
    RekeyBoth(p, x', y', lo, hi);
    assert With(p, 0, n).kids[0 := x'][1 := y'] == p.kids[0 := x'][1 := y'];
  }

  lemma Relabel(n: Tree, lo: Bound, hi: Bound, h: nat, m: nat, key: Bytes)
    requires Shape(n, lo, hi, h, m)
    ensures Shape(n.(key := key), lo, hi, h, m)
  {
    hide Content, KidOk;
  }

  lemma WeakUnmarked(n: Tree, lo: Bound, hi: Bound, h: nat)
    requires Shape(n, lo, hi, h, 1)
    ensures Shape(n.(unbalanced := false), lo, hi, h, 1)
  {
    hide Content, KidOk;
  }

  lemma FirstKey(n: Tree, lo: Bound, hi: Bound, h: nat, lo': Bound)
    requires Shape(n, lo, hi, h, 1) && n.inodes != [] && LoWider(lo', lo)
    ensures Above(n.inodes[0].key, lo') && Below(n.inodes[0].key, hi)
  {
    hide Less, KidOk;
    Order();
    assert Above(n.inodes[0].key, lo);
  }

  lemma BorrowNextFacts(p: Tree, lo: Bound, hi: Bound, h: nat, n: Tree)
    requires Parent(p, lo, hi, h, 0, n) && n.inodes != []
    requires |p.kids[1].inodes| > MinKeys(p.kids[1])
    ensures Body(p.inodes, p.kids, lo, hi, h) && 1 < |p.kids| == |p.inodes|
    ensures GainLast(n.(unbalanced := false), p.kids[1]).inodes != [] && LoseFirst(p.kids[1]).inodes != []
    ensures var x, y := GainLast(n.(unbalanced := false), p.kids[1]), LoseFirst(p.kids[1]);
      var a, b := FirstInode(x), FirstInode(y);
      && Above(a.key, lo) && Less(a.key, b.key) && Above(b.key, lo) && Below(a.key, hi) && Below(b.key, HiAt(p.inodes, hi, 1))
      && Under(Rekeyed(x), a, if lo.Open? then Open else At(a.key), At(b.key), h)
      && Under(Rekeyed(y), b, At(b.key), HiAt(p.inodes, hi, 1), h)
      && BorrowNext(With(p, 0, n)) == p.(inodes := p.inodes[0 := a][1 := b], kids := p.kids[0 := Rekeyed(x)][1 := Rekeyed(y)])
  {
    hide Less, Shape, Content, KidOk, Body, Above, Below, BorrowNext, With;
    var x, y := n.(unbalanced := false), p.kids[1];
    KidIs(p.inodes, p.kids, lo, hi, h, 1);
    KeyBounds(p.inodes, lo, hi, 0);
    Separators(p.inodes, lo, hi, 0, y.inodes[1].key);
    WeakUnmarked(n, LoAt(p.inodes, lo, 0), At(y.key), h - 1);
    ShiftLeft(x, y, LoAt(p.inodes, lo, 0), y.key, HiAt(p.inodes, hi, 1), h - 1);
    WiderAt(lo, p.inodes[0].key);
    FirstKey(x, LoAt(p.inodes, lo, 0), At(y.key), h - 1, lo);
    var s, t := x.inodes[0].key, y.inodes[1].key;
    BorrowNextIs(p, lo, hi, n);
    Relabel(GainLast(x, y), if lo.Open? then Open else At(s), At(t), h - 1, 2, s);
    Relabel(LoseFirst(y), At(t), HiAt(p.inodes, hi, 1), h - 1, 2, t);
    Ordered(s, y.key, t, hi, HiAt(p.inodes, hi, 1));
  }

  lemma BorrowNextShape(p: Tree, lo: Bound, hi: Bound, h: nat, n: Tree)
    requires Parent(p, lo, hi, h, 0, n) && n.inodes != []
    requires |p.kids[1].inodes| > MinKeys(p.kids[1])
    ensures var r := BorrowNext(With(p, 0, n)); Body(r.inodes, r.kids, lo, hi, h) && |r.kids| == |p.kids|
  {
    hide *;
    BorrowNextFacts(p, lo, hi, h, n);
    PairTwo(p.inodes, p.kids, lo, hi, h, 0, FirstInode(GainLast(n.(unbalanced := false), p.kids[1])),
      FirstInode(LoseFirst(p.kids[1])), Rekeyed(GainLast(n.(unbalanced := false), p.kids[1])), Rekeyed(LoseFirst(p.kids[1])));
  }

  lemma MiddleAbove(s: Bytes, m: Bytes, lo: Bound)
    requires Above(s, lo) && Less(s, m)
    ensures Above(m, lo)
  {
    hide Less;
    Order();
  }

  lemma BorrowPrevIs(p: Tree, lo: Bound, hi: Bound, i: nat, n: Tree)
    requires Content(p.inodes, lo, hi) && 0 < i < |p.kids| == |p.inodes| && n.key == p.inodes[i].key
    requires |p.kids[i - 1].inodes| > 1
    ensures var x, y := p.kids[i - 1], n.(unbalanced := false);
      var m := x.inodes[|x.inodes| - 1].key;
      BorrowPrev(With(p, i, n), i) == p.(inodes := p.inodes[i := Inode(0, y.pgid, m, [])],
        kids := p.kids[i - 1 := LoseLast(x)][i := GainFirst(x, y).(key := m)])
  {
    hide Less, Content, Rekey;
    KeyBounds(p.inodes, lo, hi, 0);
    var x, y := p.kids[i - 1], n.(unbalanced := false);
    var m := x.inodes[|x.inodes| - 1].key;
    var x', y' := LoseLast(x), GainFirst(x, y);
    var r := p.(kids := p.kids[i - 1 := x'][i := y']);
    assert With(p, i, n).kids[i - 1 := x'][i := y'] == r.kids;
    RekeyIs(r, i);
    assert r.kids[i := y'.(key := m)] == p.kids[i - 1 := x'][i := y'.(key := m)];
  }

  lemma BorrowPrevShape(p: Tree, lo: Bound, hi: Bound, h: nat, i: nat, n: Tree)
    requires Parent(p, lo, hi, h, i, n) && n.inodes != [] && i > 0
    requires |p.kids[i - 1].inodes| > MinKeys(p.kids[i - 1])
    requires Less(p.kids[i - 1].key, p.kids[i - 1].inodes[|p.kids[i - 1].inodes| - 1].key)
    ensures var r := BorrowPrev(With(p, i, n), i); Body(r.inodes, r.kids, lo, hi, h) && |r.kids| == |p.kids|
  {
    hide Less, Shape, Content, KidOk, Body, Above, Below, BorrowPrev;
    var x, y := p.kids[i - 1], n.(unbalanced := false);
    var m := x.inodes[|x.inodes| - 1].key;
    KidIs(p.inodes, p.kids, lo, hi, h, i - 1);
    KeyBounds(p.inodes, lo, hi, 0);
    WeakUnmarked(n, At(y.key), HiAt(p.inodes, hi, i), h - 1);
    ShiftRight(x, y, LoAt(p.inodes, lo, i - 1), y.key, HiAt(p.inodes, hi, i), h - 1);
    Separators(p.inodes, lo, hi, i - 1, m);
    MiddleAbove(p.inodes[i - 1].key, m, lo);
    var x', y' := LoseLast(x), GainFirst(x, y);
    var b := Inode(0, y.pgid, m, []);
    Relabel(y', At(m), HiAt(p.inodes, hi, i), h - 1, 2, m);
    BorrowPrevIs(p, lo, hi, i, n);
    PairTwo(p.inodes, p.kids, lo, hi, h, i - 1, p.inodes[i - 1], b, x', y'.(key := m));
    assert p.inodes[i - 1 := p.inodes[i - 1]][i := b] == p.inodes[i := b];
  }

  lemma MergedShape(inodes: seq<Inode>, lo: Bound, hi: Bound, h: nat, j: nat, x: Tree, y: Tree)
    requires Content(inodes, lo, hi) && j + 1 < |inodes| && h > 0
    requires Shape(x, LoAt(inodes, lo, j), At(inodes[j + 1].key), h - 1, 1)
    requires Shape(y, At(inodes[j + 1].key), HiAt(inodes, hi, j + 1), h - 1, 1)
    ensures Shape(Merged(x, y), LoAt(inodes, lo, j), HiAt(inodes, hi, j + 1), h - 1, 2)
  {
    hide Less, Shape;
    Order();
    assert Less(inodes[j].key, inodes[j + 1].key);
    Merge(x, y, LoAt(inodes, lo, j), inodes[j + 1].key, HiAt(inodes, hi, j + 1), h - 1);
  }

  lemma MergeShape(p: Tree, lo: Bound, hi: Bound, h: nat, j: nat, q: Tree, x: Tree, y: Tree)
    requires !p.isLeaf && h > 0 && Body(p.inodes, p.kids, lo, hi, h) && j + 1 < |p.kids|
    requires q == p.(kids := p.kids[j := x][j + 1 := y])
    requires x.key == p.inodes[j].key && x.pgid == p.inodes[j].pgid && x.pgid > 0 && y.key == p.inodes[j + 1].key
    requires Shape(x, LoAt(p.inodes, lo, j), At(p.inodes[j + 1].key), h - 1, 1)
    requires Shape(y, At(p.inodes[j + 1].key), HiAt(p.inodes, hi, j + 1), h - 1, 1)
    requires x.inodes == [] && y.inodes == [] ==> x.unbalanced
    ensures var r := DropKid(q.(kids := q.kids[j := Merged(x, y)]), j + 1);
      Body(r.inodes, r.kids, lo, hi, h) && |r.kids| == |p.kids| - 1 && r.unbalanced
  {
    hide Less, Shape, Content;
    var z := Merged(x, y);
    MergedShape(p.inodes, lo, hi, h, j, x, y);
    var q' := q.(kids := q.kids[j := z]);
    KeyBounds(p.inodes, lo, hi, 0);
    DropIs(q', j + 1);
    PairOne(p.inodes, p.kids, lo, hi, h, j, p.inodes[j], z);
    assert p.inodes[..j] + [p.inodes[j]] == p.inodes[..j + 1];
    assert q'.kids[..j + 1] == p.kids[..j] + [z];
    assert q'.kids[j + 2..] == p.kids[j + 2..];
  }

  lemma Without<T>(s: seq<T>, i: nat, x: T)
    requires i < |s| && |s| > 1
    ensures var j, other := if i == 0 then 0 else i - 1, if i == 0 then 1 else i - 1;
      s[i := x][..i] + s[i := x][i + 1..] == s[..j] + [s[other]] + s[j + 2..]
  {
  }

  lemma NeighbourWidens(inodes: seq<Inode>, lo: Bound, hi: Bound, h: nat, i: nat, x: Tree)
    requires h > 0 && i < |inodes| && |inodes| > 1 && Content(inodes, lo, hi)
    requires var other := if i == 0 then 1 else i - 1; Shape(x, LoAt(inodes, lo, other), HiAt(inodes, hi, other), h - 1, 2)
    ensures if i == 0 then Shape(x, if lo.Open? then Open else At(inodes[1].key), HiAt(inodes, hi, 1), h - 1, 2)
      else Shape(x, LoAt(inodes, lo, i - 1), HiAt(inodes, hi, i), h - 1, 2)
  {
    hide Less, Shape, Above;
    Order();
    if i == 0 {
      Widen(x, At(inodes[1].key), HiAt(inodes, hi, 1), h - 1, 2, if lo.Open? then Open else At(inodes[1].key), HiAt(inodes, hi, 1));
    } else {
      Widen(x, LoAt(inodes, lo, i - 1), At(inodes[i].key), h - 1, 2, LoAt(inodes, lo, i - 1), HiAt(inodes, hi, i));
    }
  }

  /** An empty child goes, and its neighbour takes over its range. */
  lemma DropShape(p: Tree, lo: Bound, hi: Bound, h: nat, i: nat, n: Tree)
    requires Parent(p, lo, hi, h, i, n)
    ensures var r := DropKid(With(p, i, n), i); Body(r.inodes, r.kids, lo, hi, h) && |r.kids| == |p.kids| - 1 && r.unbalanced
  {
    hide Less, Shape, Content, KidOk, Body;
    var q := With(p, i, n);
    var j := if i == 0 then 0 else i - 1;
    var other := if i == 0 then 1 else i - 1;
    KidIs(p.inodes, p.kids, lo, hi, h, other);
    KeyBounds(p.inodes, lo, hi, 0);
    DropIs(q, i);
    Without(p.kids, i, n.(unbalanced := false));
    Without(p.inodes, i, p.inodes[i]);
    assert p.inodes[i := p.inodes[i]] == p.inodes;
    NeighbourWidens(p.inodes, lo, hi, h, i, p.kids[other]);
    PairOne(p.inodes, p.kids, lo, hi, h, j, p.inodes[other], p.kids[other]);
  }

  lemma Loosen(n: Tree, lo: Bound, hi: Bound, h: nat, loaded: bool)
    requires Shape(n, lo, hi, h, 2)
    ensures Shape(n.(loaded := loaded), lo, hi, h, 1)
  {
    hide Content, KidOk;
  }

  lemma MergeNextShape(p: Tree, lo: Bound, hi: Bound, h: nat, n: Tree)
    requires Parent(p, lo, hi, h, 0, n) && n.inodes != []
    ensures var r := MergeNext(With(p, 0, n)); Body(r.inodes, r.kids, lo, hi, h) && |r.kids| == |p.kids| - 1 && r.unbalanced
  {
    hide Less, Shape, Content, KidOk, Body, DropKid;
    KidIs(p.inodes, p.kids, lo, hi, h, 1);
    WeakUnmarked(n, LoAt(p.inodes, lo, 0), HiAt(p.inodes, hi, 0), h - 1);
    Loosen(p.kids[1], LoAt(p.inodes, lo, 1), HiAt(p.inodes, hi, 1), h - 1, p.kids[1].loaded);
    MergeShape(p, lo, hi, h, 0, With(p, 0, n), n.(unbalanced := false), p.kids[1]);
  }

  lemma MergePrevShape(p: Tree, lo: Bound, hi: Bound, h: nat, i: nat, n: Tree)
    requires Parent(p, lo, hi, h, i, n) && n.inodes != [] && i > 0
    ensures var r := MergePrev(With(p, i, n), i); Body(r.inodes, r.kids, lo, hi, h) && |r.kids| == |p.kids| - 1 && r.unbalanced
  {
    hide Less, Shape, Content, KidOk, Body, DropKid;
    KidIs(p.inodes, p.kids, lo, hi, h, i - 1);
    WeakUnmarked(n, LoAt(p.inodes, lo, i), HiAt(p.inodes, hi, i), h - 1);
    Loosen(p.kids[i - 1], LoAt(p.inodes, lo, i - 1), HiAt(p.inodes, hi, i - 1), h - 1, true);
    var x, y := p.kids[i - 1].(loaded := true), n.(unbalanced := false);
    var q := p.(kids := p.kids[i - 1 := x][i := y]);
    assert With(p, i, n).kids[i - 1 := Merged(x, y)] == q.kids[i - 1 := Merged(x, y)];
    MergeShape(p, lo, hi, h, i - 1, q, x, y);
  }

  /** A child that stays: it was not marked, or has keys enough. */
  lemma StayShape(p: Tree, lo: Bound, hi: Bound, h: nat, i: nat, n: Tree, mark: bool)
    requires Parent(p, lo, hi, h, i, n)
    requires n.inodes == [] ==> mark
    requires !n.isLeaf ==> |n.kids| >= 2
    ensures Body(p.inodes, p.kids[i := n.(unbalanced := mark)], lo, hi, h)
  {
    hide Less, Content;
    var kids' := p.kids[i := n.(unbalanced := mark)];
    forall k | 0 <= k < |kids'| ensures KidOk(p.inodes, kids'[k], lo, hi, h, k) {
      assert KidOk(p.inodes, p.kids[k], lo, hi, h, k);
    }
  }

  lemma ChildSize(p: Tree, lo: Bound, hi: Bound, h: nat, i: nat, n: Tree)
    requires Parent(p, lo, hi, h, i, n)
    ensures i < |p.kids| == |p.inodes| && |p.kids| > 1
    ensures |n.kids| == if n.isLeaf then 0 else |n.inodes|
    ensures !n.isLeaf && |n.kids| < 2 ==> n.unbalanced
    ensures n.inodes == [] ==> n.unbalanced
    ensures n.key == p.inodes[i].key
    ensures forall k | 0 <= k < |p.kids| :: p.kids[k].key == p.inodes[k].key && p.kids[k].isLeaf == n.isLeaf
  {
    hide Content;
    assert Body(n.inodes, n.kids, LoAt(p.inodes, lo, i), HiAt(p.inodes, hi, i), h - 1);
    forall k | 0 <= k < |p.kids| ensures p.kids[k].key == p.inodes[k].key && p.kids[k].isLeaf == n.isLeaf {
      assert KidOk(p.inodes, p.kids[k], lo, hi, h, k);
      assert Shape(p.kids[k], LoAt(p.inodes, lo, k), HiAt(p.inodes, hi, k), h - 1, 2);
    }
  }

  function Fixing(p: Tree, i: nat, n: Tree, pageSize: nat): Fixed
    requires i < |p.kids| && |p.kids| > 1
  {
    FixChild(p.(kids := p.kids[i := n]), i, pageSize)
  }

  lemma FixCases(p: Tree, i: nat, n: Tree, pageSize: nat)
    requires i < |p.kids| && |p.kids| > 1
    ensures Fixing(p, i, n, pageSize) ==
      if !n.unbalanced then Fixed(p.(kids := p.kids[i := n]), multiset{}, false)
      else if HasEnough(n, pageSize) then Fixed(With(p, i, n), multiset{}, false)
      else if n.inodes == [] then Fixed(DropKid(With(p, i, n), i), multiset{n.pgid}, true)
      else if i == 0 then
        if |p.kids[1].inodes| > MinKeys(p.kids[1]) then Fixed(BorrowNext(With(p, 0, n)), multiset{}, false)
        else Fixed(MergeNext(With(p, 0, n)), multiset{p.kids[1].pgid}, true)
      else if |p.kids[i - 1].inodes| > MinKeys(p.kids[i - 1]) then Fixed(BorrowPrev(With(p, i, n), i), multiset{}, false)
      else Fixed(MergePrev(With(p, i, n), i), multiset{n.pgid}, true)
  {
    hide BorrowNext, BorrowPrev, MergeNext, MergePrev, DropKid, HasEnough;
    var q := p.(kids := p.kids[i := n]);
    assert q.(kids := q.kids[i := n.(unbalanced := false)]) == With(p, i, n);
  }

  lemma EnoughKeys(n: Tree, pageSize: nat)
    requires HasEnough(n, pageSize)
    ensures |n.inodes| > MinKeys(n)
  {
  }

  lemma NotBelow(p: Tree, i: nat, n: Tree, pageSize: nat)
    requires 0 < i < |p.kids| && n.unbalanced && !HasEnough(n, pageSize) && n.inodes != []
    requires |p.kids[i - 1].inodes| > MinKeys(p.kids[i - 1])
    ensures var target := p.kids[i - 1];
      var last := target.inodes[|target.inodes| - 1].key;
      BorrowsBelow(p.(kids := p.kids[i := n]), i, pageSize) <==> !Less(target.key, last)
  {
    hide Less;
    Order();
  }

  /** The parent comes out in shape unless an element was borrowed from below the separator. */
  lemma FixShape(p: Tree, lo: Bound, hi: Bound, h: nat, i: nat, n: Tree, pageSize: nat)
    requires Parent(p, lo, hi, h, i, n)
    requires !BorrowsBelow(p.(kids := p.kids[i := n]), i, pageSize)
    ensures var t := Fixing(p, i, n, pageSize).tree; Body(t.inodes, t.kids, lo, hi, h)
  {
    hide Less, Shape, Content, KidOk, Body, BorrowNext, BorrowPrev, MergeNext, MergePrev, DropKid, HasEnough, Fixing, Parent;
    ChildSize(p, lo, hi, h, i, n);
    FixCases(p, i, n, pageSize);
    if !n.unbalanced {
      StayShape(p, lo, hi, h, i, n, false);
      assert n.(unbalanced := false) == n;
    } else if HasEnough(n, pageSize) {
      EnoughKeys(n, pageSize);
      StayShape(p, lo, hi, h, i, n, false);
    } else if n.inodes == [] {
      DropShape(p, lo, hi, h, i, n);
    } else if i == 0 {
      if |p.kids[1].inodes| > MinKeys(p.kids[1]) { BorrowNextShape(p, lo, hi, h, n); } else { MergeNextShape(p, lo, hi, h, n); }
    } else if |p.kids[i - 1].inodes| > MinKeys(p.kids[i - 1]) {
      NotBelow(p, i, n, pageSize);
      BorrowPrevShape(p, lo, hi, h, i, n);
    } else {
      MergePrevShape(p, lo, hi, h, i, n);
    }
  }

  /** When the parent is to be rebalanced in turn it lost one child, and is marked. */
  lemma FixCount(p: Tree, lo: Bound, hi: Bound, h: nat, i: nat, n: Tree, pageSize: nat)
    requires Parent(p, lo, hi, h, i, n)
    ensures var r := Fixing(p, i, n, pageSize);
      && r.tree.isLeaf == p.isLeaf && r.tree.key == p.key && r.tree.pgid == p.pgid
      && |r.tree.kids| == (if r.again then |p.kids| - 1 else |p.kids|)
      && (r.again ==> r.tree.unbalanced)
      && (!r.again ==> r.tree.unbalanced == p.unbalanced)
  {
    hide Less, Shape, Content, KidOk, Body, HasEnough, Fixing, Parent, PutInto;
    ChildSize(p, lo, hi, h, i, n);
    FixCases(p, i, n, pageSize);
    if n.unbalanced && !HasEnough(n, pageSize) {
      if n.inodes == [] {
        DropShape(p, lo, hi, h, i, n);
      } else if i == 0 {
        if |p.kids[1].inodes| <= MinKeys(p.kids[1]) { MergeNextShape(p, lo, hi, h, n); }
      } else if |p.kids[i - 1].inodes| <= MinKeys(p.kids[i - 1]) {
        MergePrevShape(p, lo, hi, h, i, n);
      }
    }
  }

  lemma ParentContent(p: Tree, lo: Bound, hi: Bound, h: nat, i: nat, n: Tree)
    requires Parent(p, lo, hi, h, i, n)
    ensures Content(p.inodes, lo, hi)
  {
  }

  /** Otherwise the parent is left with two separators in the wrong order. */
  lemma BelowBreaks(p: Tree, lo: Bound, hi: Bound, h: nat, i: nat, n: Tree, pageSize: nat)
    requires Parent(p, lo, hi, h, i, n)
    requires BorrowsBelow(p.(kids := p.kids[i := n]), i, pageSize)
    ensures var r := Fixing(p, i, n, pageSize); !r.again && !Sorted(r.tree.inodes)
  {
    hide Less, Shape, Content, KidOk, Body, HasEnough, Fixing, Parent, BorrowPrev, With, LoseLast, GainFirst;
    ChildSize(p, lo, hi, h, i, n);
    FixCases(p, i, n, pageSize);
    Order();
    ParentContent(p, lo, hi, h, i, n);
    BorrowPrevIs(p, lo, hi, i, n);
    var t := Fixing(p, i, n, pageSize).tree;
    assert t.inodes[i - 1] == p.inodes[i - 1];
    assert !Less(t.inodes[i - 1].key, t.inodes[i].key);
  }

  // ---- Entries and pages ----

  lemma Regroup(a: multiset<nat>, b: multiset<nat>, c: multiset<nat>, d: multiset<nat>, b': multiset<nat>, d': multiset<nat>)
    requires b + d == b' + d'
    ensures (a + b) + (c + d) == (a + b') + (c + d')
  {
    assert (a + b) + (c + d) == a + c + (b + d);
    assert (a + b') + (c + d') == a + c + (b' + d');
  }

  /** Entries and page ids of a node depend on its elements and children only, and a leaf has none. */
  lemma TwoEntries(x: Tree, y: Tree, x': Tree, y': Tree)
    requires x.isLeaf == y.isLeaf == x'.isLeaf == y'.isLeaf
    requires x.isLeaf ==> x.kids == y.kids == x'.kids == y'.kids == []
    requires x'.inodes + y'.inodes == x.inodes + y.inodes && x'.kids + y'.kids == x.kids + y.kids
    requires x'.pgid == x.pgid && y'.pgid == y.pgid
    ensures AllEntries([x'] + [y']) == Entries(x) + Entries(y)
    ensures AllIds([x'] + [y']) == PageIds(x) + PageIds(y)
  {
    hide AllEntries, AllIds;
    AllEntriesPlus([x'], [y']);
    OneEntries(x');
    OneEntries(y');
    AllEntriesPlus(x.kids, y.kids);
    AllEntriesPlus(x'.kids, y'.kids);
    Regroup(multiset{x.pgid}, AllIds(x.kids), multiset{y.pgid}, AllIds(y.kids), AllIds(x'.kids), AllIds(y'.kids));
  }

  lemma MergedEntries(x: Tree, y: Tree)
    requires x.isLeaf == y.isLeaf && (x.isLeaf ==> x.kids == y.kids == [])
    ensures AllEntries([Merged(x, y)]) == Entries(x) + Entries(y)
    ensures AllIds([Merged(x, y)]) + multiset{y.pgid} == PageIds(x) + PageIds(y)
  {
    OneEntries(Merged(x, y));
    AllEntriesPlus(x.kids, y.kids);
  }

  lemma SetPair(kids: seq<Tree>, j: nat, x: Tree, y: Tree)
    requires j + 1 < |kids|
    ensures kids[j := x][j + 1 := y] == kids[..j] + ([x] + [y]) + kids[j + 2..]
  {
  }

  lemma SetEntries(kids: seq<Tree>, i: nat, n: Tree, freed: multiset<nat>)
    requires i < |kids| && Entries(n) == Entries(kids[i]) && PageIds(n) + freed == PageIds(kids[i])
    ensures AllEntries(kids[i := n]) == AllEntries(kids) && AllIds(kids[i := n]) + freed == AllIds(kids)
  {
    hide Entries, PageIds, AllEntries, AllIds;
    var a, b := kids[..i], kids[i + 1..];
    assert kids == a + [kids[i]] + b && kids[i := n] == a + [n] + b;
    AllEntriesPlus(a + [kids[i]], b);
    AllEntriesPlus(a, [kids[i]]);
    AllEntriesPlus(a + [n], b);
    AllEntriesPlus(a, [n]);
    OneEntries(kids[i]);
    OneEntries(n);
  }

  lemma RemoveEntries(kids: seq<Tree>, i: nat)
    requires i < |kids|
    ensures Entries(kids[i]) == [] ==> AllEntries(kids[..i] + kids[i + 1..]) == AllEntries(kids)
    ensures AllIds(kids[..i] + kids[i + 1..]) + PageIds(kids[i]) == AllIds(kids)
  {
    hide Entries, PageIds, AllEntries, AllIds;
    var a, b := kids[..i], kids[i + 1..];
    assert kids == a + [kids[i]] + b;
    AllEntriesPlus(a + [kids[i]], b);
    AllEntriesPlus(a, [kids[i]]);
    AllEntriesPlus(a, b);
    OneEntries(kids[i]);
  }

  /** What a case of the rebalancing does to the children of the parent. */
  ghost predicate SameContent(kids: seq<Tree>, freed: multiset<nat>, from: seq<Tree>) {
    AllEntries(kids) == AllEntries(from) && AllIds(kids) + freed == AllIds(from)
  }

  lemma BorrowNextEntries(p: Tree)
    requires |p.kids| > 1 && p.kids[0].inodes != [] && |p.kids[1].inodes| > 1
    requires p.kids[0].isLeaf == p.kids[1].isLeaf
    requires if p.kids[0].isLeaf then p.kids[0].kids == p.kids[1].kids == [] else |p.kids[1].kids| == |p.kids[1].inodes|
    ensures SameContent(BorrowNext(p).kids, multiset{}, p.kids)
  {
    hide PutInto, Entries, PageIds, AllEntries, AllIds;
    var x, y := p.kids[0], p.kids[1];
    var x', y' := Rekeyed(GainLast(x, y)), Rekeyed(LoseFirst(y));
    assert x.inodes + y.inodes[..1] + y.inodes[1..] == x.inodes + y.inodes;
    assert x.kids + Take(y.kids, 1) + Rest(y.kids, 1) == x.kids + y.kids;
    TwoEntries(x, y, x', y');
    PairEntries(p.kids, 0, [x'] + [y'], multiset{});
    SetPair(p.kids, 0, x', y');
    assert BorrowNext(p).kids == p.kids[0 := x'][1 := y'];
  }

  lemma BorrowPrevEntries(p: Tree, i: nat)
    requires 0 < i < |p.kids| && |p.kids[i - 1].inodes| > 1
    requires p.kids[i].isLeaf == p.kids[i - 1].isLeaf
    requires if p.kids[i].isLeaf then p.kids[i].kids == p.kids[i - 1].kids == [] else |p.kids[i - 1].kids| == |p.kids[i - 1].inodes|
    ensures SameContent(BorrowPrev(p, i).kids, multiset{}, p.kids)
  {
    hide PutInto, Entries, PageIds, AllEntries, AllIds;
    var x, y := p.kids[i - 1], p.kids[i];
    var last := |x.inodes| - 1;
    var x', y' := LoseLast(x), Rekeyed(GainFirst(x, y));
    assert x.inodes[..last] + (x.inodes[last..] + y.inodes) == x.inodes + y.inodes;
    assert Take(x.kids, last) + (Rest(x.kids, last) + y.kids) == x.kids + y.kids;
    TwoEntries(x, y, x', y');
    PairEntries(p.kids, i - 1, [x'] + [y'], multiset{});
    SetPair(p.kids, i - 1, x', y');
    assert BorrowPrev(p, i).kids == p.kids[i - 1 := x'][i := y'];
  }

  /** Both merges: the child at `j + 1` goes, the one at `j` has the elements of both. */
  lemma MergeEntries(kids: seq<Tree>, j: nat, x: Tree)
    requires j + 1 < |kids| && kids[j].isLeaf == kids[j + 1].isLeaf
    requires kids[j].isLeaf ==> kids[j].kids == kids[j + 1].kids == []
    requires x == kids[j].(loaded := x.loaded)
    ensures var merged := kids[j := Merged(x, kids[j + 1])];
      SameContent(merged[..j + 1] + merged[j + 2..], multiset{kids[j + 1].pgid}, kids)
  {
    hide AllEntries, AllIds;
    var z := Merged(x, kids[j + 1]);
    MergedEntries(x, kids[j + 1]);
    assert Entries(x) == Entries(kids[j]) && PageIds(x) == PageIds(kids[j]);
    PairEntries(kids, j, [z], multiset{kids[j + 1].pgid});
    var merged := kids[j := z];
    assert merged[..j + 1] + merged[j + 2..] == kids[..j] + [z] + kids[j + 2..];
  }

  lemma Unmarked(n: Tree)
    ensures Entries(n.(unbalanced := false)) == Entries(n) && PageIds(n.(unbalanced := false)) == PageIds(n)
  {
  }

  lemma NoElements(n: Tree)
    requires n.inodes == [] && |n.kids| == 0
    ensures Entries(n) == [] && PageIds(n) == multiset{n.pgid}
  {
  }

  lemma KidSize(p: Tree, lo: Bound, hi: Bound, h: nat, j: nat, m: Tree, i: nat)
    requires Parent(p, lo, hi, h, j, m) && i < |p.kids|
    ensures |p.kids[i].kids| == if p.kids[i].isLeaf then 0 else |p.kids[i].inodes|
  {
    hide Content;
    assert KidOk(p.inodes, p.kids[i], lo, hi, h, i);
    var n := p.kids[i];
    assert Shape(n, LoAt(p.inodes, lo, i), HiAt(p.inodes, hi, i), h - 1, 2);
    assert Body(n.inodes, n.kids, LoAt(p.inodes, lo, i), HiAt(p.inodes, hi, i), h - 1);
  }

  /** No entry is lost, duplicated or reordered, and the pages given back are exactly those that are
      not part of the tree any more, in every case. */
  lemma FixEntries(p: Tree, lo: Bound, hi: Bound, h: nat, i: nat, n: Tree, pageSize: nat)
    requires Parent(p, lo, hi, h, i, n)
    ensures var r := Fixing(p, i, n, pageSize); SameContent(r.tree.kids, r.freed, p.kids[i := n])
  {
    hide Less, Shape, Content, KidOk, Body, HasEnough, Fixing, Parent, BorrowNext, BorrowPrev, Entries, PageIds, AllEntries, AllIds, PutInto, DeleteFrom;
    ChildSize(p, lo, hi, h, i, n);
    FixCases(p, i, n, pageSize);
    var q := p.kids[i := n];
    var n' := n.(unbalanced := false);
    var w := With(p, i, n);
    assert w.kids == q[i := n'];
    Unmarked(n);
    SetEntries(q, i, n', multiset{});
    if n.unbalanced && !HasEnough(n, pageSize) {
      if n.inodes == [] {
        RemoveEntries(w.kids, i);
        NoElements(n');
      } else if i == 0 {
        KidSize(p, lo, hi, h, 0, n, 1);
        if |p.kids[1].inodes| > MinKeys(p.kids[1]) {
          BorrowNextEntries(w);
        } else {
          MergeEntries(w.kids, 0, n');
        }
      } else {
        KidSize(p, lo, hi, h, i, n, i - 1);
        if |p.kids[i - 1].inodes| > MinKeys(p.kids[i - 1]) {
          BorrowPrevEntries(w, i);
        } else {
          MergeEntries(w.kids, i - 1, p.kids[i - 1].(loaded := true));
        }
      }
    }
  }
}
