/** Finding, putting and deleting keys in a bucket's tree, against its list of entries. */
module TreeLookup {
  import opened Keys
  import opened Nodes
  import opened BTree

  /** The child to descend to: the one whose separator is the key, or the last one below it. */
  function ChildFor(inodes: seq<Inode>, key: Bytes): (i: nat)
    requires inodes != []
    ensures i < |inodes|
  {
    var i := Rank(inodes, key);
    if Found(inodes, key) then i else if i > 0 then i - 1 else 0
  }

  /** A branch that can be descended into. */
  predicate CanDescend(t: Tree) {
    !t.isLeaf && t.inodes != [] && |t.kids| == |t.inodes|
  }

  /** The leaf the search for a key ends in. */
  function LeafFor(t: Tree, key: Bytes): Tree {
    if CanDescend(t) then LeafFor(t.kids[ChildFor(t.inodes, key)], key) else t
  }

  function PutKey(t: Tree, key: Bytes, x: Inode): Tree {
    if CanDescend(t) then
      var i := ChildFor(t.inodes, key);
      t.(loaded := true, kids := t.kids[i := PutKey(t.kids[i], key, x)])
    else t.(loaded := true, inodes := PutInto(t.inodes, key, x))
  }

  function DeleteKey(t: Tree, key: Bytes): Tree {
    if CanDescend(t) then
      var i := ChildFor(t.inodes, key);
      t.(loaded := true, kids := t.kids[i := DeleteKey(t.kids[i], key)])
    else t.(loaded := true, unbalanced := t.unbalanced || Found(t.inodes, key), inodes := DeleteFrom(t.inodes, key))
  }

  predicate Leads(t: Tree, key: Bytes) {
    !t.isLeaf ==> t.inodes != [] && t.inodes[0].key == key
  }

  /** As read from the file: a branch is known to its parent under its first key. */
  ghost predicate Tight(t: Tree) {
    forall i | 0 <= i < |t.kids| :: Tight(t.kids[i]) && Leads(t.kids[i], t.kids[i].key)
  }

  ghost predicate LeadsFrom(t: Tree, lo: Bound) {
    lo.At? ==> Leads(t, lo.key)
  }

  // ---- The list of entries around a child ----

  lemma JoinContent(a: seq<Inode>, b: seq<Inode>, lo: Bound, mid: Bytes, hi: Bound)
    requires Content(a, lo, At(mid)) && Content(b, At(mid), hi)
    requires LoWider(lo, At(mid)) && HiWider(hi, At(mid))
    ensures Content(a + b, lo, hi)
  {
    hide Less;
    Order();
  }

  lemma EmptyContent(lo: Bound, hi: Bound)
    ensures Content([], lo, hi)
  {
  }

  lemma WidenContent(inodes: seq<Inode>, kids: seq<Tree>, lo: Bound, hi: Bound)
    requires Content(inodes, lo, hi) && inodes != [] && Content(AllEntries(kids), LoAt(inodes, lo, 0), hi)
    ensures Content(AllEntries(kids), lo, hi)
  {
    hide Less;
    Order();
    assert Above(inodes[0].key, lo);
  }

  lemma StepWider(inodes: seq<Inode>, lo: Bound, hi: Bound, i: nat)
    requires Content(inodes, lo, hi) && i + 1 < |inodes|
    ensures LoWider(LoAt(inodes, lo, i), At(inodes[i + 1].key)) && HiWider(hi, At(inodes[i + 1].key))
  {
    hide Less;
    assert Less(inodes[i].key, inodes[i + 1].key) && Below(inodes[i + 1].key, hi);
  }

  lemma {:induction false} EntriesContent(t: Tree, lo: Bound, hi: Bound, h: nat, m: nat)
    requires Shape(t, lo, hi, h, m)
    ensures Content(Entries(t), lo, hi)
    decreases h, |t.kids| + 1
  {
    hide Less, Content, KidOk;
    if h > 0 {
      assert Body(t.inodes, t.kids, lo, hi, h);
      if t.kids == [] { EmptyContent(lo, hi); } else { RestContent(t.inodes, t.kids, lo, hi, h, 0); WidenContent(t.inodes, t.kids, lo, hi); }
      assert t.kids[0..] == t.kids;
    }
  }

  /** The entries from child `i` on lie above its separator. */
  lemma {:induction false} RestContent(inodes: seq<Inode>, kids: seq<Tree>, lo: Bound, hi: Bound, h: nat, i: nat)
    requires Body(inodes, kids, lo, hi, h) && h > 0 && i < |kids|
    ensures Content(AllEntries(kids[i..]), LoAt(inodes, lo, i), hi)
    decreases h, |kids| - i
  {
    hide Less, Content, Shape;
    assert KidOk(inodes, kids[i], lo, hi, h, i);
    EntriesContent(kids[i], LoAt(inodes, lo, i), HiAt(inodes, hi, i), h - 1, 2);
    assert kids[i..][1..] == kids[i + 1..];
    if i + 1 < |kids| {
      RestContent(inodes, kids, lo, hi, h, i + 1);
      StepWider(inodes, lo, hi, i);
      JoinContent(Entries(kids[i]), AllEntries(kids[i + 1..]), LoAt(inodes, lo, i), inodes[i + 1].key, hi);
    } else {
      assert kids[i..] == [kids[i]];
      OneEntries(kids[i]);
    }
  }

  lemma FirstContent(first: seq<Inode>, inodes: seq<Inode>, lo: Bound, hi: Bound)
    requires Content(inodes, lo, hi) && |inodes| > 1 && Content(first, LoAt(inodes, lo, 0), At(inodes[1].key))
    ensures Content(first, lo, At(inodes[1].key))
  {
    hide Less;
    Order();
    assert Above(inodes[0].key, lo);
  }

  lemma FrontWider(inodes: seq<Inode>, lo: Bound, hi: Bound, k: nat)
    requires Content(inodes, lo, hi) && k + 1 < |inodes|
    ensures LoWider(lo, At(inodes[k].key)) && HiWider(At(inodes[k + 1].key), At(inodes[k].key))
  {
    hide Less;
    assert Less(inodes[k].key, inodes[k + 1].key) && Above(inodes[k].key, lo);
  }

  /** The entries before child `i` lie below its separator. */
  lemma {:induction false} FrontContent(inodes: seq<Inode>, kids: seq<Tree>, lo: Bound, hi: Bound, h: nat, i: nat)
    requires Body(inodes, kids, lo, hi, h) && h > 0 && i < |kids|
    ensures Content(AllEntries(kids[..i]), lo, At(inodes[i].key))
    decreases i
  {
    hide Less, Content, Shape;
    if i == 0 {
      EmptyContent(lo, At(inodes[i].key));
    } else {
      var k := i - 1;
      assert KidOk(inodes, kids[k], lo, hi, h, k);
      EntriesContent(kids[k], LoAt(inodes, lo, k), HiAt(inodes, hi, k), h - 1, 2);
      assert kids[..i] == kids[..k] + [kids[k]];
      AllEntriesPlus(kids[..k], [kids[k]]);
      OneEntries(kids[k]);
      if k == 0 {
        FirstContent(Entries(kids[0]), inodes, lo, hi);
      } else {
        FrontContent(inodes, kids, lo, hi, h, k);
        FrontWider(inodes, lo, hi, k);
        JoinContent(AllEntries(kids[..k]), Entries(kids[k]), lo, inodes[k].key, At(inodes[i].key));
      }
    }
  }

  // ---- Searching around a child ----

  /** `key` belongs in the middle of three stretches of entries. */
  ghost predicate Between(a: seq<Inode>, key: Bytes, c: seq<Inode>) {
    && (forall i | 0 <= i < |a| :: Less(a[i].key, key))
    && (forall i | 0 <= i < |c| :: Less(key, c[i].key))
  }

  lemma {:induction false} RankPast(a: seq<Inode>, b: seq<Inode>, key: Bytes)
    requires forall i | 0 <= i < |a| :: Less(a[i].key, key)
    ensures Rank(a + b, key) == |a| + Rank(b, key)
  {
    hide Less;
    if a == [] {
      assert a + b == b;
    } else {
      assert Less(a[0].key, key);
      assert (a + b)[1..] == a[1..] + b;
      RankPast(a[1..], b, key);
    }
  }

  lemma {:induction false} RankBefore(b: seq<Inode>, c: seq<Inode>, key: Bytes)
    requires forall i | 0 <= i < |c| :: Less(key, c[i].key)
    ensures Rank(b + c, key) == Rank(b, key)
  {
    hide Less;
    Order();
    if b == [] {
      assert b + c == c;
    } else {
      assert (b + c)[1..] == b[1..] + c;
      RankBefore(b[1..], c, key);
    }
  }

  lemma MiddleFound(a: seq<Inode>, b: seq<Inode>, c: seq<Inode>, key: Bytes)
    requires Between(a, key, c)
    ensures Rank(a + b + c, key) == |a| + Rank(b, key)
    ensures Found(a + b + c, key) == Found(b, key)
  {
    hide Less;
    Order();
    assert a + b + c == a + (b + c);
    RankPast(a, b + c, key);
    RankBefore(b, c, key);
    if Rank(b, key) == |b| && c != [] { assert (a + b + c)[|a| + |b|] == c[0]; }
  }

  lemma UpdateMiddle<T>(a: seq<T>, b: seq<T>, c: seq<T>, i: nat, x: T)
    requires i < |b|
    ensures (a + b + c)[|a| + i := x] == a + b[i := x] + c
  {
  }

  lemma Regroup<T>(a: seq<T>, b: seq<T>, c: seq<T>, d: seq<T>)
    ensures a + (b + c) + d == (a + b) + (c + d) && a + b + c == a + (b + c)
  {
  }

  lemma FoundIn(b: seq<Inode>, key: Bytes)
    ensures Found(b, key) ==> Rank(b, key) < |b|
  {
  }

  lemma SliceMiddle<T>(a: seq<T>, b: seq<T>, c: seq<T>, i: nat)
    requires i <= |b|
    ensures (a + b + c)[..|a| + i] == a + b[..i] && (a + b + c)[|a| + i..] == b[i..] + c
  {
  }

  /** Looking up, putting and deleting happen in the middle stretch. */
  lemma Middle(a: seq<Inode>, b: seq<Inode>, c: seq<Inode>, key: Bytes, x: Inode)
    requires Between(a, key, c)
    ensures PutInto(a + b + c, key, x) == a + PutInto(b, key, x) + c
    ensures DeleteFrom(a + b + c, key) == a + DeleteFrom(b, key) + c
  {
    hide Less, Rank, Found, Between;
    MiddleFound(a, b, c, key);
    FoundIn(b, key);
    var i := Rank(b, key);
    SliceMiddle(a, b, c, i);
    if Found(b, key) {
      SliceMiddle(a, b, c, i + 1);
      UpdateMiddle(a, b, c, i, x);
      Regroup(a, b[..i], b[i + 1..], c);
    } else {
      Regroup(a, b[..i] + [x], b[i..], c);
      Regroup(a, b[..i], [x], []);
    }
  }

  lemma Three(t: Tree, i: nat)
    requires !t.isLeaf && i < |t.kids|
    ensures Entries(t) == AllEntries(t.kids[..i]) + Entries(t.kids[i]) + AllEntries(t.kids[i + 1..])
  {
    hide AllEntries;
    assert t.kids == t.kids[..i] + [t.kids[i]] + t.kids[i + 1..];
    AllEntriesPlus(t.kids[..i] + [t.kids[i]], t.kids[i + 1..]);
    AllEntriesPlus(t.kids[..i], [t.kids[i]]);
    OneEntries(t.kids[i]);
  }

  lemma BodySize(inodes: seq<Inode>, kids: seq<Tree>, lo: Bound, hi: Bound, h: nat)
    requires Body(inodes, kids, lo, hi, h) && h > 0
    ensures |kids| == |inodes|
  {
    hide Content, KidOk;
  }

  lemma NoEntries(kids: seq<Tree>)
    requires |kids| == 0
    ensures AllEntries(kids) == []
  {
  }

  lemma AllBelow(s: seq<Inode>, lo: Bound, mid: Bytes, key: Bytes)
    requires Content(s, lo, At(mid)) && AtMost(mid, key)
    ensures forall i | 0 <= i < |s| :: Less(s[i].key, key)
  {
    hide Less;
    Order();
  }

  lemma AllAbove(s: seq<Inode>, mid: Bytes, hi: Bound, key: Bytes)
    requires Content(s, At(mid), hi) && Less(key, mid)
    ensures forall i | 0 <= i < |s| :: Less(key, s[i].key)
  {
    hide Less;
    Order();
  }

  lemma BetweenKids(inodes: seq<Inode>, kids: seq<Tree>, lo: Bound, hi: Bound, h: nat, key: Bytes, i: nat)
    requires Body(inodes, kids, lo, hi, h) && h > 0 && i < |kids|
    requires (i > 0 ==> AtMost(inodes[i].key, key)) && Below(key, HiAt(inodes, hi, i))
    ensures Between(AllEntries(kids[..i]), key, AllEntries(kids[i + 1..]))
  {
    hide Less, KidOk, Content, AllEntries, Body;
    BodySize(inodes, kids, lo, hi, h);
    if i > 0 {
      FrontContent(inodes, kids, lo, hi, h, i);
      AllBelow(AllEntries(kids[..i]), lo, inodes[i].key, key);
    } else {
      NoEntries(kids[..i]);
    }
    if i + 1 < |kids| {
      RestContent(inodes, kids, lo, hi, h, i + 1);
      AllAbove(AllEntries(kids[i + 1..]), inodes[i + 1].key, hi, key);
    } else {
      NoEntries(kids[i + 1..]);
    }
  }

  lemma ChildBounds(inodes: seq<Inode>, lo: Bound, hi: Bound, key: Bytes, t: Tree)
    requires Content(inodes, lo, hi) && inodes != [] && Above(key, lo) && Below(key, hi)
    requires t.inodes == inodes && !t.isLeaf && LeadsFrom(t, lo)
    ensures var i := ChildFor(inodes, key);
      && Above(key, LoAt(inodes, lo, i)) && Below(key, HiAt(inodes, hi, i))
      && (i > 0 ==> AtMost(inodes[i].key, key))
  {
    hide Less;
    Order();
    RankCorrect(inodes, key);
    var i := ChildFor(inodes, key);
    assert i + 1 < |inodes| ==> Less(inodes[i].key, inodes[i + 1].key);
  }

  /** Where the entries of the child for `key` are, and that `key` belongs among them. */
  lemma Around(t: Tree, lo: Bound, hi: Bound, h: nat, key: Bytes)
    requires Shape(t, lo, hi, h, 2) && h > 0 && Above(key, lo) && Below(key, hi) && LeadsFrom(t, lo)
    ensures CanDescend(t)
    ensures var i := ChildFor(t.inodes, key);
      && Entries(t) == AllEntries(t.kids[..i]) + Entries(t.kids[i]) + AllEntries(t.kids[i + 1..])
      && Between(AllEntries(t.kids[..i]), key, AllEntries(t.kids[i + 1..]))
      && Above(key, LoAt(t.inodes, lo, i)) && Below(key, HiAt(t.inodes, hi, i))
  {
    hide Less, KidOk, Content, ChildFor, Above, Below, Entries, AllEntries, LeadsFrom, Between;
    assert Body(t.inodes, t.kids, lo, hi, h);
    ChildBounds(t.inodes, lo, hi, key, t);
    var i := ChildFor(t.inodes, key);
    Three(t, i);
    BetweenKids(t.inodes, t.kids, lo, hi, h, key, i);
  }

  // ---- Put and delete ----

  /** An edit below one child leaves everything else as it was. */
  ghost predicate Edited(r: Tree, t: Tree) {
    && r.isLeaf == t.isLeaf && r.key == t.key && r.pgid == t.pgid
    && (!t.isLeaf ==> r.inodes == t.inodes && |r.kids| == |t.kids|)
    && (r.inodes == [] ==> r.unbalanced || t.inodes == [])
    && (t.unbalanced ==> r.unbalanced)
    && PageIds(r) == PageIds(t)
  }

  lemma SameIds(kids: seq<Tree>, i: nat, kid: Tree)
    requires i < |kids| && PageIds(kid) == PageIds(kids[i])
    ensures AllIds(kids[i := kid]) == AllIds(kids)
  {
    hide PageIds, AllIds, AllEntries, Entries;
    var a, b := kids[..i], kids[i + 1..];
    assert kids == a + [kids[i]] + b && kids[i := kid] == a + [kid] + b;
    AllEntriesPlus(a + [kids[i]], b);
    AllEntriesPlus(a, [kids[i]]);
    AllEntriesPlus(a + [kid], b);
    AllEntriesPlus(a, [kid]);
    OneEntries(kids[i]);
    OneEntries(kid);
  }

  lemma EditBody(t: Tree, lo: Bound, hi: Bound, h: nat, i: nat, kid: Tree)
    requires Body(t.inodes, t.kids, lo, hi, h) && i < |t.kids| == |t.inodes|
    requires kid.key == t.kids[i].key && kid.pgid == t.kids[i].pgid && (kid.inodes == [] ==> kid.unbalanced)
    requires h > 0 && Shape(kid, LoAt(t.inodes, lo, i), HiAt(t.inodes, hi, i), h - 1, 2)
    ensures Body(t.inodes, t.kids[i := kid], lo, hi, h)
  {
    hide Less, Content, LoAt, HiAt, Shape;
    var kids := t.kids[i := kid];
    forall k | 0 <= k < |kids| ensures KidOk(t.inodes, kids[k], lo, hi, h, k) {
      assert KidOk(t.inodes, t.kids[k], lo, hi, h, k);
    }
  }

  lemma EditTight(t: Tree, i: nat, kid: Tree)
    requires Tight(t) && i < |t.kids| && Tight(kid) && Edited(kid, t.kids[i])
    ensures Tight(t.(loaded := true, kids := t.kids[i := kid]))
  {
    hide PageIds;
  }

  lemma BodyOf(t: Tree, lo: Bound, hi: Bound, h: nat)
    requires Shape(t, lo, hi, h, 2)
    ensures Body(t.inodes, t.kids, lo, hi, h) && (t.isLeaf <==> h == 0)
  {
    hide Content, KidOk;
  }

  lemma EditKid(t: Tree, lo: Bound, hi: Bound, h: nat, i: nat, kid: Tree, r: Tree)
    requires Shape(t, lo, hi, h, 2) && Tight(t) && i < |t.kids| == |t.inodes|
    requires Edited(kid, t.kids[i]) && Tight(kid)
    requires h > 0 && Shape(kid, LoAt(t.inodes, lo, i), HiAt(t.inodes, hi, i), h - 1, 2)
    requires r == t.(loaded := true, kids := t.kids[i := kid])
    ensures Shape(r, lo, hi, h, 2) && Tight(r) && Edited(r, t)
  {
    hide Less, Content, LoAt, HiAt, KidOk, Tight;
    BodyOf(t, lo, hi, h);
    KidIs(t.inodes, t.kids, lo, hi, h, i);
    EditBody(t, lo, hi, h, i, kid);
    EditTight(t, i, kid);
    hide Body;
    SameIds(t.kids, i, kid);
  }

  lemma EditEntries(t: Tree, i: nat, kid: Tree, r: Tree)
    requires !t.isLeaf && i < |t.kids| && r == t.(loaded := true, kids := t.kids[i := kid])
    ensures Entries(r) == AllEntries(t.kids[..i]) + Entries(kid) + AllEntries(t.kids[i + 1..])
  {
    hide Entries;
    Three(r, i);
    assert r.kids[..i] == t.kids[..i] && r.kids[i + 1..] == t.kids[i + 1..];
  }

  lemma PutContent(inodes: seq<Inode>, lo: Bound, hi: Bound, key: Bytes, x: Inode)
    requires Content(inodes, lo, hi) && Above(key, lo) && Below(key, hi) && x.key == key
    ensures Content(PutInto(inodes, key, x), lo, hi)
  {
    hide Less, Above, Below;
    Order();
    RankCorrect(inodes, key);
  }

  lemma DeleteContent(inodes: seq<Inode>, lo: Bound, hi: Bound, key: Bytes)
    requires Content(inodes, lo, hi)
    ensures Content(DeleteFrom(inodes, key), lo, hi)
  {
    hide Less, Above, Below;
  }

  /** The child for a key, seen from its parent. */
  lemma Descend(t: Tree, lo: Bound, hi: Bound, h: nat, key: Bytes)
    requires Shape(t, lo, hi, h, 2) && Tight(t) && h > 0 && Above(key, lo) && Below(key, hi) && LeadsFrom(t, lo)
    ensures CanDescend(t)
    ensures var i := ChildFor(t.inodes, key);
      && Shape(t.kids[i], LoAt(t.inodes, lo, i), HiAt(t.inodes, hi, i), h - 1, 2)
      && Tight(t.kids[i]) && LeadsFrom(t.kids[i], LoAt(t.inodes, lo, i))
      && Above(key, LoAt(t.inodes, lo, i)) && Below(key, HiAt(t.inodes, hi, i))
  {
    hide Less, KidOk, Content, Shape, ChildFor, Above, Below;
    Around(t, lo, hi, h, key);
    BodyOf(t, lo, hi, h);
    KidIs(t.inodes, t.kids, lo, hi, h, ChildFor(t.inodes, key));
  }

  lemma PutLeaf(t: Tree, lo: Bound, hi: Bound, key: Bytes, x: Inode)
    requires Shape(t, lo, hi, 0, 2) && Above(key, lo) && Below(key, hi) && x.key == key
    ensures var r := PutKey(t, key, x);
      && Entries(r) == PutInto(Entries(t), key, x) && Shape(r, lo, hi, 0, 2) && Tight(r) && Edited(r, t)
  {
    hide Less, Content;
    PutContent(t.inodes, lo, hi, key, x);
  }

  /** Putting a key is putting it into the list of entries. Shape and tightness are kept. */
  lemma {:induction false} PutMeaning(t: Tree, lo: Bound, hi: Bound, h: nat, key: Bytes, x: Inode)
    requires Shape(t, lo, hi, h, 2) && Tight(t) && LeadsFrom(t, lo) && Above(key, lo) && Below(key, hi) && x.key == key
    ensures var r := PutKey(t, key, x);
      && Entries(r) == PutInto(Entries(t), key, x)
      && Shape(r, lo, hi, h, 2) && Tight(r) && Edited(r, t)
    decreases h
  {
    hide Less, Content, KidOk, Body, Above, Below, ChildFor, PutInto, Edited, LoAt, HiAt, Between;
    if h == 0 {
      PutLeaf(t, lo, hi, key, x);
    } else {
      Around(t, lo, hi, h, key);
      Descend(t, lo, hi, h, key);
      var i := ChildFor(t.inodes, key);
      PutMeaning(t.kids[i], LoAt(t.inodes, lo, i), HiAt(t.inodes, hi, i), h - 1, key, x);
      var r := PutKey(t, key, x);
      EditKid(t, lo, hi, h, i, PutKey(t.kids[i], key, x), r);
      EditEntries(t, i, PutKey(t.kids[i], key, x), r);
      Middle(AllEntries(t.kids[..i]), Entries(t.kids[i]), AllEntries(t.kids[i + 1..]), key, x);
    }
  }

  lemma DeleteLeaf(t: Tree, lo: Bound, hi: Bound, key: Bytes)
    requires Shape(t, lo, hi, 0, 2)
    ensures var r := DeleteKey(t, key);
      && Entries(r) == DeleteFrom(Entries(t), key) && Shape(r, lo, hi, 0, 2) && Tight(r) && Edited(r, t)
  {
    hide Less, Content;
    DeleteContent(t.inodes, lo, hi, key);
  }

  /** Deleting a key is deleting it from the list of entries. */
  lemma {:induction false} DeleteMeaning(t: Tree, lo: Bound, hi: Bound, h: nat, key: Bytes)
    requires Shape(t, lo, hi, h, 2) && Tight(t) && LeadsFrom(t, lo) && Above(key, lo) && Below(key, hi)
    ensures var r := DeleteKey(t, key);
      && Entries(r) == DeleteFrom(Entries(t), key)
      && Shape(r, lo, hi, h, 2) && Tight(r) && Edited(r, t)
    decreases h
  {
    hide Less, Content, KidOk, Body, Above, Below, ChildFor, DeleteFrom, Edited, LoAt, HiAt, Between;
    if h == 0 {
      DeleteLeaf(t, lo, hi, key);
    } else {
      Around(t, lo, hi, h, key);
      Descend(t, lo, hi, h, key);
      var i := ChildFor(t.inodes, key);
      DeleteMeaning(t.kids[i], LoAt(t.inodes, lo, i), HiAt(t.inodes, hi, i), h - 1, key);
      var r := DeleteKey(t, key);
      EditKid(t, lo, hi, h, i, DeleteKey(t.kids[i], key), r);
      EditEntries(t, i, DeleteKey(t.kids[i], key), r);
      Middle(AllEntries(t.kids[..i]), Entries(t.kids[i]), AllEntries(t.kids[i + 1..]), key, Inode(0, 0, [], []));
    }
  }

  lemma LeafSorted(t: Tree, lo: Bound, hi: Bound)
    requires Shape(t, lo, hi, 0, 2)
    ensures Sorted(t.inodes) && t.isLeaf
  {
    assert Body(t.inodes, t.kids, lo, hi, 0);
  }

  /** The leaf a search ends in has the key if any leaf has it, and under the same value. */
  lemma {:induction false} LeafMeaning(t: Tree, lo: Bound, hi: Bound, h: nat, key: Bytes)
    requires Shape(t, lo, hi, h, 2) && Tight(t) && LeadsFrom(t, lo) && Above(key, lo) && Below(key, hi)
    ensures var leaf := LeafFor(t, key).inodes;
      && Sorted(leaf) && Found(leaf, key) == Found(Entries(t), key)
      && (Found(leaf, key) ==> leaf[Rank(leaf, key)] == Entries(t)[Rank(Entries(t), key)])
    decreases h
  {
    hide Less, Content, KidOk, Body, Above, Below, ChildFor, LoAt, HiAt, Between, Found, Rank;
    if h == 0 {
      LeafSorted(t, lo, hi);
    } else {
      Around(t, lo, hi, h, key);
      Descend(t, lo, hi, h, key);
      var i := ChildFor(t.inodes, key);
      LeafMeaning(t.kids[i], LoAt(t.inodes, lo, i), HiAt(t.inodes, hi, i), h - 1, key);
      MiddleFound(AllEntries(t.kids[..i]), Entries(t.kids[i]), AllEntries(t.kids[i + 1..]), key);
      FoundIn(Entries(t.kids[i]), key);
    }
  }
}
