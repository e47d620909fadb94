/** A bucket's tree of nodes: its entries, its shape, and the operations on keys. */
module BTree {
  import opened Keys

  /** A node with its children in place. `key` is the key the node has in its parent, `loaded` says
      that it is in memory, and `unbalanced` that something was deleted from it. */
  datatype Tree = Tree(
    isLeaf: bool,
    loaded: bool,
    unbalanced: bool,
    key: Bytes,
    pgid: nat,
    inodes: seq<Inode>,
    kids: seq<Tree>)

  function AllEntries(kids: seq<Tree>): seq<Inode> {
    if kids == [] then [] else Entries(kids[0]) + AllEntries(kids[1..])
  }

  /** The entries of all leaves, in order. */
  function Entries(t: Tree): seq<Inode> {
    if t.isLeaf then t.inodes else AllEntries(t.kids)
  }

  function AllIds(kids: seq<Tree>): multiset<nat> {
    if kids == [] then multiset{} else PageIds(kids[0]) + AllIds(kids[1..])
  }

  /** The page ids of all nodes. */
  function PageIds(t: Tree): multiset<nat> {
    multiset{t.pgid} + AllIds(t.kids)
  }

  datatype Bound = Open | At(key: Bytes)

  predicate Above(key: Bytes, lo: Bound) {
    lo.Open? || AtMost(lo.key, key)
  }

  predicate Below(key: Bytes, hi: Bound) {
    hi.Open? || Less(key, hi.key)
  }

  ghost predicate Content(inodes: seq<Inode>, lo: Bound, hi: Bound) {
    && Sorted(inodes)
    && (forall i | 0 <= i < |inodes| :: Above(inodes[i].key, lo) && Below(inodes[i].key, hi))
  }

  /** The first child of the leftmost nodes has no lower bound: smaller keys are put there without
      changing its separator. */
  function LoAt(inodes: seq<Inode>, lo: Bound, i: nat): Bound
    requires i < |inodes|
  {
    if i == 0 && lo.Open? then Open else At(inodes[i].key)
  }

  function HiAt(inodes: seq<Inode>, hi: Bound, i: nat): Bound
    requires i < |inodes|
  {
    if i + 1 < |inodes| then At(inodes[i + 1].key) else hi
  }

  ghost predicate KidOk(inodes: seq<Inode>, kid: Tree, lo: Bound, hi: Bound, h: nat, i: nat)
    decreases h, 0
  {
    && h > 0 && i < |inodes|
    && kid.key == inodes[i].key && kid.pgid == inodes[i].pgid && kid.pgid > 0
    && (kid.inodes == [] ==> kid.unbalanced)
    && Shape(kid, LoAt(inodes, lo, i), HiAt(inodes, hi, i), h - 1, 2)
  }

  ghost predicate Body(inodes: seq<Inode>, kids: seq<Tree>, lo: Bound, hi: Bound, h: nat)
    decreases h, 1
  {
    && Content(inodes, lo, hi)
    && |kids| == (if h == 0 then 0 else |inodes|)
    && (forall i | 0 <= i < |kids| :: KidOk(inodes, kids[i], lo, hi, h, i))
  }

  /** A subtree of height `h` whose separators bound its children. Nodes below the top have at least
      two children, or entries unless a deletion left its mark; the top has at least `m` children. */
  ghost predicate Shape(t: Tree, lo: Bound, hi: Bound, h: nat, m: nat)
    decreases h, 2
  {
    && (t.isLeaf <==> h == 0)
    && Body(t.inodes, t.kids, lo, hi, h)
    && (h > 0 ==> |t.kids| >= m)
  }

  // ---- Bounds ----

  predicate LoWider(lo': Bound, lo: Bound) {
    lo'.Open? || (lo.At? && AtMost(lo'.key, lo.key))
  }

  predicate HiWider(hi': Bound, hi: Bound) {
    hi'.Open? || (hi.At? && AtMost(hi.key, hi'.key))
  }

  lemma {:induction false} Widen(t: Tree, lo: Bound, hi: Bound, h: nat, m: nat, lo': Bound, hi': Bound)
    requires Shape(t, lo, hi, h, m) && LoWider(lo', lo) && HiWider(hi', hi)
    ensures Shape(t, lo', hi', h, m)
    decreases h
  {
    hide Less;
    Order();
    forall i | 0 <= i < |t.kids| ensures KidOk(t.inodes, t.kids[i], lo', hi', h, i) {
      assert KidOk(t.inodes, t.kids[i], lo, hi, h, i);
      Widen(t.kids[i], LoAt(t.inodes, lo, i), HiAt(t.inodes, hi, i), h - 1, 2,
        LoAt(t.inodes, lo', i), HiAt(t.inodes, hi', i));
    }
  }

  function Take(kids: seq<Tree>, k: nat): seq<Tree> {
    if k <= |kids| then kids[..k] else kids
  }

  function Rest(kids: seq<Tree>, k: nat): seq<Tree> {
    if k <= |kids| then kids[k..] else []
  }

  /** A node cut in two, with the key in between as the new separator. */
  lemma CutBody(inodes: seq<Inode>, kids: seq<Tree>, lo: Bound, hi: Bound, h: nat, k: nat)
    requires Body(inodes, kids, lo, hi, h) && 0 < k < |inodes|
    ensures Body(inodes[..k], Take(kids, k), lo, At(inodes[k].key), h)
    ensures Body(inodes[k..], Rest(kids, k), At(inodes[k].key), hi, h)
  {
    hide Less, Shape;
    Order();
    var a, b := inodes[..k], inodes[k..];
    assert forall i | 0 <= i < |b| :: b[i] == inodes[k + i];
    if h > 0 {
      forall i | 0 <= i < k ensures KidOk(a, kids[i], lo, At(inodes[k].key), h, i) {
        assert KidOk(inodes, kids[i], lo, hi, h, i);
      }
      forall i | 0 <= i < |b| ensures KidOk(b, kids[k..][i], At(inodes[k].key), hi, h, i) {
        assert KidOk(inodes, kids[k + i], lo, hi, h, k + i);
      }
    }
  }

  lemma WidenKid(inodes: seq<Inode>, kid: Tree, lo: Bound, hi: Bound, h: nat, i: nat,
                 inodes': seq<Inode>, lo': Bound, hi': Bound, i': nat)
    requires KidOk(inodes, kid, lo, hi, h, i) && i' < |inodes'| && inodes'[i'] == inodes[i]
    requires LoWider(LoAt(inodes', lo', i'), LoAt(inodes, lo, i))
    requires HiWider(HiAt(inodes', hi', i'), HiAt(inodes, hi, i))
    ensures KidOk(inodes', kid, lo', hi', h, i')
  {
    hide Less, Above, Below;
    Widen(kid, LoAt(inodes, lo, i), HiAt(inodes, hi, i), h - 1, 2, LoAt(inodes', lo', i'), HiAt(inodes', hi', i'));
  }

  /** Two neighbours put together. */
  lemma JoinBody(a: seq<Inode>, aKids: seq<Tree>, b: seq<Inode>, bKids: seq<Tree>, lo: Bound, mid: Bytes, hi: Bound, h: nat)
    requires Body(a, aKids, lo, At(mid), h) && Body(b, bKids, At(mid), hi, h)
    requires LoWider(lo, At(mid)) && HiWider(hi, At(mid))
    ensures Body(a + b, aKids + bKids, lo, hi, h)
  {
    hide Less, Shape;
    Order();
    var inodes, kids := a + b, aKids + bKids;
    assert Content(inodes, lo, hi);
    forall i | 0 <= i < |kids| ensures KidOk(inodes, kids[i], lo, hi, h, i) {
      if i < |a| {
        assert KidOk(a, aKids[i], lo, At(mid), h, i);
        WidenKid(a, kids[i], lo, At(mid), h, i, inodes, lo, hi, i);
      } else {
        var k := i - |a|;
        assert KidOk(b, bKids[k], At(mid), hi, h, k);
        WidenKid(b, kids[i], At(mid), hi, h, k, inodes, lo, hi, i);
      }
    }
  }

  lemma {:induction false} AllEntriesPlus(a: seq<Tree>, b: seq<Tree>)
    ensures AllEntries(a + b) == AllEntries(a) + AllEntries(b)
    ensures AllIds(a + b) == AllIds(a) + AllIds(b)
  {
    hide Entries, PageIds;
    if a == [] {
      assert a + b == b;
    } else {
      assert (a + b)[1..] == a[1..] + b;
      AllEntriesPlus(a[1..], b);
    }
  }

  lemma OneEntries(t: Tree)
    ensures AllEntries([t]) == Entries(t) && AllIds([t]) == PageIds(t)
  {
    hide Entries, PageIds;
    assert AllEntries([t][1..]) == [];
  }

  /** What the parent knows of the child at `i`. */
  lemma KidIs(inodes: seq<Inode>, kids: seq<Tree>, lo: Bound, hi: Bound, h: nat, i: nat)
    requires Body(inodes, kids, lo, hi, h) && i < |kids|
    ensures h > 0 && kids[i].key == inodes[i].key && kids[i].pgid == inodes[i].pgid && kids[i].pgid > 0
    ensures kids[i].inodes == [] ==> kids[i].unbalanced
    ensures Shape(kids[i], LoAt(inodes, lo, i), HiAt(inodes, hi, i), h - 1, 2)
    ensures Content(inodes, lo, hi) && |kids| == |inodes|
  {
    hide Content, Shape;
    assert KidOk(inodes, kids[i], lo, hi, h, i);
  }
}
