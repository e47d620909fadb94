/** One in-memory node: put, del, its size, and the split done before it is written. */
module Nodes {
  import opened Keys

  const PAGE_HEADER_SIZE := 16

  const PAGE_ELEMENT_SIZE := 16

  const MIN_KEYS_PER_PAGE := 2

  const MIN_FILL_PERCENT := 0.1

  const MAX_FILL_PERCENT := 1.0

  /** `x` takes the place of `oldKey`, or is inserted where `oldKey` belongs. */
  function PutInto(inodes: seq<Inode>, oldKey: Bytes, x: Inode): seq<Inode> {
    var i := Rank(inodes, oldKey);
    if Found(inodes, oldKey) then inodes[i := x] else inodes[..i] + [x] + inodes[i..]
  }

  function DeleteFrom(inodes: seq<Inode>, key: Bytes): seq<Inode> {
    var i := Rank(inodes, key);
    if Found(inodes, key) then inodes[..i] + inodes[i + 1..] else inodes
  }

  lemma OtherKeys(s: seq<Inode>, key: Bytes, i: nat)
    requires Sorted(s) && IsRank(s, key, i)
    ensures forall e | e in s[..i] :: e.key != key
    ensures i < |s| ==> forall e | e in s[i + 1..] :: e.key != key
    ensures !(i < |s| && s[i].key == key) ==> forall e | e in s[i..] :: e.key != key
  {
    hide Less;
    Order();
    forall k | i < k < |s| ensures s[k].key != key { assert Less(s[i].key, s[k].key); }
  }

  /** Putting is a map update: the new entry, and all entries under other keys. */
  lemma PutMember(s: seq<Inode>, key: Bytes, x: Inode, e: Inode)
    requires Sorted(s) && x.key == key
    ensures e in PutInto(s, key, x) <==> e == x || (e in s && e.key != key)
  {
    hide Less, Rank;
    Order();
    RankCorrect(s, key);
    var i, r := Rank(s, key), PutInto(s, key, x);
    OtherKeys(s, key, i);
    if Found(s, key) {
      assert s == s[..i] + [s[i]] + s[i + 1..] && r == s[..i] + [x] + s[i + 1..];
    } else {
      assert s == s[..i] + s[i..];
    }
  }

  /** Deleting is a map removal. */
  lemma DeleteMember(s: seq<Inode>, key: Bytes, e: Inode)
    requires Sorted(s)
    ensures e in DeleteFrom(s, key) <==> e in s && e.key != key
  {
    hide Less, Rank;
    Order();
    RankCorrect(s, key);
    var i := Rank(s, key);
    OtherKeys(s, key, i);
    if Found(s, key) { assert s == s[..i] + [s[i]] + s[i + 1..]; }
  }

  lemma PutMembers(s: seq<Inode>, key: Bytes, x: Inode)
    requires Sorted(s) && x.key == key
    ensures forall e :: e in PutInto(s, key, x) <==> e == x || (e in s && e.key != key)
  {
    hide PutInto, Sorted;
    forall e ensures e in PutInto(s, key, x) <==> e == x || (e in s && e.key != key) { PutMember(s, key, x, e); }
  }

  lemma DeleteMembers(s: seq<Inode>, key: Bytes)
    requires Sorted(s)
    ensures forall e :: e in DeleteFrom(s, key) <==> e in s && e.key != key
  {
    hide DeleteFrom, Sorted;
    forall e ensures e in DeleteFrom(s, key) <==> e in s && e.key != key { DeleteMember(s, key, e); }
  }

  lemma PutSorted(s: seq<Inode>, key: Bytes, x: Inode)
    requires Sorted(s) && x.key == key
    ensures Sorted(PutInto(s, key, x))
  {
    hide Less, Rank;
    Order();
    RankCorrect(s, key);
  }

  lemma DeleteSorted(s: seq<Inode>, key: Bytes)
    requires Sorted(s)
    ensures Sorted(DeleteFrom(s, key))
  {
    hide Less, Rank;
  }

  function ElementSize(x: Inode): nat {
    PAGE_ELEMENT_SIZE + |x.key| + |x.value|
  }

  function SizeOf(inodes: seq<Inode>): (n: nat)
    ensures n >= PAGE_HEADER_SIZE + PAGE_ELEMENT_SIZE * |inodes|
  {
    if inodes == [] then PAGE_HEADER_SIZE else SizeOf(inodes[..|inodes| - 1]) + ElementSize(inodes[|inodes| - 1])
  }

  lemma {:induction false} SizeGrows(inodes: seq<Inode>, i: nat)
    requires i <= |inodes|
    ensures SizeOf(inodes[..i]) <= SizeOf(inodes)
  {
    if i == |inodes| {
      assert inodes[..i] == inodes;
    } else {
      var front := inodes[..|inodes| - 1];
      SizeGrows(front, i);
      assert front[..i] == inodes[..i];
    }
  }

  lemma SizeStep(inodes: seq<Inode>, i: nat)
    requires i < |inodes|
    ensures SizeOf(inodes[..i + 1]) == SizeOf(inodes[..i]) + ElementSize(inodes[i])
  {
    var s := inodes[..i + 1];
    assert s[..|s| - 1] == inodes[..i];
  }

  predicate Fits(inodes: seq<Inode>, pageSize: nat) {
    |inodes| <= MIN_KEYS_PER_PAGE * 2 || SizeOf(inodes) < pageSize
  }

  /** Where a split cuts: past two elements as far as the threshold allows, leaving at least three. */
  predicate IsCut(inodes: seq<Inode>, threshold: int, i: nat) {
    && MIN_KEYS_PER_PAGE <= i < |inodes| - MIN_KEYS_PER_PAGE
    && (i == MIN_KEYS_PER_PAGE || SizeOf(inodes[..i]) <= threshold)
    && (i == |inodes| - MIN_KEYS_PER_PAGE - 1 || SizeOf(inodes[..i + 1]) > threshold)
  }

  lemma CutBelow(inodes: seq<Inode>, threshold: int, i: nat, j: nat)
    requires i < j <= |inodes| && SizeOf(inodes[..j]) <= threshold
    ensures SizeOf(inodes[..i + 1]) <= threshold
  {
    var upto := inodes[..j];
    SizeGrows(upto, i + 1);
    assert upto[..i + 1] == inodes[..i + 1];
  }

  lemma CutUnique(inodes: seq<Inode>, threshold: int, i: nat, j: nat)
    requires IsCut(inodes, threshold, i) && IsCut(inodes, threshold, j)
    ensures i == j
  {
    if i < j { CutBelow(inodes, threshold, i, j); }
    if j < i { CutBelow(inodes, threshold, j, i); }
  }

  function Cut(inodes: seq<Inode>, threshold: int, i: nat): (r: nat)
    requires MIN_KEYS_PER_PAGE <= i < |inodes| - MIN_KEYS_PER_PAGE
    requires i == MIN_KEYS_PER_PAGE || SizeOf(inodes[..i]) <= threshold
    ensures IsCut(inodes, threshold, r)
    decreases |inodes| - i
  {
    if i == |inodes| - MIN_KEYS_PER_PAGE - 1 || SizeOf(inodes[..i + 1]) > threshold then i
    else Cut(inodes, threshold, i + 1)
  }

  /** The contents of the nodes a node is split into. */
  function Parts(inodes: seq<Inode>, pageSize: nat, threshold: int): (ps: seq<seq<Inode>>)
    ensures |ps| > 0 && (|ps| > 1 ==> 2 * |ps| <= |inodes|)
    decreases |inodes|
  {
    if Fits(inodes, pageSize) then [inodes] else
      var i := Cut(inodes, threshold, MIN_KEYS_PER_PAGE);
      [inodes[..i]] + Parts(inodes[i..], pageSize, threshold)
  }

  function Concat(ps: seq<seq<Inode>>): seq<Inode> {
    if ps == [] then [] else ps[0] + Concat(ps[1..])
  }

  /** Nothing is lost, duplicated or reordered by a split. */
  lemma {:induction false} PartsConcat(inodes: seq<Inode>, pageSize: nat, threshold: int)
    ensures Concat(Parts(inodes, pageSize, threshold)) == inodes
    decreases |inodes|
  {
    hide SizeOf;
    var ps := Parts(inodes, pageSize, threshold);
    if !Fits(inodes, pageSize) {
      var i := Cut(inodes, threshold, MIN_KEYS_PER_PAGE);
      PartsConcat(inodes[i..], pageSize, threshold);
      assert ps[1..] == Parts(inodes[i..], pageSize, threshold);
      assert inodes == inodes[..i] + inodes[i..];
    } else {
      assert Concat(ps) == inodes + Concat(ps[1..]);
    }
  }

  /** A node is left whole exactly when it has at most four elements or is smaller than a page.
      Otherwise every part has at least two elements, every part but the last has exactly two or
      stays within the threshold, and the last has at most four or is smaller than a page. */
  ghost predicate WellCut(ps: seq<seq<Inode>>, pageSize: nat, threshold: int) {
    && (|ps| > 1 ==> forall k | 0 <= k < |ps| :: |ps[k]| >= MIN_KEYS_PER_PAGE)
    && (forall k | 0 <= k < |ps| - 1 :: |ps[k]| == MIN_KEYS_PER_PAGE || SizeOf(ps[k]) <= threshold)
    && |ps| > 0 && Fits(ps[|ps| - 1], pageSize)
  }

  lemma {:induction false} PartsBounded(inodes: seq<Inode>, pageSize: nat, threshold: int)
    ensures WellCut(Parts(inodes, pageSize, threshold), pageSize, threshold)
    ensures |Parts(inodes, pageSize, threshold)| == 1 <==> |inodes| <= 4 || SizeOf(inodes) < pageSize
    decreases |inodes|
  {
    hide SizeOf;
    if !Fits(inodes, pageSize) {
      var i := Cut(inodes, threshold, MIN_KEYS_PER_PAGE);
      var rest := Parts(inodes[i..], pageSize, threshold);
      PartsBounded(inodes[i..], pageSize, threshold);
      var ps := Parts(inodes, pageSize, threshold);
      assert ps == [inodes[..i]] + rest;
      assert forall k | 0 < k < |ps| :: ps[k] == rest[k - 1];
      assert |rest| == 1 ==> rest == [inodes[i..]];
    }
  }

  function Threshold(pageSize: nat, fillPercent: real): int {
    var fill := if fillPercent < MIN_FILL_PERCENT then MIN_FILL_PERCENT
                else if fillPercent > MAX_FILL_PERCENT then MAX_FILL_PERCENT else fillPercent;
    (pageSize as real * fill).Floor
  }

  lemma PartsStep(whole: seq<Inode>, pageSize: nat, threshold: int, first: seq<Inode>, rest: seq<Inode>)
    requires Fits(whole, pageSize) ==> first == whole && rest == []
    requires !Fits(whole, pageSize) ==> first + rest == whole && IsCut(whole, threshold, |first|)
    ensures Parts(whole, pageSize, threshold)
         == [first] + if Fits(whole, pageSize) then [] else Parts(rest, pageSize, threshold)
  {
    hide SizeOf;
    if !Fits(whole, pageSize) {
      var i := Cut(whole, threshold, MIN_KEYS_PER_PAGE);
      CutUnique(whole, threshold, i, |first|);
      assert whole[..i] == first && whole[i..] == rest;
    }
  }

  class Node {
    const isLeaf: bool
    var unbalanced: bool
    var key: Bytes
    var pgid: nat
    var inodes: seq<Inode>

    constructor (isLeaf: bool, inodes: seq<Inode>)
      ensures this.isLeaf == isLeaf && this.inodes == inodes
      ensures !unbalanced && key == [] && pgid == 0
    {
      this.isLeaf, this.inodes := isLeaf, inodes;
      unbalanced, key, pgid := false, [], 0;
    }

    /** Replaces the entry under `oldKey`, or shifts the later entries and inserts. */
    method Put(oldKey: Bytes, newKey: Bytes, value: Bytes, child: nat, flags: nat)
      requires Sorted(inodes)
      modifies this`inodes
      ensures inodes == PutInto(old(inodes), oldKey, Inode(flags, child, newKey, value))
      ensures oldKey == newKey ==> forall e ::
        e in inodes <==> e == Inode(flags, child, newKey, value) || (e in old(inodes) && e.key != newKey)
    {
      if oldKey == newKey { PutMembers(inodes, oldKey, Inode(flags, child, newKey, value)); }
      hide Less, Sorted;
      var index, _ := Search(inodes, oldKey);
      RankCorrect(inodes, oldKey);
      RankUnique(inodes, oldKey, index, Rank(inodes, oldKey));
      var exact := |inodes| > 0 && index < |inodes| && inodes[index].key == oldKey;
      if !exact {
        inodes := inodes[..index] + [Inode(0, 0, [], [])] + inodes[index..];
      }
      inodes := inodes[index := Inode(flags, child, newKey, value)];
    }

    /** Removes the entry and marks the node, or does nothing. */
    method Del(key: Bytes)
      requires Sorted(inodes)
      modifies this`inodes, this`unbalanced
      ensures inodes == DeleteFrom(old(inodes), key)
      ensures forall e :: e in inodes <==> e in old(inodes) && e.key != key
      ensures unbalanced == (old(unbalanced) || Found(old(inodes), key))
    {
      DeleteMembers(inodes, key);
      var index, _ := Search(inodes, key);
      RankCorrect(inodes, key);
      RankUnique(inodes, key, index, Rank(inodes, key));
      if index >= |inodes| || inodes[index].key != key {
        return;
      }
      inodes := inodes[..index] + inodes[index + 1..];
      unbalanced := true;
    }

    method Size() returns (sz: nat)
      ensures sz == SizeOf(inodes)
    {
      sz := PAGE_HEADER_SIZE;
      for i := 0 to |inodes|
        invariant sz == SizeOf(inodes[..i])
      {
        SizeStep(inodes, i);
        sz := sz + PAGE_ELEMENT_SIZE + |inodes[i].key| + |inodes[i].value|;
      }
      assert inodes[..|inodes|] == inodes;
    }

    /** Stops at the first element that reaches the bound. A node without elements is below any bound. */
    method SizeLessThan(v: nat) returns (less: bool)
      ensures less <==> inodes == [] || SizeOf(inodes) < v
    {
      var sz := PAGE_HEADER_SIZE;
      for i := 0 to |inodes|
        invariant sz == SizeOf(inodes[..i])
        invariant i > 0 ==> sz < v
      {
        SizeStep(inodes, i);
        sz := sz + PAGE_ELEMENT_SIZE + |inodes[i].key| + |inodes[i].value|;
        if sz >= v {
          SizeGrows(inodes, i + 1);
          return false;
        }
      }
      assert inodes[..|inodes|] == inodes;
      return true;
    }

    method SplitIndex(threshold: int) returns (index: nat)
      requires |inodes| > MIN_KEYS_PER_PAGE * 2
      ensures IsCut(inodes, threshold, index)
    {
      var sz := PAGE_HEADER_SIZE;
      index := 0;
      for i := 0 to |inodes| - MIN_KEYS_PER_PAGE
        invariant sz == SizeOf(inodes[..i])
        invariant index == if i == 0 then 0 else i - 1
        invariant i > MIN_KEYS_PER_PAGE ==> sz <= threshold
        invariant index > MIN_KEYS_PER_PAGE ==> SizeOf(inodes[..index]) <= threshold
      {
        index := i;
        var elsize := PAGE_ELEMENT_SIZE + |inodes[i].key| + |inodes[i].value|;
        SizeStep(inodes, i);
        if i >= MIN_KEYS_PER_PAGE && sz + elsize > threshold {
          break;
        }
        sz := sz + elsize;
      }
    }

    /** Cuts this node in two, or returns null for the second when it may stay whole. */
    method SplitTwo(pageSize: nat, fillPercent: real) returns (next: Node?)
      modifies this`inodes
      ensures next == null <==> Fits(old(inodes), pageSize)
      ensures next == null ==> inodes == old(inodes)
      ensures next != null ==> fresh(next) && next.isLeaf == isLeaf && next.pgid == 0 && next.key == []
      ensures next != null ==> inodes + next.inodes == old(inodes)
      ensures next != null ==> |inodes| >= MIN_KEYS_PER_PAGE && |next.inodes| >= MIN_KEYS_PER_PAGE
      ensures next != null ==> IsCut(old(inodes), Threshold(pageSize, fillPercent), |inodes|)
    {
      hide SizeOf;
      var small := SizeLessThan(pageSize);
      if |inodes| <= MIN_KEYS_PER_PAGE * 2 || small {
        return null;
      }
      var fill := fillPercent;
      if fill < MIN_FILL_PERCENT {
        fill := MIN_FILL_PERCENT;
      } else if fill > MAX_FILL_PERCENT {
        fill := MAX_FILL_PERCENT;
      }
      var threshold := (pageSize as real * fill).Floor;
      var splitIndex := SplitIndex(threshold);
      next := new Node(isLeaf, inodes[splitIndex..]);
      assert inodes == inodes[..splitIndex] + inodes[splitIndex..];
      inodes := inodes[..splitIndex];
    }

    /** Splits until the rest may stay whole. The first node is this one, keeping its page and key. */
    method Split(pageSize: nat, fillPercent: real) returns (nodes: seq<Node>)
      modifies this`inodes
      ensures |nodes| > 0 && nodes[0] == this
      ensures forall k | 0 < k < |nodes| :: fresh(nodes[k]) && nodes[k].pgid == 0 && nodes[k].key == []
      ensures forall k | 0 <= k < |nodes| :: nodes[k].isLeaf == isLeaf
      ensures ContentsAre(nodes, Parts(old(inodes), pageSize, Threshold(pageSize, fillPercent)))
    {
      hide SizeOf, IsCut, Parts, Threshold;
      nodes := [];
      var node: Node := this;
      ghost var threshold := Threshold(pageSize, fillPercent);
      ghost var done: seq<seq<Inode>> := [];
      while true
        invariant forall k | 0 <= k < |nodes| :: nodes[k] != node
        invariant if nodes == [] then node == this else nodes[0] == this && node.pgid == 0 && node.key == []
        invariant forall k | 0 < k < |nodes| :: fresh(nodes[k]) && nodes[k].pgid == 0 && nodes[k].key == []
        invariant forall k | 0 <= k < |nodes| :: nodes[k].isLeaf == isLeaf
        invariant node.isLeaf == isLeaf && (node == this || fresh(node))
        invariant ContentsAre(nodes, done)
        invariant done + Parts(node.inodes, pageSize, threshold) == Parts(old(inodes), pageSize, threshold)
        decreases |node.inodes|
      {
        ghost var whole := node.inodes;
        var next := node.SplitTwo(pageSize, fillPercent);
        PartsStep(whole, pageSize, threshold, node.inodes, if next == null then [] else next.inodes);
        nodes := nodes + [node];
        done := done + [node.inodes];
        if next == null {
          break;
        }
        node := next;
      }
    }
  }

  ghost predicate ContentsAre(nodes: seq<Node>, parts: seq<seq<Inode>>)
    reads nodes
  {
    |nodes| == |parts| && forall k | 0 <= k < |nodes| :: nodes[k].inodes == parts[k]
  }

  lemma Scaled(p: real, fill: real)
    requires p >= 0.0 && 0.0 <= fill <= 1.0
    ensures 0.0 <= p * fill <= p
  {
  }

  lemma FloorWithin(x: real, p: nat)
    requires 0.0 <= x <= p as real
    ensures 0 <= x.Floor <= p && x.Floor as real <= x < x.Floor as real + 1.0
  {
    assert (x.Floor as real) < (p + 1) as real;
  }

  lemma FloorShare(p: nat, fill: real)
    requires 0.0 <= fill <= 1.0
    ensures var x := p as real * fill; 0 <= x.Floor <= p && x.Floor as real <= x < x.Floor as real + 1.0
  {
    var x := p as real * fill;
    Scaled(p as real, fill);
    FloorWithin(x, p);
  }

  /** The threshold is the fill percentage of the page, which is kept between 10 and 100 percent. */
  lemma ThresholdShare(pageSize: nat, fillPercent: real)
    ensures 0 <= Threshold(pageSize, fillPercent) <= pageSize
    ensures var fill := if fillPercent < 0.1 then 0.1 else if fillPercent > 1.0 then 1.0 else fillPercent;
      var share, t := pageSize as real * fill, Threshold(pageSize, fillPercent) as real;
      t <= share < t + 1.0
  {
    var fill := if fillPercent < MIN_FILL_PERCENT then MIN_FILL_PERCENT
                else if fillPercent > MAX_FILL_PERCENT then MAX_FILL_PERCENT else fillPercent;
    FloorShare(pageSize, fill);
  }

  /** So after a split every part with more than four elements fits a page, and every part but the last
      with more than two. */
  lemma PartsFitPage(inodes: seq<Inode>, pageSize: nat, fillPercent: real, k: nat)
    requires k < |Parts(inodes, pageSize, Threshold(pageSize, fillPercent))|
    ensures var ps := Parts(inodes, pageSize, Threshold(pageSize, fillPercent));
      |ps[k]| > 4 || (|ps[k]| > 2 && k < |ps| - 1) ==> SizeOf(ps[k]) <= pageSize
  {
    hide SizeOf, Threshold, Parts;
    PartsBounded(inodes, pageSize, Threshold(pageSize, fillPercent));
    ThresholdShare(pageSize, fillPercent);
  }
}
