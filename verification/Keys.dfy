/** Byte strings in the order of bytes.Compare, and the entries of a node. */
module Keys {

  type Byte = x: int | 0 <= x < 256

  type Bytes = seq<Byte>

  predicate Less(a: Bytes, b: Bytes) {
    b != [] && (a == [] || a[0] < b[0] || (a[0] == b[0] && Less(a[1..], b[1..])))
  }

  predicate AtMost(a: Bytes, b: Bytes) {
    a == b || Less(a, b)
  }

  lemma {:induction false} Irreflexive(a: Bytes)
    ensures !Less(a, a)
  {
    if a != [] { Irreflexive(a[1..]); }
  }

  lemma {:induction false} Transitive(a: Bytes, b: Bytes, c: Bytes)
    ensures Less(a, b) && Less(b, c) ==> Less(a, c)
  {
    if a != [] && b != [] && c != [] { Transitive(a[1..], b[1..], c[1..]); }
  }

  lemma {:induction false} Total(a: Bytes, b: Bytes)
    ensures Less(a, b) || a == b || Less(b, a)
  {
    if a != [] && b != [] {
      Total(a[1..], b[1..]);
      assert a == [a[0]] + a[1..] && b == [b[0]] + b[1..];
    }
  }

  /** The order facts, for all keys at once. */
  lemma Order()
    ensures forall a :: !Less(a, a)
    ensures forall a, b, c :: Less(a, b) && Less(b, c) ==> Less(a, c)
    ensures forall a, b :: Less(a, b) || a == b || Less(b, a)
  {
    forall a ensures !Less(a, a) { Irreflexive(a); }
    forall a, b, c ensures Less(a, b) && Less(b, c) ==> Less(a, c) { Transitive(a, b, c); }
    forall a, b ensures Less(a, b) || a == b || Less(b, a) { Total(a, b); }
  }

  /** The order of bytes.Compare: at the first difference the smaller byte, or the shorter key, is first. */
  ghost predicate Precedes(a: Bytes, b: Bytes) {
    exists k | 0 <= k <= |a| && k <= |b| && a[..k] == b[..k] :: k < |b| && (k == |a| || a[k] < b[k])
  }

  lemma PartFirst(a: Bytes, b: Bytes)
    requires Precedes(a, b) && (a == [] || b == [] || a[0] != b[0])
    ensures b != [] && (a == [] || a[0] < b[0])
  {
    var k :| 0 <= k <= |a| && k <= |b| && a[..k] == b[..k] && k < |b| && (k == |a| || a[k] < b[k]);
    assert forall i | 0 <= i < k :: a[i] == a[..k][i] == b[i];
  }

  lemma {:induction false} Lexicographic(a: Bytes, b: Bytes)
    ensures Less(a, b) <==> Precedes(a, b)
  {
    if a != [] && b != [] && a[0] == b[0] {
      Lexicographic(a[1..], b[1..]);
      if Precedes(a[1..], b[1..]) {
        var k :| 0 <= k <= |a[1..]| && k <= |b[1..]| && a[1..][..k] == b[1..][..k] && k < |b[1..]| && (k == |a[1..]| || a[1..][k] < b[1..][k]);
        assert a[..k + 1] == [a[0]] + a[1..][..k] && b[..k + 1] == [b[0]] + b[1..][..k];
      }
      if Precedes(a, b) {
        var k :| 0 <= k <= |a| && k <= |b| && a[..k] == b[..k] && k < |b| && (k == |a| || a[k] < b[k]);
        assert k > 0;
        assert a[1..][..k - 1] == a[..k][1..] && b[1..][..k - 1] == b[..k][1..];
      }
    } else {
      assert a[..0] == b[..0];
      if Precedes(a, b) { PartFirst(a, b); }
    }
  }

  /** An element of a node: a key with its value in a leaf, a separator with a page id in a branch. */
  datatype Inode = Inode(flags: nat, pgid: nat, key: Bytes, value: Bytes)

  ghost predicate Sorted(inodes: seq<Inode>) {
    forall i, j | 0 <= i < j < |inodes| :: Less(inodes[i].key, inodes[j].key)
  }

  /** The first position whose key is not below `key`. */
  ghost predicate IsRank(inodes: seq<Inode>, key: Bytes, i: nat) {
    && i <= |inodes|
    && (forall k | 0 <= k < i :: Less(inodes[k].key, key))
    && (forall k | i <= k < |inodes| :: !Less(inodes[k].key, key))
  }

  /** The library binary search for the first key not below `key`. The flag says whether a probe met
      the key itself, which is how the cursor tells an exact hit. */
  method Search(inodes: seq<Inode>, key: Bytes) returns (i: nat, exact: bool)
    requires Sorted(inodes)
    ensures IsRank(inodes, key, i)
    ensures exact <==> i < |inodes| && inodes[i].key == key
  {
    hide Less;
    var j := |inodes|;
    i, exact := 0, false;
    Order();
    while i < j
      invariant 0 <= i <= j <= |inodes|
      invariant forall k | 0 <= k < i :: Less(inodes[k].key, key)
      invariant forall k | j <= k < |inodes| :: !Less(inodes[k].key, key)
      invariant exact ==> j < |inodes| && inodes[j].key == key
      invariant j < |inodes| && inodes[j].key == key ==> exact
    {
      var h := i + (j - i) / 2;
      assert i <= h < j;
      if inodes[h].key == key {
        exact := true;
      }
      if Less(inodes[h].key, key) {
        i := h + 1;
      } else {
        j := h;
      }
    }
  }

  lemma RankUnique(inodes: seq<Inode>, key: Bytes, i: nat, j: nat)
    requires IsRank(inodes, key, i) && IsRank(inodes, key, j)
    ensures i == j
  {
    hide Less;
    var nowhere := Inode(0, 0, [], []);
    var a := if i < |inodes| then inodes[i] else nowhere;
    var b := if j < |inodes| then inodes[j] else nowhere;
  }

  /** Where `key` is or belongs in a sorted list. */
  function Rank(inodes: seq<Inode>, key: Bytes): (i: nat)
    ensures i <= |inodes|
  {
    if inodes == [] || !Less(inodes[0].key, key) then 0 else 1 + Rank(inodes[1..], key)
  }

  lemma {:induction false} RankCorrect(inodes: seq<Inode>, key: Bytes)
    requires Sorted(inodes)
    ensures IsRank(inodes, key, Rank(inodes, key))
  {
    hide Less;
    Order();
    if inodes != [] && Less(inodes[0].key, key) {
      var rest := inodes[1..];
      RankCorrect(rest, key);
      assert forall k | 0 < k < |inodes| :: inodes[k] == rest[k - 1];
    }
  }

  // ---- Keys with a common prefix ----

  lemma {:induction false} PrefixNotLess(p: Bytes, key: Bytes)
    requires p <= key
    ensures !Less(key, p)
  {
    if p != [] && key != [] {
      assert p == key[..|p|];
      PrefixNotLess(p[1..], key[1..]);
    }
  }

  /** Past a key that is above all keys with the prefix, there are none. */
  lemma {:induction false} PastPrefix(p: Bytes, a: Bytes, b: Bytes)
    requires !Less(a, p) && !(p <= a) && Less(a, b)
    ensures !(p <= b)
  {
    if p != [] && a != [] && p <= b {
      assert b[0] == p[0] && p[1..] <= b[1..];
      if a[0] == p[0] {
        assert p == [p[0]] + p[1..] && a == [a[0]] + a[1..];
        assert !(p[1..] <= a[1..]);
        PastPrefix(p[1..], a[1..], b[1..]);
      }
    }
  }

  /** The entries whose keys begin with a prefix lie side by side, from the rank of the prefix on. */
  lemma PrefixTogether(s: seq<Inode>, p: Bytes) returns (hi: nat)
    requires Sorted(s)
    ensures Rank(s, p) <= hi <= |s|
    ensures forall i | 0 <= i < |s| :: p <= s[i].key <==> Rank(s, p) <= i < hi
  {
    hide Less, Rank;
    RankCorrect(s, p);
    hi := Rank(s, p);
    while hi < |s| && p <= s[hi].key
      invariant Rank(s, p) <= hi <= |s|
      invariant forall i | Rank(s, p) <= i < hi :: p <= s[i].key
    {
      hi := hi + 1;
    }
    forall i | 0 <= i < |s| ensures p <= s[i].key <==> Rank(s, p) <= i < hi {
      if p <= s[i].key { PrefixNotLess(p, s[i].key); }
      if hi < i { PastPrefix(p, s[hi].key, s[i].key); }
    }
  }

  predicate Found(inodes: seq<Inode>, key: Bytes) {
    var i := Rank(inodes, key);
    i < |inodes| && inodes[i].key == key
  }
}
