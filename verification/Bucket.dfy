/** A bucket: reading and writing keys through the cursor. */
module Buckets {
  import opened Keys
  import opened Nodes
  import opened BTree
  import opened TreeLookup
  import opened Cursors

  const MAX_KEY_SIZE := 32768

  const MAX_VALUE_SIZE := 4294967295

  datatype Error =
    | NoError | TxClosed | TxNotWritable | KeyRequired | KeyTooLarge | ValueTooLarge | IncompatibleValue

  /** A key that holds a nested bucket. */
  predicate HoldsBucket(entries: seq<Inode>, key: Bytes) {
    Found(entries, key) && IsBucket(entries[Rank(entries, key)])
  }

  /** The entry of the list under a key is the one the leaf shows. */
  lemma EntryMeaning(root: Tree, key: Bytes)
    requires InBounds(root)
    ensures Found(Entries(root), key) <==> LeafEntry(root, key).Some? && LeafEntry(root, key).value.key == key
    ensures Found(Entries(root), key) ==> LeafEntry(root, key).value == Entries(root)[Rank(Entries(root), key)]
  {
    hide Shape, Tight;
    var h: nat :| Shape(root, Open, Open, h, 2);
    LeafMeaning(root, Open, Open, h, key);
  }

  lemma RootPut(root: Tree, key: Bytes, x: Inode)
    requires InBounds(root) && x.key == key
    ensures var r := PutKey(root, key, x);
      InBounds(r) && Entries(r) == PutInto(Entries(root), key, x) && PageIds(r) == PageIds(root)
  {
    hide Shape, Tight, Entries, PutInto, PageIds;
    var h: nat :| Shape(root, Open, Open, h, 2);
    PutMeaning(root, Open, Open, h, key, x);
  }

  lemma RootDelete(root: Tree, key: Bytes)
    requires InBounds(root)
    ensures var r := DeleteKey(root, key);
      InBounds(r) && Entries(r) == DeleteFrom(Entries(root), key) && PageIds(r) == PageIds(root)
  {
    hide Shape, Tight, Entries, DeleteFrom, PageIds;
    var h: nat :| Shape(root, Open, Open, h, 2);
    DeleteMeaning(root, Open, Open, h, key);
  }

  /** At most one entry has a key, and that is the one found. */
  lemma ValueUnder(entries: seq<Inode>, key: Bytes)
    requires Sorted(entries)
    ensures forall e | e in entries && e.key == key :: Found(entries, key) && e == entries[Rank(entries, key)]
  {
    hide Less, Rank;
    Order();
    RankCorrect(entries, key);
    var r := Rank(entries, key);
    assert forall i | r < i < |entries| :: Less(entries[r].key, entries[i].key);
    forall e | e in entries && e.key == key ensures Found(entries, key) && e == entries[r] {
      var i :| 0 <= i < |entries| && entries[i] == e;
      assert i == r;
    }
  }

  class Bucket {
    var root: Tree
    var open: bool
    const writable: bool

    constructor (root: Tree, writable: bool)
      ensures this.root == root && this.writable == writable && open
    {
      this.root, this.writable, open := root, writable, true;
    }

    /** The value under a key. Nothing for a nested bucket. */
    method Get(key: Bytes) returns (value: Option<Bytes>)
      requires InBounds(root)
      ensures var all := Entries(root);
        value == if Found(all, key) && !HoldsBucket(all, key) then Some(all[Rank(all, key)].value) else None
      ensures forall v :: value == Some(v) <==> exists e | e in Entries(root) :: e.key == key && e.value == v && e.flags % 2 == 0
    {
      hide InBounds, LeafEntry, Found, Rank, Entries;
      EntryMeaning(root, key);
      BucketSorted(root);
      ValueUnder(Entries(root), key);
      var c := new Cursor(root);
      var x := c.SeekLeaf(key);
      FoundIn(Entries(root), key);
      if x.Some? && IsBucket(x.value) {
        return None;
      }
      if x.None? || x.value.key != key {
        return None;
      }
      return Some(x.value.value);
    }

    /** Puts a value under a key, or says why not. */
    method Put(key: Bytes, value: Bytes) returns (err: Error)
      requires InBounds(root)
      modifies this`root
      ensures InBounds(root)
      ensures err ==
        if !open then TxClosed
        else if !writable then TxNotWritable
        else if |key| == 0 then KeyRequired
        else if |key| > 32768 then KeyTooLarge
        else if |value| > 4294967295 then ValueTooLarge
        else if HoldsBucket(old(Entries(root)), key) then IncompatibleValue
        else NoError
      ensures Entries(root) == if err == NoError then PutInto(old(Entries(root)), key, Inode(0, 0, key, value)) else old(Entries(root))
      ensures err == NoError ==> forall e ::
        e in Entries(root) <==> e == Inode(0, 0, key, value) || (e in old(Entries(root)) && e.key != key)
      ensures PageIds(root) == old(PageIds(root))
    {
      hide InBounds, LeafEntry, Found, Rank, Entries, PutInto, PageIds;
      BucketSorted(root);
      forall e ensures e in PutInto(Entries(root), key, Inode(0, 0, key, value))
        <==> e == Inode(0, 0, key, value) || (e in Entries(root) && e.key != key)
      {
        PutMember(Entries(root), key, Inode(0, 0, key, value), e);
      }
      if !open { return TxClosed; }
      if !writable { return TxNotWritable; }
      if |key| == 0 { return KeyRequired; }
      if |key| > MAX_KEY_SIZE { return KeyTooLarge; }
      if |value| > MAX_VALUE_SIZE { return ValueTooLarge; }
      EntryMeaning(root, key);
      FoundIn(Entries(root), key);
      var c := new Cursor(root);
      var x := c.SeekLeaf(key);
      if x.Some? && x.value.key == key && IsBucket(x.value) {
        return IncompatibleValue;
      }
      RootPut(root, key, Inode(0, 0, key, value));
      root := PutKey(root, key, Inode(0, 0, key, value));
      return NoError;
    }

    /** Deletes a key if it is there. It is refused when the entry at or after the key in its leaf
        holds a nested bucket, even if that entry has another key. */
    method Delete(key: Bytes) returns (err: Error)
      requires InBounds(root)
      modifies this`root
      ensures InBounds(root)
      ensures err ==
        if !open then TxClosed
        else if !writable then TxNotWritable
        else if old(LeafEntry(root, key).Some? && IsBucket(LeafEntry(root, key).value)) then IncompatibleValue
        else NoError
      ensures Entries(root) == if err == NoError then DeleteFrom(old(Entries(root)), key) else old(Entries(root))
      ensures err == NoError ==> forall e :: e in Entries(root) <==> e in old(Entries(root)) && e.key != key
      ensures PageIds(root) == old(PageIds(root))
    {
      hide InBounds, LeafEntry, Found, Rank, Entries, DeleteFrom, PageIds;
      BucketSorted(root);
      forall e ensures e in DeleteFrom(Entries(root), key) <==> e in Entries(root) && e.key != key {
        DeleteMember(Entries(root), key, e);
      }
      if !open { return TxClosed; }
      if !writable { return TxNotWritable; }
      var c := new Cursor(root);
      var x := c.SeekLeaf(key);
      if x.Some? && IsBucket(x.value) {
        return IncompatibleValue;
      }
      RootDelete(root, key);
      root := DeleteKey(root, key);
      return NoError;
    }

    /** Calls a function on every entry in order until it fails. Of a closed transaction it sees nothing. */
    method ForEach(fn: (Bytes, Option<Bytes>) -> bool) returns (seen: seq<Item>, ok: bool, err: Error)
      requires Walkable(root)
      ensures err == if open then NoError else TxClosed
      ensures err == TxClosed ==> seen == [] && !ok
      ensures |seen| <= |Entries(root)|
      ensures forall k | 0 <= k < |seen| :: seen[k].Item? && seen[k] == Shown(Entries(root)[k])
      ensures forall k | 0 <= k < |seen| :: fn(seen[k].key, seen[k].value) <==> (ok || k < |seen| - 1)
      ensures ok ==> |seen| == |Entries(root)|
      ensures err == NoError && !ok ==> seen != []
    {
      hide Walkable, Entries;
      if !open { return [], false, TxClosed; }
      err := NoError;
      var c := new Cursor(root);
      var item := c.First();
      seen, ok := [], true;
      while item != Nil
        invariant c.root == root && fresh(c) && c.Placed() && c.stack != []
        invariant ok && |seen| <= |Entries(root)|
        invariant item == ItemAt(Entries(root), |seen|)
        invariant item != Nil ==> c.OnEntry() && c.Position() == |seen|
        invariant forall k | 0 <= k < |seen| :: seen[k] == Shown(Entries(root)[k]) && fn(seen[k].key, seen[k].value)
        decreases |Entries(root)| - |seen|
      {
        seen := seen + [item];
        if !fn(item.key, item.value) {
          return seen, false, NoError;
        }
        item := c.Next();
      }
    }
  }

  /** Deleting a missing key is refused exactly when the entry after it in its leaf holds a nested
      bucket, as with the key "a" in a bucket that holds nothing but a nested bucket under "b". */
  lemma DeleteRefusesMissing()
    ensures var root := Tree(true, true, false, [], 3, [Inode(BUCKET_LEAF_FLAG, 0, [98], [])], []);
      && InBounds(root) && !Found(Entries(root), [97])
      && LeafEntry(root, [97]).Some? && IsBucket(LeafEntry(root, [97]).value)
  {
    var root := Tree(true, true, false, [], 3, [Inode(BUCKET_LEAF_FLAG, 0, [98], [])], []);
    assert Body(root.inodes, root.kids, Open, Open, 0);
    assert Shape(root, Open, Open, 0, 2);
    assert !Less([98], [97]);
  }
}
