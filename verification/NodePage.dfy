/** How a node is laid out on a page, and read back. */
module NodePage {
  import opened Keys
  import opened Nodes

  const BRANCH_PAGE_FLAG := 1

  const LEAF_PAGE_FLAG := 2

  const MAX_ALLOC_SIZE := 0xFFF_FFFF

  const COUNT_LIMIT := 0xFFFF

  /** Little-endian bytes of a number. */
  function Encoded(n: nat, width: nat): (s: Bytes)
    ensures |s| == width
  {
    if width == 0 then [] else [n % 256] + Encoded(n / 256, width - 1)
  }

  /** The number in `width` bytes from `at`. */
  function Number(s: Bytes, at: nat, width: nat): nat
    requires at + width <= |s|
    decreases width
  {
    if width == 0 then 0 else s[at] + 256 * Number(s, at + 1, width - 1)
  }

  function Power(width: nat): nat {
    if width == 0 then 1 else 256 * Power(width - 1)
  }

  /** A number that fits its field is read as it was written. */
  lemma {:induction false} NumberOf(s: Bytes, at: nat, width: nat, n: nat)
    requires at + width <= |s| && s[at..at + width] == Encoded(n, width) && n < Power(width)
    ensures Number(s, at, width) == n
    decreases width
  {
    if width > 0 {
      var field := s[at..at + width];
      assert s[at] == field[0];
      assert s[at + 1..at + 1 + (width - 1)] == field[1..];
      NumberOf(s, at + 1, width - 1, n / 256);
    }
  }

  lemma Powers()
    ensures Power(2) == 0x1_0000 && Power(4) == 0x1_0000_0000 && Power(8) == 0x1_0000_0000_0000_0000
  {
    assert Power(2) == 256 * Power(1) && Power(1) == 256;
    assert Power(4) == 256 * Power(3) && Power(3) == 256 * Power(2);
    assert Power(8) == 256 * Power(7) && Power(7) == 256 * Power(6) && Power(6) == 256 * Power(5) && Power(5) == 256 * Power(4);
  }

  /** Bytes taken by the keys and values of the first `k` elements. */
  function DataSize(inodes: seq<Inode>, k: nat): nat
    requires k <= |inodes|
  {
    if k == 0 then 0 else DataSize(inodes, k - 1) + |inodes[k - 1].key| + |inodes[k - 1].value|
  }

  function ElementAt(k: nat): nat {
    PAGE_HEADER_SIZE + PAGE_ELEMENT_SIZE * k
  }

  /** Where the key of element `k` starts. */
  function DataAt(inodes: seq<Inode>, k: nat): nat
    requires k <= |inodes|
  {
    ElementAt(|inodes|) + DataSize(inodes, k)
  }

  lemma {:induction false} DataGrows(inodes: seq<Inode>, i: nat, j: nat)
    requires i <= j <= |inodes|
    ensures DataSize(inodes, i) <= DataSize(inodes, j)
    decreases j
  {
    if i < j { DataGrows(inodes, i, j - 1); }
  }

  lemma {:induction false} DataIsSize(inodes: seq<Inode>, k: nat)
    requires k <= |inodes|
    ensures SizeOf(inodes[..k]) == ElementAt(k) + DataSize(inodes, k)
  {
    if k > 0 {
      DataIsSize(inodes, k - 1);
      SizeStep(inodes, k - 1);
    }
  }

  /** What the original asserts or relies on for a node to be written: fewer elements than the count
      field's limit, keys that are not empty, a size within the largest allocation, field widths, and
      no branch that refers to its own page. */
  ghost predicate Writable(id: nat, isLeaf: bool, inodes: seq<Inode>) {
    && |inodes| < COUNT_LIMIT && SizeOf(inodes) - PAGE_HEADER_SIZE <= MAX_ALLOC_SIZE && id < Power(8)
    && forall k | 0 <= k < |inodes| ::
      && inodes[k].key != [] && inodes[k].flags < Power(4) && inodes[k].pgid < Power(8)
      && (!isLeaf ==> inodes[k].pgid != id && inodes[k].value == [])
  }

  /** Element `k` is on the page: its header, with the position counted from the header itself, and
      its key and value. */
  ghost predicate HasElement(s: Bytes, isLeaf: bool, inodes: seq<Inode>, k: nat)
    requires k < |inodes|
  {
    var at, data, x := ElementAt(k), DataAt(inodes, k), inodes[k];
    && DataAt(inodes, k + 1) <= |s| && at + PAGE_ELEMENT_SIZE <= |s| && at <= data
    && (if isLeaf then
          && Number(s, at, 4) == x.flags && Number(s, at + 4, 4) == data - at
          && Number(s, at + 8, 4) == |x.key| && Number(s, at + 12, 4) == |x.value|
        else
          && Number(s, at, 4) == data - at && Number(s, at + 4, 4) == |x.key| && Number(s, at + 8, 8) == x.pgid)
    && s[data..data + |x.key|] == x.key
    && s[data + |x.key|..data + |x.key| + |x.value|] == x.value
  }

  function TypeFlag(isLeaf: bool): nat {
    if isLeaf then LEAF_PAGE_FLAG else BRANCH_PAGE_FLAG
  }

  /** The node is on the page. */
  ghost predicate Holds(s: Bytes, isLeaf: bool, inodes: seq<Inode>) {
    && |s| >= SizeOf(inodes) >= PAGE_HEADER_SIZE
    && Number(s, 8, 2) == (if isLeaf then 2 else 1) && Number(s, 10, 2) == |inodes|
    && forall k | 0 <= k < |inodes| :: HasElement(s, isLeaf, inodes, k)
  }

  /** Overwrites a stretch of an array, as `copy` does. */
  method Copy(a: array<Byte>, at: nat, s: Bytes)
    requires at + |s| <= a.Length
    modifies a
    ensures a[at..at + |s|] == s
    ensures forall i | 0 <= i < a.Length && !(at <= i < at + |s|) :: a[i] == old(a[i])
  {
    for i := 0 to |s|
      invariant forall j | 0 <= j < i :: a[at + j] == s[j]
      invariant forall j | 0 <= j < a.Length && !(at <= j < at + i) :: a[j] == old(a[j])
    {
      a[at + i] := s[i];
    }
  }

  lemma NumberFrame(s: Bytes, t: Bytes, at: nat, width: nat)
    requires |s| == |t| && at + width <= |s| && forall i | at <= i < at + width :: s[i] == t[i]
    ensures Number(s, at, width) == Number(t, at, width)
    decreases width
  {
    if width > 0 { NumberFrame(s, t, at + 1, width - 1); }
  }

  /** Writes a number in little-endian order. */
  method PutNumber(a: array<Byte>, at: nat, width: nat, n: nat)
    requires at + width <= a.Length && n < Power(width)
    modifies a
    ensures Number(a[..], at, width) == n
    ensures forall i | 0 <= i < a.Length && !(at <= i < at + width) :: a[i] == old(a[i])
  {
    Copy(a, at, Encoded(n, width));
    assert a[..][at..at + width] == a[at..at + width];
    NumberOf(a[..], at, width, n);
  }

  /** Bytes an element does not use do not matter to it. */
  lemma ElementFrame(s: Bytes, t: Bytes, isLeaf: bool, inodes: seq<Inode>, k: nat)
    requires k < |inodes| && |s| == |t| && HasElement(s, isLeaf, inodes, k)
    requires forall i | ElementAt(k) <= i < ElementAt(k) + PAGE_ELEMENT_SIZE :: s[i] == t[i]
    requires forall i | DataAt(inodes, k) <= i < DataAt(inodes, k + 1) :: s[i] == t[i]
    ensures HasElement(t, isLeaf, inodes, k)
  {
    hide Number;
    var at, data, x := ElementAt(k), DataAt(inodes, k), inodes[k];
    if isLeaf {
      NumberFrame(s, t, at, 4);
      NumberFrame(s, t, at + 4, 4);
      NumberFrame(s, t, at + 8, 4);
      NumberFrame(s, t, at + 12, 4);
    } else {
      NumberFrame(s, t, at, 4);
      NumberFrame(s, t, at + 4, 4);
      NumberFrame(s, t, at + 8, 8);
    }
    assert s[data..data + |x.key|] == t[data..data + |x.key|];
    assert s[data + |x.key|..data + |x.key| + |x.value|] == t[data + |x.key|..data + |x.key| + |x.value|];
  }

  /** Where an element and its data lie. */
  lemma Places(inodes: seq<Inode>, k: nat)
    requires k < |inodes|
    ensures PAGE_HEADER_SIZE <= ElementAt(k) && ElementAt(k) + PAGE_ELEMENT_SIZE <= ElementAt(|inodes|) <= DataAt(inodes, k)
    ensures DataAt(inodes, k + 1) == DataAt(inodes, k) + |inodes[k].key| + |inodes[k].value| <= SizeOf(inodes)
    ensures SizeOf(inodes) == DataAt(inodes, |inodes|)
  {
    DataGrows(inodes, k + 1, |inodes|);
    DataIsSize(inodes, |inodes|);
    assert inodes[..|inodes|] == inodes;
  }

  /** One element's header: flags, position, sizes; or position, key size, page id. */
  method WriteHeader(a: array<Byte>, isLeaf: bool, inodes: seq<Inode>, k: nat)
    requires k < |inodes| && SizeOf(inodes) <= a.Length && SizeOf(inodes) - PAGE_HEADER_SIZE <= MAX_ALLOC_SIZE
    requires inodes[k].flags < Power(4) && inodes[k].pgid < Power(8)
    modifies a
    ensures var at, pos, x := ElementAt(k), DataAt(inodes, k) - ElementAt(k), inodes[k];
      && at + PAGE_ELEMENT_SIZE <= a.Length
      && if isLeaf then
          && Number(a[..], at, 4) == x.flags && Number(a[..], at + 4, 4) == pos
          && Number(a[..], at + 8, 4) == |x.key| && Number(a[..], at + 12, 4) == |x.value|
        else
          && Number(a[..], at, 4) == pos && Number(a[..], at + 4, 4) == |x.key| && Number(a[..], at + 8, 8) == x.pgid
    ensures forall i | 0 <= i < a.Length && !(ElementAt(k) <= i < ElementAt(k) + PAGE_ELEMENT_SIZE) :: a[i] == old(a[i])
  {
    hide Number, SizeOf, Power;
    Powers();
    Places(inodes, k);
    var at, pos, x := ElementAt(k), DataAt(inodes, k) - ElementAt(k), inodes[k];
    if isLeaf {
      PutNumber(a, at + 4, 4, pos);
      ghost var s1 := a[..];
      PutNumber(a, at, 4, x.flags);
      ghost var s2 := a[..];
      NumberFrame(s1, s2, at + 4, 4);
      PutNumber(a, at + 8, 4, |x.key|);
      ghost var s3 := a[..];
      NumberFrame(s2, s3, at, 4);
      NumberFrame(s2, s3, at + 4, 4);
      PutNumber(a, at + 12, 4, |x.value|);
      NumberFrame(s3, a[..], at, 4);
      NumberFrame(s3, a[..], at + 4, 4);
      NumberFrame(s3, a[..], at + 8, 4);
    } else {
      PutNumber(a, at, 4, pos);
      ghost var s1 := a[..];
      PutNumber(a, at + 4, 4, |x.key|);
      ghost var s2 := a[..];
      NumberFrame(s1, s2, at, 4);
      PutNumber(a, at + 8, 8, x.pgid);
      NumberFrame(s2, a[..], at, 4);
      NumberFrame(s2, a[..], at + 4, 4);
    }
  }

  ghost predicate HasHeader(s: Bytes, isLeaf: bool, inodes: seq<Inode>, k: nat)
    requires k < |inodes| && ElementAt(k) + PAGE_ELEMENT_SIZE <= |s|
  {
    var at, pos, x := ElementAt(k), DataAt(inodes, k) - ElementAt(k), inodes[k];
    if isLeaf then
      && Number(s, at, 4) == x.flags && Number(s, at + 4, 4) == pos
      && Number(s, at + 8, 4) == |x.key| && Number(s, at + 12, 4) == |x.value|
    else
      && Number(s, at, 4) == pos && Number(s, at + 4, 4) == |x.key| && Number(s, at + 8, 8) == x.pgid
  }

  lemma HeaderStays(s: Bytes, t: Bytes, isLeaf: bool, inodes: seq<Inode>, k: nat)
    requires k < |inodes| && ElementAt(k) + PAGE_ELEMENT_SIZE <= |s| == |t| && HasHeader(s, isLeaf, inodes, k)
    requires forall i | ElementAt(k) <= i < ElementAt(k) + PAGE_ELEMENT_SIZE :: s[i] == t[i]
    ensures HasHeader(t, isLeaf, inodes, k)
  {
    hide Number;
    var at := ElementAt(k);
    if isLeaf {
      NumberFrame(s, t, at, 4);
      NumberFrame(s, t, at + 4, 4);
      NumberFrame(s, t, at + 8, 4);
      NumberFrame(s, t, at + 12, 4);
    } else {
      NumberFrame(s, t, at, 4);
      NumberFrame(s, t, at + 4, 4);
      NumberFrame(s, t, at + 8, 8);
    }
  }

  method WriteElement(a: array<Byte>, isLeaf: bool, inodes: seq<Inode>, k: nat)
    requires k < |inodes| && SizeOf(inodes) <= a.Length && SizeOf(inodes) - PAGE_HEADER_SIZE <= MAX_ALLOC_SIZE
    requires inodes[k].flags < Power(4) && inodes[k].pgid < Power(8)
    modifies a
    ensures HasElement(a[..], isLeaf, inodes, k)
    ensures forall i | 0 <= i < a.Length && !(ElementAt(k) <= i < ElementAt(k) + PAGE_ELEMENT_SIZE)
      && !(DataAt(inodes, k) <= i < DataAt(inodes, k + 1)) :: a[i] == old(a[i])
  {
    hide Number, SizeOf, Power, ElementAt, DataAt;
    Places(inodes, k);
    var data, x := DataAt(inodes, k), inodes[k];
    WriteHeader(a, isLeaf, inodes, k);
    ghost var s1 := a[..];
    Copy(a, data, x.key);
    Copy(a, data + |x.key|, x.value);
    HeaderStays(s1, a[..], isLeaf, inodes, k);
    assert a[..][data..data + |x.key|] == x.key;
    assert a[..][data + |x.key|..data + |x.key| + |x.value|] == x.value;
  }

  lemma Apart(inodes: seq<Inode>, k: nat, i: nat)
    requires k < i < |inodes|
    ensures ElementAt(k) + PAGE_ELEMENT_SIZE <= ElementAt(i) && ElementAt(i) + PAGE_ELEMENT_SIZE <= DataAt(inodes, k)
    ensures ElementAt(k) + PAGE_ELEMENT_SIZE <= DataAt(inodes, k) <= DataAt(inodes, k + 1) <= DataAt(inodes, i) <= SizeOf(inodes)
  {
    hide SizeOf;
    DataGrows(inodes, k + 1, i);
    DataGrows(inodes, k, k + 1);
    Places(inodes, k);
    Places(inodes, i);
  }

  /** Writes the items onto a fresh page run. */
  method Write(page: array<Byte>, id: nat, isLeaf: bool, inodes: seq<Inode>)
    requires Writable(id, isLeaf, inodes) && SizeOf(inodes) <= page.Length && Number(page[..], 8, 2) == 0
    modifies page
    ensures Holds(page[..], isLeaf, inodes)
    ensures forall i | 0 <= i < 8 || 12 <= i < PAGE_HEADER_SIZE || SizeOf(inodes) <= i < page.Length :: page[i] == old(page[i])
  {
    hide Number, SizeOf, Power, ElementAt, DataAt, HasElement;
    Powers();
    PutNumber(page, 8, 2, TypeFlag(isLeaf));
    ghost var s0 := page[..];
    PutNumber(page, 10, 2, |inodes|);
    NumberFrame(s0, page[..], 8, 2);
    for i := 0 to |inodes|
      invariant Number(page[..], 8, 2) == TypeFlag(isLeaf) && Number(page[..], 10, 2) == |inodes|
      invariant forall k | 0 <= k < i :: HasElement(page[..], isLeaf, inodes, k)
      invariant forall j | 0 <= j < 8 || 12 <= j < PAGE_HEADER_SIZE || SizeOf(inodes) <= j < page.Length :: page[j] == old(page[j])
    {
      ghost var s := page[..];
      Places(inodes, i);
      WriteElement(page, isLeaf, inodes, i);
      NumberFrame(s, page[..], 8, 2);
      NumberFrame(s, page[..], 10, 2);
      forall k | 0 <= k < i ensures HasElement(page[..], isLeaf, inodes, k) {
        Apart(inodes, k, i);
        ElementFrame(s, page[..], isLeaf, inodes, k);
      }
    }
  }

  // ---- Reading ----

  /** A stretch of bytes, empty if it leaves the page. */
  function Stretch(s: Bytes, at: nat, size: nat): Bytes {
    if at + size <= |s| then s[at..at + size] else []
  }

  /** What an element header and its data read as. A leaf element has no page id, a branch element no
      flags and no value. */
  function Element(s: Bytes, isLeaf: bool, k: nat): Inode
    requires ElementAt(k) + PAGE_ELEMENT_SIZE <= |s|
  {
    var at := ElementAt(k);
    if isLeaf then
      var data, ksize := at + Number(s, at + 4, 4), Number(s, at + 8, 4);
      Inode(Number(s, at, 4), 0, Stretch(s, data, ksize), Stretch(s, data + ksize, Number(s, at + 12, 4)))
    else
      Inode(0, Number(s, at + 8, 8), Stretch(s, at + Number(s, at, 4), Number(s, at + 4, 4)), [])
  }

  /** Every element header is on the page. */
  predicate Readable(s: Bytes) {
    |s| >= PAGE_HEADER_SIZE && ElementAt(Number(s, 10, 2)) <= |s|
  }

  function LeafFlag(flags: nat): bool {
    flags / 2 % 2 == 1
  }

  method Read(page: array<Byte>) returns (isLeaf: bool, inodes: seq<Inode>, key: Bytes)
    requires Readable(page[..])
    ensures isLeaf == LeafFlag(Number(page[..], 8, 2)) && |inodes| == Number(page[..], 10, 2)
    ensures forall k | 0 <= k < |inodes| :: inodes[k] == Element(page[..], isLeaf, k)
    ensures key == if inodes == [] then [] else inodes[0].key
  {
    hide Number, Stretch;
    isLeaf := LeafFlag(Number(page[..], 8, 2));
    var count := Number(page[..], 10, 2);
    inodes := [];
    for i := 0 to count
      invariant |inodes| == i && forall k | 0 <= k < i :: inodes[k] == Element(page[..], isLeaf, k)
    {
      inodes := inodes + [Element(page[..], isLeaf, i)];
    }
    key := if |inodes| > 0 then inodes[0].key else [];
  }

  /** The part of an element that a page keeps. */
  function Stored(isLeaf: bool, x: Inode): Inode {
    if isLeaf then x.(pgid := 0) else x.(flags := 0, value := [])
  }

  lemma ElementReads(s: Bytes, isLeaf: bool, inodes: seq<Inode>, k: nat)
    requires k < |inodes| && HasElement(s, isLeaf, inodes, k)
    ensures ElementAt(k) + PAGE_ELEMENT_SIZE <= |s| && Element(s, isLeaf, k) == Stored(isLeaf, inodes[k])
  {
    hide Number, SizeOf;
  }

  /** What was written is what is read: the kind of node, the number of elements, and each of them. */
  lemma ReadAfterWrite(s: Bytes, isLeaf: bool, inodes: seq<Inode>)
    requires Holds(s, isLeaf, inodes)
    ensures Readable(s) && LeafFlag(Number(s, 8, 2)) == isLeaf && Number(s, 10, 2) == |inodes|
    ensures forall k | 0 <= k < |inodes| ::
      ElementAt(k) + PAGE_ELEMENT_SIZE <= |s| && Element(s, isLeaf, k) == Stored(isLeaf, inodes[k])
  {
    hide Number, SizeOf, HasElement, Element, Stored;
    DataIsSize(inodes, |inodes|);
    assert inodes[..|inodes|] == inodes;
    forall k | 0 <= k < |inodes|
      ensures ElementAt(k) + PAGE_ELEMENT_SIZE <= |s| && Element(s, isLeaf, k) == Stored(isLeaf, inodes[k])
    {
      ElementReads(s, isLeaf, inodes, k);
    }
  }

  /** The pages allocated for a node hold it. */
  lemma PagesHold(inodes: seq<Inode>, pageSize: nat)
    requires pageSize > 0
    ensures SizeOf(inodes) < (SizeOf(inodes) / pageSize + 1) * pageSize
  {
    var q, r := SizeOf(inodes) / pageSize, SizeOf(inodes) % pageSize;
    assert SizeOf(inodes) == q * pageSize + r;
    assert (q + 1) * pageSize == q * pageSize + pageSize;
  }
}
