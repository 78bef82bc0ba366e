/** A directory's index (src/ntfs_btree.c): the root node in $INDEX_ROOT and blocks reached by VCN in
    $INDEX_ALLOCATION, read as the bytes they are.  Lookup descends one branch, collection and
    enumeration visit all; on a well-formed tree all three speak of the same entries. */
module IndexTree {
  import opened ByteData
  import opened UpdateSequence

  const MAX_DEPTH := 32
  const FIRST_USER_FILE := 16
  const DOS_NAME := 2
  const ENTRY_SIZE := 88
  const NAME_AT := 82

  /** What the walks take from a directory: the value of $INDEX_ROOT, the clusters and data length of
      $INDEX_ALLOCATION, the $BITMAP of blocks in use, the volume's geometry and $UpCase table; and the
      memory that follows what was read of the root and of each block, which can hold anything. */
  datatype Directory = Directory(root: seq<byte>, alloc: Allocation, bitmap: Bitmap,
                                 g: Geometry, bytesPerCluster: nat, upcase: seq<word>,
                                 behindRoot: seq<byte>, behindBlock: nat -> seq<byte>)

  datatype Allocation = NoAllocation | Allocation(stream: seq<byte>, dataLength: nat)
  datatype Bitmap = NoBitmap | Bitmap(bits: seq<byte>)

  /** A cluster is no larger than an index block, and the table folds every character. */
  predicate Shape(d: Directory) {
    && d.g.bytesPerSector >= 2 && d.g.bytesPerIndexRecord >= HEADER_SIZE
    && 1 <= d.bytesPerCluster <= d.g.bytesPerIndexRecord
    && |d.upcase| == 0x1_0000
  }

  // ---------------------------------------------------------------- entries as they lie in a node

  /** Two bytes at an offset of memory, which ends somewhere behind what was read. */
  function At(b: seq<byte>, off: nat): word {
    if off + 2 <= |b| then Word(b, off) else 0
  }

  datatype Entry = Entry(file: nat, length: nat, node: bool, end: bool, name: seq<word>, nameType: nat, sub: nat)

  function EntryAt(b: seq<byte>, off: nat): Entry {
    var length, flags := At(b, off + 8), At(b, off + 12);
    var tail := if length >= 8 then off + length - 8 else 0;
    Entry(At(b, off) + 0x1_0000 * At(b, off + 2) + 0x1_0000_0000 * At(b, off + 4),
          length, flags % 2 == 1, flags / 2 % 2 == 1,
          seq(At(b, off + 80) % 256, i requires i >= 0 => At(b, off + NAME_AT + 2 * i)),
          At(b, off + 80) / 256,
          if length >= 8 then At(b, tail) + 0x1_0000 * At(b, tail + 2)
                              + 0x1_0000_0000 * At(b, tail + 4) + 0x1_0000_0000_0000 * At(b, tail + 6) else 0)
  }

  /** The record the entry names belongs to a user, not to the volume. */
  predicate IsReal(e: Entry) {
    e.file >= FIRST_USER_FILE
  }

  /** What a listing shows: an alias of the 8.3 kind would show a file twice. */
  predicate Listed(e: Entry) {
    IsReal(e) && e.nameType != DOS_NAME
  }

  predicate NameInside(e: Entry) {
    NAME_AT + 2 * |e.name| <= e.length
  }

  // ---------------------------------------------------------------- nodes

  /** A node in memory: its own bytes, `size` of them, and what follows them.  The entries lie from
      `first` up to `last`; `large` says that the walk goes below this node. */
  datatype Node = Node(bytes: seq<byte>, size: nat, first: nat, last: nat, large: bool)

  datatype Option<T> = None | Some(value: T)

  predicate HeaderOk(b: seq<byte>, at: nat, avail: nat)
    requires at + avail <= |b|
  {
    avail >= 16 && 16 <= DWord(b, at) <= DWord(b, at + 4) <= avail
  }

  const ROOT_HEADER := 16
  const BLOCK_HEADER := 24

  /** The root is checked against what was read of its value. */
  function RootNode(d: Directory): (n: Option<Node>)
    ensures n.Some? ==> n.value.first <= n.value.last <= n.value.size <= |n.value.bytes|
  {
    var b := if |d.root| <= d.g.bytesPerIndexRecord then d.root else d.root[..d.g.bytesPerIndexRecord];
    if |b| <= ROOT_HEADER || !HeaderOk(b, ROOT_HEADER, |b| - ROOT_HEADER) then None
    else Some(Node(b + d.behindRoot, |b|, ROOT_HEADER + DWord(b, ROOT_HEADER),
                   ROOT_HEADER + DWord(b, ROOT_HEADER + 4), true))
  }

  predicate BlockOk(b: seq<byte>) {
    && |b| > BLOCK_HEADER
    && HeaderOk(b, BLOCK_HEADER, |b| - BLOCK_HEADER)
    && DWord(b, BLOCK_HEADER + 4) <= DWord(b, BLOCK_HEADER + 8) <= |b| - BLOCK_HEADER
  }

  /** Read a block, fix it up, and check its header. */
  function Load(d: Directory, vcn: nat): (n: Option<Node>)
    requires Shape(d)
    ensures n.Some? ==> n.value.first <= n.value.last <= n.value.size <= |n.value.bytes|
  {
    var pos := vcn * d.bytesPerCluster % 0x1_0000_0000_0000_0000;
    if d.alloc.NoAllocation? || pos + d.g.bytesPerIndexRecord > |d.alloc.stream| then None
    else
      var raw := d.alloc.stream[pos..pos + d.g.bytesPerIndexRecord];
      if DWord(raw, 0) != INDX_TYPE then None
      else
        var (ok, b) := Fix(d.g, raw);
        if !ok || !BlockOk(b) then None
        else Some(Node(b + d.behindBlock(vcn), |b|, BLOCK_HEADER + DWord(b, BLOCK_HEADER),
                       BLOCK_HEADER + DWord(b, BLOCK_HEADER + 4), b[BLOCK_HEADER + 12] % 2 == 1))
  }

  /** The directory's bitmap does not say that the block is out of use. */
  predicate InUse(d: Directory, vcn: nat)
    requires Shape(d)
  {
    var perBlock := d.g.bytesPerIndexRecord / d.bytesPerCluster;
    var number := vcn / perBlock % 0x1_0000_0000;
    d.bitmap.NoBitmap? || d.alloc.NoAllocation?
    || number >= d.alloc.dataLength / (perBlock * d.bytesPerCluster) % 0x1_0000_0000
    || (number / 8 < |d.bitmap.bits| && BitSet(d.bitmap.bits[number / 8], number % 8))
  }

  predicate BitSet(v: nat, k: nat) {
    if k == 0 then v % 2 == 1 else BitSet(v / 2, k - 1)
  }

  /** The entry carries a pointer that can be followed. */
  predicate Leads(d: Directory, e: Entry) {
    e.node && d.alloc.Allocation? && e.length >= 8
  }

  // ---------------------------------------------------------------- collation

  function Fold(d: Directory, name: seq<word>): (f: seq<word>)
    requires Shape(d)
    ensures |f| == |name|
  {
    seq(|name|, i requires 0 <= i < |name| => d.upcase[name[i]])
  }

  /** Difference of the first characters that differ; a prefix comes first. */
  function Collate(a: seq<word>, b: seq<word>): int {
    if a == [] || b == [] then (if |a| == |b| then 0 else if |a| < |b| then -1 else 1)
    else if a[0] != b[0] then a[0] as int - b[0] as int
    else Collate(a[1..], b[1..])
  }

  lemma {:induction false} CollateZero(a: seq<word>, b: seq<word>)
    ensures Collate(a, b) == 0 <==> a == b
  {
    if a != [] && b != [] {
      CollateZero(a[1..], b[1..]);
      assert a == [a[0]] + a[1..] && b == [b[0]] + b[1..];
    }
  }

  lemma {:induction false} CollateOpposite(a: seq<word>, b: seq<word>)
    ensures Collate(a, b) < 0 <==> Collate(b, a) > 0
  {
    if a != [] && b != [] && a[0] == b[0] {
      CollateOpposite(a[1..], b[1..]);
    }
  }

  lemma {:induction false} CollateTransitive(a: seq<word>, b: seq<word>, c: seq<word>)
    requires Collate(a, b) < 0 && Collate(b, c) < 0
    ensures Collate(a, c) < 0
  {
    if a != [] && b != [] && c != [] && a[0] == b[0] == c[0] {
      CollateTransitive(a[1..], b[1..], c[1..]);
    }
  }

  /** The names part at character k, or one ends there, and the first is the lesser or the shorter. */
  predicate PartsAt(a: seq<word>, b: seq<word>, k: nat) {
    && k <= |a| && k <= |b| && a[..k] == b[..k]
    && if k < |a| && k < |b| then a[k] < b[k] else k == |a| < |b|
  }

  lemma PartsLater(a: seq<word>, b: seq<word>, k: nat)
    requires a != [] && b != [] && a[0] == b[0]
    ensures PartsAt(a[1..], b[1..], k) <==> PartsAt(a, b, k + 1)
  {
    if k < |a| && k < |b| {
      assert a[..k + 1] == [a[0]] + a[1..][..k] && b[..k + 1] == [b[0]] + b[1..][..k];
      assert a[1..][..k] == a[..k + 1][1..] && b[1..][..k] == b[..k + 1][1..];
    }
  }

  /** One name collates before another exactly if it is less where they part, or ends there. */
  lemma {:induction false} CollateMeans(a: seq<word>, b: seq<word>)
    ensures Collate(a, b) < 0 <==> exists k :: 0 <= k <= |a| && PartsAt(a, b, k)
    decreases |a|
  {
    if a == [] || b == [] {
      assert PartsAt(a, b, 0) <==> |a| < |b|;
    } else if a[0] != b[0] {
      assert PartsAt(a, b, 0) <==> a[0] < b[0];
      forall k | 0 < k <= |a| ensures !PartsAt(a, b, k) {
        assert k <= |b| ==> a[..k][0] != b[..k][0];
      }
    } else {
      hide PartsAt;
      CollateMeans(a[1..], b[1..]);
      if Collate(a, b) < 0 {
        var k :| 0 <= k <= |a[1..]| && PartsAt(a[1..], b[1..], k);
        PartsLater(a, b, k);
      }
      forall k | 0 <= k <= |a| && PartsAt(a, b, k) ensures Collate(a, b) < 0 {
        NotAtOnce(a, b);
        PartsLater(a, b, k - 1);
      }
    }
  }

  lemma NotAtOnce(a: seq<word>, b: seq<word>)
    requires a != [] && b != [] && a[0] == b[0]
    ensures !PartsAt(a, b, 0)
  {
  }

  function Order(d: Directory, x: seq<word>, y: seq<word>): int
    requires Shape(d)
  {
    Collate(Fold(d, x), Fold(d, y))
  }

  // ---------------------------------------------------------------- the tree

  /** All entries from `off` on, below and in the node, in key order. */
  function InOrder(d: Directory, n: Node, off: nat, depth: nat): seq<Entry>
    requires Shape(d) && depth <= 32
    decreases 32 - depth, n.last - off
  {
    var e := EntryAt(n.bytes, off);
    if off >= n.last || e.length == 0 then []
    else
      var below := if Leads(d, e) && depth < 32 && Load(d, e.sub).Some?
                   then InOrder(d, Load(d, e.sub).value, Load(d, e.sub).value.first, depth + 1) else [];
      if e.end then below else below + [e] + InOrder(d, n, off + e.length, depth)
  }

  /** From `off` on the node is laid out as it should be and so is everything below: entries lie inside
      the node with their names inside them, an end entry closes it, and every pointer leads to a block
      that is in use and no deeper than the cap. */
  predicate WellFormed(d: Directory, n: Node, off: nat, depth: nat)
    requires Shape(d) && depth <= 32
    decreases 32 - depth, n.last - off
  {
    var e := EntryAt(n.bytes, off);
    && off < n.last && 0 < e.length && off + e.length <= n.last
    && (e.node ==> Leads(d, e) && n.large && depth < 32 && InUse(d, e.sub) && Load(d, e.sub).Some?
                   && WellFormed(d, Load(d, e.sub).value, Load(d, e.sub).value.first, depth + 1))
    && (!e.end ==> ENTRY_SIZE <= e.length && NameInside(e) && WellFormed(d, n, off + e.length, depth))
  }

  lemma CapOfDepth()
    ensures MAX_DEPTH == 32
  {
  }

  ghost predicate Ascending(d: Directory, s: seq<Entry>)
    requires Shape(d)
  {
    forall i, j :: 0 <= i < j < |s| ==> Order(d, s[i].name, s[j].name) < 0
  }

  function Entries(d: Directory): seq<Entry>
    requires Shape(d) && RootNode(d).Some?
  {
    InOrder(d, RootNode(d).value, RootNode(d).value.first, 0)
  }

  /** A well-formed index: sound layout throughout, and keys strictly ascending in collation order. */
  ghost predicate Sound(d: Directory) {
    && Shape(d) && RootNode(d).Some?
    && WellFormed(d, RootNode(d).value, RootNode(d).value.first, 0)
    && Ascending(d, Entries(d))
  }

  // ---------------------------------------------------------------- lookup

  const NOT_FOUND := -1

  /** Walk one node from `off` on, going below it at most once. */
  function Search(d: Directory, n: Node, off: nat, key: seq<word>, depth: nat): int
    requires Shape(d) && depth <= MAX_DEPTH
    decreases MAX_DEPTH - depth, n.last - off, 0
  {
    var e := EntryAt(n.bytes, off);
    if off >= n.last || e.length == 0 || off + e.length > n.last then NOT_FOUND
    else if e.end then (if Leads(d, e) then SearchSub(d, e.sub, key, depth) else NOT_FOUND)
    else if !NameInside(e) then NOT_FOUND
    else
      var cmp := Order(d, key, e.name);
      if cmp == 0 && IsReal(e) then e.file
      else if cmp < 0 then (if Leads(d, e) then SearchSub(d, e.sub, key, depth) else NOT_FOUND)
      else Search(d, n, off + e.length, key, depth)
  }

  function SearchSub(d: Directory, vcn: nat, key: seq<word>, depth: nat): int
    requires Shape(d) && depth <= MAX_DEPTH
    decreases MAX_DEPTH - depth, 0, 0
  {
    if depth >= MAX_DEPTH || !InUse(d, vcn) then NOT_FOUND
    else
      match Load(d, vcn)
      case None => NOT_FOUND
      case Some(m) => Search(d, m, m.first, key, depth + 1)
  }

  function Find(d: Directory, key: seq<word>): int
    requires Shape(d)
  {
    match RootNode(d)
    case None => NOT_FOUND
    case Some(n) => Search(d, n, n.first, key, 0)
  }

  predicate SameName(d: Directory, e: Entry, key: seq<word>)
    requires Shape(d)
  {
    Fold(d, e.name) == Fold(d, key)
  }

  /** r is what a lookup among these entries should give. */
  ghost predicate Right(d: Directory, s: seq<Entry>, key: seq<word>, r: int)
    requires Shape(d)
  {
    (r == NOT_FOUND && forall e :: e in s && IsReal(e) ==> !SameName(d, e, key))
    || exists e :: e in s && IsReal(e) && SameName(d, e, key) && r == e.file
  }

  /** A key on one side of an entry is on that side of everything beyond it. */
  lemma KeySide(d: Directory, key: seq<word>, e: Entry, f: Entry)
    requires Shape(d)
    ensures Order(d, key, e.name) < 0 && Order(d, e.name, f.name) < 0 ==> !SameName(d, f, key)
    ensures Order(d, key, e.name) > 0 && Order(d, f.name, e.name) < 0 ==> !SameName(d, f, key)
    ensures Order(d, key, e.name) == 0 <==> SameName(d, e, key)
    ensures SameName(d, e, key) && (Order(d, e.name, f.name) < 0 || Order(d, f.name, e.name) < 0)
            ==> !SameName(d, f, key)
  {
    var k, x, y := Fold(d, key), Fold(d, e.name), Fold(d, f.name);
    hide Fold, Collate;
    CollateZero(k, x);
    CollateZero(x, y);
    CollateZero(y, x);
    CollateZero(k, k);
    CollateOpposite(k, x);
    CollateOpposite(x, k);
    if Collate(k, x) < 0 && Collate(x, y) < 0 {
      CollateTransitive(k, x, y);
      CollateZero(k, y);
    }
    if Collate(k, x) > 0 && Collate(y, x) < 0 {
      CollateTransitive(y, x, k);
      CollateZero(y, k);
    }
  }

  ghost predicate NoneMatches(d: Directory, s: seq<Entry>, key: seq<word>)
    requires Shape(d)
  {
    forall e :: e in s ==> !SameName(d, e, key)
  }

  /** An entry splits an ascending list: one comparison says which part can hold the key. */
  lemma SplitAt(d: Directory, below: seq<Entry>, e: Entry, rest: seq<Entry>, key: seq<word>)
    requires Shape(d) && Ascending(d, below + [e] + rest)
    ensures Ascending(d, below) && Ascending(d, rest)
    ensures Order(d, key, e.name) <= 0 ==> NoneMatches(d, rest, key)
    ensures Order(d, key, e.name) >= 0 ==> NoneMatches(d, below, key)
    ensures Order(d, key, e.name) == 0 <==> SameName(d, e, key)
  {
    hide Order, SameName;
    var all := below + [e] + rest;
    var k := |below|;
    assert all[k] == e;
    KeySide(d, key, e, e);
    forall i, j | 0 <= i < j < |below| ensures Order(d, below[i].name, below[j].name) < 0 {
      assert all[i] == below[i] && all[j] == below[j];
    }
    forall i, j | 0 <= i < j < |rest| ensures Order(d, rest[i].name, rest[j].name) < 0 {
      assert all[k + 1 + i] == rest[i] && all[k + 1 + j] == rest[j];
    }
    forall f | f in rest ensures Order(d, key, e.name) <= 0 ==> !SameName(d, f, key) {
      var j :| 0 <= j < |rest| && rest[j] == f;
      assert all[k + 1 + j] == f;
      KeySide(d, key, e, f);
    }
    forall f | f in below ensures Order(d, key, e.name) >= 0 ==> !SameName(d, f, key) {
      var i :| 0 <= i < |below| && below[i] == f;
      assert all[i] == f;
      KeySide(d, key, e, f);
    }
  }

  lemma RightAround(d: Directory, below: seq<Entry>, e: Entry, rest: seq<Entry>, key: seq<word>, r: int)
    requires Shape(d)
    ensures NoneMatches(d, rest, key) && !SameName(d, e, key) && Right(d, below, key, r)
            ==> Right(d, below + [e] + rest, key, r)
    ensures NoneMatches(d, below, key) && (!SameName(d, e, key) || !IsReal(e)) && Right(d, rest, key, r)
            ==> Right(d, below + [e] + rest, key, r)
    ensures SameName(d, e, key) && IsReal(e) && r == e.file ==> Right(d, below + [e] + rest, key, r)
  {
    hide SameName, IsReal;
    var all := below + [e] + rest;
    assert forall x :: x in all <==> x in below || x == e || x in rest;
  }

  /** What lies below an entry. */
  function Below(d: Directory, e: Entry, depth: nat): seq<Entry>
    requires Shape(d) && depth <= MAX_DEPTH
  {
    if Leads(d, e) && depth < MAX_DEPTH && Load(d, e.sub).Some?
    then InOrder(d, Load(d, e.sub).value, Load(d, e.sub).value.first, depth + 1) else []
  }

  lemma Unfold(d: Directory, n: Node, off: nat, depth: nat)
    requires Shape(d) && depth <= MAX_DEPTH && WellFormed(d, n, off, depth)
    ensures var e := EntryAt(n.bytes, off);
            && off < n.last && 0 < e.length && off + e.length <= n.last
            && (e.node <==> Leads(d, e))
            && (e.node ==> n.large && depth < MAX_DEPTH && InUse(d, e.sub) && Load(d, e.sub).Some?
                           && WellFormed(d, Load(d, e.sub).value, Load(d, e.sub).value.first, depth + 1))
            && (!e.node ==> Below(d, e, depth) == [])
            && (e.end ==> InOrder(d, n, off, depth) == Below(d, e, depth))
            && (!e.end ==> ENTRY_SIZE <= e.length && NameInside(e) && WellFormed(d, n, off + e.length, depth)
                           && InOrder(d, n, off, depth)
                                == Below(d, e, depth) + [e] + InOrder(d, n, off + e.length, depth))
  {
    hide EntryAt, Load, InUse;
  }

  /** Below an entry, a search is right if it is right in the block the entry leads to. */
  lemma {:induction false} SearchSubRight(d: Directory, e: Entry, key: seq<word>, depth: nat)
    requires Shape(d) && depth < MAX_DEPTH && Leads(d, e) && InUse(d, e.sub) && Load(d, e.sub).Some?
    requires WellFormed(d, Load(d, e.sub).value, Load(d, e.sub).value.first, depth + 1)
    requires Ascending(d, Below(d, e, depth))
    ensures Right(d, Below(d, e, depth), key, SearchSub(d, e.sub, key, depth))
    decreases MAX_DEPTH - depth, 0, 0
  {
    hide WellFormed, InUse, Load, Search, Ascending, Right, InOrder;
    var m := Load(d, e.sub).value;
    SearchRight(d, m, m.first, key, depth + 1);
  }

  /** One turn of the lookup loop. */
  lemma SearchStep(d: Directory, n: Node, off: nat, key: seq<word>, depth: nat, e: Entry)
    requires Shape(d) && depth <= MAX_DEPTH && e == EntryAt(n.bytes, off)
    ensures var below := if Leads(d, e) then SearchSub(d, e.sub, key, depth) else NOT_FOUND;
            var cmp := Order(d, key, e.name);
            Search(d, n, off, key, depth) ==
            if off >= n.last || e.length == 0 || off + e.length > n.last then NOT_FOUND
            else if e.end then below
            else if !NameInside(e) then NOT_FOUND
            else if cmp == 0 && IsReal(e) then e.file
            else if cmp < 0 then below
            else Search(d, n, off + e.length, key, depth)
  {
    hide EntryAt, Leads, NameInside, Order, SearchSub, IsReal;
  }

  lemma SearchCases(d: Directory, n: Node, off: nat, key: seq<word>, depth: nat)
    requires Shape(d) && depth <= MAX_DEPTH && WellFormed(d, n, off, depth)
    ensures var e := EntryAt(n.bytes, off);
            var below := if e.node then SearchSub(d, e.sub, key, depth) else NOT_FOUND;
            var cmp := Order(d, key, e.name);
            Search(d, n, off, key, depth) ==
            if e.end || (cmp < 0) then below
            else if cmp == 0 && IsReal(e) then e.file
            else Search(d, n, off + e.length, key, depth)
  {
    hide EntryAt, Load, InUse, Order, SearchSub, NameInside, IsReal;
  }

  lemma {:induction false} SearchRight(d: Directory, n: Node, off: nat, key: seq<word>, depth: nat)
    requires Shape(d) && depth <= MAX_DEPTH && WellFormed(d, n, off, depth) && Ascending(d, InOrder(d, n, off, depth))
    ensures Right(d, InOrder(d, n, off, depth), key, Search(d, n, off, key, depth))
    decreases MAX_DEPTH - depth, n.last - off, 0
  {
    hide WellFormed, InUse, Load, EntryAt, Ascending, Right, InOrder, Order, SameName, Search, SearchSub, Below,
      NoneMatches, NameInside, Leads, IsReal, Shape;
    Unfold(d, n, off, depth);
    SearchCases(d, n, off, key, depth);
    NothingRight(d, key);
    var e := EntryAt(n.bytes, off);
    var below := Below(d, e, depth);
    if e.end {
      if e.node {
        SearchSubRight(d, e, key, depth);
      }
    } else {
      var next := off + e.length;
      var rest := InOrder(d, n, next, depth);
      SplitAt(d, below, e, rest, key);
      if e.node {
        SearchSubRight(d, e, key, depth);
      }
      SearchRight(d, n, next, key, depth);
      RightAround(d, below, e, rest, key, Search(d, n, off, key, depth));
    }
  }

  lemma NothingRight(d: Directory, key: seq<word>)
    requires Shape(d)
    ensures Right(d, [], key, NOT_FOUND)
  {
  }

  /** Lookup is membership: it finds a file exactly when a user's entry has that name up to case
      folding, 8.3 aliases included, and then it is that entry's file. */
  lemma LookupIsMembership(d: Directory, key: seq<word>)
    requires Sound(d)
    ensures Find(d, key) != NOT_FOUND <==> exists e :: e in Entries(d) && IsReal(e) && SameName(d, e, key)
    ensures forall e :: e in Entries(d) && IsReal(e) && SameName(d, e, key) ==> Find(d, key) == e.file
  {
    hide WellFormed, InUse, Load, EntryAt, Ascending, InOrder, SameName, Search;
    var n := RootNode(d).value;
    SearchRight(d, n, n.first, key, 0);
    forall e, f | e in Entries(d) && f in Entries(d) && SameName(d, e, key) && SameName(d, f, key) ensures e == f {
      OneOfEachName(d, Entries(d), e, f, key);
    }
  }

  lemma OneOfEachName(d: Directory, s: seq<Entry>, e: Entry, f: Entry, key: seq<word>)
    requires Shape(d) && Ascending(d, s) && e in s && f in s && SameName(d, e, key) && SameName(d, f, key)
    ensures e == f
  {
    hide Order, SameName;
    forall i, j | 0 <= i < j < |s| ensures !SameName(d, s[i], key) || !SameName(d, s[j], key) {
      assert Order(d, s[i].name, s[j].name) < 0;
      KeySide(d, key, s[i], s[j]);
    }
    var i :| 0 <= i < |s| && s[i] == e;
    var j :| 0 <= j < |s| && s[j] == f;
  }
}
