/** The walks themselves (src/ntfs_btree.c): loops over the entries of a node and recursion into the
    blocks below, each proved to compute what IndexTree and IndexListing say of it. */
module IndexWalk {
  import opened ByteData
  import opened IndexTree
  import opened IndexListing
  import opened IndexOpen

  lemma CollateSame(a: seq<word>, b: seq<word>, i: nat)
    requires i <= |a| && i <= |b|
    ensures i < |a| && i < |b| && a[i] == b[i] ==> Collate(a[i..], b[i..]) == Collate(a[i + 1..], b[i + 1..])
    ensures i < |a| && i < |b| && a[i] != b[i] ==> Collate(a[i..], b[i..]) == a[i] as int - b[i] as int
    ensures i == |a| || i == |b| ==> Collate(a[i..], b[i..]) == if |a| == |b| then 0 else if |a| < |b| then -1 else 1
  {
  }

  /** Compare two names character by character, folded unless case matters. */
  method CompareNames(d: Directory, a: seq<word>, b: seq<word>, caseSensitive: bool) returns (r: int)
    requires Shape(d)
    ensures r == Order(As(d, caseSensitive), a, b)
  {
    ghost var x, y := Fold(As(d, caseSensitive), a), Fold(As(d, caseSensitive), b);
    var least := if |a| < |b| then |a| else |b|;
    var i := 0;
    assert x[0..] == x && y[0..] == y;
    while i < least
      invariant i <= least
      invariant Collate(x, y) == Collate(x[i..], y[i..])
    {
      CollateSame(x, y, i);
      var ca, cb := a[i], b[i];
      if !caseSensitive {
        ca, cb := d.upcase[ca], d.upcase[cb];
      }
      if ca != cb {
        return ca as int - cb as int;
      }
      i := i + 1;
    }
    CollateSame(x, y, i);
    if |a| != |b| {
      return if |a| < |b| then -1 else 1;
    }
    return 0;
  }

  // ---------------------------------------------------------------- lookup

  /** Search one node, and at most one of the blocks below it. */
  method SearchIndexBlock(d: Directory, n: Node, key: seq<word>, caseSensitive: bool, depth: nat) returns (r: int)
    requires Shape(d) && depth <= MAX_DEPTH
    ensures r == Search(As(d, caseSensitive), n, n.first, key, depth)
    decreases MAX_DEPTH - depth, 1
  {
    hide *;
    ghost var c := As(d, caseSensitive);
    var off: nat := n.first;
    while off < n.last
      invariant Search(c, n, off, key, depth) == Search(c, n, n.first, key, depth)
      decreases n.last - off
    {
      var e := EntryAt(n.bytes, off);
      SearchStep(c, n, off, key, depth, e);
      SameLeads(d, caseSensitive, e);
      if e.length == 0 || off + e.length > n.last {
        break;
      }
      if e.end {
        if Leads(d, e) {
          r := SearchBelow(d, e, key, caseSensitive, depth);
          return;
        }
        return NOT_FOUND;
      }
      if !NameInside(e) {
        break;
      }
      var cmp := CompareNames(d, key, e.name, caseSensitive);
      if cmp == 0 && IsReal(e) {
        return e.file;
      }
      if cmp < 0 {
        if Leads(d, e) {
          r := SearchBelow(d, e, key, caseSensitive, depth);
          return;
        }
        return NOT_FOUND;
      }
      off := off + e.length;
    }
    SearchStep(c, n, off, key, depth, EntryAt(n.bytes, off));
    return NOT_FOUND;
  }

  method SearchBelow(d: Directory, e: Entry, key: seq<word>, caseSensitive: bool, depth: nat) returns (r: int)
    requires Shape(d) && depth <= MAX_DEPTH
    ensures r == SearchSub(As(d, caseSensitive), e.sub, key, depth)
    decreases MAX_DEPTH - depth, 0
  {
    hide *;
    SameSub(d, caseSensitive, e.sub, key, depth);
    if depth >= MAX_DEPTH {
      return NOT_FOUND;
    }
    if !InUse(d, e.sub) {
      return NOT_FOUND;
    }
    match Load(d, e.sub)
    case None => return NOT_FOUND;
    case Some(m) => r := SearchIndexBlock(d, m, key, caseSensitive, depth + 1);
  }

  // ---------------------------------------------------------------- collecting

  ghost predicate Holds(out: array<nat>, w: seq<nat>)
    reads out
  {
    |w| <= out.Length && forall i :: 0 <= i < |w| ==> out[i] == w[i]
  }

  lemma CollectStep(d: Directory, n: Node, off: nat, out: seq<nat>, max: nat, depth: nat, e: Entry)
    requires Shape(d) && depth <= MAX_DEPTH && e == EntryAt(n.bytes, off)
    ensures var below := if Leads(d, e) then CollectSub(d, e.sub, out, max, depth) else out;
            var next := if Listed(e) && |below| < max then below + [e.file] else below;
            Collect(d, n, off, out, max, depth) ==
            if off >= n.last || |out| >= max || e.length == 0 then out
            else if e.end then below
            else Collect(d, n, off + e.length, next, max, depth)
  {
    hide EntryAt, Leads, Listed, CollectSub;
  }

  method Append(out: array<nat>, file: nat, count: nat, ghost w: seq<nat>)
    requires Holds(out, w) && count == |w| < out.Length
    modifies out
    ensures Holds(out, w + [file])
  {
    out[count] := file;
  }

  /** Write the files of a node and of everything below it behind those already there. */
  method CollectBlock(d: Directory, n: Node, out: array<nat>, count0: nat, depth: nat, ghost w0: seq<nat>)
    returns (count: nat, ghost w: seq<nat>)
    requires Shape(d) && depth <= MAX_DEPTH && Holds(out, w0) && count0 == |w0|
    modifies out
    ensures w == Collect(d, n, n.first, w0, out.Length, depth) && count == |w| && Holds(out, w)
    decreases MAX_DEPTH - depth, 1
  {
    hide EntryAt, Leads, Listed, CollectSub, Collect, Shape, Load, Holds;
    var off: nat := n.first;
    count, w := count0, w0;
    while off < n.last && count < out.Length
      invariant Collect(d, n, off, w, out.Length, depth) == Collect(d, n, n.first, w0, out.Length, depth)
      invariant count == |w| && Holds(out, w)
      decreases n.last - off
    {
      var e := EntryAt(n.bytes, off);
      CollectStep(d, n, off, w, out.Length, depth, e);
      if e.length == 0 {
        break;
      }
      if Leads(d, e) {
        count, w := CollectBelow(d, e, out, count, depth, w);
      }
      if e.end {
        return;
      }
      if Listed(e) && count < out.Length {
        Append(out, e.file, count, w);
        count, w := count + 1, w + [e.file];
      }
      off := off + e.length;
    }
    CollectStep(d, n, off, w, out.Length, depth, EntryAt(n.bytes, off));
  }

  method CollectBelow(d: Directory, e: Entry, out: array<nat>, count0: nat, depth: nat, ghost w0: seq<nat>)
    returns (count: nat, ghost w: seq<nat>)
    requires Shape(d) && depth <= MAX_DEPTH && Holds(out, w0) && count0 == |w0|
    modifies out
    ensures w == CollectSub(d, e.sub, w0, out.Length, depth) && count == |w| && Holds(out, w)
    decreases MAX_DEPTH - depth, 0
  {
    hide Collect, Shape, Load, Holds;
    count, w := count0, w0;
    if depth >= MAX_DEPTH {
      return;
    }
    match Load(d, e.sub)
    case None => return;
    case Some(m) => count, w := CollectBlock(d, m, out, count0, depth + 1, w0);
  }

  /** Collect a whole directory into the caller's array. */
  method CollectDirectory(d: Directory, out: array<nat>) returns (count: nat)
    requires Shape(d)
    modifies out
    ensures count == |CollectDir(d, out.Length)| && Holds(out, CollectDir(d, out.Length))
  {
    hide Collect, Shape, RootNode;
    match RootNode(d)
    case None => count := 0;
    case Some(n) =>
      ghost var w;
      count, w := CollectBlock(d, n, out, 0, 0, []);
  }

  // ---------------------------------------------------------------- one entry at a time

  lemma ScanStep(n: Node, off: nat, c: Cursor, e: Entry)
    requires e == EntryAt(n.bytes, off)
    ensures Scan(n, off, c) ==
            if off >= n.last || e.length < ENTRY_SIZE || off + e.length > n.last || e.end || !NameInside(e)
            then (NOT_FOUND, c)
            else if !Listed(e) then Scan(n, off + e.length, c)
            else if c.current >= c.start then (e.file as int, Cursor(c.start + 1, c.current + 1))
            else Scan(n, off + e.length, Cursor(c.start, c.current + 1))
  {
    hide EntryAt, NameInside, Listed;
  }

  /** The first of a node's own entries that is due. */
  method ScanIndexBlock(n: Node, c0: Cursor) returns (r: int, c: Cursor)
    ensures (r, c) == Scan(n, n.first, c0)
  {
    hide EntryAt, NameInside, Listed, Scan;
    var off: nat := n.first;
    c := c0;
    while off < n.last
      invariant Scan(n, off, c) == Scan(n, n.first, c0)
      decreases n.last - off
    {
      var e := EntryAt(n.bytes, off);
      ScanStep(n, off, c, e);
      if e.length < ENTRY_SIZE || off + e.length > n.last || e.end || !NameInside(e) {
        return NOT_FOUND, c;
      }
      if Listed(e) {
        if c.current >= c.start {
          return e.file, Cursor(c.start + 1, c.current + 1);
        }
        c := Cursor(c.start, c.current + 1);
      }
      off := off + e.length;
    }
    ScanStep(n, off, c, EntryAt(n.bytes, off));
    return NOT_FOUND, c;
  }

  /** Follow the pointers of a node until something below it is due. */
  method BrowseEntries(d: Directory, n: Node, c0: Cursor, depth: nat) returns (r: int, c: Cursor)
    requires Shape(d) && depth <= MAX_DEPTH
    ensures (r, c) == BrowseBelow(d, n, n.first, c0, depth)
    decreases MAX_DEPTH - depth, 1
  {
    hide EntryAt, Browse, BrowseBelow, Shape;
    var off: nat := n.first;
    r, c := NOT_FOUND, c0;
    while off < n.last
      invariant r == NOT_FOUND && BrowseBelow(d, n, off, c, depth) == BrowseBelow(d, n, n.first, c0, depth)
      decreases n.last - off
    {
      var e := EntryAt(n.bytes, off);
      BrowseStep(d, n, off, c, depth, e);
      if e.length == 0 {
        return;
      }
      if e.node && e.length >= 8 {
        r, c := BrowseSubNode(d, e.sub, c, depth);
        if r != NOT_FOUND {
          return;
        }
      }
      if e.end {
        return;
      }
      off := off + e.length;
    }
    BrowseStep(d, n, off, c, depth, EntryAt(n.bytes, off));
  }

  /** A block's own entries first, then what lies below them. */
  method BrowseSubNode(d: Directory, vcn: nat, c0: Cursor, depth: nat) returns (r: int, c: Cursor)
    requires Shape(d) && depth <= MAX_DEPTH
    ensures (r, c) == Browse(d, vcn, c0, depth)
    decreases MAX_DEPTH - depth, 0
  {
    hide Scan, BrowseBelow, Shape, Load, InUse;
    if depth >= MAX_DEPTH {
      return NOT_FOUND, c0;
    }
    if !InUse(d, vcn) {
      return NOT_FOUND, c0;
    }
    match Load(d, vcn)
    case None => return NOT_FOUND, c0;
    case Some(m) =>
      r, c := ScanIndexBlock(m, c0);
      if r == NOT_FOUND && m.large {
        r, c := BrowseEntries(d, m, c, depth + 1);
      }
  }

  /** Open by name, or read the next entry of a listing. */
  method FindInDirectory(d: Directory, name: seq<word>, dirSearch: bool, caseSensitive: bool, startEntry: nat)
    returns (r: int, start: nat)
    requires Shape(d)
    ensures dirSearch ==> (r, start) == ListNext(d, startEntry)
    ensures !dirSearch ==> r == Find(As(d, caseSensitive), name) && start == startEntry
  {
    SameReads(d, caseSensitive);
    hide Scan, BrowseBelow, Shape, Search, RootNode, As;
    start := startEntry;
    match RootNode(d)
    case None => r := NOT_FOUND;
    case Some(n) =>
      if dirSearch {
        var c;
        r, c := ScanIndexBlock(n, Cursor(startEntry, 0));
        if r == NOT_FOUND && d.alloc.Allocation? {
          r, c := BrowseEntries(d, n, c, 0);
        }
        start := c.start;
      } else {
        r := SearchIndexBlock(d, n, name, caseSensitive, 0);
      }
  }

  /** One component of a path: the exact name first, and then, unless case matters, any case. */
  method LookupComponent(d: Directory, name: seq<word>, caseSensitive: bool) returns (r: int)
    requires Shape(d)
    ensures r == Open(d, name, caseSensitive)
  {
    hide Shape, Find, As;
    var dummy;
    r, dummy := FindInDirectory(d, name, false, true, 0);
    if r == NOT_FOUND && !caseSensitive {
      r, dummy := FindInDirectory(d, name, false, false, 0);
    }
  }
}
