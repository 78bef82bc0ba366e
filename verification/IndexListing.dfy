/** Listing a directory (src/ntfs_btree.c): the one-pass collection in key order, and the cursor that
    gives entry after entry, each node's own before those below it. */
module IndexListing {
  import opened IndexTree

  /** The files a listing shows for these entries. */
  function Files(s: seq<Entry>): (f: seq<nat>)
    ensures forall x :: x in f ==> x >= FIRST_USER_FILE
  {
    if s == [] then [] else (if Listed(s[0]) then [s[0].file] else []) + Files(s[1..])
  }

  lemma NoFiles()
    ensures Files([]) == []
  {
  }

  lemma FilesCons(e: Entry, s: seq<Entry>)
    ensures Files([e] + s) == Files([e]) + Files(s)
  {
    hide Listed;
    assert [e][1..] == [] && ([e] + s)[1..] == s;
  }

  lemma Regroup<T>(x: seq<T>, y: seq<T>, z: seq<T>)
    ensures (x + y) + z == x + (y + z)
  {
  }

  lemma HeadTail<T>(s: seq<T>)
    requires s != []
    ensures s == [s[0]] + s[1..]
  {
  }

  lemma {:induction false} FilesJoin(a: seq<Entry>, b: seq<Entry>)
    ensures Files(a + b) == Files(a) + Files(b)
  {
    hide Files;
    if a == [] {
      NoFiles();
      assert a + b == b;
    } else {
      HeadTail(a);
      Regroup([a[0]], a[1..], b);
      FilesJoin(a[1..], b);
      FilesCons(a[0], a[1..]);
      FilesCons(a[0], a[1..] + b);
      Regroup(Files([a[0]]), Files(a[1..]), Files(b));
    }
  }

  // ---------------------------------------------------------------- collecting

  function Collect(d: Directory, n: Node, off: nat, out: seq<nat>, max: nat, depth: nat): seq<nat>
    requires Shape(d) && depth <= MAX_DEPTH
    decreases MAX_DEPTH - depth, n.last - off, 0
  {
    var e := EntryAt(n.bytes, off);
    if off >= n.last || |out| >= max || e.length == 0 then out
    else
      var out' := if Leads(d, e) then CollectSub(d, e.sub, out, max, depth) else out;
      if e.end then out'
      else Collect(d, n, off + e.length, if Listed(e) && |out'| < max then out' + [e.file] else out', max, depth)
  }

  function CollectSub(d: Directory, vcn: nat, out: seq<nat>, max: nat, depth: nat): seq<nat>
    requires Shape(d) && depth <= MAX_DEPTH
    decreases MAX_DEPTH - depth, 0, 0
  {
    if depth >= MAX_DEPTH then out
    else
      match Load(d, vcn)
      case None => out
      case Some(m) => Collect(d, m, m.first, out, max, depth + 1)
  }

  function CollectDir(d: Directory, max: nat): seq<nat>
    requires Shape(d)
  {
    match RootNode(d)
    case None => []
    case Some(n) => Collect(d, n, n.first, [], max, 0)
  }

  /** As many as there is room for. */
  function Cap(s: seq<nat>, max: nat): seq<nat> {
    if |s| <= max then s else s[..max]
  }

  lemma CapJoin(out: seq<nat>, a: seq<nat>, b: seq<nat>, max: nat)
    requires |out| <= max
    ensures Cap(Cap(out + a, max) + b, max) == Cap(out + (a + b), max)
    ensures |out| == max ==> Cap(out + a, max) == out
  {
    assert out + a + b == out + (a + b);
    if |out + a| > max {
      assert Cap(Cap(out + a, max) + b, max) == (out + a)[..max];
      assert (out + (a + b))[..max] == (out + a)[..max];
    }
  }

  lemma CapOne(out: seq<nat>, e: Entry, max: nat)
    requires |out| <= max
    ensures (if Listed(e) && |out| < max then out + [e.file] else out) == Cap(out + Files([e]), max)
  {
    assert Files([e]) == if Listed(e) then [e.file] else [];
  }

  lemma InOrderStep(d: Directory, n: Node, off: nat, depth: nat, e: Entry)
    requires Shape(d) && depth <= MAX_DEPTH && e == EntryAt(n.bytes, off) && off < n.last && e.length > 0
    ensures e.end ==> InOrder(d, n, off, depth) == Below(d, e, depth)
    ensures !e.end ==> InOrder(d, n, off, depth) == Below(d, e, depth) + ([e] + InOrder(d, n, off + e.length, depth))
  {
    hide EntryAt, Load, Leads, Shape;
    if !e.end {
      Regroup(Below(d, e, depth), [e], InOrder(d, n, off + e.length, depth));
    }
  }

  lemma CollectCases(d: Directory, n: Node, off: nat, out: seq<nat>, max: nat, depth: nat)
    requires Shape(d) && depth <= MAX_DEPTH && off < n.last && |out| < max && EntryAt(n.bytes, off).length > 0
    ensures var e := EntryAt(n.bytes, off);
            var out' := if Leads(d, e) then CollectSub(d, e.sub, out, max, depth) else out;
            && (e.end ==> Collect(d, n, off, out, max, depth) == out')
            && (!e.end ==>
                  var out2 := if Listed(e) && |out'| < max then out' + [e.file] else out';
                  Collect(d, n, off, out, max, depth) == Collect(d, n, off + e.length, out2, max, depth))
  {
    hide EntryAt, Load, Listed, Shape, Leads;
  }

  lemma {:induction false} CollectSubIsBelow(d: Directory, e: Entry, out: seq<nat>, max: nat, depth: nat)
    requires Shape(d) && depth <= MAX_DEPTH && |out| <= max && Leads(d, e)
    ensures CollectSub(d, e.sub, out, max, depth) == Cap(out + Files(Below(d, e, depth)), max)
    decreases MAX_DEPTH - depth, 0, 0
  {
    hide Load, InOrder, Collect;
    if depth < MAX_DEPTH && Load(d, e.sub).Some? {
      var m := Load(d, e.sub).value;
      CollectIsInOrder(d, m, m.first, out, max, depth + 1);
    }
  }

  lemma CollectStops(d: Directory, n: Node, off: nat, out: seq<nat>, max: nat, depth: nat)
    requires Shape(d) && depth <= MAX_DEPTH && |out| <= max
    ensures !(off < n.last && |out| < max && EntryAt(n.bytes, off).length > 0) ==>
              Collect(d, n, off, out, max, depth) == Cap(out + Files(InOrder(d, n, off, depth)), max)
  {
    hide EntryAt, Load, Listed;
    CapJoin(out, Files(InOrder(d, n, off, depth)), [], max);
    assert out + [] == out;
  }

  lemma {:induction false} CollectIsInOrder(d: Directory, n: Node, off: nat, out: seq<nat>, max: nat, depth: nat)
    requires Shape(d) && depth <= MAX_DEPTH && |out| <= max
    ensures Collect(d, n, off, out, max, depth) == Cap(out + Files(InOrder(d, n, off, depth)), max)
    decreases MAX_DEPTH - depth, n.last - off, 0
  {
    hide *;
    CapOfDepth();
    CollectStops(d, n, off, out, max, depth);
    var e := EntryAt(n.bytes, off);
    if off < n.last && |out| < max && e.length > 0 {
      CollectCases(d, n, off, out, max, depth);
      InOrderStep(d, n, off, depth, e);
      if Leads(d, e) {
        CollectSubIsBelow(d, e, out, max, depth);
      } else {
        NothingBelow(d, e, out, max, depth);
      }
      var below := Below(d, e, depth);
      var out' := Cap(out + Files(below), max);
      CapFits(out + Files(below), max);
      if !e.end {
        var rest := InOrder(d, n, off + e.length, depth);
        var out2 := Cap(out' + Files([e]), max);
        CapOne(out', e, max);
        CapFits(out' + Files([e]), max);
        CollectIsInOrder(d, n, off + e.length, out2, max, depth);
        FilesJoin([e], rest);
        FilesJoin(below, [e] + rest);
        CapJoin(out', Files([e]), Files(rest), max);
        CapJoin(out, Files(below), Files([e]) + Files(rest), max);
      }
    }
  }

  lemma CapFits(s: seq<nat>, max: nat)
    ensures |Cap(s, max)| <= max
  {
  }

  lemma NothingBelow(d: Directory, e: Entry, out: seq<nat>, max: nat, depth: nat)
    requires Shape(d) && depth <= MAX_DEPTH && !Leads(d, e) && |out| <= max
    ensures Cap(out + Files(Below(d, e, depth)), max) == out
  {
    assert out + [] == out;
  }

  /** Collecting gives the listed entries in key order, as many as there is room for; this holds of
      any image, sound or not. */
  lemma CollectDirIsInOrder(d: Directory, max: nat)
    requires Shape(d) && RootNode(d).Some?
    ensures CollectDir(d, max) == Cap(Files(Entries(d)), max)
  {
    hide Collect, InOrder;
    var n := RootNode(d).value;
    CollectIsInOrder(d, n, n.first, [], max, 0);
    assert [] + Files(Entries(d)) == Files(Entries(d));
  }

  function OnlyListed(s: seq<Entry>): (r: seq<Entry>)
    ensures forall e :: e in r ==> e in s && Listed(e)
    ensures Files(s) == Files(r) && |Files(r)| == |r| && forall i :: 0 <= i < |r| ==> Files(r)[i] == r[i].file
  {
    if s == [] then [] else if Listed(s[0]) then [s[0]] + OnlyListed(s[1..]) else OnlyListed(s[1..])
  }

  lemma AscendingTail(d: Directory, s: seq<Entry>)
    requires Shape(d) && Ascending(d, s) && s != []
    ensures Ascending(d, s[1..]) && forall e :: e in s[1..] ==> Order(d, s[0].name, e.name) < 0
  {
    hide Order;
    forall i, j | 0 <= i < j < |s[1..]| ensures Order(d, s[1..][i].name, s[1..][j].name) < 0 {
      assert s[1..][i] == s[i + 1] && s[1..][j] == s[j + 1];
    }
    forall e | e in s[1..] ensures Order(d, s[0].name, e.name) < 0 {
      var k :| 0 <= k < |s[1..]| && s[1..][k] == e;
      assert s[k + 1] == e;
    }
  }

  lemma SortedCons(d: Directory, e: Entry, s: seq<Entry>)
    requires Shape(d) && Ascending(d, s) && forall x :: x in s ==> Order(d, e.name, x.name) < 0
    ensures Ascending(d, [e] + s)
  {
    hide Order;
  }

  lemma {:induction false} ListedStaySorted(d: Directory, s: seq<Entry>)
    requires Shape(d) && Ascending(d, s)
    ensures Ascending(d, OnlyListed(s))
  {
    hide Order, Listed, Ascending, Files;
    if s != [] {
      AscendingTail(d, s);
      ListedStaySorted(d, s[1..]);
      SortedCons(d, s[0], OnlyListed(s[1..]));
    }
  }

  /** What is collected from a sound index are the files of its listed entries, sorted by name. */
  lemma CollectedIsSorted(d: Directory, max: nat)
    requires Sound(d) && |Files(Entries(d))| <= max
    ensures var listed := OnlyListed(Entries(d));
            && Ascending(d, listed) && |CollectDir(d, max)| == |listed|
            && forall i :: 0 <= i < |listed| ==> CollectDir(d, max)[i] == listed[i].file
  {
    hide WellFormed, Load, InOrder, Collect, Ascending, CollectDir, Files, OnlyListed;
    CollectDirIsInOrder(d, max);
    ListedStaySorted(d, Entries(d));
  }

  // ---------------------------------------------------------------- one entry at a time

  /** The entry wanted next, and the number of entries passed in this walk. */
  datatype Cursor = Cursor(start: nat, current: nat)

  /** A node's own entries: the first that is due, or none. */
  function Scan(n: Node, off: nat, c: Cursor): (int, Cursor)
    decreases n.last - off
  {
    var e := EntryAt(n.bytes, off);
    if off >= n.last || e.length < ENTRY_SIZE || off + e.length > n.last || e.end || !NameInside(e) then (NOT_FOUND, c)
    else if !Listed(e) then Scan(n, off + e.length, c)
    else if c.current >= c.start then (e.file, Cursor(c.start + 1, c.current + 1))
    else Scan(n, off + e.length, Cursor(c.start, c.current + 1))
  }

  /** Follow the pointers of a node's entries from `off` on until something is due. */
  function BrowseBelow(d: Directory, n: Node, off: nat, c: Cursor, depth: nat): (int, Cursor)
    requires Shape(d) && depth <= MAX_DEPTH
    decreases MAX_DEPTH - depth, n.last - off, 1
  {
    var e := EntryAt(n.bytes, off);
    if off >= n.last || e.length == 0 then (NOT_FOUND, c)
    else
      var (r, c') := if e.node && e.length >= 8 then Browse(d, e.sub, c, depth) else (NOT_FOUND, c);
      if r != NOT_FOUND || e.end then (r, c') else BrowseBelow(d, n, off + e.length, c', depth)
  }

  function Browse(d: Directory, vcn: nat, c: Cursor, depth: nat): (int, Cursor)
    requires Shape(d) && depth <= MAX_DEPTH
    decreases MAX_DEPTH - depth, 0, 0
  {
    if depth >= MAX_DEPTH || !InUse(d, vcn) then (NOT_FOUND, c)
    else
      match Load(d, vcn)
      case None => (NOT_FOUND, c)
      case Some(m) =>
        var (r, c') := Scan(m, m.first, c);
        if r != NOT_FOUND || !m.large then (r, c') else BrowseBelow(d, m, m.first, c', depth + 1)
  }

  /** One directory read: the file found, and the entry wanted next time. */
  function ListNext(d: Directory, start: nat): (int, nat)
    requires Shape(d)
  {
    match RootNode(d)
    case None => (NOT_FOUND, start)
    case Some(n) =>
      var (r, c) := Scan(n, n.first, Cursor(start, 0));
      if r != NOT_FOUND || d.alloc.NoAllocation? then (r, c.start)
      else
        var (r', c') := BrowseBelow(d, n, n.first, c, 0);
        (r', c'.start)
  }

  /** A node's own entries, up to its end. */
  function Own(n: Node, off: nat): seq<Entry>
    decreases n.last - off
  {
    var e := EntryAt(n.bytes, off);
    if off >= n.last || e.length == 0 || e.end then [] else [e] + Own(n, off + e.length)
  }

  /** The files below a node: for each pointer the block's own files and then those below it. */
  function FilesBelow(d: Directory, n: Node, off: nat, depth: nat): seq<nat>
    requires Shape(d) && depth <= MAX_DEPTH
    decreases MAX_DEPTH - depth, n.last - off
  {
    var e := EntryAt(n.bytes, off);
    if off >= n.last || e.length == 0 then []
    else
      var here := if Leads(d, e) && depth < MAX_DEPTH && Load(d, e.sub).Some?
                  then var m := Load(d, e.sub).value; Files(Own(m, m.first)) + FilesBelow(d, m, m.first, depth + 1)
                  else [];
      if e.end then here else here + FilesBelow(d, n, off + e.length, depth)
  }

  function PreOrder(d: Directory): seq<nat>
    requires Shape(d) && RootNode(d).Some?
  {
    var n := RootNode(d).value;
    Files(Own(n, n.first)) + FilesBelow(d, n, n.first, 0)
  }

  /** Walking past these files from cursor c gives r and c': the one that is due, or none of them. */
  predicate Yields(s: seq<nat>, c: Cursor, r: int, c': Cursor) {
    c.current <= c.start ==>
      if c.start - c.current < |s| then r == s[c.start - c.current] && c' == Cursor(c.start + 1, c.start + 1)
      else r == NOT_FOUND && c' == Cursor(c.start, c.current + |s|)
  }

  predicate AllFiles(s: seq<nat>) {
    forall x :: x in s ==> x >= FIRST_USER_FILE
  }

  lemma YieldsJoin(a: seq<nat>, b: seq<nat>, c: Cursor, r: int, c1: Cursor, r': int, c2: Cursor)
    requires AllFiles(a) && AllFiles(b) && Yields(a, c, r, c1)
    ensures r != NOT_FOUND && c.current <= c.start ==> Yields(a + b, c, r, c1)
    ensures r == NOT_FOUND && Yields(b, c1, r', c2) ==> Yields(a + b, c, r', c2)
  {
  }

  /** The cursor never passes the entry it waits for without giving it. */
  predicate Waiting(c: Cursor) {
    c.current <= c.start
  }

  lemma YieldsWaits(s: seq<nat>, c: Cursor, r: int, c': Cursor)
    requires Waiting(c) && Yields(s, c, r, c') && AllFiles(s)
    ensures Waiting(c')
  {
  }

  lemma ScanCases(n: Node, off: nat, c: Cursor, e: Entry)
    requires e == EntryAt(n.bytes, off) && off < n.last && 0 < e.length && off + e.length <= n.last
    requires !e.end ==> ENTRY_SIZE <= e.length && NameInside(e)
    ensures e.end ==> Own(n, off) == [] && Scan(n, off, c) == (NOT_FOUND, c)
    ensures !e.end ==> Own(n, off) == [e] + Own(n, off + e.length)
    ensures !e.end && !Listed(e) ==> Scan(n, off, c) == Scan(n, off + e.length, c)
    ensures !e.end && Listed(e) && c.current >= c.start ==>
              Scan(n, off, c) == (e.file as int, Cursor(c.start + 1, c.current + 1))
    ensures !e.end && Listed(e) && c.current < c.start ==>
              Scan(n, off, c) == Scan(n, off + e.length, Cursor(c.start, c.current + 1))
  {
    hide EntryAt, NameInside, Listed;
  }

  lemma FilesOfOne(e: Entry)
    ensures Files([e]) == if Listed(e) then [e.file] else []
  {
  }

  lemma YieldsNext(f: nat, s: seq<nat>, c: Cursor, r: int, c': Cursor)
    requires Waiting(c)
    ensures c.current == c.start && r == f && c' == Cursor(c.start + 1, c.current + 1) ==> Yields([f] + s, c, r, c')
    ensures c.current < c.start && Yields(s, Cursor(c.start, c.current + 1), r, c') ==> Yields([f] + s, c, r, c')
  {
  }

  lemma {:induction false} ScanYieldsOwn(d: Directory, n: Node, off: nat, c: Cursor, depth: nat)
    requires Shape(d) && depth <= MAX_DEPTH && WellFormed(d, n, off, depth) && Waiting(c)
    ensures Yields(Files(Own(n, off)), c, Scan(n, off, c).0, Scan(n, off, c).1)
    decreases n.last - off
  {
    hide *;
    Unfold(d, n, off, depth);
    var e := EntryAt(n.bytes, off);
    ScanCases(n, off, c, e);
    NoFiles();
    NothingYields(c);
    if !e.end {
      var next := off + e.length;
      var rest := Own(n, next);
      FilesJoin([e], rest);
      FilesOfOne(e);
      if !Listed(e) {
        ScanYieldsOwn(d, n, next, c, depth);
        assert [] + Files(rest) == Files(rest);
      } else {
        WaitingMeans(c);
        YieldsNext(e.file, Files(rest), c, Scan(n, off, c).0, Scan(n, off, c).1);
        if c.current < c.start {
          StillWaiting(c);
          ScanYieldsOwn(d, n, next, Cursor(c.start, c.current + 1), depth);
        }
      }
    }
  }

  lemma StillWaiting(c: Cursor)
    requires c.current < c.start
    ensures Waiting(Cursor(c.start, c.current + 1))
  {
  }

  function FilesUnder(d: Directory, e: Entry, depth: nat): seq<nat>
    requires Shape(d) && depth <= MAX_DEPTH
  {
    if Leads(d, e) && depth < MAX_DEPTH && Load(d, e.sub).Some?
    then var m := Load(d, e.sub).value; Files(Own(m, m.first)) + FilesBelow(d, m, m.first, depth + 1)
    else []
  }

  lemma {:induction false} OnlyFiles(d: Directory, n: Node, off: nat, depth: nat)
    requires Shape(d) && depth <= MAX_DEPTH
    ensures AllFiles(FilesBelow(d, n, off, depth))
    decreases MAX_DEPTH - depth, n.last - off
  {
    hide EntryAt, Load, Own, Files;
    var e := EntryAt(n.bytes, off);
    if off < n.last && e.length > 0 {
      if Leads(d, e) && depth < MAX_DEPTH && Load(d, e.sub).Some? {
        OnlyFiles(d, Load(d, e.sub).value, Load(d, e.sub).value.first, depth + 1);
      }
      OnlyFiles(d, n, off + e.length, depth);
    }
  }

  lemma OnlyFilesUnder(d: Directory, e: Entry, depth: nat)
    requires Shape(d) && depth <= MAX_DEPTH
    ensures AllFiles(FilesUnder(d, e, depth))
  {
    hide Load, Own, Files, FilesBelow;
    if Leads(d, e) && depth < MAX_DEPTH && Load(d, e.sub).Some? {
      OnlyFiles(d, Load(d, e.sub).value, Load(d, e.sub).value.first, depth + 1);
    }
  }

  /** One turn of the pointer loop. */
  lemma BrowseStep(d: Directory, n: Node, off: nat, c: Cursor, depth: nat, e: Entry)
    requires Shape(d) && depth <= MAX_DEPTH && e == EntryAt(n.bytes, off)
    ensures var (r, c') := if e.node && e.length >= 8 then Browse(d, e.sub, c, depth) else (NOT_FOUND, c);
            BrowseBelow(d, n, off, c, depth) ==
            if off >= n.last || e.length == 0 then (NOT_FOUND, c)
            else if r != NOT_FOUND || e.end then (r, c')
            else BrowseBelow(d, n, off + e.length, c', depth)
  {
    hide EntryAt, Browse, Shape;
  }

  lemma FilesBelowStep(d: Directory, n: Node, off: nat, depth: nat, e: Entry)
    requires Shape(d) && depth <= MAX_DEPTH && e == EntryAt(n.bytes, off) && off < n.last && e.length > 0
    ensures e.end ==> FilesBelow(d, n, off, depth) == FilesUnder(d, e, depth)
    ensures !e.end ==> FilesBelow(d, n, off, depth) == FilesUnder(d, e, depth) + FilesBelow(d, n, off + e.length, depth)
  {
    hide EntryAt, Load, Leads, Files, Own, Shape;
  }

  lemma LeadsLong(d: Directory, e: Entry)
    ensures Leads(d, e) ==> e.node && e.length >= 8
  {
  }

  lemma BrowseOpens(d: Directory, e: Entry, c: Cursor, depth: nat)
    requires Shape(d) && depth < MAX_DEPTH && Leads(d, e) && InUse(d, e.sub) && Load(d, e.sub).Some?
    ensures var m := Load(d, e.sub).value;
            var (r, c1) := Scan(m, m.first, c);
            && FilesUnder(d, e, depth) == Files(Own(m, m.first)) + FilesBelow(d, m, m.first, depth + 1)
            && Browse(d, e.sub, c, depth)
               == (if r != NOT_FOUND || !m.large then (r, c1) else BrowseBelow(d, m, m.first, c1, depth + 1))
  {
    hide Load, InUse, Scan, BrowseBelow, FilesBelow, Own, Files, Shape, Leads;
  }

  lemma {:induction false} BrowseYields(d: Directory, e: Entry, c: Cursor, depth: nat)
    requires Shape(d) && depth < MAX_DEPTH && Leads(d, e) && InUse(d, e.sub) && Load(d, e.sub).Some? && Waiting(c)
    requires WellFormed(d, Load(d, e.sub).value, Load(d, e.sub).value.first, depth + 1)
    requires !Load(d, e.sub).value.large
             ==> FilesBelow(d, Load(d, e.sub).value, Load(d, e.sub).value.first, depth + 1) == []
    ensures var (r, c') := Browse(d, e.sub, c, depth); Yields(FilesUnder(d, e, depth), c, r, c')
    decreases MAX_DEPTH - depth, 0, 0
  {
    hide *;
    BrowseOpens(d, e, c, depth);
    var m := Load(d, e.sub).value;
    ScanYieldsOwn(d, m, m.first, c, depth + 1);
    var own := Files(Own(m, m.first));
    var below := FilesBelow(d, m, m.first, depth + 1);
    var (r, c1) := Scan(m, m.first, c);
    FilesAreFiles(Own(m, m.first));
    OnlyFiles(d, m, m.first, depth + 1);
    YieldsWaits(own, c, r, c1);
    if r == NOT_FOUND && m.large {
      BelowYields(d, m, m.first, c1, depth + 1);
      var (r', c2) := BrowseBelow(d, m, m.first, c1, depth + 1);
      YieldsJoin(own, below, c, r, c1, r', c2);
    } else {
      WaitingMeans(c);
      YieldsJoin(own, below, c, r, c1, r, c1);
      assert below == [] ==> own + below == own;
    }
  }

  lemma WaitingMeans(c: Cursor)
    requires Waiting(c)
    ensures c.current <= c.start
  {
  }

  lemma FilesAreFiles(s: seq<Entry>)
    ensures AllFiles(Files(s))
  {
  }

  /** A node whose entries carry no pointers has nothing below it. */
  lemma {:induction false} NoPointers(d: Directory, n: Node, off: nat, depth: nat)
    requires Shape(d) && depth <= MAX_DEPTH && WellFormed(d, n, off, depth) && !n.large
    ensures FilesBelow(d, n, off, depth) == []
    decreases n.last - off
  {
    hide *;
    Unfold(d, n, off, depth);
    var e := EntryAt(n.bytes, off);
    FilesBelowStep(d, n, off, depth, e);
    NothingUnder(d, e, depth);
    if !e.end {
      NoPointers(d, n, off + e.length, depth);
    }
  }

  lemma {:induction false} BelowYields(d: Directory, n: Node, off: nat, c: Cursor, depth: nat)
    requires Shape(d) && depth <= MAX_DEPTH && WellFormed(d, n, off, depth) && Waiting(c)
    ensures var (r, c') := BrowseBelow(d, n, off, c, depth); Yields(FilesBelow(d, n, off, depth), c, r, c')
    decreases MAX_DEPTH - depth, n.last - off, 1
  {
    hide *;
    Unfold(d, n, off, depth);
    var e := EntryAt(n.bytes, off);
    LeadsLong(d, e);
    BrowseStep(d, n, off, c, depth, e);
    FilesBelowStep(d, n, off, depth, e);
    var under := FilesUnder(d, e, depth);
    OnlyFilesUnder(d, e, depth);
    NothingYields(c);
    var r: int, c1: Cursor := NOT_FOUND, c;
    if e.node {
      var m := Load(d, e.sub).value;
      if !m.large {
        NoPointers(d, m, m.first, depth + 1);
      }
      BrowseYields(d, e, c, depth);
      r, c1 := Browse(d, e.sub, c, depth).0, Browse(d, e.sub, c, depth).1;
    }
    NothingUnder(d, e, depth);
    YieldsWaits(under, c, r, c1);
    if e.end {
      assert under + [] == under;
    } else {
      var rest := FilesBelow(d, n, off + e.length, depth);
      OnlyFiles(d, n, off + e.length, depth);
      if r == NOT_FOUND {
        BelowYields(d, n, off + e.length, c1, depth);
        var (r', c2) := BrowseBelow(d, n, off + e.length, c1, depth);
        YieldsJoin(under, rest, c, r, c1, r', c2);
      } else {
        WaitingMeans(c);
        YieldsJoin(under, rest, c, r, c1, r, c1);
      }
    }
  }

  lemma NothingYields(c: Cursor)
    ensures Yields([], c, NOT_FOUND, c)
  {
  }

  lemma NothingUnder(d: Directory, e: Entry, depth: nat)
    requires Shape(d) && depth <= MAX_DEPTH
    ensures !Leads(d, e) ==> FilesUnder(d, e, depth) == []
  {
  }

  lemma YieldsFrom(s: seq<nat>, k: nat, r: int, c: Cursor)
    requires Yields(s, Cursor(k, 0), r, c)
    ensures (r, c.start) == if k < |s| then (s[k] as int, k + 1) else (NOT_FOUND, k)
  {
  }

  lemma ListNextIs(d: Directory, k: nat, n: Node)
    requires Shape(d) && RootNode(d) == Some(n)
    ensures PreOrder(d) == Files(Own(n, n.first)) + FilesBelow(d, n, n.first, 0)
    ensures var (r, c) := Scan(n, n.first, Cursor(k, 0));
            var (r', c') := BrowseBelow(d, n, n.first, c, 0);
            ListNext(d, k) == if r != NOT_FOUND || d.alloc.NoAllocation? then (r, c.start) else (r', c'.start)
  {
    hide Scan, BrowseBelow, FilesBelow, Own, Files, RootNode, Shape;
  }

  lemma NothingMore(s: seq<nat>)
    ensures s + [] == s
  {
  }

  /** Reading the directory with entry number k gives the k-th file of the pre-order list and asks for
      the next one; past the end it gives nothing and asks for the same again. */
  lemma EnumerationIsPreOrder(d: Directory, k: nat)
    requires Shape(d) && RootNode(d).Some? && WellFormed(d, RootNode(d).value, RootNode(d).value.first, 0)
    ensures ListNext(d, k) == if k < |PreOrder(d)| then (PreOrder(d)[k] as int, k + 1) else (NOT_FOUND, k)
  {
    hide WellFormed, Load, EntryAt, Scan, BrowseBelow, FilesBelow, Own, Files, Shape, RootNode, Yields, AllFiles,
      ListNext, PreOrder;
    var n := RootNode(d).value;
    var c := Cursor(k, 0);
    ListNextIs(d, k, n);
    ScanYieldsOwn(d, n, n.first, c, 0);
    var (r, c1) := Scan(n, n.first, c);
    var own, below := Files(Own(n, n.first)), FilesBelow(d, n, n.first, 0);
    FilesAreFiles(Own(n, n.first));
    OnlyFiles(d, n, n.first, 0);
    YieldsWaits(own, c, r, c1);
    if r == NOT_FOUND && d.alloc.Allocation? {
      BelowYields(d, n, n.first, c1, 0);
      var (r', c2) := BrowseBelow(d, n, n.first, c1, 0);
      YieldsJoin(own, below, c, r, c1, r', c2);
      YieldsFrom(own + below, k, r', c2);
    } else {
      YieldsJoin(own, below, c, r, c1, r, c1);
      if d.alloc.NoAllocation? {
        NoAllocationNoPointers(d, n, n.first, 0);
        NothingMore(own);
      }
      YieldsFrom(own + below, k, r, c1);
    }
  }

  lemma {:induction false} NoAllocationNoPointers(d: Directory, n: Node, off: nat, depth: nat)
    requires Shape(d) && depth <= MAX_DEPTH && d.alloc.NoAllocation?
    ensures FilesBelow(d, n, off, depth) == []
    decreases n.last - off
  {
    hide EntryAt, Load;
    var e := EntryAt(n.bytes, off);
    if off < n.last && e.length > 0 {
      NoAllocationNoPointers(d, n, off + e.length, depth);
    }
  }

  // ---------------------------------------------------------------- the two listings agree

  lemma OwnStep(n: Node, off: nat, e: Entry)
    requires e == EntryAt(n.bytes, off) && off < n.last && e.length > 0
    ensures Own(n, off) == if e.end then [] else [e] + Own(n, off + e.length)
  {
    hide EntryAt;
  }

  lemma WalkStops(d: Directory, n: Node, off: nat, depth: nat)
    requires Shape(d) && depth <= MAX_DEPTH
    ensures !(off < n.last && EntryAt(n.bytes, off).length > 0) ==>
              Own(n, off) == [] && FilesBelow(d, n, off, depth) == [] && InOrder(d, n, off, depth) == []
  {
    hide EntryAt, Load, Leads, Files;
  }

  lemma Shuffled(one: seq<nat>, own: seq<nat>, under: seq<nat>, more: seq<nat>, below: seq<nat>, rest: seq<nat>)
    requires multiset(under) == multiset(below) && multiset(own + more) == multiset(rest)
    ensures multiset((one + own) + (under + more)) == multiset(below + (one + rest))
  {
  }

  /** What lies under an entry: its block's own files and those below that, or the same in key order. */
  lemma {:induction false} SameFilesUnder(d: Directory, e: Entry, depth: nat)
    requires Shape(d) && depth <= MAX_DEPTH
    ensures multiset(FilesUnder(d, e, depth)) == multiset(Files(Below(d, e, depth)))
    decreases MAX_DEPTH - depth, 0, 0
  {
    hide Load, Leads, Files, Own, FilesBelow, InOrder;
    if Leads(d, e) && depth < MAX_DEPTH && Load(d, e.sub).Some? {
      var m := Load(d, e.sub).value;
      SameFiles(d, m, m.first, depth + 1);
    } else {
      NoFiles();
    }
  }

  lemma {:induction false} SameFiles(d: Directory, n: Node, off: nat, depth: nat)
    requires Shape(d) && depth <= MAX_DEPTH
    ensures multiset(Files(Own(n, off)) + FilesBelow(d, n, off, depth)) == multiset(Files(InOrder(d, n, off, depth)))
    decreases MAX_DEPTH - depth, n.last - off, 1
  {
    hide *;
    CapOfDepth();
    var e := EntryAt(n.bytes, off);
    NoFiles();
    WalkStops(d, n, off, depth);
    if off < n.last && e.length > 0 {
      OwnStep(n, off, e);
      FilesBelowStep(d, n, off, depth, e);
      InOrderStep(d, n, off, depth, e);
      SameFilesUnder(d, e, depth);
      var below, under := Files(Below(d, e, depth)), FilesUnder(d, e, depth);
      if e.end {
        assert [] + under == under;
      } else {
        var next := off + e.length;
        SameFiles(d, n, next, depth);
        var own, more, rest := Own(n, next), FilesBelow(d, n, next, depth), InOrder(d, n, next, depth);
        FilesJoin([e], own);
        FilesJoin([e], rest);
        FilesJoin(Below(d, e, depth), [e] + rest);
        Shuffled(Files([e]), Files(own), under, more, below, Files(rest));
      }
    }
  }

  /** Enumerating entry by entry gives the same files as collecting, each as often: the pre-order list
      is a permutation of the collected one. */
  lemma EnumerationIsPermutation(d: Directory, max: nat)
    requires Shape(d) && RootNode(d).Some? && |Files(Entries(d))| <= max
    ensures multiset(PreOrder(d)) == multiset(CollectDir(d, max))
  {
    hide Own, FilesBelow, InOrder, Collect, Files;
    var n := RootNode(d).value;
    SameFiles(d, n, n.first, 0);
    CollectDirIsInOrder(d, max);
  }

  lemma {:induction false} FilesHold(s: seq<Entry>, f: nat)
    ensures f in Files(s) <==> exists e :: e in s && Listed(e) && e.file == f
  {
    hide Listed;
    if s != [] {
      FilesHold(s[1..], f);
      assert s == [s[0]] + s[1..];
    }
  }

  /** The listing and the lookup know the same files: what a listing shows can be opened by the name of
      its entry, and what has a name other than an 8.3 alias, and opens by it, is shown. */
  lemma ListedCanBeOpened(d: Directory, f: nat)
    requires Sound(d)
    ensures f in PreOrder(d) <==> exists e :: e in Entries(d) && Listed(e) && e.file == f && Find(d, e.name) == f
  {
    hide WellFormed, InOrder, Collect, Own, FilesBelow, Files, RootNode, Find, Ascending;
    EnumerationIsPermutation(d, |Files(Entries(d))|);
    CollectDirIsInOrder(d, |Files(Entries(d))|);
    assert f in PreOrder(d) <==> f in multiset(PreOrder(d));
    assert f in CollectDir(d, |Files(Entries(d))|) <==> f in multiset(CollectDir(d, |Files(Entries(d))|));
    FilesHold(Entries(d), f);
    forall e | e in Entries(d) && Listed(e) ensures Find(d, e.name) == e.file {
      LookupIsMembership(d, e.name);
    }
  }
}
