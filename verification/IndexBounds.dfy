/** What the walks over an index read (src/ntfs_btree.c): none of the loops compares all it reads with
    the end of the buffer, so for each loop the exact condition on a node is stated under which it stays
    inside; on a sound index the memory behind the buffers then makes no difference to any walk. */
module IndexBounds {
  import opened ByteData
  import opened IndexTree
  import opened IndexListing
  import opened UpdateSequence

  /** So many bytes read at an offset of the node's buffer. */
  datatype Access = Access(at: nat, count: nat)

  predicate Inside(log: seq<Access>, size: nat) {
    forall r :: r in log ==> r.at + r.count <= size
  }

  lemma InsideJoin(a: seq<Access>, b: seq<Access>, size: nat)
    ensures Inside(a + b, size) <==> Inside(a, size) && Inside(b, size)
  {
    assert forall r :: r in a ==> r in a + b;
    assert forall r :: r in b ==> r in a + b;
  }

  /** The node's header was accepted: its entries end inside what was read. */
  predicate Accepted(n: Node) {
    n.first <= n.last <= n.size
  }

  // ---------------------------------------------------------------- collecting, and following pointers

  /** The pointer at the end of an entry. */
  function PointerReads(e: Entry, off: nat, follow: bool): seq<Access> {
    if e.node && follow && e.length >= 8 then [Access(off + e.length - 8, 8)] else []
  }

  /** The file number, and for a user's file the kind of its name. */
  function FileReads(e: Entry, off: nat): seq<Access> {
    [Access(off, 8)] + if IsReal(e) then [Access(off + 81, 1)] else []
  }

  function HeaderReads(e: Entry, off: nat): seq<Access> {
    [Access(off + 8, 2)] + if e.length > 0 then [Access(off + 12, 2)] else []
  }

  /** All that the loop of a walk reads in one node, from `off` on: of each entry the header, the pointer
      when pointers can be followed, and when collecting what is needed of its file. */
  function LoopReads(n: Node, off: nat, follow: bool, collecting: bool): seq<Access>
    decreases n.last - off
  {
    var e := EntryAt(n.bytes, off);
    if off >= n.last then []
    else if e.length == 0 then HeaderReads(e, off)
    else
      HeaderReads(e, off) + PointerReads(e, off, follow)
      + if e.end then []
        else (if collecting then FileReads(e, off) else []) + LoopReads(n, off + e.length, follow, collecting)
  }

  /** The entries the loop comes to. */
  function Chain(n: Node, off: nat): seq<nat>
    decreases n.last - off
  {
    var e := EntryAt(n.bytes, off);
    if off >= n.last then []
    else if e.length == 0 || e.end then [off]
    else [off] + Chain(n, off + e.length)
  }

  /** The fields the loop looks at, other than the pointer, lie inside the buffer. */
  predicate FieldsInside(n: Node, off: nat, collecting: bool) {
    var e := EntryAt(n.bytes, off);
    && off + 10 <= n.size
    && (e.length > 0 ==> off + 14 <= n.size)
    && (e.length > 0 && collecting && !e.end && IsReal(e) ==> off + 82 <= n.size)
  }

  predicate PointerInside(n: Node, off: nat, follow: bool) {
    var e := EntryAt(n.bytes, off);
    e.node && follow && e.length >= 8 ==> off + e.length <= n.size
  }

  predicate LoopFits(n: Node, off: nat, follow: bool, collecting: bool) {
    var chain := Chain(n, off);
    && (forall o :: o in chain ==> FieldsInside(n, o, collecting))
    && (chain != [] ==> PointerInside(n, chain[|chain| - 1], follow))
  }

  lemma OwnReads(n: Node, off: nat, follow: bool, collecting: bool, e: Entry)
    requires e == EntryAt(n.bytes, off)
    ensures Inside(HeaderReads(e, off), n.size) <==> off + 10 <= n.size && (e.length > 0 ==> off + 14 <= n.size)
    ensures Inside(PointerReads(e, off, follow), n.size) <==> PointerInside(n, off, follow)
    ensures off + 14 <= n.size ==>
              (Inside(FileReads(e, off), n.size) <==> (IsReal(e) ==> off + 82 <= n.size))
  {
    hide EntryAt, IsReal;
    assert Access(off + 8, 2) in HeaderReads(e, off);
    assert e.length > 0 ==> Access(off + 12, 2) in HeaderReads(e, off);
    assert e.node && follow && e.length >= 8 ==> Access(off + e.length - 8, 8) in PointerReads(e, off, follow);
    assert IsReal(e) ==> Access(off + 81, 1) in FileReads(e, off);
  }

  lemma NoChain(n: Node, off: nat)
    requires off >= n.last
    ensures Chain(n, off) == []
  {
  }

  lemma NothingRead(size: nat)
    ensures Inside([], size)
  {
  }

  lemma ReadsStep(n: Node, off: nat, follow: bool, collecting: bool, e: Entry)
    requires e == EntryAt(n.bytes, off)
    ensures Inside(LoopReads(n, off, follow, collecting), n.size) <==>
            (off < n.last ==>
               && Inside(HeaderReads(e, off), n.size)
               && (e.length > 0 ==>
                     && Inside(PointerReads(e, off, follow), n.size)
                     && (!e.end ==>
                           && (collecting ==> Inside(FileReads(e, off), n.size))
                           && Inside(LoopReads(n, off + e.length, follow, collecting), n.size))))
  {
    hide EntryAt, Inside, HeaderReads, PointerReads, FileReads;
    NothingRead(n.size);
    if off < n.last && e.length > 0 {
      var own := HeaderReads(e, off) + PointerReads(e, off, follow);
      var file := if collecting then FileReads(e, off) else [];
      InsideJoin(HeaderReads(e, off), PointerReads(e, off, follow), n.size);
      if e.end {
        InsideJoin(own, [], n.size);
      } else {
        var rest := LoopReads(n, off + e.length, follow, collecting);
        InsideJoin(file, rest, n.size);
        InsideJoin(own, file + rest, n.size);
      }
    }
  }

  lemma FitsStep(n: Node, off: nat, follow: bool, collecting: bool, e: Entry)
    requires e == EntryAt(n.bytes, off) && off < n.last
    ensures e.length == 0 || e.end || off + e.length >= n.last ==>
              (LoopFits(n, off, follow, collecting) <==>
               FieldsInside(n, off, collecting) && PointerInside(n, off, follow))
    ensures e.length > 0 && !e.end && off + e.length < n.last ==>
              (LoopFits(n, off, follow, collecting) <==>
               FieldsInside(n, off, collecting) && LoopFits(n, off + e.length, follow, collecting))
  {
    hide EntryAt, FieldsInside, PointerInside;
    if e.length > 0 && !e.end {
      var rest := Chain(n, off + e.length);
      assert Chain(n, off) == [off] + rest;
      assert forall o :: o in [off] + rest <==> o == off || o in rest;
      assert off + e.length >= n.last ==> rest == [];
    } else {
      assert Chain(n, off) == [off];
    }
  }

  /** The exact condition on a node under which collecting, or following its pointers, reads inside the
      buffer: the fields of every entry the loop comes to, and the pointer of the last one. */
  lemma {:induction false} LoopReadsInside(n: Node, off: nat, follow: bool, collecting: bool)
    requires Accepted(n)
    ensures Inside(LoopReads(n, off, follow, collecting), n.size) <==> LoopFits(n, off, follow, collecting)
    decreases n.last - off
  {
    hide EntryAt, Inside, IsReal, HeaderReads, PointerReads, FileReads, LoopReads, Chain;
    var e := EntryAt(n.bytes, off);
    ReadsStep(n, off, follow, collecting, e);
    if off < n.last {
      hide LoopFits;
      OwnReads(n, off, follow, collecting, e);
      FitsStep(n, off, follow, collecting, e);
      if e.length > 0 && !e.end {
        LoopReadsInside(n, off + e.length, follow, collecting);
        ReadsStep(n, off + e.length, follow, collecting, EntryAt(n.bytes, off + e.length));
      }
    } else {
      NoChain(n, off);
    }
  }

  // ---------------------------------------------------------------- scanning

  /** The fields of an entry that lies inside the node with its name, of which a listing copies at most
      39 characters. */
  function EntryReads(e: Entry, off: nat): seq<Access> {
    var copied := if |e.name| < 39 then |e.name| else 39;
    [Access(off + 12, 2), Access(off + 80, 1), Access(off + NAME_AT, 2 * copied), Access(off, 8), Access(off + 81, 1)]
  }

  /** All that scanning a node for a listing reads, from `off` on. */
  function ScanReads(n: Node, off: nat): seq<Access>
    decreases n.last - off
  {
    var e := EntryAt(n.bytes, off);
    if off >= n.last then []
    else if e.length < ENTRY_SIZE || off + e.length > n.last then [Access(off + 8, 2)]
    else if e.end then [Access(off + 8, 2), Access(off + 12, 2)]
    else if !NameInside(e) then [Access(off + 8, 2), Access(off + 12, 2), Access(off + 80, 1)]
    else [Access(off + 8, 2)] + EntryReads(e, off) + ScanReads(n, off + e.length)
  }

  /** The last entry the scan comes to. */
  function ScanLast(n: Node, off: nat): nat
    requires off < n.last
    decreases n.last - off
  {
    var e := EntryAt(n.bytes, off);
    if e.length < ENTRY_SIZE || e.end || !NameInside(e) || off + e.length >= n.last then off
    else ScanLast(n, off + e.length)
  }

  lemma EntryReadsInside(n: Node, off: nat, e: Entry)
    requires Accepted(n) && off + e.length <= n.last && ENTRY_SIZE <= e.length && NameInside(e)
    ensures Inside([Access(off + 8, 2)] + EntryReads(e, off), n.size)
  {
  }

  lemma ScanStops(n: Node, off: nat, e: Entry)
    requires Accepted(n) && e == EntryAt(n.bytes, off) && off < n.last
    requires e.length < ENTRY_SIZE || off + e.length > n.last || e.end || !NameInside(e)
    ensures Inside(ScanReads(n, off), n.size) <==> off + 10 <= n.size
  {
    hide EntryAt, NameInside, EntryReads;
    assert Access(off + 8, 2) in ScanReads(n, off);
  }

  lemma ScanGoesOn(n: Node, off: nat, e: Entry)
    requires Accepted(n) && e == EntryAt(n.bytes, off) && off < n.last
    requires ENTRY_SIZE <= e.length && off + e.length <= n.last && !e.end && NameInside(e)
    ensures Inside(ScanReads(n, off), n.size) <==> Inside(ScanReads(n, off + e.length), n.size)
  {
    EntryReadsInside(n, off, e);
    hide EntryAt, Inside, NameInside, EntryReads, Accepted;
    assert ScanReads(n, off) == [Access(off + 8, 2)] + EntryReads(e, off) + ScanReads(n, off + e.length);
    hide ScanReads;
    InsideJoin([Access(off + 8, 2)] + EntryReads(e, off), ScanReads(n, off + e.length), n.size);
  }

  /** The exact condition for a scan: the length of the last entry it comes to lies inside the buffer. */
  lemma {:induction false} ScanReadsInside(n: Node, off: nat)
    requires Accepted(n) && off < n.last
    ensures Inside(ScanReads(n, off), n.size) <==> ScanLast(n, off) + 10 <= n.size
    decreases n.last - off
  {
    hide EntryAt, Inside, NameInside;
    var e := EntryAt(n.bytes, off);
    if e.length < ENTRY_SIZE || off + e.length > n.last || e.end || !NameInside(e) {
      ScanStops(n, off, e);
    } else {
      ScanGoesOn(n, off, e);
      if off + e.length < n.last {
        ScanReadsInside(n, off + e.length);
      } else {
        NothingRead(n.size);
      }
    }
  }

  // ---------------------------------------------------------------- looking up

  /** All that a lookup reads in a node, from `off` on. */
  function SearchReads(d: Directory, n: Node, off: nat, key: seq<word>): seq<Access>
    requires Shape(d)
    decreases n.last - off
  {
    var e := EntryAt(n.bytes, off);
    if off >= n.last then []
    else if e.length == 0 || off + e.length > n.last then [Access(off + 8, 2)]
    else if e.end then HeaderReads(e, off) + PointerReads(e, off, d.alloc.Allocation?)
    else
      var fixed := HeaderReads(e, off) + [Access(off, 8), Access(off + 80, 1)];
      if !NameInside(e) then fixed
      else
        var cmp, named := Order(d, key, e.name), fixed + [Access(off + NAME_AT, 2 * |e.name|)];
        if cmp == 0 && IsReal(e) then named
        else if cmp < 0 then named + PointerReads(e, off, d.alloc.Allocation?)
        else named + SearchReads(d, n, off + e.length, key)
  }

  /** The lookup goes on to the entry behind this one. */
  predicate Passes(d: Directory, n: Node, off: nat, key: seq<word>)
    requires Shape(d)
  {
    var e := EntryAt(n.bytes, off);
    && e.length > 0 && off + e.length <= n.last && !e.end && NameInside(e)
    && Order(d, key, e.name) >= 0 && (Order(d, key, e.name) == 0 ==> !IsReal(e))
  }

  /** The last entry the lookup comes to. */
  function SearchLast(d: Directory, n: Node, off: nat, key: seq<word>): nat
    requires Shape(d) && off < n.last
    decreases n.last - off
  {
    var next := off + EntryAt(n.bytes, off).length;
    if Passes(d, n, off, key) && next < n.last then SearchLast(d, n, next, key) else off
  }

  predicate SearchFits(n: Node, off: nat) {
    var e := EntryAt(n.bytes, off);
    && off + 10 <= n.size
    && (0 < e.length <= n.last - off ==> off + 14 <= n.size && (!e.end ==> off + 81 <= n.size))
  }

  lemma FixedReads(n: Node, off: nat, e: Entry)
    requires Accepted(n) && e == EntryAt(n.bytes, off) && 0 < e.length && off + e.length <= n.last
    ensures Inside(HeaderReads(e, off), n.size) <==> off + 14 <= n.size
    ensures Inside(HeaderReads(e, off) + [Access(off, 8), Access(off + 80, 1)], n.size) <==> off + 81 <= n.size
    ensures Inside(PointerReads(e, off, true), n.size) && Inside(PointerReads(e, off, false), n.size)
    ensures NameInside(e) ==> off + 81 <= n.size && Inside([Access(off + NAME_AT, 2 * |e.name|)], n.size)
  {
    hide EntryAt;
    assert Access(off + 12, 2) in HeaderReads(e, off);
    assert Access(off + 80, 1) in HeaderReads(e, off) + [Access(off, 8), Access(off + 80, 1)];
  }

  lemma LengthRead(off: nat, size: nat)
    ensures Inside([Access(off + 8, 2)], size) <==> off + 10 <= size
  {
    assert Access(off + 8, 2) in [Access(off + 8, 2)];
  }

  lemma SearchStops(d: Directory, n: Node, off: nat, key: seq<word>, e: Entry)
    requires Shape(d) && Accepted(n) && e == EntryAt(n.bytes, off) && off < n.last && !Passes(d, n, off, key)
    ensures Inside(SearchReads(d, n, off, key), n.size) <==> SearchFits(n, off)
  {
    LengthRead(off, n.size);
    hide EntryAt, Order, IsReal, Inside, HeaderReads, PointerReads, Shape;
    if e.length > 0 && off + e.length <= n.last {
      FixedReads(n, off, e);
      var fixed := HeaderReads(e, off) + [Access(off, 8), Access(off + 80, 1)];
      var name := [Access(off + NAME_AT, 2 * |e.name|)];
      InsideJoin(HeaderReads(e, off), PointerReads(e, off, d.alloc.Allocation?), n.size);
      InsideJoin(fixed, name, n.size);
      InsideJoin(fixed + name, PointerReads(e, off, d.alloc.Allocation?), n.size);
    }
  }

  lemma SearchGoesOn(d: Directory, n: Node, off: nat, key: seq<word>, e: Entry)
    requires Shape(d) && Accepted(n) && e == EntryAt(n.bytes, off) && off < n.last && Passes(d, n, off, key)
    ensures Inside(SearchReads(d, n, off, key), n.size) <==> Inside(SearchReads(d, n, off + e.length, key), n.size)
  {
    hide EntryAt, Order, IsReal, Inside, HeaderReads, PointerReads, Shape;
    FixedReads(n, off, e);
    var fixed := HeaderReads(e, off) + [Access(off, 8), Access(off + 80, 1)];
    var name := [Access(off + NAME_AT, 2 * |e.name|)];
    InsideJoin(fixed, name, n.size);
    InsideJoin(fixed + name, SearchReads(d, n, off + e.length, key), n.size);
  }

  /** The exact condition for a lookup: of the last entry it comes to the header lies inside the buffer,
      and the length of its name as well if there is one. */
  lemma {:induction false} SearchReadsInside(d: Directory, n: Node, off: nat, key: seq<word>)
    requires Shape(d) && Accepted(n) && off < n.last
    ensures Inside(SearchReads(d, n, off, key), n.size) <==> SearchFits(n, SearchLast(d, n, off, key))
    decreases n.last - off
  {
    hide EntryAt, Inside, SearchReads, SearchFits, Order, Shape;
    var e := EntryAt(n.bytes, off);
    if !Passes(d, n, off, key) {
      SearchStops(d, n, off, key, e);
    } else {
      SearchGoesOn(d, n, off, key, e);
      if off + e.length < n.last {
        SearchReadsInside(d, n, off + e.length, key);
      } else {
        LastPassed(d, n, off, key, e);
      }
    }
  }

  lemma LastPassed(d: Directory, n: Node, off: nat, key: seq<word>, e: Entry)
    requires Shape(d) && Accepted(n) && e == EntryAt(n.bytes, off) && off < n.last && Passes(d, n, off, key)
    requires off + e.length >= n.last
    ensures Inside(SearchReads(d, n, off + e.length, key), n.size) && SearchFits(n, off)
  {
    hide EntryAt, Order, Shape, IsReal;
  }

  // ---------------------------------------------------------------- other memory behind the buffers

  /** The same index read into other places. */
  ghost predicate SameImage(d: Directory, d': Directory) {
    d' == d.(behindRoot := d'.behindRoot, behindBlock := d'.behindBlock)
  }

  predicate SameNode(n: Node, m: Node) {
    && m.size == n.size && m.first == n.first && m.last == n.last && m.large == n.large
    && n.size <= |n.bytes| && n.size <= |m.bytes| && m.bytes[..n.size] == n.bytes[..n.size]
  }

  lemma SameAt(n: Node, m: Node, off: nat)
    requires SameNode(n, m) && off + 2 <= n.size
    ensures At(n.bytes, off) == At(m.bytes, off)
  {
    assert n.bytes[..n.size][off] == n.bytes[off] && n.bytes[..n.size][off + 1] == n.bytes[off + 1];
    assert m.bytes[..n.size][off] == m.bytes[off] && m.bytes[..n.size][off + 1] == m.bytes[off + 1];
  }

  lemma SameHeader(n: Node, m: Node, off: nat, e: Entry, f: Entry)
    requires SameNode(n, m) && e == EntryAt(n.bytes, off) && f == EntryAt(m.bytes, off) && off + 14 <= n.size
    ensures f.length == e.length && f.node == e.node && f.end == e.end
    ensures 8 <= e.length && off + e.length <= n.size ==> f.sub == e.sub
  {
    hide At, SameNode;
    SameAt(n, m, off + 8);
    SameAt(n, m, off + 12);
    if 8 <= e.length && off + e.length <= n.size {
      var tail := off + e.length - 8;
      SameAt(n, m, tail);
      SameAt(n, m, tail + 2);
      SameAt(n, m, tail + 4);
      SameAt(n, m, tail + 6);
    }
  }

  lemma SameEntry(n: Node, m: Node, off: nat, e: Entry, f: Entry)
    requires SameNode(n, m) && e == EntryAt(n.bytes, off) && f == EntryAt(m.bytes, off)
    requires ENTRY_SIZE <= e.length && off + e.length <= n.size && NameInside(e)
    ensures e == f
  {
    hide At, SameNode;
    SameHeader(n, m, off, e, f);
    SameAt(n, m, off);
    SameAt(n, m, off + 2);
    SameAt(n, m, off + 4);
    SameAt(n, m, off + 80);
    forall i: nat | i < |e.name| ensures At(n.bytes, off + NAME_AT + 2 * i) == At(m.bytes, off + NAME_AT + 2 * i) {
      SameAt(n, m, off + NAME_AT + 2 * i);
    }
    assert f.name == e.name;
  }

  lemma Front(b: seq<byte>, x: seq<byte>)
    ensures |b| <= |b + x| && (b + x)[..|b|] == b
  {
  }

  lemma SameLoad(d: Directory, d': Directory, vcn: nat)
    requires SameImage(d, d') && Shape(d)
    ensures Load(d', vcn).Some? <==> Load(d, vcn).Some?
    ensures Load(d, vcn).Some? ==> SameNode(Load(d, vcn).value, Load(d', vcn).value) && Accepted(Load(d, vcn).value)
  {
    hide Fix, BlockOk, DWord;
    if Load(d, vcn).Some? {
      var pos := vcn * d.bytesPerCluster % 0x1_0000_0000_0000_0000;
      var b := Fix(d.g, d.alloc.stream[pos..pos + d.g.bytesPerIndexRecord]).1;
      Front(b, d.behindBlock(vcn));
      Front(b, d'.behindBlock(vcn));
    }
  }

  lemma SameUse(d: Directory, d': Directory, vcn: nat)
    requires SameImage(d, d') && Shape(d)
    ensures InUse(d', vcn) <==> InUse(d, vcn)
  {
    hide BitSet;
  }

  lemma SameRoot(d: Directory, d': Directory)
    requires SameImage(d, d') && RootNode(d).Some?
    ensures RootNode(d').Some? && SameNode(RootNode(d).value, RootNode(d').value) && Accepted(RootNode(d).value)
  {
  }

  /** The header of every entry, here and below, lies inside its buffer; in a well-formed tree only that
      of an end entry can stick out. */
  predicate HeadersInside(d: Directory, n: Node, off: nat, depth: nat)
    requires Shape(d) && depth <= MAX_DEPTH
    decreases MAX_DEPTH - depth, n.last - off
  {
    var e := EntryAt(n.bytes, off);
    off < n.last ==>
      && off + 14 <= n.size
      && (Leads(d, e) && depth < MAX_DEPTH && Load(d, e.sub).Some?
          ==> HeadersInside(d, Load(d, e.sub).value, Load(d, e.sub).value.first, depth + 1))
      && (!e.end && e.length > 0 ==> HeadersInside(d, n, off + e.length, depth))
  }

  lemma WellFormedIs(d: Directory, n: Node, off: nat, depth: nat, e: Entry)
    requires Shape(d) && depth <= MAX_DEPTH && e == EntryAt(n.bytes, off)
    ensures WellFormed(d, n, off, depth) <==>
            && off < n.last && 0 < e.length && off + e.length <= n.last
            && (e.node ==> Leads(d, e) && n.large && depth < MAX_DEPTH && InUse(d, e.sub) && Load(d, e.sub).Some?
                           && WellFormed(d, Load(d, e.sub).value, Load(d, e.sub).value.first, depth + 1))
            && (!e.end ==> ENTRY_SIZE <= e.length && NameInside(e) && WellFormed(d, n, off + e.length, depth))
  {
    hide EntryAt, Load, InUse, Leads, NameInside, Shape;
  }

  lemma HeadersAre(d: Directory, n: Node, off: nat, depth: nat, e: Entry)
    requires Shape(d) && depth <= MAX_DEPTH && e == EntryAt(n.bytes, off) && WellFormed(d, n, off, depth)
    requires HeadersInside(d, n, off, depth)
    ensures off + 14 <= n.size
    ensures e.node ==> WellFormed(d, Load(d, e.sub).value, Load(d, e.sub).value.first, depth + 1)
                       && HeadersInside(d, Load(d, e.sub).value, Load(d, e.sub).value.first, depth + 1)
    ensures !e.end ==> WellFormed(d, n, off + e.length, depth) && HeadersInside(d, n, off + e.length, depth)
  {
    hide EntryAt, Load, InUse, Leads, NameInside, Shape;
  }

  /** Three walks over a tree agree with those over the same tree in other memory. */
  ghost predicate SameWalks(d: Directory, d': Directory, n: Node, m: Node, off: nat, depth: nat)
    requires Shape(d) && Shape(d') && depth <= MAX_DEPTH
  {
    && WellFormed(d', m, off, depth)
    && InOrder(d', m, off, depth) == InOrder(d, n, off, depth)
    && Own(m, off) == Own(n, off)
    && FilesBelow(d', m, off, depth) == FilesBelow(d, n, off, depth)
  }

  lemma LeadsIs(d: Directory, d': Directory, e: Entry, f: Entry)
    requires SameImage(d, d') && f.node == e.node && f.length == e.length
    ensures Leads(d', f) <==> Leads(d, e)
    ensures Leads(d, e) ==> e.length >= 8
  {
  }

  /** What lies under an entry, when the blocks it leads to agree. */
  lemma SameUnder(d: Directory, d': Directory, e: Entry, f: Entry, depth: nat)
    requires SameImage(d, d') && Shape(d) && Shape(d') && depth <= MAX_DEPTH
    requires f.node == e.node && f.length == e.length && (e.node && e.length >= 8 ==> f.sub == e.sub)
    requires e.node && depth < MAX_DEPTH && Load(d, e.sub).Some? && Load(d', e.sub).Some? ==>
               var c, c' := Load(d, e.sub).value, Load(d', e.sub).value;
               c'.first == c.first && SameWalks(d, d', c, c', c.first, depth + 1)
    ensures Below(d', f, depth) == Below(d, e, depth) && FilesUnder(d', f, depth) == FilesUnder(d, e, depth)
  {
    LeadsIs(d, d', e, f);
    SameLoad(d, d', e.sub);
    hide Load, InUse, WellFormed, InOrder, FilesBelow, Own, Files, Leads, Shape, SameImage;
  }

  lemma {:induction false} SameTree(d: Directory, d': Directory, n: Node, m: Node, off: nat, depth: nat)
    requires SameImage(d, d') && Shape(d) && Shape(d') && depth <= MAX_DEPTH && SameNode(n, m) && Accepted(n)
    requires WellFormed(d, n, off, depth) && HeadersInside(d, n, off, depth)
    ensures SameWalks(d, d', n, m, off, depth)
    decreases MAX_DEPTH - depth, n.last - off
  {
    var e, f := EntryAt(n.bytes, off), EntryAt(m.bytes, off);
    hide EntryAt, Load, InUse, Leads, NameInside, Shape, WellFormed, HeadersInside, InOrder, Own, FilesBelow, Below,
      FilesUnder, SameImage;
    WellFormedIs(d, n, off, depth, e);
    HeadersAre(d, n, off, depth, e);
    SameHeader(n, m, off, e, f);
    LeadsIs(d, d', e, f);
    if e.node {
      SameLoad(d, d', e.sub);
      SameUse(d, d', e.sub);
      var c, c' := Load(d, e.sub).value, Load(d', e.sub).value;
      SameTree(d, d', c, c', c.first, depth + 1);
    }
    SameUnder(d, d', e, f, depth);
    InOrderStep(d, n, off, depth, e);
    OwnStep(n, off, e);
    FilesBelowStep(d, n, off, depth, e);
    InOrderStep(d', m, off, depth, f);
    OwnStep(m, off, f);
    FilesBelowStep(d', m, off, depth, f);
    WellFormedIs(d', m, off, depth, f);
    if !e.end {
      SameEntry(n, m, off, e, f);
      SameTree(d, d', n, m, off + e.length, depth);
    }
  }

  /** In a well-formed node all but the end entry's header is inside anyway. */
  lemma {:induction false} WellFormedReads(d: Directory, n: Node, off: nat, depth: nat, follow: bool, collecting: bool)
    requires Shape(d) && depth <= MAX_DEPTH && Accepted(n) && WellFormed(d, n, off, depth)
    ensures Chain(n, off) != []
    ensures Inside(LoopReads(n, off, follow, collecting), n.size) <==> Chain(n, off)[|Chain(n, off)| - 1] + 14 <= n.size
    decreases n.last - off
  {
    var e := EntryAt(n.bytes, off);
    hide EntryAt, Inside, Load, InUse, Leads, NameInside, Shape, WellFormed, LoopReads, HeaderReads, PointerReads,
      FileReads, IsReal;
    WellFormedIs(d, n, off, depth, e);
    ReadsStep(n, off, follow, collecting, e);
    OwnReads(n, off, follow, collecting, e);
    if !e.end {
      WellFormedReads(d, n, off + e.length, depth, follow, collecting);
    }
  }

  lemma SameFold(d: Directory, d': Directory, x: seq<word>)
    requires SameImage(d, d') && Shape(d)
    ensures Shape(d') && Fold(d', x) == Fold(d, x)
  {
  }

  lemma SameAscending(d: Directory, d': Directory, s: seq<Entry>)
    requires SameImage(d, d') && Shape(d) && Shape(d') && Ascending(d, s)
    ensures Ascending(d', s)
  {
    forall x: seq<word> ensures Fold(d', x) == Fold(d, x) {
      SameFold(d, d', x);
    }
    hide Fold, SameImage, Shape;
    forall i, j | 0 <= i < j < |s| ensures Order(d', s[i].name, s[j].name) < 0 {
      assert Order(d, s[i].name, s[j].name) < 0;
    }
  }

  lemma SameFind(d: Directory, d': Directory, key: seq<word>)
    requires SameImage(d, d') && Sound(d) && Sound(d') && Entries(d') == Entries(d)
    ensures Find(d', key) == Find(d, key)
  {
    LookupIsMembership(d, key);
    LookupIsMembership(d', key);
    forall x: seq<word> ensures Fold(d', x) == Fold(d, x) {
      SameFold(d, d', x);
    }
    hide Fold, Find, InOrder, WellFormed, RootNode, SameImage, IsReal, Ascending;
  }

  /** On a sound index with its headers inside, no walk depends on the memory behind the buffers. */
  lemma MemoryMakesNoDifference(d: Directory, d': Directory, key: seq<word>, k: nat, max: nat)
    requires Sound(d) && SameImage(d, d') && HeadersInside(d, RootNode(d).value, RootNode(d).value.first, 0)
    ensures Sound(d') && Entries(d') == Entries(d)
    ensures Find(d', key) == Find(d, key)
    ensures ListNext(d', k) == ListNext(d, k)
    ensures CollectDir(d', max) == CollectDir(d, max)
  {
    SameRoot(d, d');
    SameFold(d, d', []);
    var n, m := RootNode(d).value, RootNode(d').value;
    hide RootNode, WellFormed, Load, EntryAt, InOrder, Own, FilesBelow, Find, ListNext, CollectDir, Files, SameImage,
      HeadersInside, Shape, Ascending;
    SameTree(d, d', n, m, n.first, 0);
    SameAscending(d, d', Entries(d));
    SameFind(d, d', key);
    EnumerationIsPreOrder(d, k);
    EnumerationIsPreOrder(d', k);
    CollectDirIsInOrder(d, max);
    CollectDirIsInOrder(d', max);
  }
}
