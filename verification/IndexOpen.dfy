/** Opening by name (src/ntfs_file.c, src/ntfs_btree.c): each component of a path is looked up with its
    exact case first and then in any case.  An index is sorted without regard to case, so the exact
    descent can miss what is there, but what it finds is right, and the second lookup makes up for it. */
module IndexOpen {
  import opened ByteData
  import opened IndexTree
  import opened UpdateSequence

  function Identity(): (t: seq<word>)
    ensures |t| == 0x1_0000 && forall c: word :: t[c] == c
  {
    seq(0x1_0000, i requires 0 <= i < 0x1_0000 => i as word)
  }

  /** The directory as a lookup compares names: when case matters every character stands for itself. */
  function As(d: Directory, caseSensitive: bool): (c: Directory)
    ensures Shape(d) ==> Shape(c)
  {
    if caseSensitive then d.(upcase := Identity()) else d
  }

  /** The file that a component of a path leads to. */
  function Open(d: Directory, name: seq<word>, caseSensitive: bool): int
    requires Shape(d)
  {
    var exact := Find(As(d, true), name);
    if exact == NOT_FOUND && !caseSensitive then Find(As(d, false), name) else exact
  }

  lemma SameRoot(d: Directory, t: seq<word>)
    ensures RootNode(d.(upcase := t)) == RootNode(d)
  {
    hide HeaderOk, DWord;
  }

  lemma SameLoad(d: Directory, t: seq<word>, vcn: nat)
    requires Shape(d) && |t| == 0x1_0000
    ensures Load(d.(upcase := t), vcn) == Load(d, vcn)
  {
    hide Fix, BlockOk, DWord;
  }

  lemma SameUse(d: Directory, t: seq<word>, vcn: nat)
    requires Shape(d) && |t| == 0x1_0000
    ensures InUse(d.(upcase := t), vcn) == InUse(d, vcn)
  {
    hide BitSet;
  }

  /** How names are compared matters to nothing else that is read. */
  lemma SameReads(d: Directory, caseSensitive: bool)
    requires Shape(d)
    ensures Shape(As(d, caseSensitive)) && As(d, false) == d
    ensures RootNode(As(d, caseSensitive)) == RootNode(d)
  {
    hide Identity, RootNode;
    SameRoot(d, Identity());
  }

  lemma SameLeads(d: Directory, caseSensitive: bool, e: Entry)
    ensures Leads(As(d, caseSensitive), e) == Leads(d, e)
  {
    hide Identity;
  }

  lemma SameSub(d: Directory, caseSensitive: bool, vcn: nat, key: seq<word>, depth: nat)
    requires Shape(d) && depth <= MAX_DEPTH
    ensures Shape(As(d, caseSensitive))
    ensures SearchSub(As(d, caseSensitive), vcn, key, depth) ==
            if depth >= MAX_DEPTH || !InUse(d, vcn) || Load(d, vcn).None? then NOT_FOUND
            else Search(As(d, caseSensitive), Load(d, vcn).value, Load(d, vcn).value.first, key, depth + 1)
  {
    hide Identity, Load, InUse, Search;
    SameLoad(d, Identity(), vcn);
    SameUse(d, Identity(), vcn);
  }

  lemma ExactName(d: Directory, e: Entry, name: seq<word>)
    requires Shape(d)
    ensures SameName(As(d, true), e, name) <==> e.name == name
  {
    assert forall x: seq<word> :: Fold(As(d, true), x) == x;
  }

  /** The exact lookup found such an entry, or nothing. */
  ghost predicate Hit(s: seq<Entry>, name: seq<word>, r: int) {
    r == NOT_FOUND || exists e :: e in s && IsReal(e) && e.name == name && r == e.file
  }

  lemma HitAround(below: seq<Entry>, e: Entry, rest: seq<Entry>, name: seq<word>, r: int)
    ensures Hit(below, name, r) || Hit(rest, name, r) || (IsReal(e) && e.name == name && r == e.file)
            ==> Hit(below + [e] + rest, name, r)
  {
    hide IsReal;
    assert forall x :: x in below + [e] + rest <==> x in below || x == e || x in rest;
  }

  lemma {:induction false} ExactHits(d: Directory, n: Node, off: nat, name: seq<word>, depth: nat)
    requires Shape(d) && depth <= MAX_DEPTH && WellFormed(d, n, off, depth)
    ensures Shape(As(d, true)) && Hit(InOrder(d, n, off, depth), name, Search(As(d, true), n, off, name, depth))
    decreases MAX_DEPTH - depth, n.last - off, 0
  {
    hide *;
    CapOfDepth();
    var x, e := As(d, true), EntryAt(n.bytes, off);
    SameLeads(d, true, e);
    Unfold(d, n, off, depth);
    SearchStep(x, n, off, name, depth, e);
    NothingHit(Below(d, e, depth), name);
    if e.node {
      ExactHitsSub(d, e, name, depth);
    }
    if !e.end {
      ExactHits(d, n, off + e.length, name, depth);
      KeySide(x, name, e, e);
      ExactName(d, e, name);
      HitAround(Below(d, e, depth), e, InOrder(d, n, off + e.length, depth), name, Search(x, n, off, name, depth));
    }
  }

  lemma NothingHit(s: seq<Entry>, name: seq<word>)
    ensures Hit(s, name, NOT_FOUND)
  {
  }

  lemma {:induction false} ExactHitsSub(d: Directory, e: Entry, name: seq<word>, depth: nat)
    requires Shape(d) && depth < MAX_DEPTH && Leads(d, e) && InUse(d, e.sub) && Load(d, e.sub).Some?
    requires WellFormed(d, Load(d, e.sub).value, Load(d, e.sub).value.first, depth + 1)
    ensures Shape(As(d, true)) && Hit(Below(d, e, depth), name, SearchSub(As(d, true), e.sub, name, depth))
    decreases MAX_DEPTH - depth, 0, 0
  {
    SameSub(d, true, e.sub, name, depth);
    hide WellFormed, InUse, Load, InOrder, Search, SearchSub, Hit, As, Identity, Shape;
    var m := Load(d, e.sub).value;
    ExactHits(d, m, m.first, name, depth + 1);
  }

  // ---------------------------------------------------------------- when the exact lookup finds

  predicate SameSign(x: int, y: int) {
    (x < 0 <==> y < 0) && (x > 0 <==> y > 0)
  }

  /** At an entry, exact case and any case send a lookup the same way. */
  predicate SameTurn(d: Directory, e: Entry, name: seq<word>)
    requires Shape(d)
  {
    SameSign(Order(d, name, e.name), Order(As(d, true), name, e.name))
  }

  /** Wherever a lookup in any case compares, from `off` on and below, exact case takes the same turn. */
  predicate Agree(d: Directory, n: Node, off: nat, name: seq<word>, depth: nat)
    requires Shape(d) && depth <= MAX_DEPTH
    decreases MAX_DEPTH - depth, n.last - off, 0
  {
    var e := EntryAt(n.bytes, off);
    if off >= n.last || e.length == 0 || off + e.length > n.last then true
    else if e.end then Leads(d, e) ==> AgreeSub(d, e.sub, name, depth)
    else if !NameInside(e) then true
    else
      var cmp := Order(d, name, e.name);
      && SameTurn(d, e, name)
      && (if cmp == 0 && IsReal(e) then true
          else if cmp < 0 then Leads(d, e) ==> AgreeSub(d, e.sub, name, depth)
          else Agree(d, n, off + e.length, name, depth))
  }

  predicate AgreeSub(d: Directory, vcn: nat, name: seq<word>, depth: nat)
    requires Shape(d) && depth <= MAX_DEPTH
    decreases MAX_DEPTH - depth, 0, 0
  {
    if depth >= MAX_DEPTH || !InUse(d, vcn) || Load(d, vcn).None? then true
    else Agree(d, Load(d, vcn).value, Load(d, vcn).value.first, name, depth + 1)
  }

  /** One turn of following both lookups. */
  lemma AgreeStep(d: Directory, n: Node, off: nat, name: seq<word>, depth: nat)
    requires Shape(d) && depth <= MAX_DEPTH && WellFormed(d, n, off, depth)
    ensures var e := EntryAt(n.bytes, off);
            var below := e.node ==> AgreeSub(d, e.sub, name, depth);
            var cmp := Order(d, name, e.name);
            && (e.end ==> (Agree(d, n, off, name, depth) <==> below))
            && (!e.end ==> (Agree(d, n, off, name, depth) <==>
                            && SameTurn(d, e, name)
                            && (if cmp == 0 && IsReal(e) then true else if cmp < 0 then below
                                else Agree(d, n, off + e.length, name, depth))))
  {
    hide EntryAt, Load, InUse, Order, SameTurn, AgreeSub, NameInside, IsReal;
  }

  /** A search in any case or in exact case takes one turn at an entry. */
  lemma ExactStep(d: Directory, n: Node, off: nat, name: seq<word>, depth: nat)
    requires Shape(d) && depth <= MAX_DEPTH && WellFormed(d, n, off, depth)
    ensures Shape(As(d, true))
    ensures var x, e := As(d, true), EntryAt(n.bytes, off);
            var below := if e.node then SearchSub(x, e.sub, name, depth) else NOT_FOUND;
            var cmp := Order(x, name, e.name);
            Search(x, n, off, name, depth) ==
            if e.end || cmp < 0 then below
            else if cmp == 0 && IsReal(e) then e.file
            else Search(x, n, off + e.length, name, depth)
  {
    hide *;
    SameReads(d, true);
    var x, e := As(d, true), EntryAt(n.bytes, off);
    SameLeads(d, true, e);
    Unfold(d, n, off, depth);
    SearchStep(x, n, off, name, depth, e);
  }

  /** Where no entry has the name in any case, the exact lookup finds nothing either. */
  lemma NoHit(d: Directory, s: seq<Entry>, name: seq<word>, r: int)
    requires Shape(d) && NoneMatches(d, s, name) && Hit(s, name, r)
    ensures r == NOT_FOUND
  {
    hide Fold;
  }

  /** Which part of an ascending list an entry of that name is in, and how exact case compares it. */
  lemma WhichPart(d: Directory, below: seq<Entry>, e: Entry, rest: seq<Entry>, t: Entry)
    requires Shape(d) && Ascending(d, below + [e] + rest) && t in below + [e] + rest
    ensures Shape(As(d, true)) && Ascending(d, below) && Ascending(d, rest)
    ensures (t in below && Order(d, t.name, e.name) < 0 && NoneMatches(d, rest, t.name))
            || (t == e && Order(d, t.name, e.name) == 0 && Order(As(d, true), t.name, e.name) == 0)
            || (t in rest && Order(d, t.name, e.name) > 0 && NoneMatches(d, below, t.name))
    ensures Order(As(d, true), t.name, e.name) == 0 ==> Order(d, t.name, e.name) == 0
  {
    SameReads(d, true);
    SplitAt(d, below, e, rest, t.name);
    KeySide(As(d, true), t.name, e, e);
    ExactName(d, e, t.name);
    hide Order, Fold, Ascending, As;
    assert SameName(d, t, t.name);
  }

  /** In a well-formed tree the exact lookup of a name that is there finds it exactly when it takes
      every turn that a lookup in any case takes. */
  lemma {:induction false} ExactFinds(d: Directory, n: Node, off: nat, t: Entry, depth: nat)
    requires Shape(d) && depth <= MAX_DEPTH && WellFormed(d, n, off, depth) && IsReal(t)
    requires Ascending(d, InOrder(d, n, off, depth)) && t in InOrder(d, n, off, depth)
    ensures Shape(As(d, true))
    ensures Search(As(d, true), n, off, t.name, depth) != NOT_FOUND <==> Agree(d, n, off, t.name, depth)
    decreases MAX_DEPTH - depth, n.last - off, 0
  {
    hide *;
    CapOfDepth();
    var e := EntryAt(n.bytes, off);
    Unfold(d, n, off, depth);
    ExactStep(d, n, off, t.name, depth);
    AgreeStep(d, n, off, t.name, depth);
    var below := Below(d, e, depth);
    if e.end {
      ExactFindsSub(d, e, t, depth);
    } else {
      var next := off + e.length;
      var rest := InOrder(d, n, next, depth);
      WhichPart(d, below, e, rest, t);
      TurnIs(d, e, t.name);
      RealIsFound(t);
      if Order(d, t.name, e.name) > 0 {
        ExactFinds(d, n, next, t, depth);
        if e.node {
          ExactHitsSub(d, e, t.name, depth);
          NoHit(d, below, t.name, SearchSub(As(d, true), e.sub, t.name, depth));
        }
      } else if Order(d, t.name, e.name) < 0 {
        ExactFindsSub(d, e, t, depth);
        ExactHits(d, n, next, t.name, depth);
        NoHit(d, rest, t.name, Search(As(d, true), n, next, t.name, depth));
      }
    }
  }

  lemma TurnIs(d: Directory, e: Entry, name: seq<word>)
    requires Shape(d)
    ensures Shape(As(d, true))
    ensures var x, y := Order(d, name, e.name), Order(As(d, true), name, e.name);
            SameTurn(d, e, name) <==> (x < 0 <==> y < 0) && (x > 0 <==> y > 0)
  {
    hide Order, Identity;
  }

  lemma RealIsFound(t: Entry)
    ensures IsReal(t) ==> t.file != NOT_FOUND
  {
  }

  lemma {:induction false} ExactFindsSub(d: Directory, e: Entry, t: Entry, depth: nat)
    requires Shape(d) && depth <= MAX_DEPTH && IsReal(t)
    requires e.node ==> depth < MAX_DEPTH && Leads(d, e) && InUse(d, e.sub) && Load(d, e.sub).Some?
                        && WellFormed(d, Load(d, e.sub).value, Load(d, e.sub).value.first, depth + 1)
    requires !e.node ==> Below(d, e, depth) == []
    requires t in Below(d, e, depth) && Ascending(d, Below(d, e, depth))
    ensures Shape(As(d, true)) && e.node
    ensures SearchSub(As(d, true), e.sub, t.name, depth) != NOT_FOUND <==> AgreeSub(d, e.sub, t.name, depth)
    decreases MAX_DEPTH - depth, 0, 0
  {
    SameSub(d, true, e.sub, t.name, depth);
    hide WellFormed, InUse, Load, InOrder, Search, SearchSub, As, Identity, Shape, Ascending, Agree, IsReal;
    var m := Load(d, e.sub).value;
    ExactFinds(d, m, m.first, t, depth + 1);
  }

  /** The turns a lookup in any case takes are those of exact case. */
  predicate Turns(d: Directory, name: seq<word>)
    requires Shape(d) && RootNode(d).Some?
  {
    Agree(d, RootNode(d).value, RootNode(d).value.first, name, 0)
  }

  /** The exact lookup on a sound index: it finds the entry of exactly that name if there is one and
      every turn on the way to it is the same in exact case; otherwise it finds nothing. */
  lemma ExactFindsIff(d: Directory, name: seq<word>)
    requires Sound(d)
    ensures Shape(As(d, true))
    ensures Find(As(d, true), name) != NOT_FOUND
            <==> Turns(d, name) && exists t :: t in Entries(d) && IsReal(t) && t.name == name
    ensures forall t :: t in Entries(d) && IsReal(t) && t.name == name ==>
              Find(As(d, true), name) == if Turns(d, name) then t.file else NOT_FOUND
  {
    SameReads(d, true);
    var n := RootNode(d).value;
    hide WellFormed, InUse, Load, EntryAt, InOrder, Search, Ascending, As, Identity, Shape, RootNode, Leads, Fold,
      Agree, IsReal;
    ExactHits(d, n, n.first, name, 0);
    var r := Find(As(d, true), name);
    forall t | t in Entries(d) && IsReal(t) && t.name == name
      ensures r == if Turns(d, name) then t.file else NOT_FOUND
    {
      ExactFinds(d, n, n.first, t, 0);
      if r != NOT_FOUND {
        var e :| e in Entries(d) && IsReal(e) && e.name == name && r == e.file;
        OneOfEachName(d, Entries(d), e, t, name);
      }
    }
    forall t ensures IsReal(t) ==> t.file != NOT_FOUND {
      RealIsFound(t);
    }
  }

  /** On a sound index trying the exact name first changes nothing: any case decides. */
  lemma OpenIsFind(d: Directory, name: seq<word>)
    requires Sound(d)
    ensures Open(d, name, false) == Find(d, name)
    ensures Open(d, name, true) != NOT_FOUND ==>
              && Open(d, name, true) == Find(d, name)
              && exists e :: e in Entries(d) && IsReal(e) && e.name == name && e.file == Find(d, name)
  {
    SameReads(d, true);
    var n := RootNode(d).value;
    hide WellFormed, InUse, Load, EntryAt, InOrder, Search, Ascending, As, Identity, Shape, RootNode, Leads;
    ExactHits(d, n, n.first, name, 0);
    LookupIsMembership(d, name);
    var exact := Find(As(d, true), name);
    if exact != NOT_FOUND {
      var e :| e in Entries(d) && IsReal(e) && e.name == name && exact == e.file;
      assert SameName(d, e, name);
    }
  }
}
