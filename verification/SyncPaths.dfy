/** The walks of ec/Sync.c by path (with FsCombinePath and FsDeleteRecursive of ec/FileSystem.c).  A path has room for
    511 characters; a name that does not fit is left off, and what was meant for an entry falls on its
    directory.  Here the walks of SyncTrees are followed with the lengths of their two paths. */
module SyncPaths {
  import opened SyncTrees

  const MAX_PATH_LEN := 512

  // ---------------------------------------------------------------- joining

  /** Appending to a buffer of MAX_PATH_LEN characters, which stays as it is when there is no room for
      the text and its terminator. */
  function Cat(dest: string, s: string): (r: string)
    ensures |dest| < MAX_PATH_LEN ==> |r| < MAX_PATH_LEN
  {
    if |dest| + |s| < MAX_PATH_LEN then dest + s else dest
  }

  predicate Slashed(path: string) {
    path != "" && path[|path| - 1] == '\\'
  }

  /** A directory's path and an entry's name, other than "..", joined. */
  function Join(base: string, name: string): (path: string)
    ensures |base| < MAX_PATH_LEN ==> |path| < MAX_PATH_LEN
  {
    var stem := if base != "" && !Slashed(base) then Cat(base, "\\") else base;
    Cat(stem, if name != "" && name[0] == '\\' then name[1..] else name)
  }

  method CombinePath(base: string, name: string) returns (dest: string)
    ensures dest == Join(base, name)
  {
    dest := base;
    if dest != "" && !Slashed(dest) {
      dest := Cat(dest, "\\");
    }
    if name != "" && name[0] == '\\' {
      dest := Cat(dest, name[1..]);
    } else {
      dest := Cat(dest, name);
    }
  }

  /** The names a path leads through, with `last` the part read so far from the end. */
  function NamesTo(path: string, last: string): seq<string> {
    if path == "" then (if last == "" then [] else [last])
    else if Slashed(path) then NamesTo(path[..|path| - 1], "") + (if last == "" then [] else [last])
    else NamesTo(path[..|path| - 1], [path[|path| - 1]] + last)
  }

  /** The names a path leads through: its parts between backslashes, volume first. */
  function Names(path: string): seq<string> {
    NamesTo(path, "")
  }

  /** A name as a file system has it. */
  predicate IsName(name: string) {
    name != "" && '\\' !in name
  }

  /** Length of a directory's path with the backslash behind it. */
  function Stem(base: string): nat {
    if base != "" && !Slashed(base) then |base| + 1 else |base|
  }

  lemma {:induction false} NamesOfName(path: string, name: string, last: string)
    requires '\\' !in name
    ensures NamesTo(path + name, last) == NamesTo(path, name + last)
    decreases |name|
  {
    if name == "" {
      assert path + name == path && name + last == last;
    } else {
      var n := |name| - 1;
      var p := path + name;
      assert p[..|p| - 1] == path + name[..n] && p[|p| - 1] == name[n];
      NamesOfName(path, name[..n], [name[n]] + last);
      assert name[..n] + ([name[n]] + last) == name + last;
    }
  }

  lemma NamesOfSlash(path: string, last: string)
    ensures NamesTo(path + "\\", last) == Names(path) + (if last == "" then [] else [last])
  {
    var p := path + "\\";
    assert p[..|p| - 1] == path;
  }

  /** Where a joined path leads: to the entry exactly if the stem and the name fit, and otherwise to the
      directory itself; the stem of what was reached grows by the name and a backslash, or not at all. */
  lemma JoinLeads(base: string, name: string)
    requires |base| < 512 && IsName(name)
    ensures var path := Join(base, name);
            var fits := Stem(base) + |name| < 512;
            && Names(path) == (if fits then Names(base) + [name] else Names(base))
            && Stem(path) == (if fits then Stem(base) + |name| + 1 else Stem(base))
  {
    var path := Join(base, name);
    var stem := if base != "" && !Slashed(base) then Cat(base, "\\") else base;
    assert stem == base || stem == base + "\\";
    NamesOfSlash(base, "");
    NamesOfStem(stem, name);
    assert Names(stem) == Names(base);
    if |stem| + |name| < 512 {
      assert path == stem + name && path[|path| - 1] == name[|name| - 1];
      NamesOfName(stem, name, "");
      assert name + "" == name;
    }
  }

  lemma NamesOfStem(stem: string, name: string)
    requires IsName(name)
    ensures stem == "" || Slashed(stem) ==> NamesTo(stem, name) == Names(stem) + [name]
  {
    if stem != "" && Slashed(stem) {
      assert stem == stem[..|stem| - 1] + "\\";
      NamesOfSlash(stem[..|stem| - 1], name);
      NamesOfSlash(stem[..|stem| - 1], "");
    }
  }

  /** A joined path leads to the entry. */
  predicate Leads(base: string, name: string, path: string) {
    Names(path) == Names(base) + [name]
  }

  /** Both joined paths lead to their entries exactly if they fit. */
  lemma BothLead(left: string, right: string, name: string)
    requires |left| < MAX_PATH_LEN && |right| < MAX_PATH_LEN && IsName(name)
    ensures var leftPath, rightPath := Join(left, name), Join(right, name);
            && |leftPath| < MAX_PATH_LEN && |rightPath| < MAX_PATH_LEN
            && (Leads(left, name, leftPath) && Leads(right, name, rightPath) <==> Fit(Stem(left), Stem(right), name))
            && (Leads(left, name, leftPath) ==> Stem(leftPath) == Stem(left) + |name| + 1)
            && (Leads(right, name, rightPath) ==> Stem(rightPath) == Stem(right) + |name| + 1)
            && (Leads(right, name, rightPath) <==> Stem(right) + |name| < MAX_PATH_LEN)
  {
    JoinLeads(left, name);
    JoinLeads(right, name);
    hide Join, Names, Stem, IsName;
    assert |Names(left) + [name]| == |Names(left)| + 1;
    assert |Names(right) + [name]| == |Names(right)| + 1;
  }

  /** Every name of a tree is one a file system has. */
  predicate Named(items: Items) {
    match items
    case Nil => true
    case Item(name, node, rest) =>
      (Usable(name) ==> IsName(name) && (node.Dir? ==> Named(node.items))) && Named(rest)
  }

  lemma NamedParts(name: string, node: Node, rest: Items)
    requires Named(Item(name, node, rest))
    ensures Named(rest) && (Usable(name) ==> IsName(name) && (node.Dir? ==> Named(node.items)))
  {
    hide Usable, IsName;
  }

  // ---------------------------------------------------------------- the walks with their paths

  /** An entry's paths on both sides fit, given the stems of the two directories. */
  predicate Fit(a: nat, b: nat, name: string) {
    a + |name| < MAX_PATH_LEN && b + |name| < MAX_PATH_LEN
  }

  /** Every path a copy goes through below the entry fits. */
  predicate CopyFits(node: Node, a: nat, b: nat) {
    node.Dir? ==> ItemsFit(node.items, a, b)
  }

  predicate ItemsFit(items: Items, a: nat, b: nat) {
    match items
    case Nil => true
    case Item(name, node, rest) =>
      (Usable(name) ==> Fit(a, b, name) && CopyFits(node, a + |name| + 1, b + |name| + 1)) && ItemsFit(rest, a, b)
  }

  /** What a deletion leaves of an entry.  At a name that does not fit it starts over on the directory
      it is in, and comes to the same name again: it does not end, and what is left is what it has not
      come to. */
  function Left(node: Node, b: nat): Option<Node> {
    match node
    case File(_) => None
    case Dir(items) =>
      var left := LeftItems(items, b);
      if left == Nil then None else Some(Dir(left))
  }

  function LeftItems(items: Items, b: nat): Items {
    match items
    case Nil => Nil
    case Item(name, node, rest) =>
      if !Usable(name) then LeftItems(rest, b)
      else if b + |name| >= MAX_PATH_LEN then items
      else
        match Left(node, b + |name| + 1)
        case None => LeftItems(rest, b)
        case Some(left) => Item(name, left, rest)
  }

  predicate SameSize(node: Node, other: Option<Node>) {
    node.File? && other.Some? && other.value.File? && |node.data| == |other.value.data|
  }

  /** The deletion of an entry that ends with the entry gone and nothing else. */
  predicate DeletesIt(node: Node, b: nat, name: string) {
    b + |name| < MAX_PATH_LEN && Left(node, b + |name| + 1).None?
  }

  /** What any other deletion leaves: it falls on the directory itself, or does not end in the entry. */
  function Misdeleted(dst: Items, name: string, node: Node, b: nat): Items {
    if b + |name| >= MAX_PATH_LEN then LeftItems(dst, b)
    else
      match Left(node, b + |name| + 1)
      case None => Remove(dst, name)
      case Some(left) => Replace(dst, name, left)
  }

  /** The update by path.  It goes astray when an operation is given a path that does not lead to what is
      meant, and ends there: with the destination as a deletion leaves it, or else as that operation
      finds it. */
  function UpdateDirAt(src: Items, dst: Items, a: nat, b: nat, depth: nat, p: Patience, w: Walk, r: Result): Updating
    decreases src, 1
  {
    if depth > MAX_DEPTH then Updating(dst, w, r, BadBufferSize) else UpdateItemsAt(src, dst, a, b, depth, p, w, r)
  }

  function UpdateItemsAt(s: Items, dst: Items, a: nat, b: nat, depth: nat, p: Patience, w: Walk, r: Result): Updating
    decreases s, 0
  {
    match s
    case Nil => Updating(dst, w, r, Success)
    case Item(name, node, rest) =>
      if !Usable(name) then UpdateItemsAt(rest, dst, a, b, depth, p, w, r)
      else
        var (w', goOn) := Tick(p, w, node.Dir?);
        var other := Find(dst, name);
        var a', b' := a + |name| + 1, b + |name| + 1;
        if !goOn then Updating(dst, w', r, Aborted)
        else if other.None? then
          if !Fit(a, b, name) || !CopyFits(node, a', b') then Updating(dst, w', r, Astray)
          else UpdateItemsAt(rest, Put(dst, name, CopyOf(node)), a, b, depth, p, w', Copied(r, node.Dir?))
        else if BothDirs(node, other) then
          if !Fit(a, b, name) then Updating(dst, w', r, Astray)
          else
            var u := UpdateDirAt(node.items, other.value.items, a', b', depth + 1, p, w', r);
            var dst' := Replace(dst, name, Dir(u.dst));
            if u.status == Success then UpdateItemsAt(rest, dst', a, b, depth, p, u.walk, u.result)
            else u.(dst := dst')
        else if SameSize(node, other) && !Fit(a, b, name) then Updating(dst, w', r, Astray)
        else if EqualFiles(node, other)
        then UpdateItemsAt(rest, dst, a, b, depth, p, w', r.(skippedEqual := r.skippedEqual + 1))
        else if !DeletesIt(other.value, b, name)
        then Updating(Misdeleted(dst, name, other.value, b), w', r, Astray)
        else
          var r' := r.(replacedEntries := r.replacedEntries + 1);
          if !Fit(a, b, name) || !CopyFits(node, a', b') then Updating(Remove(dst, name), w', r', Astray)
          else UpdateItemsAt(rest, Put(dst, name, CopyOf(node)), a, b, depth, p, w', Copied(r', node.Dir?))
  }

  function UpdateTreeAt(src: Node, dst: Node, a: nat, b: nat, p: Patience): (Node, Updating) {
    if src.Dir? && dst.Dir? then
      var u := UpdateDirAt(src.items, dst.items, a, b, 0, p, Walk(0, 0, false), NO_RESULT);
      (Dir(u.dst), u)
    else (dst, Updating(Nil, Walk(0, 0, false), NO_RESULT, NotFound))
  }

  /** The comparison by path.  Paths are used only for what both sides have: directories to go into and
      files of one size to read. */
  function CompareDirAt(left: Items, right: Items, a: nat, b: nat, depth: nat, p: Patience, w: Walk, sum: Summary)
    : Comparison
    decreases left, 1
  {
    if depth > MAX_DEPTH then Comparison(w, sum, BadBufferSize)
    else
      var c := CompareItemsAt(left, right, a, b, depth, p, w, sum);
      if c.status != Success then c
      else c.(sum := c.sum.(rightOnly := c.sum.rightOnly + Missing(right, left)))
  }

  function CompareItemsAt(l: Items, right: Items, a: nat, b: nat, depth: nat, p: Patience, w: Walk, sum: Summary)
    : Comparison
    decreases l, 0
  {
    match l
    case Nil => Comparison(w, sum, Success)
    case Item(name, node, rest) =>
      if !Usable(name) then CompareItemsAt(rest, right, a, b, depth, p, w, sum)
      else
        var (w', goOn) := Tick(p, w, node.Dir?);
        var other := Find(right, name);
        if !goOn then Comparison(w', sum, Aborted)
        else if BothDirs(node, other) then
          var sum' := sum.(commonDirectories := sum.commonDirectories + 1);
          if !Fit(a, b, name) then Comparison(w', sum', Astray)
          else
            var c := CompareDirAt(node.items, other.value.items, a + |name| + 1, b + |name| + 1, depth + 1, p, w',
                                  sum');
            if c.status == Success then CompareItemsAt(rest, right, a, b, depth, p, c.walk, c.sum)
            else if c.status == Aborted || c.status == Astray then c
            else c.(sum := c.sum.(errors := c.sum.errors + 1))
        else if SameSize(node, other) && !Fit(a, b, name) then Comparison(w', sum, Astray)
        else
          var sum' := if other.None? then sum.(leftOnly := sum.leftOnly + 1)
                      else if EqualFiles(node, other) then sum.(equalFiles := sum.equalFiles + 1)
                      else sum.(different := sum.different + 1);
          CompareItemsAt(rest, right, a, b, depth, p, w', sum')
  }

  function CompareTreesAt(left: Node, right: Node, a: nat, b: nat, p: Patience): Comparison {
    if left.Dir? && right.Dir? then CompareDirAt(left.items, right.items, a, b, 0, p, Walk(0, 0, false), NO_SUMMARY)
    else Comparison(Walk(0, 0, false), NO_SUMMARY, NotFound)
  }

  // ---------------------------------------------------------------- the paths a walk visits

  /** The lengths of the paths of all that lies in a directory, given its stem. */
  function PathsIn(items: Items, a: nat): seq<nat> {
    match items
    case Nil => []
    case Item(name, node, rest) =>
      (if Usable(name) then [a + |name|] + PathsBelow(node, a + |name| + 1) else []) + PathsIn(rest, a)
  }

  function PathsBelow(node: Node, a: nat): seq<nat> {
    match node
    case File(_) => []
    case Dir(items) => PathsIn(items, a)
  }

  /** What is deleted, and what is copied, below an entry. */
  function BelowAll(node: Node, other: Option<Node>, a: nat, b: nat): seq<nat> {
    (if other.Some? then PathsBelow(other.value, b) else []) + PathsBelow(node, a) + PathsBelow(node, b)
  }

  /** The lengths of the paths that the update of SyncTrees visits, source and destination, in order:
      those of every entry it comes to, and of all it deletes and copies. */
  function VisitsDir(src: Items, dst: Items, a: nat, b: nat, depth: nat, p: Patience, w: Walk, r: Result): seq<nat>
    decreases src, 1
  {
    if depth > MAX_DEPTH then [] else Visits(src, dst, a, b, depth, p, w, r)
  }

  function Visits(s: Items, dst: Items, a: nat, b: nat, depth: nat, p: Patience, w: Walk, r: Result): seq<nat>
    decreases s, 0
  {
    match s
    case Nil => []
    case Item(name, node, rest) =>
      if !Usable(name) then Visits(rest, dst, a, b, depth, p, w, r)
      else
        var (w', goOn) := Tick(p, w, node.Dir?);
        var other := Find(dst, name);
        var a', b' := a + |name| + 1, b + |name| + 1;
        if !goOn then []
        else if BothDirs(node, other) then
          var u := UpdateDir(node.items, other.value.items, depth + 1, p, w', r);
          var inside := VisitsDir(node.items, other.value.items, a', b', depth + 1, p, w', r);
          var after := if u.status != Success then []
                       else Visits(rest, Replace(dst, name, Dir(u.dst)), a, b, depth, p, u.walk, u.result);
          [a + |name|, b + |name|] + inside + after
        else if EqualFiles(node, other) then
          [a + |name|, b + |name|] + Visits(rest, dst, a, b, depth, p, w', r.(skippedEqual := r.skippedEqual + 1))
        else
          [a + |name|, b + |name|] + BelowAll(node, other, a', b')
          + Visits(rest, Put(dst, name, CopyOf(node)), a, b, depth, p, w', CopiedOver(r, node, other))
  }

  ghost predicate AllFit(lengths: seq<nat>) {
    forall x :: x in lengths ==> x < MAX_PATH_LEN
  }

  lemma AllFitJoin(x: seq<nat>, y: seq<nat>)
    ensures AllFit(x + y) <==> AllFit(x) && AllFit(y)
  {
    assert forall k :: k in x + y <==> k in x || k in y;
  }

  lemma AllFitOf(lengths: seq<nat>)
    ensures lengths == [] ==> AllFit(lengths)
    ensures |lengths| == 1 ==> (AllFit(lengths) <==> lengths[0] < MAX_PATH_LEN)
    ensures |lengths| == 2 ==> (AllFit(lengths) <==> lengths[0] < MAX_PATH_LEN && lengths[1] < MAX_PATH_LEN)
  {
    assert forall k :: k in lengths <==> exists j :: 0 <= j < |lengths| && lengths[j] == k;
    if |lengths| == 1 {
      assert lengths[0] in lengths;
    }
    if |lengths| == 2 {
      assert lengths[0] in lengths && lengths[1] in lengths;
    }
  }

  /** All paths below the entry fit from that stem on. */
  ghost predicate FitsBelow(node: Node, a: nat) {
    AllFit(PathsBelow(node, a))
  }

  lemma PathsParts(name: string, node: Node, rest: Items, a: nat)
    ensures AllFit(PathsIn(Item(name, node, rest), a)) <==>
            (Usable(name) ==> a + |name| < MAX_PATH_LEN && FitsBelow(node, a + |name| + 1)) && AllFit(PathsIn(rest, a))
    ensures AllFit(PathsIn(Nil, a))
  {
    hide AllFit, Usable, PathsBelow;
    var below := PathsBelow(node, a + |name| + 1);
    AllFitOf([a + |name|]);
    AllFitOf([]);
    AllFitJoin([a + |name|], below);
    AllFitJoin([a + |name|] + below, PathsIn(rest, a));
    assert [] + PathsIn(rest, a) == PathsIn(rest, a);
  }

  lemma FitsBelowIs(node: Node, a: nat)
    ensures node.File? ==> FitsBelow(node, a)
    ensures node.Dir? ==> (FitsBelow(node, a) <==> AllFit(PathsIn(node.items, a)))
  {
  }

  lemma {:induction false} CopyFitsIff(node: Node, a: nat, b: nat)
    ensures CopyFits(node, a, b) <==> FitsBelow(node, a) && FitsBelow(node, b)
    decreases node, 1
  {
    FitsBelowIs(node, a);
    FitsBelowIs(node, b);
    hide FitsBelow, AllFit;
    if node.Dir? {
      ItemsFitIff(node.items, a, b);
    }
  }

  lemma {:induction false} ItemsFitIff(items: Items, a: nat, b: nat)
    ensures ItemsFit(items, a, b) <==> AllFit(PathsIn(items, a)) && AllFit(PathsIn(items, b))
    decreases items, 0
  {
    hide FitsBelow, AllFit, PathsIn, Usable, CopyFits;
    match items
    case Nil =>
      PathsParts("", Dir(Nil), Nil, a);
      PathsParts("", Dir(Nil), Nil, b);
    case Item(name, node, rest) =>
      PathsParts(name, node, rest, a);
      PathsParts(name, node, rest, b);
      CopyFitsIff(node, a + |name| + 1, b + |name| + 1);
      ItemsFitIff(rest, a, b);
  }

  /** A deletion ends with everything gone exactly if all paths below fit. */
  lemma {:induction false} LeftNone(node: Node, b: nat)
    ensures Left(node, b).None? <==> FitsBelow(node, b)
    decreases node, 1
  {
    FitsBelowIs(node, b);
    hide FitsBelow, AllFit, PathsIn;
    if node.Dir? {
      LeftNil(node.items, b);
    }
  }

  lemma {:induction false} LeftNil(items: Items, b: nat)
    ensures LeftItems(items, b) == Nil <==> AllFit(PathsIn(items, b))
    decreases items, 0
  {
    hide FitsBelow, AllFit, PathsIn, Usable, Left;
    match items
    case Nil =>
      PathsParts("", Dir(Nil), Nil, b);
    case Item(name, node, rest) =>
      PathsParts(name, node, rest, b);
      LeftNone(node, b + |name| + 1);
      LeftNil(rest, b);
  }

  /** What a deletion leaves it leaves again when it starts over, so it never ends. */
  lemma {:induction false} LeftAgain(items: Items, b: nat)
    ensures LeftItems(LeftItems(items, b), b) == LeftItems(items, b)
  {
    match items
    case Nil =>
    case Item(name, node, rest) =>
      hide Usable;
      LeftAgain(rest, b);
      if Usable(name) && b + |name| < MAX_PATH_LEN && node.Dir? {
        LeftAgain(node.items, b + |name| + 1);
      }
  }

  // ---------------------------------------------------------------- by path and by tree

  /** All that is done for one entry itself, but not below common directories, finds its paths. */
  predicate Goes(node: Node, other: Option<Node>, a: nat, b: nat, name: string) {
    && Fit(a, b, name)
    && (BothDirs(node, other) || EqualFiles(node, other)
        || (CopyFits(node, a + |name| + 1, b + |name| + 1)
            && (other.Some? ==> Left(other.value, b + |name| + 1).None?)))
  }

  lemma UpdateAtCases(name: string, node: Node, rest: Items, dst: Items, a: nat, b: nat, depth: nat, p: Patience,
                      w: Walk, r: Result)
    requires Usable(name)
    ensures var u := UpdateItemsAt(Item(name, node, rest), dst, a, b, depth, p, w, r);
            var (w', goOn) := Tick(p, w, node.Dir?);
            var other := Find(dst, name);
            && (!goOn ==> u == Updating(dst, w', r, Aborted))
            && (goOn && !Goes(node, other, a, b, name) ==> u.status == Astray)
            && (goOn && Goes(node, other, a, b, name) && BothDirs(node, other) ==>
                  var v := UpdateDirAt(node.items, other.value.items, a + |name| + 1, b + |name| + 1, depth + 1, p, w',
                                       r);
                  var mid := Replace(dst, name, Dir(v.dst));
                  u == if v.status == Success then UpdateItemsAt(rest, mid, a, b, depth, p, v.walk, v.result)
                       else v.(dst := mid))
            && (goOn && Goes(node, other, a, b, name) && EqualFiles(node, other) ==>
                  u == UpdateItemsAt(rest, dst, a, b, depth, p, w', r.(skippedEqual := r.skippedEqual + 1)))
            && (goOn && Goes(node, other, a, b, name) && !BothDirs(node, other) && !EqualFiles(node, other) ==>
                  u == UpdateItemsAt(rest, Put(dst, name, CopyOf(node)), a, b, depth, p, w',
                                     CopiedOver(r, node, other)))
  {
    EqualIsSameSize(node, Find(dst, name));
    hide Usable, UpdateDirAt, Put, Replace, Find, Tick, CopyOf, Copied, Equal, EqualFiles, CopyFits, Left, Misdeleted,
      Remove;
  }

  /** The same where it goes astray: which operation it is, and what that leaves. */
  lemma UpdateAtStrays(name: string, node: Node, rest: Items, dst: Items, a: nat, b: nat, depth: nat, p: Patience,
                       w: Walk, r: Result)
    requires Usable(name) && Tick(p, w, node.Dir?).1
    ensures var u := UpdateItemsAt(Item(name, node, rest), dst, a, b, depth, p, w, r);
            var w' := Tick(p, w, node.Dir?).0;
            var other := Find(dst, name);
            var fit, copies := Fit(a, b, name), CopyFits(node, a + |name| + 1, b + |name| + 1);
            && (other.None? && (!fit || !copies) ==> u == Updating(dst, w', r, Astray))
            && ((BothDirs(node, other) || SameSize(node, other)) && !fit ==> u == Updating(dst, w', r, Astray))
            && (other.Some? && !BothDirs(node, other) && !EqualFiles(node, other) && (SameSize(node, other) ==> fit) ==>
                  && (!DeletesIt(other.value, b, name) ==>
                        u == Updating(Misdeleted(dst, name, other.value, b), w', r, Astray))
                  && (DeletesIt(other.value, b, name) && (!fit || !copies) ==>
                        u == Updating(Remove(dst, name), w', r.(replacedEntries := r.replacedEntries + 1), Astray)))
  {
    EqualIsSameSize(node, Find(dst, name));
    hide Usable, UpdateDirAt, Put, Replace, Find, Tick, CopyOf, Copied, Equal, EqualFiles, CopyFits, Fit, Misdeleted,
      DeletesIt, Remove;
  }

  lemma EqualIsSameSize(node: Node, other: Option<Node>)
    ensures EqualFiles(node, other) ==> SameSize(node, other) && !BothDirs(node, other)
  {
  }

  lemma UpdateAtSkips(name: string, node: Node, rest: Items, dst: Items, a: nat, b: nat, depth: nat, p: Patience,
                      w: Walk, r: Result)
    ensures !Usable(name) ==>
              && UpdateItemsAt(Item(name, node, rest), dst, a, b, depth, p, w, r)
                 == UpdateItemsAt(rest, dst, a, b, depth, p, w, r)
              && Visits(Item(name, node, rest), dst, a, b, depth, p, w, r) == Visits(rest, dst, a, b, depth, p, w, r)
    ensures UpdateItemsAt(Nil, dst, a, b, depth, p, w, r) == Updating(dst, w, r, Success)
    ensures AllFit(Visits(Nil, dst, a, b, depth, p, w, r))
  {
    hide Usable, Find;
  }

  lemma GoesIff(node: Node, other: Option<Node>, a: nat, b: nat, name: string)
    ensures var a', b' := a + |name| + 1, b + |name| + 1;
            Goes(node, other, a, b, name) <==>
            && AllFit([a + |name|, b + |name|])
            && (BothDirs(node, other) || EqualFiles(node, other) || AllFit(BelowAll(node, other, a', b')))
  {
    var a', b' := a + |name| + 1, b + |name| + 1;
    AllFitOf([a + |name|, b + |name|]);
    AllFitOf([]);
    CopyFitsIff(node, a', b');
    var dst := if other.Some? then PathsBelow(other.value, b') else [];
    AllFitJoin(dst, PathsBelow(node, a'));
    AllFitJoin(dst + PathsBelow(node, a'), PathsBelow(node, b'));
    if other.Some? {
      LeftNone(other.value, b');
    }
    hide AllFit, EqualFiles, BothDirs, CopyFits, Left, PathsBelow;
  }

  lemma VisitsCases(name: string, node: Node, rest: Items, dst: Items, a: nat, b: nat, depth: nat, p: Patience,
                    w: Walk, r: Result)
    requires Usable(name)
    ensures var fit := AllFit(Visits(Item(name, node, rest), dst, a, b, depth, p, w, r));
            var (w', goOn) := Tick(p, w, node.Dir?);
            var other := Find(dst, name);
            && (!goOn ==> fit)
            && (goOn && !Goes(node, other, a, b, name) ==> !fit)
            && (goOn && Goes(node, other, a, b, name) && BothDirs(node, other) ==>
                  var u := UpdateDir(node.items, other.value.items, depth + 1, p, w', r);
                  fit <==> AllFit(VisitsDir(node.items, other.value.items, a + |name| + 1, b + |name| + 1, depth + 1, p,
                                            w', r))
                           && (u.status == Success ==>
                                 AllFit(Visits(rest, Replace(dst, name, Dir(u.dst)), a, b, depth, p, u.walk,
                                               u.result))))
            && (goOn && Goes(node, other, a, b, name) && EqualFiles(node, other) ==>
                  (fit <==> AllFit(Visits(rest, dst, a, b, depth, p, w', r.(skippedEqual := r.skippedEqual + 1)))))
            && (goOn && Goes(node, other, a, b, name) && !BothDirs(node, other) && !EqualFiles(node, other) ==>
                  (fit <==> AllFit(Visits(rest, Put(dst, name, CopyOf(node)), a, b, depth, p, w',
                                          CopiedOver(r, node, other)))))
  {
    var (w', goOn) := Tick(p, w, node.Dir?);
    var other := Find(dst, name);
    var here, a', b' := [a + |name|, b + |name|], a + |name| + 1, b + |name| + 1;
    GoesIff(node, other, a, b, name);
    EqualIsSameSize(node, other);
    AllFitOf([]);
    hide AllFit, Usable, UpdateDir, VisitsDir, Put, Replace, Find, Tick, CopyOf, EqualFiles, Goes, BelowAll, CopiedOver,
      SameSize;
    if !goOn {
    } else if BothDirs(node, other) {
      var inside := VisitsDir(node.items, other.value.items, a', b', depth + 1, p, w', r);
      var u := UpdateDir(node.items, other.value.items, depth + 1, p, w', r);
      var after := if u.status != Success then []
                   else Visits(rest, Replace(dst, name, Dir(u.dst)), a, b, depth, p, u.walk, u.result);
      AllFitJoin(here, inside);
      AllFitJoin(here + inside, after);
    } else if EqualFiles(node, other) {
      AllFitJoin(here, Visits(rest, dst, a, b, depth, p, w', r.(skippedEqual := r.skippedEqual + 1)));
    } else {
      var below := BelowAll(node, other, a', b');
      var after := Visits(rest, Put(dst, name, CopyOf(node)), a, b, depth, p, w', CopiedOver(r, node, other));
      AllFitJoin(here, below);
      AllFitJoin(here + below, after);
    }
  }

  /** By path an update does what it does by tree, or goes astray. */
  predicate SameUnlessAstray(at: Updating, tree: Updating, fit: bool) {
    if fit then at == tree else at.status == Astray
  }

  lemma {:induction false} UpdateDirByPath(src: Items, dst: Items, a: nat, b: nat, depth: nat, p: Patience, w: Walk,
                                           r: Result)
    ensures SameUnlessAstray(UpdateDirAt(src, dst, a, b, depth, p, w, r), UpdateDir(src, dst, depth, p, w, r),
                             AllFit(VisitsDir(src, dst, a, b, depth, p, w, r)))
    decreases src, 1
  {
    AllFitOf([]);
    hide UpdateItems, UpdateItemsAt, Visits, AllFit;
    if depth <= MAX_DEPTH {
      UpdateByPath(src, dst, a, b, depth, p, w, r);
    }
  }

  /** The walk by path is the walk by tree exactly if every path it visits fits; otherwise it goes
      astray. */
  lemma {:induction false} UpdateByPath(s: Items, dst: Items, a: nat, b: nat, depth: nat, p: Patience, w: Walk,
                                        r: Result)
    ensures SameUnlessAstray(UpdateItemsAt(s, dst, a, b, depth, p, w, r), UpdateItems(s, dst, depth, p, w, r),
                             AllFit(Visits(s, dst, a, b, depth, p, w, r)))
    decreases s, 0
  {
    hide *;
    match s
    case Nil =>
      UpdateAtSkips("", Dir(Nil), Nil, dst, a, b, depth, p, w, r);
      UpdateSkips("", Dir(Nil), Nil, dst, depth, p, w, r);
      SameIs(UpdateItemsAt(s, dst, a, b, depth, p, w, r), UpdateItems(s, dst, depth, p, w, r));
    case Item(name, node, rest) =>
      var at, tree := UpdateItemsAt(s, dst, a, b, depth, p, w, r), UpdateItems(s, dst, depth, p, w, r);
      SameIs(at, tree);
      if !Usable(name) {
        UpdateAtSkips(name, node, rest, dst, a, b, depth, p, w, r);
        UpdateSkips(name, node, rest, dst, depth, p, w, r);
        UpdateByPath(rest, dst, a, b, depth, p, w, r);
      } else {
        UpdateAtCases(name, node, rest, dst, a, b, depth, p, w, r);
        UpdateCases(name, node, rest, dst, depth, p, w, r);
        VisitsCases(name, node, rest, dst, a, b, depth, p, w, r);
        var (w', goOn) := Tick(p, w, node.Dir?);
        var other := Find(dst, name);
        BothAre(node, other);
        if !goOn || !Goes(node, other, a, b, name) {
        } else if BothDirs(node, other) {
          var a', b' := a + |name| + 1, b + |name| + 1;
          UpdateDirByPath(node.items, other.value.items, a', b', depth + 1, p, w', r);
          var v := UpdateDirAt(node.items, other.value.items, a', b', depth + 1, p, w', r);
          var u := UpdateDir(node.items, other.value.items, depth + 1, p, w', r);
          SameIs(v, u);
          if u == v && u.status == Success {
            UpdateByPath(rest, Replace(dst, name, Dir(u.dst)), a, b, depth, p, u.walk, u.result);
          }
        } else if EqualFiles(node, other) {
          UpdateByPath(rest, dst, a, b, depth, p, w', r.(skippedEqual := r.skippedEqual + 1));
        } else {
          UpdateByPath(rest, Put(dst, name, CopyOf(node)), a, b, depth, p, w', CopiedOver(r, node, other));
        }
      }
  }

  lemma SameIs(at: Updating, tree: Updating)
    ensures SameUnlessAstray(at, tree, true) <==> at == tree
    ensures SameUnlessAstray(at, tree, false) <==> at.status == Astray
  {
  }

  // ---------------------------------------------------------------- room for both trees

  lemma GoesMeans(node: Node, other: Option<Node>, a: nat, b: nat, name: string)
    requires Goes(node, other, a, b, name)
    ensures Fit(a, b, name)
    ensures BothDirs(node, other) || (FitsBelow(node, a + |name| + 1) && FitsBelow(node, b + |name| + 1))
  {
    var a', b' := a + |name| + 1, b + |name| + 1;
    CopyFitsIff(node, a', b');
    FitsBelowIs(node, a');
    FitsBelowIs(node, b');
    hide CopyFits, Left, FitsBelow, Fit, Equal;
  }

  lemma FitIs(a: nat, b: nat, name: string)
    ensures Fit(a, b, name) <==> a + |name| < MAX_PATH_LEN && b + |name| < MAX_PATH_LEN
  {
  }

  /** A successful update has visited every entry of the source, under both roots. */
  lemma {:induction false} SuccessVisitsAll(s: Items, dst: Items, a: nat, b: nat, depth: nat, p: Patience, w: Walk,
                                            r: Result)
    requires UpdateItemsAt(s, dst, a, b, depth, p, w, r).status == Success
    ensures AllFit(PathsIn(s, a)) && AllFit(PathsIn(s, b))
    decreases s, 0
  {
    hide *;
    match s
    case Nil =>
      PathsParts("", Dir(Nil), Nil, a);
      PathsParts("", Dir(Nil), Nil, b);
    case Item(name, node, rest) =>
      PathsParts(name, node, rest, a);
      PathsParts(name, node, rest, b);
      if !Usable(name) {
        UpdateAtSkips(name, node, rest, dst, a, b, depth, p, w, r);
        SuccessVisitsAll(rest, dst, a, b, depth, p, w, r);
      } else {
        UpdateAtCases(name, node, rest, dst, a, b, depth, p, w, r);
        var (w', goOn) := Tick(p, w, node.Dir?);
        var other := Find(dst, name);
        BothAre(node, other);
        GoesMeans(node, other, a, b, name);
        FitIs(a, b, name);
        if BothDirs(node, other) {
          var a', b' := a + |name| + 1, b + |name| + 1;
          var v := UpdateDirAt(node.items, other.value.items, a', b', depth + 1, p, w', r);
          SuccessVisitsDir(node.items, other.value.items, a', b', depth + 1, p, w', r);
          FitsBelowIs(node, a');
          FitsBelowIs(node, b');
          SuccessVisitsAll(rest, Replace(dst, name, Dir(v.dst)), a, b, depth, p, v.walk, v.result);
        } else if EqualFiles(node, other) {
          SuccessVisitsAll(rest, dst, a, b, depth, p, w', r.(skippedEqual := r.skippedEqual + 1));
        } else {
          SuccessVisitsAll(rest, Put(dst, name, CopyOf(node)), a, b, depth, p, w', CopiedOver(r, node, other));
        }
      }
  }

  lemma {:induction false} SuccessVisitsDir(src: Items, dst: Items, a: nat, b: nat, depth: nat, p: Patience, w: Walk,
                                            r: Result)
    requires UpdateDirAt(src, dst, a, b, depth, p, w, r).status == Success
    ensures AllFit(PathsIn(src, a)) && AllFit(PathsIn(src, b))
    decreases src, 1
  {
    hide UpdateItemsAt, PathsIn, AllFit;
    SuccessVisitsAll(src, dst, a, b, depth, p, w, r);
  }

  /** All paths of a directory fit: what is said of one of its entries. */
  lemma {:induction false} PathsFound(items: Items, a: nat, name: string)
    requires AllFit(PathsIn(items, a)) && Usable(name) && Find(items, name).Some?
    ensures a + |name| < MAX_PATH_LEN && FitsBelow(Find(items, name).value, a + |name| + 1)
  {
    match items
    case Item(n, node, rest) =>
      PathsParts(n, node, rest, a);
      hide AllFit, PathsIn, Usable, FitsBelow;
      if n != name {
        PathsFound(rest, a, name);
      }
  }

  lemma {:induction false} RemoveFits(items: Items, a: nat, name: string)
    requires AllFit(PathsIn(items, a))
    ensures AllFit(PathsIn(Remove(items, name), a))
  {
    hide AllFit, PathsIn, Usable, FitsBelow;
    match items
    case Nil =>
    case Item(n, node, rest) =>
      PathsParts(n, node, rest, a);
      PathsParts(n, node, Remove(rest, name), a);
      RemoveFits(rest, a, name);
  }

  lemma {:induction false} AppendFits(items: Items, a: nat, name: string, node: Node)
    requires AllFit(PathsIn(items, a)) && a + |name| < MAX_PATH_LEN && FitsBelow(node, a + |name| + 1)
    ensures AllFit(PathsIn(Append(items, name, node), a))
  {
    hide AllFit, PathsIn, Usable, FitsBelow;
    match items
    case Nil =>
      PathsParts(name, node, Nil, a);
    case Item(n, m, rest) =>
      PathsParts(n, m, rest, a);
      PathsParts(n, m, Append(rest, name, node), a);
      AppendFits(rest, a, name, node);
  }

  lemma {:induction false} ReplaceFits(items: Items, a: nat, name: string, node: Node)
    requires AllFit(PathsIn(items, a)) && FitsBelow(node, a + |name| + 1)
    ensures AllFit(PathsIn(Replace(items, name, node), a))
  {
    hide AllFit, PathsIn, Usable, FitsBelow;
    match items
    case Nil =>
    case Item(n, m, rest) =>
      PathsParts(n, m, rest, a);
      PathsParts(n, node, rest, a);
      PathsParts(n, m, Replace(rest, name, node), a);
      if n != name {
        ReplaceFits(rest, a, name, node);
      }
  }

  lemma {:induction false} CopyOfFits(node: Node, a: nat)
    requires FitsBelow(node, a)
    ensures FitsBelow(CopyOf(node), a)
    decreases node, 1
  {
    FitsBelowIs(node, a);
    FitsBelowIs(CopyOf(node), a);
    hide FitsBelow, AllFit, PathsIn, CopyItems;
    if node.Dir? {
      CopyItemsFit(node.items, a);
    }
  }

  lemma {:induction false} CopyItemsFit(items: Items, a: nat)
    requires AllFit(PathsIn(items, a))
    ensures AllFit(PathsIn(CopyItems(items), a))
    decreases items, 0
  {
    hide FitsBelow, AllFit, PathsIn, Usable, CopyOf;
    match items
    case Nil =>
    case Item(name, node, rest) =>
      PathsParts(name, node, rest, a);
      PathsParts(name, CopyOf(node), CopyItems(rest), a);
      if Usable(name) {
        CopyOfFits(node, a + |name| + 1);
      }
      CopyItemsFit(rest, a);
  }

  lemma PutFits(items: Items, a: nat, name: string, node: Node)
    requires AllFit(PathsIn(items, a)) && a + |name| < MAX_PATH_LEN && FitsBelow(node, a + |name| + 1)
    ensures AllFit(PathsIn(Put(items, name, CopyOf(node)), a))
  {
    hide AllFit, PathsIn, FitsBelow, Remove, Append, CopyOf;
    RemoveFits(items, a, name);
    CopyOfFits(node, a + |name| + 1);
    AppendFits(Remove(items, name), a, name, CopyOf(node));
  }

  /** The source under both roots, and the destination under its own. */
  ghost predicate Room(s: Items, dst: Items, a: nat, b: nat) {
    AllFit(PathsIn(s, a)) && AllFit(PathsIn(s, b)) && AllFit(PathsIn(dst, b))
  }

  lemma GoesIf(node: Node, other: Option<Node>, a: nat, b: nat, name: string)
    requires Fit(a, b, name) && CopyFits(node, a + |name| + 1, b + |name| + 1)
    requires other.Some? ==> Left(other.value, b + |name| + 1).None?
    ensures Goes(node, other, a, b, name)
  {
    hide Fit, CopyFits, Left, BothDirs, EqualFiles;
  }

  lemma RoomParts(name: string, node: Node, rest: Items, dst: Items, a: nat, b: nat)
    requires Room(Item(name, node, rest), dst, a, b)
    ensures Room(rest, dst, a, b)
    ensures Usable(name) ==>
              var other, a', b' := Find(dst, name), a + |name| + 1, b + |name| + 1;
              && Fit(a, b, name) && FitsBelow(node, a') && FitsBelow(node, b')
              && Goes(node, other, a, b, name)
              && (BothDirs(node, other) ==> node.Dir? && other.Some? && other.value.Dir?
                                            && Room(node.items, other.value.items, a', b'))
  {
    hide *;
    var other, a', b' := Find(dst, name), a + |name| + 1, b + |name| + 1;
    RoomIs(Item(name, node, rest), dst, a, b);
    RoomIs(rest, dst, a, b);
    PathsParts(name, node, rest, a);
    PathsParts(name, node, rest, b);
    if Usable(name) {
      FitIs(a, b, name);
      CopyFitsIff(node, a', b');
      if other.Some? {
        PathsFound(dst, b, name);
        LeftNone(other.value, b');
      }
      GoesIf(node, other, a, b, name);
      BothAre(node, other);
      if BothDirs(node, other) {
        FitsBelowIs(node, a');
        FitsBelowIs(node, b');
        FitsBelowIs(other.value, b');
        RoomIs(node.items, other.value.items, a', b');
      }
    }
  }

  lemma RoomMoves(s: Items, dst: Items, mid: Items, a: nat, b: nat)
    requires Room(s, dst, a, b) && AllFit(PathsIn(mid, b))
    ensures Room(s, mid, a, b)
  {
  }

  lemma RoomIs(s: Items, dst: Items, a: nat, b: nat)
    ensures Room(s, dst, a, b) <==> AllFit(PathsIn(s, a)) && AllFit(PathsIn(s, b)) && AllFit(PathsIn(dst, b))
  {
  }

  /** Where both trees have room, an update visits no path that does not fit, and leaves a destination
      that has room as well. */
  lemma {:induction false} RoomSuffices(s: Items, dst: Items, a: nat, b: nat, depth: nat, p: Patience, w: Walk,
                                        r: Result)
    requires Room(s, dst, a, b)
    ensures AllFit(Visits(s, dst, a, b, depth, p, w, r)) && AllFit(PathsIn(UpdateItems(s, dst, depth, p, w, r).dst, b))
    decreases s, 0
  {
    hide *;
    RoomIs(s, dst, a, b);
    match s
    case Nil =>
      UpdateAtSkips("", Dir(Nil), Nil, dst, a, b, depth, p, w, r);
      UpdateSkips("", Dir(Nil), Nil, dst, depth, p, w, r);
    case Item(name, node, rest) =>
      RoomParts(name, node, rest, dst, a, b);
      if !Usable(name) {
        UpdateAtSkips(name, node, rest, dst, a, b, depth, p, w, r);
        UpdateSkips(name, node, rest, dst, depth, p, w, r);
        RoomSuffices(rest, dst, a, b, depth, p, w, r);
      } else {
        UpdateCases(name, node, rest, dst, depth, p, w, r);
        VisitsCases(name, node, rest, dst, a, b, depth, p, w, r);
        var (w', goOn) := Tick(p, w, node.Dir?);
        var other, a', b' := Find(dst, name), a + |name| + 1, b + |name| + 1;
        FitIs(a, b, name);
        if !goOn {
        } else if BothDirs(node, other) {
          RoomSufficesDir(node.items, other.value.items, a', b', depth + 1, p, w', r);
          var u := UpdateDir(node.items, other.value.items, depth + 1, p, w', r);
          FitsBelowIs(Dir(u.dst), b');
          var mid := Replace(dst, name, Dir(u.dst));
          ReplaceFits(dst, b, name, Dir(u.dst));
          RoomMoves(rest, dst, mid, a, b);
          if u.status == Success {
            RoomSuffices(rest, mid, a, b, depth, p, u.walk, u.result);
          }
        } else if EqualFiles(node, other) {
          RoomSuffices(rest, dst, a, b, depth, p, w', r.(skippedEqual := r.skippedEqual + 1));
        } else {
          var mid := Put(dst, name, CopyOf(node));
          PutFits(dst, b, name, node);
          RoomMoves(rest, dst, mid, a, b);
          RoomSuffices(rest, mid, a, b, depth, p, w', CopiedOver(r, node, other));
        }
      }
  }

  lemma {:induction false} RoomSufficesDir(src: Items, dst: Items, a: nat, b: nat, depth: nat, p: Patience, w: Walk,
                                           r: Result)
    requires Room(src, dst, a, b)
    ensures AllFit(VisitsDir(src, dst, a, b, depth, p, w, r))
            && AllFit(PathsIn(UpdateDir(src, dst, depth, p, w, r).dst, b))
    decreases src, 1
  {
    RoomIs(src, dst, a, b);
    AllFitOf([]);
    hide UpdateItems, Visits, PathsIn, AllFit, Room;
    if depth <= MAX_DEPTH {
      RoomSuffices(src, dst, a, b, depth, p, w, r);
    }
  }

  // ---------------------------------------------------------------- comparing by path

  /** The lengths of the paths that the comparison of SyncTrees makes use of, left and right, in order. */
  function UsesDir(left: Items, right: Items, a: nat, b: nat, depth: nat, p: Patience, w: Walk, sum: Summary): seq<nat>
    decreases left, 1
  {
    if depth > MAX_DEPTH then [] else Uses(left, right, a, b, depth, p, w, sum)
  }

  function Uses(l: Items, right: Items, a: nat, b: nat, depth: nat, p: Patience, w: Walk, sum: Summary): seq<nat>
    decreases l, 0
  {
    match l
    case Nil => []
    case Item(name, node, rest) =>
      if !Usable(name) then Uses(rest, right, a, b, depth, p, w, sum)
      else
        var (w', goOn) := Tick(p, w, node.Dir?);
        var other := Find(right, name);
        if !goOn then []
        else if BothDirs(node, other) then
          var sum' := sum.(commonDirectories := sum.commonDirectories + 1);
          var c := CompareDir(node.items, other.value.items, depth + 1, p, w', sum');
          var inside := UsesDir(node.items, other.value.items, a + |name| + 1, b + |name| + 1, depth + 1, p, w', sum');
          var after := if c.status != Success then [] else Uses(rest, right, a, b, depth, p, c.walk, c.sum);
          [a + |name|, b + |name|] + inside + after
        else
          (if SameSize(node, other) then [a + |name|, b + |name|] else [])
          + Uses(rest, right, a, b, depth, p, w', Compared(sum, node, other))
  }

  /** An entry that is not gone into falls under one count. */
  function Compared(sum: Summary, node: Node, other: Option<Node>): Summary {
    if other.None? then sum.(leftOnly := sum.leftOnly + 1)
    else if EqualFiles(node, other) then sum.(equalFiles := sum.equalFiles + 1)
    else sum.(different := sum.different + 1)
  }

  /** The paths of one entry are found, if they are used. */
  predicate GoesOver(node: Node, other: Option<Node>, a: nat, b: nat, name: string) {
    BothDirs(node, other) || SameSize(node, other) ==> Fit(a, b, name)
  }

  /** How a comparison goes on behind a common directory. */
  function Behind(c: Comparison): Comparison {
    if c.status == Aborted || c.status == Astray then c else c.(sum := c.sum.(errors := c.sum.errors + 1))
  }

  lemma CompareAtCases(name: string, node: Node, rest: Items, right: Items, a: nat, b: nat, depth: nat, p: Patience,
                       w: Walk, sum: Summary)
    requires Usable(name)
    ensures var c := CompareItemsAt(Item(name, node, rest), right, a, b, depth, p, w, sum);
            var (w', goOn) := Tick(p, w, node.Dir?);
            var other := Find(right, name);
            && (!goOn ==> c == Comparison(w', sum, Aborted))
            && (goOn && !GoesOver(node, other, a, b, name) ==>
                  c == Comparison(w', if BothDirs(node, other) then sum.(commonDirectories := sum.commonDirectories + 1)
                                      else sum, Astray))
            && (goOn && GoesOver(node, other, a, b, name) && BothDirs(node, other) ==>
                  var v := CompareDirAt(node.items, other.value.items, a + |name| + 1, b + |name| + 1, depth + 1, p, w',
                                        sum.(commonDirectories := sum.commonDirectories + 1));
                  c == if v.status == Success then CompareItemsAt(rest, right, a, b, depth, p, v.walk, v.sum)
                       else Behind(v))
            && (goOn && GoesOver(node, other, a, b, name) && !BothDirs(node, other) ==>
                  c == CompareItemsAt(rest, right, a, b, depth, p, w', Compared(sum, node, other)))
  {
    hide Usable, Equal, EqualFiles, CompareDirAt, Find, Tick, Fit;
  }

  /** The same of the comparison by tree, which never goes astray. */
  lemma CompareTreeCases(name: string, node: Node, rest: Items, right: Items, depth: nat, p: Patience, w: Walk,
                         sum: Summary)
    requires Usable(name)
    ensures var c := CompareItems(Item(name, node, rest), right, depth, p, w, sum);
            var (w', goOn) := Tick(p, w, node.Dir?);
            var other := Find(right, name);
            && (!goOn ==> c == Comparison(w', sum, Aborted))
            && (goOn && BothDirs(node, other) ==>
                  var v := CompareDir(node.items, other.value.items, depth + 1, p, w',
                                      sum.(commonDirectories := sum.commonDirectories + 1));
                  && v.status != Astray
                  && c == if v.status == Success then CompareItems(rest, right, depth, p, v.walk, v.sum)
                          else Behind(v))
            && (goOn && !BothDirs(node, other) ==>
                  c == CompareItems(rest, right, depth, p, w', Compared(sum, node, other)))
  {
    CompareUnrolls(name, node, rest, right, depth, p, w, sum);
    hide Usable, Equal, EqualFiles, CompareDir, CompareItems, Find;
    var (w', goOn) := Tick(p, w, node.Dir?);
    var other := Find(right, name);
    if goOn && BothDirs(node, other) {
      NotAstrayDir(node.items, other.value.items, depth + 1, p, w',
                   sum.(commonDirectories := sum.commonDirectories + 1));
    }
  }

  lemma {:induction false} NotAstrayDir(left: Items, right: Items, depth: nat, p: Patience, w: Walk, sum: Summary)
    ensures CompareDir(left, right, depth, p, w, sum).status != Astray
    decreases left, 1
  {
    hide CompareItems, Missing;
    if depth <= MAX_DEPTH {
      NotAstray(left, right, depth, p, w, sum);
    }
  }

  lemma {:induction false} NotAstray(l: Items, right: Items, depth: nat, p: Patience, w: Walk, sum: Summary)
    ensures CompareItems(l, right, depth, p, w, sum).status != Astray
    decreases l, 0
  {
    hide *;
    match l
    case Nil => CompareSkips("", Dir(Nil), Nil, right, depth, p, w, sum);
    case Item(name, node, rest) =>
      CompareSkips(name, node, rest, right, depth, p, w, sum);
      if !Usable(name) {
        NotAstray(rest, right, depth, p, w, sum);
      } else {
        CompareUnrolls(name, node, rest, right, depth, p, w, sum);
        var (w', goOn) := Tick(p, w, node.Dir?);
        var other := Find(right, name);
        BothAre(node, other);
        if !goOn {
        } else if BothDirs(node, other) {
          var sum' := sum.(commonDirectories := sum.commonDirectories + 1);
          NotAstrayDir(node.items, other.value.items, depth + 1, p, w', sum');
          var c := CompareDir(node.items, other.value.items, depth + 1, p, w', sum');
          if c.status == Success {
            NotAstray(rest, right, depth, p, c.walk, c.sum);
          }
        } else {
          var sum' := if other.None? then sum.(leftOnly := sum.leftOnly + 1)
                      else if EqualFiles(node, other) then sum.(equalFiles := sum.equalFiles + 1)
                      else sum.(different := sum.different + 1);
          NotAstray(rest, right, depth, p, w', sum');
        }
      }
  }

  lemma UsesCases(name: string, node: Node, rest: Items, right: Items, a: nat, b: nat, depth: nat, p: Patience,
                  w: Walk, sum: Summary)
    requires Usable(name)
    ensures var fit := AllFit(Uses(Item(name, node, rest), right, a, b, depth, p, w, sum));
            var (w', goOn) := Tick(p, w, node.Dir?);
            var other := Find(right, name);
            && (!goOn ==> fit)
            && (goOn && !GoesOver(node, other, a, b, name) ==> !fit)
            && (goOn && GoesOver(node, other, a, b, name) && BothDirs(node, other) ==>
                  var sum' := sum.(commonDirectories := sum.commonDirectories + 1);
                  var c := CompareDir(node.items, other.value.items, depth + 1, p, w', sum');
                  fit <==> AllFit(UsesDir(node.items, other.value.items, a + |name| + 1, b + |name| + 1, depth + 1, p,
                                          w', sum'))
                           && (c.status == Success ==> AllFit(Uses(rest, right, a, b, depth, p, c.walk, c.sum))))
            && (goOn && GoesOver(node, other, a, b, name) && !BothDirs(node, other) ==>
                  (fit <==> AllFit(Uses(rest, right, a, b, depth, p, w', Compared(sum, node, other)))))
  {
    hide *;
    var (w', goOn) := Tick(p, w, node.Dir?);
    var other := Find(right, name);
    var here, l := [a + |name|, b + |name|], Item(name, node, rest);
    GoesOverIff(node, other, a, b, name);
    AllFitOf([]);
    UsesUnrolls(name, node, rest, right, a, b, depth, p, w, sum);
    if !goOn {
    } else if BothDirs(node, other) {
      var sum' := sum.(commonDirectories := sum.commonDirectories + 1);
      var c := CompareDir(node.items, other.value.items, depth + 1, p, w', sum');
      var inside := UsesDir(node.items, other.value.items, a + |name| + 1, b + |name| + 1, depth + 1, p, w', sum');
      var after := if c.status != Success then [] else Uses(rest, right, a, b, depth, p, c.walk, c.sum);
      AllFitJoin(here, inside);
      AllFitJoin(here + inside, after);
    } else {
      AllFitJoin(if SameSize(node, other) then here else [],
                 Uses(rest, right, a, b, depth, p, w', Compared(sum, node, other)));
    }
  }

  lemma UsesUnrolls(name: string, node: Node, rest: Items, right: Items, a: nat, b: nat, depth: nat, p: Patience,
                    w: Walk, sum: Summary)
    requires Usable(name)
    ensures var uses := Uses(Item(name, node, rest), right, a, b, depth, p, w, sum);
            var (w', goOn) := Tick(p, w, node.Dir?);
            var other := Find(right, name);
            && (!goOn ==> uses == [])
            && (goOn && BothDirs(node, other) ==>
                  var sum' := sum.(commonDirectories := sum.commonDirectories + 1);
                  var c := CompareDir(node.items, other.value.items, depth + 1, p, w', sum');
                  uses == [a + |name|, b + |name|]
                          + UsesDir(node.items, other.value.items, a + |name| + 1, b + |name| + 1, depth + 1, p, w',
                                    sum')
                          + (if c.status != Success then []
                             else Uses(rest, right, a, b, depth, p, c.walk, c.sum)))
            && (goOn && !BothDirs(node, other) ==>
                  uses == (if SameSize(node, other) then [a + |name|, b + |name|] else [])
                          + Uses(rest, right, a, b, depth, p, w', Compared(sum, node, other)))
  {
    hide Usable, CompareDir, UsesDir, Find, Tick, Compared, SameSize;
  }

  lemma GoesOverIff(node: Node, other: Option<Node>, a: nat, b: nat, name: string)
    ensures BothDirs(node, other) ==>
              node.Dir? && other.Some? && other.value.Dir? && !SameSize(node, other)
              && (GoesOver(node, other, a, b, name) <==> AllFit([a + |name|, b + |name|]))
    ensures SameSize(node, other) ==> (GoesOver(node, other, a, b, name) <==> AllFit([a + |name|, b + |name|]))
    ensures !BothDirs(node, other) && !SameSize(node, other) ==> GoesOver(node, other, a, b, name)
  {
    AllFitOf([a + |name|, b + |name|]);
    hide AllFit;
  }

  lemma CompareAtSkips(name: string, node: Node, rest: Items, right: Items, a: nat, b: nat, depth: nat, p: Patience,
                       w: Walk, sum: Summary)
    ensures !Usable(name) ==>
              && CompareItemsAt(Item(name, node, rest), right, a, b, depth, p, w, sum)
                 == CompareItemsAt(rest, right, a, b, depth, p, w, sum)
              && Uses(Item(name, node, rest), right, a, b, depth, p, w, sum)
                 == Uses(rest, right, a, b, depth, p, w, sum)
    ensures CompareItemsAt(Nil, right, a, b, depth, p, w, sum) == Comparison(w, sum, Success)
    ensures AllFit(Uses(Nil, right, a, b, depth, p, w, sum))
  {
    hide Usable, Find;
  }

  predicate ComparesUnlessAstray(at: Comparison, tree: Comparison, fit: bool) {
    if fit then at == tree else at.status == Astray
  }

  lemma ComparesIs(at: Comparison, tree: Comparison)
    ensures ComparesUnlessAstray(at, tree, true) <==> at == tree
    ensures ComparesUnlessAstray(at, tree, false) <==> at.status == Astray
  {
  }

  lemma BehindIs(c: Comparison)
    ensures c.status == Astray ==> Behind(c) == c
    ensures Behind(c).status == c.status
  {
  }

  lemma {:induction false} CompareDirByPath(left: Items, right: Items, a: nat, b: nat, depth: nat, p: Patience, w: Walk,
                                            sum: Summary)
    ensures ComparesUnlessAstray(CompareDirAt(left, right, a, b, depth, p, w, sum),
                                 CompareDir(left, right, depth, p, w, sum),
                                 AllFit(UsesDir(left, right, a, b, depth, p, w, sum)))
    decreases left, 1
  {
    AllFitOf([]);
    hide CompareItems, CompareItemsAt, Uses, AllFit, Missing;
    if depth <= MAX_DEPTH {
      CompareByPath(left, right, a, b, depth, p, w, sum);
    }
  }

  /** The comparison by path is the comparison by tree exactly if every path it uses fits; otherwise it
      goes astray. */
  lemma {:induction false} CompareByPath(l: Items, right: Items, a: nat, b: nat, depth: nat, p: Patience, w: Walk,
                                         sum: Summary)
    ensures ComparesUnlessAstray(CompareItemsAt(l, right, a, b, depth, p, w, sum),
                                 CompareItems(l, right, depth, p, w, sum),
                                 AllFit(Uses(l, right, a, b, depth, p, w, sum)))
    decreases l, 0
  {
    hide *;
    ComparesIs(CompareItemsAt(l, right, a, b, depth, p, w, sum), CompareItems(l, right, depth, p, w, sum));
    match l
    case Nil =>
      CompareAtSkips("", Dir(Nil), Nil, right, a, b, depth, p, w, sum);
      CompareSkips("", Dir(Nil), Nil, right, depth, p, w, sum);
    case Item(name, node, rest) =>
      if !Usable(name) {
        CompareAtSkips(name, node, rest, right, a, b, depth, p, w, sum);
        CompareSkips(name, node, rest, right, depth, p, w, sum);
        CompareByPath(rest, right, a, b, depth, p, w, sum);
      } else {
        CompareAtCases(name, node, rest, right, a, b, depth, p, w, sum);
        CompareTreeCases(name, node, rest, right, depth, p, w, sum);
        UsesCases(name, node, rest, right, a, b, depth, p, w, sum);
        var (w', goOn) := Tick(p, w, node.Dir?);
        var other := Find(right, name);
        BothAre(node, other);
        if !goOn || !GoesOver(node, other, a, b, name) {
        } else if BothDirs(node, other) {
          var a', b', sum' := a + |name| + 1, b + |name| + 1, sum.(commonDirectories := sum.commonDirectories + 1);
          CompareDirByPath(node.items, other.value.items, a', b', depth + 1, p, w', sum');
          var v := CompareDirAt(node.items, other.value.items, a', b', depth + 1, p, w', sum');
          var u := CompareDir(node.items, other.value.items, depth + 1, p, w', sum');
          ComparesIs(v, u);
          BehindIs(v);
          if u == v && u.status == Success {
            CompareByPath(rest, right, a, b, depth, p, u.walk, u.sum);
          }
        } else {
          CompareByPath(rest, right, a, b, depth, p, w', Compared(sum, node, other));
        }
      }
  }

  /** A comparison uses the paths of the left side only: it is enough that these fit under both roots. */
  lemma {:induction false} LeftSuffices(l: Items, right: Items, a: nat, b: nat, depth: nat, p: Patience, w: Walk,
                                        sum: Summary)
    requires AllFit(PathsIn(l, a)) && AllFit(PathsIn(l, b))
    ensures AllFit(Uses(l, right, a, b, depth, p, w, sum))
    decreases l, 0
  {
    hide *;
    match l
    case Nil => CompareAtSkips("", Dir(Nil), Nil, right, a, b, depth, p, w, sum);
    case Item(name, node, rest) =>
      PathsParts(name, node, rest, a);
      PathsParts(name, node, rest, b);
      if !Usable(name) {
        CompareAtSkips(name, node, rest, right, a, b, depth, p, w, sum);
        LeftSuffices(rest, right, a, b, depth, p, w, sum);
      } else {
        UsesCases(name, node, rest, right, a, b, depth, p, w, sum);
        var (w', goOn) := Tick(p, w, node.Dir?);
        var other := Find(right, name);
        BothAre(node, other);
        FitGoesOver(node, other, a, b, name);
        if !goOn {
        } else if BothDirs(node, other) {
          var a', b', sum' := a + |name| + 1, b + |name| + 1, sum.(commonDirectories := sum.commonDirectories + 1);
          FitsBelowIs(node, a');
          FitsBelowIs(node, b');
          LeftSufficesDir(node.items, other.value.items, a', b', depth + 1, p, w', sum');
          var c := CompareDir(node.items, other.value.items, depth + 1, p, w', sum');
          if c.status == Success {
            LeftSuffices(rest, right, a, b, depth, p, c.walk, c.sum);
          }
        } else {
          LeftSuffices(rest, right, a, b, depth, p, w', Compared(sum, node, other));
        }
      }
  }

  lemma FitGoesOver(node: Node, other: Option<Node>, a: nat, b: nat, name: string)
    ensures a + |name| < MAX_PATH_LEN && b + |name| < MAX_PATH_LEN ==> GoesOver(node, other, a, b, name)
  {
    hide BothDirs, SameSize;
  }

  lemma {:induction false} LeftSufficesDir(left: Items, right: Items, a: nat, b: nat, depth: nat, p: Patience, w: Walk,
                                           sum: Summary)
    requires AllFit(PathsIn(left, a)) && AllFit(PathsIn(left, b))
    ensures AllFit(UsesDir(left, right, a, b, depth, p, w, sum))
    decreases left, 1
  {
    AllFitOf([]);
    hide Uses, PathsIn, AllFit;
    if depth <= MAX_DEPTH {
      LeftSuffices(left, right, a, b, depth, p, w, sum);
    }
  }

  /** In a destination that is in sync an update visits the source's paths and no others. */
  lemma {:induction false} InSyncVisits(s: Items, dst: Items, a: nat, b: nat, depth: nat, p: Patience, w: Walk,
                                        r: Result)
    requires InSync(s, dst) && AllFit(PathsIn(s, a)) && AllFit(PathsIn(s, b))
    ensures AllFit(Visits(s, dst, a, b, depth, p, w, r))
    decreases s, 0
  {
    hide *;
    match s
    case Nil => UpdateAtSkips("", Dir(Nil), Nil, dst, a, b, depth, p, w, r);
    case Item(name, node, rest) =>
      InSyncParts(name, node, rest, dst);
      PathsParts(name, node, rest, a);
      PathsParts(name, node, rest, b);
      if !Usable(name) {
        UpdateAtSkips(name, node, rest, dst, a, b, depth, p, w, r);
        InSyncVisits(rest, dst, a, b, depth, p, w, r);
      } else {
        VisitsCases(name, node, rest, dst, a, b, depth, p, w, r);
        var (w', goOn) := Tick(p, w, node.Dir?);
        var other, a', b' := Find(dst, name), a + |name| + 1, b + |name| + 1;
        InSyncGoes(node, other, a, b, name);
        if !goOn {
        } else if BothDirs(node, other) {
          FitsBelowIs(node, a');
          FitsBelowIs(node, b');
          InSyncVisitsDir(node.items, other.value.items, a', b', depth + 1, p, w', r);
          SecondUpdateDir(node.items, other.value.items, depth + 1, p, w', r);
          var u := UpdateDir(node.items, other.value.items, depth + 1, p, w', r);
          ReplaceSame(dst, name, Dir(u.dst));
          if u.status == Success {
            InSyncVisits(rest, dst, a, b, depth, p, u.walk, u.result);
          }
        } else {
          InSyncVisits(rest, dst, a, b, depth, p, w', r.(skippedEqual := r.skippedEqual + 1));
        }
      }
  }

  lemma InSyncGoes(node: Node, other: Option<Node>, a: nat, b: nat, name: string)
    requires BothDirs(node, other) || EqualFiles(node, other)
    ensures a + |name| < MAX_PATH_LEN && b + |name| < MAX_PATH_LEN ==> Goes(node, other, a, b, name)
  {
    hide BothDirs, EqualFiles, CopyFits, Left;
  }

  lemma {:induction false} InSyncVisitsDir(src: Items, dst: Items, a: nat, b: nat, depth: nat, p: Patience, w: Walk,
                                           r: Result)
    requires InSync(src, dst) && AllFit(PathsIn(src, a)) && AllFit(PathsIn(src, b))
    ensures AllFit(VisitsDir(src, dst, a, b, depth, p, w, r))
    decreases src, 1
  {
    AllFitOf([]);
    hide Visits, PathsIn, AllFit, InSync;
    if depth <= MAX_DEPTH {
      InSyncVisits(src, dst, a, b, depth, p, w, r);
    }
  }

  // ---------------------------------------------------------------- whole trees

  /** The lengths of all paths that an update of a tree visits. */
  function VisitsTree(src: Node, dst: Node, a: nat, b: nat, p: Patience): seq<nat> {
    if src.Dir? && dst.Dir? then VisitsDir(src.items, dst.items, a, b, 0, p, Walk(0, 0, false), NO_RESULT) else []
  }

  function UsesTree(left: Node, right: Node, a: nat, b: nat, p: Patience): seq<nat> {
    if left.Dir? && right.Dir? then UsesDir(left.items, right.items, a, b, 0, p, Walk(0, 0, false), NO_SUMMARY) else []
  }

  lemma {:induction false} UpdateNotAstray(s: Items, dst: Items, depth: nat, p: Patience, w: Walk, r: Result)
    ensures UpdateItems(s, dst, depth, p, w, r).status != Astray
    decreases s, 0
  {
    hide *;
    match s
    case Nil => UpdateSkips("", Dir(Nil), Nil, dst, depth, p, w, r);
    case Item(name, node, rest) =>
      if !Usable(name) {
        UpdateSkips(name, node, rest, dst, depth, p, w, r);
        UpdateNotAstray(rest, dst, depth, p, w, r);
      } else {
        UpdateCases(name, node, rest, dst, depth, p, w, r);
        var (w', goOn) := Tick(p, w, node.Dir?);
        var other := Find(dst, name);
        BothAre(node, other);
        if !goOn {
        } else if BothDirs(node, other) {
          UpdateDirNotAstray(node.items, other.value.items, depth + 1, p, w', r);
          var u := UpdateDir(node.items, other.value.items, depth + 1, p, w', r);
          if u.status == Success {
            UpdateNotAstray(rest, Replace(dst, name, Dir(u.dst)), depth, p, u.walk, u.result);
          }
        } else if EqualFiles(node, other) {
          UpdateNotAstray(rest, dst, depth, p, w', r.(skippedEqual := r.skippedEqual + 1));
        } else {
          UpdateNotAstray(rest, Put(dst, name, CopyOf(node)), depth, p, w', CopiedOver(r, node, other));
        }
      }
  }

  lemma {:induction false} UpdateDirNotAstray(src: Items, dst: Items, depth: nat, p: Patience, w: Walk, r: Result)
    ensures UpdateDir(src, dst, depth, p, w, r).status != Astray
    decreases src, 1
  {
    hide UpdateItems;
    if depth <= MAX_DEPTH {
      UpdateNotAstray(src, dst, depth, p, w, r);
    }
  }

  /** By path, the update of a tree does what SyncTrees says if and only if every path it visits fits;
      otherwise an operation is given a path that leads elsewhere. */
  lemma UpdateIsByTree(src: Node, dst: Node, a: nat, b: nat, p: Patience)
    ensures UpdateTreeAt(src, dst, a, b, p) == UpdateTree(src, dst, p) <==> AllFit(VisitsTree(src, dst, a, b, p))
    ensures UpdateTreeAt(src, dst, a, b, p).1.status == Astray <==> !AllFit(VisitsTree(src, dst, a, b, p))
  {
    AllFitOf([]);
    hide UpdateDir, UpdateDirAt, VisitsDir, AllFit;
    if src.Dir? && dst.Dir? {
      UpdateDirByPath(src.items, dst.items, a, b, 0, p, Walk(0, 0, false), NO_RESULT);
      UpdateDirNotAstray(src.items, dst.items, 0, p, Walk(0, 0, false), NO_RESULT);
    }
  }

  /** The same of the comparison and the paths it uses. */
  lemma CompareIsByTree(left: Node, right: Node, a: nat, b: nat, p: Patience)
    ensures CompareTreesAt(left, right, a, b, p) == CompareTrees(left, right, p)
            <==> AllFit(UsesTree(left, right, a, b, p))
    ensures CompareTreesAt(left, right, a, b, p).status == Astray <==> !AllFit(UsesTree(left, right, a, b, p))
  {
    AllFitOf([]);
    hide CompareDir, CompareDirAt, UsesDir, AllFit;
    if left.Dir? && right.Dir? {
      CompareDirByPath(left.items, right.items, a, b, 0, p, Walk(0, 0, false), NO_SUMMARY);
      NotAstrayDir(left.items, right.items, 0, p, Walk(0, 0, false), NO_SUMMARY);
    }
  }

  /** It is enough that every path of the source fits under both roots and every path of the
      destination under its own. */
  lemma RoomIsEnough(src: Node, dst: Node, a: nat, b: nat, p: Patience)
    requires FitsBelow(src, a) && FitsBelow(src, b) && FitsBelow(dst, b)
    ensures UpdateTreeAt(src, dst, a, b, p) == UpdateTree(src, dst, p)
    ensures CompareTreesAt(src, dst, a, b, p) == CompareTrees(src, dst, p)
  {
    UpdateIsByTree(src, dst, a, b, p);
    CompareIsByTree(src, dst, a, b, p);
    FitsBelowIs(src, a);
    FitsBelowIs(src, b);
    FitsBelowIs(dst, b);
    AllFitOf([]);
    hide UpdateTree, UpdateTreeAt, CompareTrees, CompareTreesAt, VisitsDir, UsesDir, AllFit, FitsBelow, PathsIn, Room;
    if src.Dir? && dst.Dir? {
      RoomIs(src.items, dst.items, a, b);
      RoomSufficesDir(src.items, dst.items, a, b, 0, p, Walk(0, 0, false), NO_RESULT);
      LeftSufficesDir(src.items, dst.items, a, b, 0, p, Walk(0, 0, false), NO_SUMMARY);
    }
  }

  /** An update by path that did not go astray has left what only the destination has as it was. */
  lemma KeptUnlessAstray(src: Node, dst: Node, a: nat, b: nat, p: Patience)
    requires src.Dir? && dst.Dir? && Proper(src.items) && UpdateTreeAt(src, dst, a, b, p).1.status != Astray
    ensures var after := UpdateTreeAt(src, dst, a, b, p).0; after.Dir? && Kept(src.items, dst.items, after.items)
  {
    hide *;
    UpdateIsByTree(src, dst, a, b, p);
    DestinationKept(src, dst, p);
  }

  lemma TreeParts(src: Node, dst: Node, a: nat, b: nat, p: Patience)
    requires src.Dir? && dst.Dir?
    ensures var u := UpdateDirAt(src.items, dst.items, a, b, 0, p, Walk(0, 0, false), NO_RESULT);
            UpdateTreeAt(src, dst, a, b, p) == (Dir(u.dst), u)
    ensures var u := UpdateDir(src.items, dst.items, 0, p, Walk(0, 0, false), NO_RESULT);
            UpdateTree(src, dst, p) == (Dir(u.dst), u)
    ensures VisitsTree(src, dst, a, b, p)
            == VisitsDir(src.items, dst.items, a, b, 0, p, Walk(0, 0, false), NO_RESULT)
    ensures UsesTree(src, dst, a, b, p) == UsesDir(src.items, dst.items, a, b, 0, p, Walk(0, 0, false), NO_SUMMARY)
  {
    hide UpdateDirAt, UpdateDir, VisitsDir, UsesDir;
  }

  /** After an error-free update by path, a comparison and a second update under the same roots go by
      tree as well: nothing is missing or different, nothing is copied or replaced, and neither errs
      exactly when the source nests no deeper than the walks go. */
  lemma UpdateThenAgreeByPath(src: Node, dst: Node, a: nat, b: nat, p: Patience, q: Patience)
    requires src.Dir? && dst.Dir? && Proper(src.items) && UpdateTreeAt(src, dst, a, b, p).1.status == Success
    ensures var updated := UpdateTreeAt(src, dst, a, b, p).0;
            var c, u := CompareTreesAt(src, updated, a, b, q), UpdateTreeAt(src, updated, a, b, q);
            && c == CompareTrees(src, updated, q) && u == UpdateTree(src, updated, q)
            && c.sum.leftOnly == 0 && c.sum.different == 0
            && u.0 == updated && NothingDone(NO_RESULT, u.1.result)
            && (q == Forever ==> (c.status == Success <==> Depth(src.items) <= 64))
            && (q == Forever ==> (u.1.status == Success <==> Depth(src.items) <= 64))
  {
    hide *;
    var w := Walk(0, 0, false);
    UpdateIsByTree(src, dst, a, b, p);
    TreeParts(src, dst, a, b, p);
    SuccessVisitsDir(src.items, dst.items, a, b, 0, p, w, NO_RESULT);
    UpdateDirSyncs(src.items, dst.items, 0, p, w, NO_RESULT);
    var updated := UpdateTree(src, dst, p).0;
    TreeParts(src, updated, a, b, q);
    InSyncVisitsDir(src.items, updated.items, a, b, 0, q, w, NO_RESULT);
    LeftSufficesDir(src.items, updated.items, a, b, 0, q, w, NO_SUMMARY);
    UpdateIsByTree(src, updated, a, b, q);
    CompareIsByTree(src, updated, a, b, q);
    UpdateThenAgree(src, dst, p, q);
  }

  // ---------------------------------------------------------------- trees too deep to compare, or to copy

  lemma {:induction false} ChainPaths(n: nat, a: nat)
    ensures AllFit(PathsIn(Chain(n), a)) <==> n == 0 || a + 2 * n - 1 < MAX_PATH_LEN
  {
    if n == 0 {
      AllFitOf([]);
    } else {
      PathsParts("d", Dir(Chain(n - 1)), Nil, a);
      FitsBelowIs(Dir(Chain(n - 1)), a + 2);
      hide AllFit, FitsBelow, PathsIn;
      ChainPaths(n - 1, a + 2);
    }
  }

  lemma Limits()
    ensures MAX_PATH_LEN == 512 && MAX_DEPTH == 64
  {
  }

  /** Copying n nested directories into an empty one goes well exactly if their paths fit under both
      roots.  Then a comparison, and a second update, succeed for n up to 64 and for no other. */
  lemma CopiedTooDeep(n: nat, a: nat, b: nat)
    ensures var src, fits := Dir(Chain(n)), n == 0 || Max(a, b) + 2 * n - 1 < 512;
            var (updated, u) := UpdateTreeAt(src, Dir(Nil), a, b, Forever);
            && (u.status == if fits then Success else Astray)
            && (fits ==> (CompareTreesAt(src, updated, a, b, Forever).status == Success <==> n <= 64))
            && (fits ==> (UpdateTreeAt(src, updated, a, b, Forever).1.status == Success <==> n <= 64))
  {
    var src, dst := Dir(Chain(n)), Dir(Nil);
    ChainPaths(n, a);
    ChainPaths(n, b);
    FitsBelowIs(src, a);
    FitsBelowIs(src, b);
    FitsBelowIs(dst, b);
    PathsParts("", dst, Nil, b);
    hide *;
    Limits();
    LargerOf(a, b);
    ChainCopied(n);
    ChainNests(n);
    UpdateIsByTree(src, dst, a, b, Forever);
    TreeParts(src, dst, a, b, Forever);
    if FitsBelow(src, a) && FitsBelow(src, b) {
      RoomIsEnough(src, dst, a, b, Forever);
      UpdateThenAgreeByPath(src, dst, a, b, Forever, Forever);
    } else if UpdateTreeAt(src, dst, a, b, Forever).1.status == Success {
      SuccessVisitsDir(Chain(n), Nil, a, b, 0, Forever, Walk(0, 0, false), NO_RESULT);
    }
  }

  lemma LargerOf(a: nat, b: nat)
    ensures Max(a, b) == if a < b then b else a
  {
  }

  // ---------------------------------------------------------------- a name that does not fit

  /** A source with one file, and a destination with a file of another name before its own of that name. */
  function OneToCopy(name: string, x: seq<bv8>): Items {
    Item(name, File(x), Nil)
  }

  function OneToKeep(keep: string, name: string, y: seq<bv8>): Items {
    Item(keep, File([]), Item(name, File(y), Nil))
  }

  lemma StrayUpdate(keep: string, name: string, x: seq<bv8>, y: seq<bv8>, a: nat, b: nat, w: Walk)
    requires Usable(keep) && Usable(name) && keep != name && |x| != |y| && !w.aborted
    requires a + |name| < MAX_PATH_LEN <= b + |name| && b + |keep| < MAX_PATH_LEN
    ensures var u := UpdateItemsAt(OneToCopy(name, x), OneToKeep(keep, name, y), a, b, 0, Forever, w, NO_RESULT);
            u.status == Astray && u.dst == OneToCopy(name, y)
  {
    TickSays(Forever, w, false);
    LeftAtStray(keep, name, y, b);
    FindsInKeep(keep, name, y);
    hide Usable, Tick, Equal, LeftItems, OneToKeep, Find;
  }

  lemma LeftAtStray(keep: string, name: string, y: seq<bv8>, b: nat)
    requires Usable(keep) && Usable(name) && MAX_PATH_LEN <= b + |name| && b + |keep| < MAX_PATH_LEN
    ensures LeftItems(OneToKeep(keep, name, y), b) == OneToCopy(name, y)
  {
    hide Usable;
    var last := OneToCopy(name, y);
    assert LeftItems(last, b) == last;
    assert Left(File([]), b + |keep| + 1) == None;
  }

  lemma FindsInKeep(keep: string, name: string, y: seq<bv8>)
    requires keep != name
    ensures Find(OneToKeep(keep, name, y), name) == Some(File(y))
    ensures Find(OneToKeep(keep, name, y), keep) == Some(File([]))
    ensures Find(OneToCopy(name, y), keep) == None
  {
    var last := OneToCopy(name, y);
    assert Find(last, name) == Some(File(y)) && Find(Nil, keep) == None;
  }

  lemma NotKept(keep: string, name: string, x: seq<bv8>, y: seq<bv8>)
    requires keep != name
    ensures !Kept(OneToCopy(name, x), OneToKeep(keep, name, y), OneToCopy(name, y))
  {
    FindsInKeep(keep, name, y);
    FindsInKeep(keep, name, x);
    assert !Has(OneToCopy(name, x), keep);
    hide Find;
  }

  /** Where a file that both sides have, with different sizes, has a name that does not fit under the
      destination, its deletion falls on the destination: what lies there before it is lost. */
  lemma StrayDeletes(keep: string, name: string, x: seq<bv8>, y: seq<bv8>, a: nat, b: nat)
    requires Usable(keep) && Usable(name) && keep != name && |x| != |y|
    requires a + |name| < MAX_PATH_LEN <= b + |name| && b + |keep| < MAX_PATH_LEN
    ensures var s, d := OneToCopy(name, x), OneToKeep(keep, name, y);
            var (after, u) := UpdateTreeAt(Dir(s), Dir(d), a, b, Forever);
            && u.status == Astray && after == Dir(OneToCopy(name, y)) && !Kept(s, d, after.items)
  {
    hide Usable, OneToCopy, OneToKeep, Kept, UpdateItemsAt;
    StrayUpdate(keep, name, x, y, a, b, Walk(0, 0, false));
    NotKept(keep, name, x, y);
  }

  function LongName(n: nat): (s: string)
    ensures |s| == n && '\\' !in s && forall i :: 0 <= i < n ==> s[i] == 'n'
  {
    seq(n, _ => 'n')
  }

  /** For one: a destination whose path has 300 characters, a source whose path has 6, and a name of 250. */
  lemma LongNameDeletes(x: seq<bv8>, y: seq<bv8>)
    requires |x| != |y|
    ensures var name, to := LongName(250), LongName(300);
            var path, d := Join(to, name), OneToKeep("keep", name, y);
            var (after, u) := UpdateTreeAt(Dir(OneToCopy(name, x)), Dir(d), Stem("fs0:\\s"), Stem(to), Forever);
            && Names(path) == Names(to) && u.status == Astray
            && after == Dir(OneToCopy(name, y)) && !Kept(OneToCopy(name, x), d, after.items)
  {
    var name, to := LongName(250), LongName(300);
    JoinLeads(to, name);
    assert Stem(to) == 301 && Stem("fs0:\\s") == 7;
    assert Usable(name) && Usable("keep") && name != "keep";
    hide *;
    StrayDeletes("keep", name, x, y, 7, 301);
  }
}
