/** One-way update and comparison of directory trees (ec/Sync.c).  A directory is the list of its
    entries, names compared exactly; copying and deleting are operations on such trees. */
module SyncTrees {
  import Sha256

  const MAX_DEPTH := 64

  datatype Node = File(data: seq<bv8>) | Dir(items: Items)
  datatype Items = Nil | Item(name: string, node: Node, rest: Items)
  datatype Option<T> = None | Some(value: T)
  datatype Status = Success | Aborted | BadBufferSize | NotFound | Astray

  predicate Usable(name: string) {
    name != "." && name != ".."
  }

  function Find(items: Items, name: string): Option<Node> {
    match items
    case Nil => None
    case Item(n, node, rest) => if n == name then Some(node) else Find(rest, name)
  }

  /** A walk never looks at "." and "..". */
  predicate Has(items: Items, name: string) {
    Usable(name) && Find(items, name).Some?
  }

  /** Names are unique in every directory, as in any file system. */
  predicate Proper(items: Items) {
    match items
    case Nil => true
    case Item(name, node, rest) =>
      (Usable(name) ==> Find(rest, name).None?) && (Usable(name) && node.Dir? ==> Proper(node.items)) && Proper(rest)
  }

  /** Files are equal by size and SHA-256. */
  predicate Equal(a: seq<bv8>, b: seq<bv8>) {
    |a| == |b| && Sha256.Digest(a) == Sha256.Digest(b)
  }

  // ---------------------------------------------------------------- what the file system does

  function Remove(items: Items, name: string): Items {
    match items
    case Nil => Nil
    case Item(n, node, rest) => if n == name then Remove(rest, name) else Item(n, node, Remove(rest, name))
  }

  function Append(items: Items, name: string, node: Node): Items {
    match items
    case Nil => Item(name, node, Nil)
    case Item(n, m, rest) => Item(n, m, Append(rest, name, node))
  }

  /** Whatever had the name is gone and the new entry is there. */
  function Put(items: Items, name: string, node: Node): Items {
    Append(Remove(items, name), name, node)
  }

  /** A directory entry whose contents have changed. */
  function Replace(items: Items, name: string, node: Node): Items {
    match items
    case Nil => Nil
    case Item(n, m, rest) => if n == name then Item(n, node, rest) else Item(n, m, Replace(rest, name, node))
  }

  function CopyOf(node: Node): Node {
    match node
    case File(data) => File(data)
    case Dir(items) => Dir(CopyItems(items))
  }

  function CopyItems(items: Items): Items {
    match items
    case Nil => Nil
    case Item(name, node, rest) => if Usable(name) then Item(name, CopyOf(node), CopyItems(rest)) else CopyItems(rest)
  }

  lemma {:induction false} FindAppended(items: Items, name: string, node: Node, m: string)
    ensures Find(Append(items, name, node), m)
            == if Find(items, m).Some? then Find(items, m) else if m == name then Some(node) else None
  {
    match items
    case Nil =>
    case Item(_, _, rest) => FindAppended(rest, name, node, m);
  }

  lemma {:induction false} FindRemoved(items: Items, name: string, m: string)
    ensures Find(Remove(items, name), m) == if m == name then None else Find(items, m)
  {
    match items
    case Nil =>
    case Item(_, _, rest) => FindRemoved(rest, name, m);
  }

  lemma FindPut(items: Items, name: string, node: Node, m: string)
    ensures Find(Put(items, name, node), m) == if m == name then Some(node) else Find(items, m)
  {
    FindRemoved(items, name, m);
    FindAppended(Remove(items, name), name, node, m);
  }

  lemma {:induction false} FindReplaced(items: Items, name: string, node: Node, m: string)
    ensures Find(Replace(items, name, node), m)
            == if m == name && Find(items, m).Some? then Some(node) else Find(items, m)
  {
    match items
    case Nil =>
    case Item(_, _, rest) => FindReplaced(rest, name, node, m);
  }

  lemma {:induction false} ReplaceSame(items: Items, name: string, node: Node)
    requires Find(items, name) == Some(node)
    ensures Replace(items, name, node) == items
  {
    match items
    case Nil =>
    case Item(n, _, rest) =>
      if n != name {
        ReplaceSame(rest, name, node);
      }
  }

  // ---------------------------------------------------------------- the walk's counters

  /** What the walk carries: entries looked at, and whether the user has stopped it. */
  datatype Walk = Walk(files: nat, directories: nat, aborted: bool)

  /** The report may say stop; then the walk ends, so all that matters is when it first does. */
  datatype Patience = Forever | StopsAt(count: nat)

  function Seen(w: Walk): nat {
    w.files + w.directories
  }

  function Tick(p: Patience, w: Walk, isDirectory: bool): (r: (Walk, bool)) {
    if w.aborted then (w, false)
    else
      var counted := if isDirectory then w.(directories := w.directories + 1) else w.(files := w.files + 1);
      if p == StopsAt(Seen(counted)) then (counted.(aborted := true), false) else (counted, true)
  }

  lemma TickSays(p: Patience, w: Walk, isDirectory: bool)
    requires !w.aborted
    ensures var (w', goOn) := Tick(p, w, isDirectory); (w'.aborted <==> !goOn) && (p == Forever ==> goOn)
  {
  }

  // ---------------------------------------------------------------- comparing

  /** Directories on both sides: both walks go into them. */
  predicate BothDirs(node: Node, other: Option<Node>) {
    node.Dir? && other.Some? && other.value.Dir?
  }

  predicate EqualFiles(node: Node, other: Option<Node>) {
    node.File? && other.Some? && other.value.File? && Equal(node.data, other.value.data)
  }

  lemma BothAre(node: Node, other: Option<Node>)
    ensures BothDirs(node, other) <==> node.Dir? && other.Some? && other.value.Dir?
    ensures EqualFiles(node, other)
            ==> node.File? && other.Some? && other.value.File? && Equal(node.data, other.value.data)
  {
    hide Equal;
  }

  datatype Summary = Summary(leftOnly: nat, rightOnly: nat, different: nat, equalFiles: nat, commonDirectories: nat,
                             errors: nat)

  datatype Comparison = Comparison(walk: Walk, sum: Summary, status: Status)

  function CompareDir(left: Items, right: Items, depth: nat, p: Patience, w: Walk, sum: Summary): Comparison
    decreases left, 1
  {
    if depth > MAX_DEPTH then Comparison(w, sum, BadBufferSize)
    else
      var c := CompareItems(left, right, depth, p, w, sum);
      if c.status != Success then c
      else c.(sum := c.sum.(rightOnly := c.sum.rightOnly + Missing(right, left)))
  }

  function CompareItems(l: Items, right: Items, depth: nat, p: Patience, w: Walk, sum: Summary): Comparison
    decreases l, 0
  {
    match l
    case Nil => Comparison(w, sum, Success)
    case Item(name, node, rest) =>
      if !Usable(name) then CompareItems(rest, right, depth, p, w, sum)
      else
        var (w', goOn) := Tick(p, w, node.Dir?);
        if !goOn then Comparison(w', sum, Aborted)
        else
          match Find(right, name)
          case None => CompareItems(rest, right, depth, p, w', sum.(leftOnly := sum.leftOnly + 1))
          case Some(other) =>
            if node.Dir? != other.Dir?
            then CompareItems(rest, right, depth, p, w', sum.(different := sum.different + 1))
            else if node.Dir? then
              var sum' := sum.(commonDirectories := sum.commonDirectories + 1);
              var c := CompareDir(node.items, other.items, depth + 1, p, w', sum');
              if c.status == Success then CompareItems(rest, right, depth, p, c.walk, c.sum)
              else if c.status == Aborted then c
              else c.(sum := c.sum.(errors := c.sum.errors + 1))
            else if Equal(node.data, other.data)
            then CompareItems(rest, right, depth, p, w', sum.(equalFiles := sum.equalFiles + 1))
            else CompareItems(rest, right, depth, p, w', sum.(different := sum.different + 1))
  }

  /** Usable entries here that the other side has not. */
  function Missing(items: Items, other: Items): nat {
    match items
    case Nil => 0
    case Item(name, _, rest) => (if Usable(name) && Find(other, name).None? then 1 else 0) + Missing(rest, other)
  }

  const NO_SUMMARY := Summary(0, 0, 0, 0, 0, 0)

  function CompareTrees(left: Node, right: Node, p: Patience): Comparison {
    if left.Dir? && right.Dir? then CompareDir(left.items, right.items, 0, p, Walk(0, 0, false), NO_SUMMARY)
    else Comparison(Walk(0, 0, false), NO_SUMMARY, NotFound)
  }

  // ---------------------------------------------------------------- updating

  datatype Result = Result(copiedFiles: nat, copiedTrees: nat, replacedEntries: nat, skippedEqual: nat)

  datatype Updating = Updating(dst: Items, walk: Walk, result: Result, status: Status)

  function Copied(r: Result, isTree: bool): Result {
    if isTree then r.(copiedTrees := r.copiedTrees + 1) else r.(copiedFiles := r.copiedFiles + 1)
  }

  function UpdateDir(src: Items, dst: Items, depth: nat, p: Patience, w: Walk, r: Result): Updating
    decreases src, 1
  {
    if depth > MAX_DEPTH then Updating(dst, w, r, BadBufferSize) else UpdateItems(src, dst, depth, p, w, r)
  }

  function UpdateItems(s: Items, dst: Items, depth: nat, p: Patience, w: Walk, r: Result): Updating
    decreases s, 0
  {
    match s
    case Nil => Updating(dst, w, r, Success)
    case Item(name, node, rest) =>
      if !Usable(name) then UpdateItems(rest, dst, depth, p, w, r)
      else
        var (w', goOn) := Tick(p, w, node.Dir?);
        if !goOn then Updating(dst, w', r, Aborted)
        else
          match Find(dst, name)
          case None => UpdateItems(rest, Put(dst, name, CopyOf(node)), depth, p, w', Copied(r, node.Dir?))
          case Some(other) =>
            if node.Dir? && other.Dir? then
              var u := UpdateDir(node.items, other.items, depth + 1, p, w', r);
              var dst' := Replace(dst, name, Dir(u.dst));
              if u.status == Success then UpdateItems(rest, dst', depth, p, u.walk, u.result)
              else u.(dst := dst')
            else if node.File? && other.File? && Equal(node.data, other.data)
            then UpdateItems(rest, dst, depth, p, w', r.(skippedEqual := r.skippedEqual + 1))
            else UpdateItems(rest, Put(dst, name, CopyOf(node)), depth, p, w',
                             Copied(r.(replacedEntries := r.replacedEntries + 1), node.Dir?))
  }

  const NO_RESULT := Result(0, 0, 0, 0)

  /** Copied to where nothing was, or over what was there. */
  function CopiedOver(r: Result, node: Node, other: Option<Node>): Result {
    Copied(if other.None? then r else r.(replacedEntries := r.replacedEntries + 1), node.Dir?)
  }

  /** One usable entry of the source: gone into, left as equal, or copied. */
  lemma UpdateCases(name: string, node: Node, rest: Items, dst: Items, depth: nat, p: Patience, w: Walk, r: Result)
    requires Usable(name)
    ensures var u := UpdateItems(Item(name, node, rest), dst, depth, p, w, r);
            var (w', goOn) := Tick(p, w, node.Dir?);
            var other := Find(dst, name);
            && (!goOn ==> u == Updating(dst, w', r, Aborted))
            && (goOn && BothDirs(node, other) ==>
                  var b := UpdateDir(node.items, other.value.items, depth + 1, p, w', r);
                  var mid := Replace(dst, name, Dir(b.dst));
                  u == if b.status == Success then UpdateItems(rest, mid, depth, p, b.walk, b.result)
                       else b.(dst := mid))
            && (goOn && EqualFiles(node, other) ==>
                  u == UpdateItems(rest, dst, depth, p, w', r.(skippedEqual := r.skippedEqual + 1)))
            && (goOn && !BothDirs(node, other) && !EqualFiles(node, other) ==>
                  u == UpdateItems(rest, Put(dst, name, CopyOf(node)), depth, p, w', CopiedOver(r, node, other)))
  {
    hide Usable, Equal, UpdateDir, Put, Replace, Find, Tick, CopyOf, Copied;
  }

  lemma UpdateSkips(name: string, node: Node, rest: Items, dst: Items, depth: nat, p: Patience, w: Walk, r: Result)
    ensures !Usable(name)
            ==> UpdateItems(Item(name, node, rest), dst, depth, p, w, r) == UpdateItems(rest, dst, depth, p, w, r)
    ensures UpdateItems(Nil, dst, depth, p, w, r) == Updating(dst, w, r, Success)
  {
    hide Usable, Find;
  }

  lemma ProperParts(name: string, node: Node, rest: Items)
    requires Proper(Item(name, node, rest))
    ensures Proper(rest) && (Usable(name) ==> Find(rest, name).None?)
            && (Usable(name) && node.Dir? ==> Proper(node.items))
  {
    hide Usable, Find;
  }

  function UpdateTree(src: Node, dst: Node, p: Patience): (u: (Node, Updating)) {
    if src.Dir? && dst.Dir? then
      var u := UpdateDir(src.items, dst.items, 0, p, Walk(0, 0, false), NO_RESULT);
      (Dir(u.dst), u)
    else (dst, Updating(Nil, Walk(0, 0, false), NO_RESULT, NotFound))
  }

  // ---------------------------------------------------------------- entries visited

  /** Every entry looked at is in one count of the summary, but for the one the user stopped at. */
  predicate Accounted(w: Walk, sum: Summary) {
    sum.leftOnly + sum.different + sum.equalFiles + sum.commonDirectories + (if w.aborted then 1 else 0) == Seen(w)
  }

  lemma {:induction false} DirCountsAddUp(left: Items, right: Items, depth: nat, p: Patience, w: Walk, sum: Summary)
    requires Accounted(w, sum) && !w.aborted
    ensures var c := CompareDir(left, right, depth, p, w, sum);
            Accounted(c.walk, c.sum) && (c.walk.aborted <==> c.status == Aborted)
    decreases left, 1
  {
    if depth <= MAX_DEPTH {
      CountsAddUp(left, right, depth, p, w, sum);
    }
  }

  /** One usable entry of the left side falls under one count, or is gone into. */
  lemma CompareUnrolls(name: string, node: Node, rest: Items, right: Items, depth: nat, p: Patience, w: Walk,
                       sum: Summary)
    requires Usable(name)
    ensures var c := CompareItems(Item(name, node, rest), right, depth, p, w, sum);
            var (w', goOn) := Tick(p, w, node.Dir?);
            var other := Find(right, name);
            && (!goOn ==> c == Comparison(w', sum, Aborted))
            && (goOn && BothDirs(node, other) ==>
                  var b := CompareDir(node.items, other.value.items, depth + 1, p, w',
                                      sum.(commonDirectories := sum.commonDirectories + 1));
                  c == if b.status == Success then CompareItems(rest, right, depth, p, b.walk, b.sum)
                       else if b.status == Aborted then b else b.(sum := b.sum.(errors := b.sum.errors + 1)))
            && (goOn && !BothDirs(node, other) ==>
                  c == CompareItems(rest, right, depth, p, w',
                                    if other.None? then sum.(leftOnly := sum.leftOnly + 1)
                                    else if EqualFiles(node, other) then sum.(equalFiles := sum.equalFiles + 1)
                                    else sum.(different := sum.different + 1)))
  {
    hide Usable, Equal, CompareDir, Find, Tick;
  }

  lemma CompareSkips(name: string, node: Node, rest: Items, right: Items, depth: nat, p: Patience, w: Walk,
                     sum: Summary)
    ensures !Usable(name) ==>
              CompareItems(Item(name, node, rest), right, depth, p, w, sum)
                == CompareItems(rest, right, depth, p, w, sum)
    ensures CompareItems(Nil, right, depth, p, w, sum) == Comparison(w, sum, Success)
  {
    hide Usable, Find;
  }

  lemma TickAccounts(p: Patience, w: Walk, isDirectory: bool, sum: Summary)
    requires Accounted(w, sum) && !w.aborted
    ensures var (w', goOn) := Tick(p, w, isDirectory);
            && (!goOn ==> w'.aborted && Accounted(w', sum))
            && (goOn ==> !w'.aborted
                         && Accounted(w', sum.(leftOnly := sum.leftOnly + 1))
                         && Accounted(w', sum.(different := sum.different + 1))
                         && Accounted(w', sum.(equalFiles := sum.equalFiles + 1))
                         && Accounted(w', sum.(commonDirectories := sum.commonDirectories + 1)))
  {
  }

  lemma ErrorsDoNotCount(w: Walk, sum: Summary)
    ensures Accounted(w, sum) ==> Accounted(w, sum.(errors := sum.errors + 1))
  {
  }

  lemma {:induction false} CountsAddUp(l: Items, right: Items, depth: nat, p: Patience, w: Walk, sum: Summary)
    requires Accounted(w, sum) && !w.aborted
    ensures var c := CompareItems(l, right, depth, p, w, sum);
            Accounted(c.walk, c.sum) && (c.walk.aborted <==> c.status == Aborted)
    decreases l, 0
  {
    hide *;
    match l
    case Nil => CompareSkips("", Dir(Nil), Nil, right, depth, p, w, sum);
    case Item(name, node, rest) =>
      if !Usable(name) {
        CompareSkips(name, node, rest, right, depth, p, w, sum);
        CountsAddUp(rest, right, depth, p, w, sum);
      } else {
        CompareUnrolls(name, node, rest, right, depth, p, w, sum);
        TickAccounts(p, w, node.Dir?, sum);
        var (w', goOn) := Tick(p, w, node.Dir?);
        var other := Find(right, name);
        BothAre(node, other);
        if !goOn {
        } else if BothDirs(node, other) {
          var sum' := sum.(commonDirectories := sum.commonDirectories + 1);
          DirCountsAddUp(node.items, other.value.items, depth + 1, p, w', sum');
          var b := CompareDir(node.items, other.value.items, depth + 1, p, w', sum');
          ErrorsDoNotCount(b.walk, b.sum);
          if b.status == Success {
            CountsAddUp(rest, right, depth, p, b.walk, b.sum);
          }
        } else {
          var sum' := if other.None? then sum.(leftOnly := sum.leftOnly + 1)
                      else if EqualFiles(node, other) then sum.(equalFiles := sum.equalFiles + 1)
                      else sum.(different := sum.different + 1);
          CountsAddUp(rest, right, depth, p, w', sum');
        }
      }
  }

  /** However the comparison ends, its counts sum to the entries visited. */
  lemma VisitedAreCounted(left: Node, right: Node, p: Patience)
    ensures var c := CompareTrees(left, right, p); Accounted(c.walk, c.sum) && (c.walk.aborted <==> c.status == Aborted)
  {
    NothingSeen();
    hide CompareDir, Accounted;
    if left.Dir? && right.Dir? {
      DirCountsAddUp(left.items, right.items, 0, p, Walk(0, 0, false), NO_SUMMARY);
    }
  }

  lemma NothingSeen()
    ensures Accounted(Walk(0, 0, false), NO_SUMMARY)
  {
  }

  // ---------------------------------------------------------------- what an update leaves alone

  /** Nothing at the destination changes but entries of the source's names, and in a directory that
      both sides have the same holds inside. */
  ghost predicate Kept(src: Items, before: Items, after: Items)
    decreases src, 1
  {
    (forall m :: !Has(src, m) ==> Find(after, m) == Find(before, m)) && KeptInside(src, before, after)
  }

  ghost predicate KeptInside(s: Items, before: Items, after: Items)
    decreases s, 0
  {
    match s
    case Nil => true
    case Item(name, node, rest) =>
      && (Usable(name) && node.Dir? && Find(before, name).Some? && Find(before, name).value.Dir? ==>
            && Find(after, name).Some? && Find(after, name).value.Dir?
            && Kept(node.items, Find(before, name).value.items, Find(after, name).value.items))
      && KeptInside(rest, before, after)
  }

  lemma {:induction false} UnchangedIsKept(src: Items, dst: Items)
    ensures Kept(src, dst, dst)
    decreases src, 1
  {
    UnchangedInside(src, dst);
  }

  lemma {:induction false} UnchangedInside(s: Items, dst: Items)
    ensures KeptInside(s, dst, dst)
    decreases s, 0
  {
    match s
    case Nil =>
    case Item(name, node, rest) =>
      UnchangedInside(rest, dst);
      if Usable(name) && node.Dir? && Find(dst, name).Some? && Find(dst, name).value.Dir? {
        UnchangedIsKept(node.items, Find(dst, name).value.items);
      }
  }

  /** Only the names of s matter for what is kept inside. */
  lemma {:induction false} SameInside(s: Items, before: Items, before': Items, after: Items)
    requires forall m :: Has(s, m) ==> Find(before, m) == Find(before', m)
    requires KeptInside(s, before, after)
    ensures KeptInside(s, before', after)
    decreases s
  {
    match s
    case Nil =>
    case Item(name, node, rest) =>
      hide Kept;
      assert Usable(name) ==> Has(s, name);
      forall m | Has(rest, m) ensures Find(before, m) == Find(before', m) {
        assert Has(s, m);
      }
      SameInside(rest, before, before', after);
  }

  /** One entry of the source handled, with the destination going from `dst` to `mid`. */
  lemma KeptStep(name: string, node: Node, rest: Items, dst: Items, mid: Items, after: Items)
    requires Usable(name) && Find(rest, name).None?
    requires forall m :: m != name ==> Find(mid, m) == Find(dst, m)
    requires Kept(rest, mid, after)
    requires node.Dir? && Find(dst, name).Some? && Find(dst, name).value.Dir? ==>
               Find(mid, name).Some? && Find(mid, name).value.Dir?
               && Kept(node.items, Find(dst, name).value.items, Find(mid, name).value.items)
    ensures Kept(Item(name, node, rest), dst, after)
  {
    var s := Item(name, node, rest);
    assert !Has(rest, name);
    assert Find(after, name) == Find(mid, name);
    forall m | !Has(s, m) ensures Find(after, m) == Find(dst, m) {
      assert !Has(rest, m) && m != name;
    }
    SameInside(rest, mid, dst, after);
  }

  /** An unusable entry of the source is as good as none. */
  lemma KeptSkip(name: string, node: Node, rest: Items, dst: Items, after: Items)
    requires !Usable(name) && Kept(rest, dst, after)
    ensures Kept(Item(name, node, rest), dst, after)
  {
    var s := Item(name, node, rest);
    forall m | !Has(s, m) ensures Find(after, m) == Find(dst, m) {
      assert !Has(rest, m);
    }
  }

  lemma {:induction false} UpdateDirKeeps(src: Items, dst: Items, depth: nat, p: Patience, w: Walk, r: Result)
    requires Proper(src)
    ensures Kept(src, dst, UpdateDir(src, dst, depth, p, w, r).dst)
    decreases src, 1
  {
    hide UpdateItems, Kept;
    if depth > MAX_DEPTH {
      UnchangedIsKept(src, dst);
    } else {
      UpdateKeeps(src, dst, depth, p, w, r);
    }
  }

  lemma PutElsewhere(dst: Items, name: string, node: Node)
    ensures forall m :: m != name ==> Find(Put(dst, name, node), m) == Find(dst, m)
    ensures Find(Put(dst, name, node), name) == Some(node)
  {
    hide Put;
    forall m ensures Find(Put(dst, name, node), m) == if m == name then Some(node) else Find(dst, m) {
      FindPut(dst, name, node, m);
    }
  }

  lemma ReplaceElsewhere(dst: Items, name: string, node: Node)
    requires Find(dst, name).Some?
    ensures forall m :: m != name ==> Find(Replace(dst, name, node), m) == Find(dst, m)
    ensures Find(Replace(dst, name, node), name) == Some(node)
  {
    hide Replace;
    forall m ensures m != name ==> Find(Replace(dst, name, node), m) == Find(dst, m) {
      FindReplaced(dst, name, node, m);
    }
    FindReplaced(dst, name, node, name);
  }

  /** Whether or not it succeeds, an update keeps whatever only the destination has. */
  lemma {:induction false} UpdateKeeps(s: Items, dst: Items, depth: nat, p: Patience, w: Walk, r: Result)
    requires Proper(s)
    ensures Kept(s, dst, UpdateItems(s, dst, depth, p, w, r).dst)
    decreases s, 0
  {
    hide *;
    UnchangedIsKept(s, dst);
    match s
    case Nil => UpdateSkips("", Dir(Nil), Nil, dst, depth, p, w, r);
    case Item(name, node, rest) =>
      ProperParts(name, node, rest);
      if !Usable(name) {
        UpdateSkips(name, node, rest, dst, depth, p, w, r);
        UpdateKeeps(rest, dst, depth, p, w, r);
        KeptSkip(name, node, rest, dst, UpdateItems(s, dst, depth, p, w, r).dst);
      } else {
        UpdateCases(name, node, rest, dst, depth, p, w, r);
        var (w', goOn) := Tick(p, w, node.Dir?);
        var after, other := UpdateItems(s, dst, depth, p, w, r).dst, Find(dst, name);
        BothAre(node, other);
        if !goOn {
        } else if BothDirs(node, other) {
          UpdateDirKeeps(node.items, other.value.items, depth + 1, p, w', r);
          var u := UpdateDir(node.items, other.value.items, depth + 1, p, w', r);
          var mid := Replace(dst, name, Dir(u.dst));
          ReplaceElsewhere(dst, name, Dir(u.dst));
          UnchangedIsKept(rest, mid);
          if u.status == Success {
            UpdateKeeps(rest, mid, depth, p, u.walk, u.result);
          }
          KeptStep(name, node, rest, dst, mid, after);
        } else if EqualFiles(node, other) {
          UpdateKeeps(rest, dst, depth, p, w', r.(skippedEqual := r.skippedEqual + 1));
          KeptStep(name, node, rest, dst, dst, after);
        } else {
          var mid := Put(dst, name, CopyOf(node));
          PutElsewhere(dst, name, CopyOf(node));
          UpdateKeeps(rest, mid, depth, p, w', CopiedOver(r, node, other));
          KeptStep(name, node, rest, dst, mid, after);
        }
      }
  }

  // ---------------------------------------------------------------- in sync

  /** Every entry of the source is there, of the same kind, files equal, directories in sync. */
  predicate InSync(s: Items, dst: Items)
    decreases s
  {
    match s
    case Nil => true
    case Item(name, node, rest) =>
      && (Usable(name) ==> Find(dst, name).Some? && SameNode(node, Find(dst, name).value))
      && InSync(rest, dst)
  }

  predicate SameNode(node: Node, other: Node)
    decreases node
  {
    node.Dir? == other.Dir?
    && (if node.Dir? then InSync(node.items, other.items) else Equal(node.data, other.data))
  }

  lemma {:induction false} CopyIsSame(node: Node)
    requires node.Dir? ==> Proper(node.items)
    ensures SameNode(node, CopyOf(node))
    decreases node, 1
  {
    hide Equal;
    match node
    case File(_) => EqualItself(node.data);
    case Dir(items) => CopyInSync(items, items);
  }

  lemma EqualItself(a: seq<bv8>)
    ensures Equal(a, a)
  {
  }

  lemma {:induction false} CopyFinds(items: Items, name: string)
    requires Usable(name)
    ensures Find(CopyItems(items), name)
            == (match Find(items, name) case None => None case Some(node) => Some(CopyOf(node)))
  {
    match items
    case Nil =>
    case Item(_, _, rest) => CopyFinds(rest, name);
  }

  lemma {:induction false} CopyInSync(s: Items, all: Items)
    requires Proper(s)
    requires forall m :: Has(s, m) ==> Find(all, m) == Find(s, m)
    ensures InSync(s, CopyItems(all))
    decreases s, 0
  {
    match s
    case Nil =>
    case Item(name, node, rest) =>
      hide CopyItems, CopyOf, SameNode, Usable;
      forall m | Has(rest, m) ensures Find(all, m) == Find(rest, m) {
        assert Has(s, m);
      }
      CopyInSync(rest, all);
      if Usable(name) {
        assert Has(s, name);
        CopyIsSame(node);
        CopyFinds(all, name);
      }
  }

  lemma KeptMeans(s: Items, before: Items, after: Items, name: string)
    requires Kept(s, before, after) && !Has(s, name)
    ensures Find(after, name) == Find(before, name)
  {
  }

  lemma {:induction false} UpdateDirSyncs(src: Items, dst: Items, depth: nat, p: Patience, w: Walk, r: Result)
    requires Proper(src) && UpdateDir(src, dst, depth, p, w, r).status == Success
    ensures InSync(src, UpdateDir(src, dst, depth, p, w, r).dst)
    decreases src, 1
  {
    hide UpdateItems, InSync;
    UpdateSyncs(src, dst, depth, p, w, r);
  }

  /** The entry just handled stays as it is while the rest of the source is. */
  lemma SyncStep(name: string, node: Node, rest: Items, mid: Items, after: Items)
    requires Usable(name) && Find(rest, name).None?
    requires Find(mid, name).Some? && SameNode(node, Find(mid, name).value)
    requires Kept(rest, mid, after) && InSync(rest, after)
    ensures InSync(Item(name, node, rest), after)
  {
    hide SameNode, Kept;
    assert !Has(rest, name);
    KeptMeans(rest, mid, after, name);
  }

  /** A successful update leaves source and destination in sync. */
  lemma {:induction false} UpdateSyncs(s: Items, dst: Items, depth: nat, p: Patience, w: Walk, r: Result)
    requires Proper(s) && UpdateItems(s, dst, depth, p, w, r).status == Success
    ensures InSync(s, UpdateItems(s, dst, depth, p, w, r).dst)
    decreases s, 0
  {
    hide *;
    var after := UpdateItems(s, dst, depth, p, w, r).dst;
    match s
    case Nil => NothingInSync(after);
    case Item(name, node, rest) =>
      ProperParts(name, node, rest);
      if !Usable(name) {
        UpdateSkips(name, node, rest, dst, depth, p, w, r);
        UpdateSyncs(rest, dst, depth, p, w, r);
        SyncSkip(name, node, rest, after);
      } else {
        UpdateCases(name, node, rest, dst, depth, p, w, r);
        var (w', goOn) := Tick(p, w, node.Dir?);
        var other := Find(dst, name);
        BothAre(node, other);
        if BothDirs(node, other) {
          var u := UpdateDir(node.items, other.value.items, depth + 1, p, w', r);
          UpdateDirSyncs(node.items, other.value.items, depth + 1, p, w', r);
          var mid := Replace(dst, name, Dir(u.dst));
          ReplaceElsewhere(dst, name, Dir(u.dst));
          SameDirs(node, u.dst);
          UpdateSyncs(rest, mid, depth, p, u.walk, u.result);
          UpdateKeeps(rest, mid, depth, p, u.walk, u.result);
          SyncStep(name, node, rest, mid, after);
        } else if EqualFiles(node, other) {
          var r' := r.(skippedEqual := r.skippedEqual + 1);
          SameFiles(node, other.value);
          UpdateSyncs(rest, dst, depth, p, w', r');
          UpdateKeeps(rest, dst, depth, p, w', r');
          SyncStep(name, node, rest, dst, after);
        } else {
          var mid, r' := Put(dst, name, CopyOf(node)), CopiedOver(r, node, other);
          PutElsewhere(dst, name, CopyOf(node));
          CopyIsSame(node);
          UpdateSyncs(rest, mid, depth, p, w', r');
          UpdateKeeps(rest, mid, depth, p, w', r');
          SyncStep(name, node, rest, mid, after);
        }
      }
  }

  lemma NothingInSync(after: Items)
    ensures InSync(Nil, after)
  {
  }

  lemma SyncSkip(name: string, node: Node, rest: Items, after: Items)
    requires !Usable(name) && InSync(rest, after)
    ensures InSync(Item(name, node, rest), after)
  {
  }

  lemma SameDirs(node: Node, items: Items)
    requires node.Dir? && InSync(node.items, items)
    ensures SameNode(node, Dir(items))
  {
  }

  lemma SameFiles(node: Node, other: Node)
    requires node.File? && other.File? && Equal(node.data, other.data)
    ensures SameNode(node, other)
  {
  }

  // ---------------------------------------------------------------- after an update

  /** How deep the directories of a tree nest. */
  function Depth(s: Items): nat {
    match s
    case Nil => 0
    case Item(name, node, rest) =>
      var here := if Usable(name) && node.Dir? then 1 + Depth(node.items) else 0;
      Max(here, Depth(rest))
  }

  /** How deep those directories nest that both sides have already. */
  function CommonDepth(s: Items, dst: Items): nat {
    match s
    case Nil => 0
    case Item(name, node, rest) =>
      var here := if Usable(name) && node.Dir? && Find(dst, name).Some? && Find(dst, name).value.Dir?
                  then 1 + CommonDepth(node.items, Find(dst, name).value.items) else 0;
      Max(here, CommonDepth(rest, dst))
  }

  function Max(a: nat, b: nat): nat {
    if a < b then b else a
  }

  lemma {:induction false} InSyncCommonDepth(s: Items, dst: Items)
    requires InSync(s, dst)
    ensures CommonDepth(s, dst) == Depth(s)
  {
    match s
    case Nil =>
    case Item(name, node, rest) =>
      hide Usable, Equal;
      InSyncCommonDepth(rest, dst);
      if Usable(name) && node.Dir? {
        InSyncCommonDepth(node.items, Find(dst, name).value.items);
      }
  }

  lemma {:induction false} SameCommonDepth(s: Items, dst: Items, mid: Items)
    requires forall m :: Has(s, m) ==> Find(mid, m) == Find(dst, m)
    ensures CommonDepth(s, mid) == CommonDepth(s, dst)
  {
    match s
    case Nil =>
    case Item(name, node, rest) =>
      assert Usable(name) ==> Has(s, name);
      forall m | Has(rest, m) ensures Find(mid, m) == Find(dst, m) {
        assert Has(s, m);
      }
      SameCommonDepth(rest, dst, mid);
  }

  lemma CommonDepthStep(name: string, node: Node, rest: Items, dst: Items, mid: Items)
    requires Usable(name) && Find(rest, name).None? && forall m :: m != name ==> Find(mid, m) == Find(dst, m)
    ensures CommonDepth(rest, mid) == CommonDepth(rest, dst)
  {
    forall m | Has(rest, m) ensures Find(mid, m) == Find(dst, m) {
      assert m != name;
    }
    SameCommonDepth(rest, dst, mid);
  }

  lemma {:induction false} UpdateDirSucceedsIff(src: Items, dst: Items, depth: nat, w: Walk, r: Result)
    requires Proper(src) && !w.aborted
    ensures EndsWell(UpdateDir(src, dst, depth, Forever, w, r), depth + CommonDepth(src, dst) <= MAX_DEPTH)
    decreases src, 2
  {
    hide UpdateItems, CommonDepth;
    if depth <= MAX_DEPTH {
      UpdateSucceedsIff(src, dst, depth, w, r);
    }
  }

  /** How it ended, and that nobody stopped it. */
  predicate EndsWell(u: Updating, within: bool) {
    (u.status == Success <==> within) && !u.walk.aborted
  }

  lemma CommonDepthWithin(name: string, node: Node, rest: Items, dst: Items, depth: nat)
    requires Usable(name) && depth <= MAX_DEPTH
    ensures var other := Find(dst, name);
            depth + CommonDepth(Item(name, node, rest), dst) <= MAX_DEPTH <==>
            (node.Dir? && other.Some? && other.value.Dir? ==>
               depth + 1 + CommonDepth(node.items, other.value.items) <= MAX_DEPTH)
            && depth + CommonDepth(rest, dst) <= MAX_DEPTH
  {
    hide Usable, Find;
  }

  /** Left to itself an update fails exactly when directories that both sides have nest too deep. */
  lemma {:induction false} UpdateSucceedsIff(s: Items, dst: Items, depth: nat, w: Walk, r: Result)
    requires Proper(s) && !w.aborted && depth <= MAX_DEPTH
    ensures EndsWell(UpdateItems(s, dst, depth, Forever, w, r), depth + CommonDepth(s, dst) <= MAX_DEPTH)
    decreases s, 1
  {
    match s
    case Nil =>
    case Item(name, node, rest) =>
      if Usable(name) {
        UsableSucceedsIff(name, node, rest, dst, depth, w, r);
      } else {
        hide EndsWell, Usable, UpdateDir;
        UpdateSucceedsIff(rest, dst, depth, w, r);
      }
  }

  lemma {:induction false} UsableSucceedsIff(name: string, node: Node, rest: Items, dst: Items, depth: nat, w: Walk,
                                             r: Result)
    requires Usable(name) && Proper(Item(name, node, rest)) && !w.aborted && depth <= MAX_DEPTH
    ensures var s := Item(name, node, rest);
            EndsWell(UpdateItems(s, dst, depth, Forever, w, r), depth + CommonDepth(s, dst) <= MAX_DEPTH)
    decreases Item(name, node, rest), 0
  {
    hide Usable, Equal, UpdateDir, Put, Replace, Find, CopyOf, Copied, CommonDepth, Tick;
    CommonDepthWithin(name, node, rest, dst, depth);
    TickSays(Forever, w, node.Dir?);
    var w' := Tick(Forever, w, node.Dir?).0;
    var other := Find(dst, name);
    if other.Some? && node.Dir? && other.value.Dir? {
      var u := UpdateDir(node.items, other.value.items, depth + 1, Forever, w', r);
      UpdateDirSucceedsIff(node.items, other.value.items, depth + 1, w', r);
      var mid := Replace(dst, name, Dir(u.dst));
      ReplaceElsewhere(dst, name, Dir(u.dst));
      CommonDepthStep(name, node, rest, dst, mid);
      if u.status == Success {
        UpdateSucceedsIff(rest, mid, depth, u.walk, u.result);
      }
    } else if other.Some? && node.File? && other.value.File? && Equal(node.data, other.value.data) {
      UpdateSucceedsIff(rest, dst, depth, w', r.(skippedEqual := r.skippedEqual + 1));
    } else {
      var mid := Put(dst, name, CopyOf(node));
      PutElsewhere(dst, name, CopyOf(node));
      CommonDepthStep(name, node, rest, dst, mid);
      var r' := if other.None? then Copied(r, node.Dir?)
                else Copied(r.(replacedEntries := r.replacedEntries + 1), node.Dir?);
      UpdateSucceedsIff(rest, mid, depth, w', r');
    }
  }

  /** No files copied, no trees copied, nothing replaced between the two. */
  predicate NothingDone(r: Result, r': Result) {
    r'.copiedFiles == r.copiedFiles && r'.copiedTrees == r.copiedTrees && r'.replacedEntries == r.replacedEntries
  }

  lemma {:induction false} SecondUpdateDir(src: Items, dst: Items, depth: nat, p: Patience, w: Walk, r: Result)
    requires InSync(src, dst)
    ensures var u := UpdateDir(src, dst, depth, p, w, r); u.dst == dst && NothingDone(r, u.result)
    decreases src, 1
  {
    hide UpdateItems, InSync;
    if depth <= MAX_DEPTH {
      SecondUpdate(src, dst, depth, p, w, r);
    }
  }

  /** What being in sync says of an entry, and what an update then does about it. */
  lemma InSyncParts(name: string, node: Node, rest: Items, dst: Items)
    requires InSync(Item(name, node, rest), dst)
    ensures InSync(rest, dst)
    ensures Usable(name) ==>
              var other := Find(dst, name);
              && (BothDirs(node, other) || EqualFiles(node, other)) && other.Some?
              && (BothDirs(node, other) ==> node.Dir? && other.value.Dir? && InSync(node.items, other.value.items))
  {
    hide Usable, Equal, Find;
  }

  lemma NothingDoneJoins(r: Result, mid: Result, after: Result)
    ensures NothingDone(r, mid) && NothingDone(mid, after) ==> NothingDone(r, after)
    ensures NothingDone(r, r) && NothingDone(r, r.(skippedEqual := r.skippedEqual + 1))
  {
  }

  lemma {:induction false} SecondUpdate(s: Items, dst: Items, depth: nat, p: Patience, w: Walk, r: Result)
    requires InSync(s, dst)
    ensures var u := UpdateItems(s, dst, depth, p, w, r); u.dst == dst && NothingDone(r, u.result)
    decreases s, 0
  {
    hide *;
    var after := UpdateItems(s, dst, depth, p, w, r).result;
    NothingDoneJoins(r, r, r);
    match s
    case Nil => UpdateSkips("", Dir(Nil), Nil, dst, depth, p, w, r);
    case Item(name, node, rest) =>
      InSyncParts(name, node, rest, dst);
      if !Usable(name) {
        UpdateSkips(name, node, rest, dst, depth, p, w, r);
        SecondUpdate(rest, dst, depth, p, w, r);
      } else {
        UpdateCases(name, node, rest, dst, depth, p, w, r);
        var (w', goOn) := Tick(p, w, node.Dir?);
        var other := Find(dst, name);
        if !goOn {
        } else if BothDirs(node, other) {
          SecondUpdateDir(node.items, other.value.items, depth + 1, p, w', r);
          var u := UpdateDir(node.items, other.value.items, depth + 1, p, w', r);
          ReplaceSame(dst, name, Dir(u.dst));
          if u.status == Success {
            SecondUpdate(rest, dst, depth, p, u.walk, u.result);
            NothingDoneJoins(r, u.result, after);
          }
        } else {
          var r' := r.(skippedEqual := r.skippedEqual + 1);
          SecondUpdate(rest, dst, depth, p, w', r');
          NothingDoneJoins(r, r', after);
        }
      }
  }

  predicate NoDifference(sum: Summary, sum': Summary) {
    sum'.leftOnly == sum.leftOnly && sum'.different == sum.different
  }

  lemma {:induction false} CompareDirInSync(left: Items, right: Items, depth: nat, p: Patience, w: Walk, sum: Summary)
    requires InSync(left, right) && !w.aborted
    ensures Agrees(p, sum, CompareDir(left, right, depth, p, w, sum), depth + Depth(left) <= MAX_DEPTH)
    decreases left, 2
  {
    hide CompareItems, InSync, Depth, Missing;
    if depth <= MAX_DEPTH {
      CompareInSync(left, right, depth, p, w, sum);
    }
  }

  lemma CompareCases(name: string, node: Node, rest: Items, right: Items, depth: nat, p: Patience, w: Walk,
                     sum: Summary)
    requires Usable(name) && InSync(Item(name, node, rest), right)
    ensures Find(right, name).Some? && Find(right, name).value.Dir? == node.Dir? && InSync(rest, right)
    ensures node.Dir? ==> InSync(node.items, Find(right, name).value.items)
    ensures var c := CompareItems(Item(name, node, rest), right, depth, p, w, sum);
            var (w', goOn) := Tick(p, w, node.Dir?);
            && (!goOn ==> c == Comparison(w', sum, Aborted))
            && (goOn && node.File? ==>
                  c == CompareItems(rest, right, depth, p, w', sum.(equalFiles := sum.equalFiles + 1)))
            && (goOn && node.Dir? ==>
                  var b := CompareDir(node.items, Find(right, name).value.items, depth + 1, p, w',
                                      sum.(commonDirectories := sum.commonDirectories + 1));
                  if b.status == Success then c == CompareItems(rest, right, depth, p, b.walk, b.sum)
                  else c.status == b.status && c.walk == b.walk && NoDifference(b.sum, c.sum))
  {
    hide Usable, Equal, CompareDir, Find, Tick;
  }

  lemma DepthWithin(name: string, node: Node, rest: Items, depth: nat)
    requires Usable(name) && depth <= MAX_DEPTH
    ensures depth + Depth(Item(name, node, rest)) <= MAX_DEPTH <==>
            (node.Dir? ==> depth + 1 + Depth(node.items) <= MAX_DEPTH) && depth + Depth(rest) <= MAX_DEPTH
  {
    hide Usable;
  }

  /** A comparison that went well: nothing different, and an error only where the tree is too deep. */
  predicate Agrees(p: Patience, sum: Summary, c: Comparison, within: bool) {
    NoDifference(sum, c.sum) && (p == Forever ==> !c.walk.aborted && (c.status == Success <==> within))
  }

  lemma {:induction false} CompareInSync(l: Items, right: Items, depth: nat, p: Patience, w: Walk, sum: Summary)
    requires InSync(l, right) && !w.aborted && depth <= MAX_DEPTH
    ensures Agrees(p, sum, CompareItems(l, right, depth, p, w, sum), depth + Depth(l) <= MAX_DEPTH)
    decreases l, 1
  {
    match l
    case Nil =>
    case Item(name, node, rest) =>
      if Usable(name) {
        CompareUsable(name, node, rest, right, depth, p, w, sum);
      } else {
        hide Agrees, CompareDir, Usable;
        CompareInSync(rest, right, depth, p, w, sum);
      }
  }

  lemma {:induction false} CompareUsable(name: string, node: Node, rest: Items, right: Items, depth: nat, p: Patience,
                                         w: Walk, sum: Summary)
    requires Usable(name) && InSync(Item(name, node, rest), right) && !w.aborted && depth <= MAX_DEPTH
    ensures var l := Item(name, node, rest);
            Agrees(p, sum, CompareItems(l, right, depth, p, w, sum), depth + Depth(l) <= MAX_DEPTH)
    decreases Item(name, node, rest), 0
  {
    hide Usable, CompareItems, CompareDir, InSync, Depth, Tick;
    CompareCases(name, node, rest, right, depth, p, w, sum);
    DepthWithin(name, node, rest, depth);
    TickSays(p, w, node.Dir?);
    var (w', goOn) := Tick(p, w, node.Dir?);
    if goOn {
      if node.Dir? {
        var other := Find(right, name).value;
        var sum' := sum.(commonDirectories := sum.commonDirectories + 1);
        CompareDirInSync(node.items, other.items, depth + 1, p, w', sum');
        var c := CompareDir(node.items, other.items, depth + 1, p, w', sum');
        DirCountsAborted(node.items, other.items, depth + 1, p, w', sum');
        if c.status == Success {
          CompareInSync(rest, right, depth, p, c.walk, c.sum);
        }
      } else {
        CompareInSync(rest, right, depth, p, w', sum.(equalFiles := sum.equalFiles + 1));
      }
    }
  }

  lemma {:induction false} DirCountsAborted(left: Items, right: Items, depth: nat, p: Patience, w: Walk, sum: Summary)
    requires !w.aborted
    ensures var c := CompareDir(left, right, depth, p, w, sum); c.status == Success ==> !c.walk.aborted
    decreases left, 1
  {
    hide Find, Usable, Equal, Missing;
    if depth <= MAX_DEPTH {
      CountsAborted(left, right, depth, p, w, sum);
    }
  }

  lemma {:induction false} CountsAborted(l: Items, right: Items, depth: nat, p: Patience, w: Walk, sum: Summary)
    requires !w.aborted
    ensures CompareItems(l, right, depth, p, w, sum).status == Success
            ==> !CompareItems(l, right, depth, p, w, sum).walk.aborted
    decreases l, 0
  {
    hide Find, Usable, Equal, CompareDir;
    match l
    case Nil =>
    case Item(name, node, rest) =>
      var w' := Tick(p, w, node.Dir?).0;
      if !Usable(name) {
        CountsAborted(rest, right, depth, p, w, sum);
      } else if !w'.aborted {
        if node.Dir? && Find(right, name).Some? && Find(right, name).value.Dir? {
          var sum' := sum.(commonDirectories := sum.commonDirectories + 1);
          var other := Find(right, name).value;
          DirCountsAborted(node.items, other.items, depth + 1, p, w', sum');
          var c := CompareDir(node.items, other.items, depth + 1, p, w', sum');
          if c.status == Success {
            CountsAborted(rest, right, depth, p, c.walk, c.sum);
          }
        } else {
          CountsAborted(rest, right, depth, p, w', sum.(leftOnly := sum.leftOnly + 1));
          CountsAborted(rest, right, depth, p, w', sum.(different := sum.different + 1));
          CountsAborted(rest, right, depth, p, w', sum.(equalFiles := sum.equalFiles + 1));
        }
      }
  }

  /** After an error-free update a comparison finds nothing missing and nothing different, and a
      second update copies and replaces nothing; neither runs into an error exactly when the source
      nests no deeper than the walks go. */
  lemma UpdateThenAgree(src: Node, dst: Node, p: Patience, q: Patience)
    requires src.Dir? && dst.Dir? && Proper(src.items) && UpdateTree(src, dst, p).1.status == Success
    ensures var updated := UpdateTree(src, dst, p).0;
            var c, u := CompareTrees(src, updated, q), UpdateTree(src, updated, q);
            && c.sum.leftOnly == 0 && c.sum.different == 0
            && u.0 == updated && NothingDone(NO_RESULT, u.1.result)
            && (q == Forever ==> (c.status == Success <==> Depth(src.items) <= 64))
            && (q == Forever ==> (u.1.status == Success <==> Depth(src.items) <= 64))
  {
    hide UpdateDir, CompareDir, InSync, Depth, CommonDepth, Proper;
    var w := Walk(0, 0, false);
    UpdateDirSyncs(src.items, dst.items, 0, p, w, NO_RESULT);
    var updated := UpdateTree(src, dst, p).0;
    CompareDirInSync(src.items, updated.items, 0, q, w, NO_SUMMARY);
    SecondUpdateDir(src.items, updated.items, 0, q, w, NO_RESULT);
    UpdateDirSucceedsIff(src.items, updated.items, 0, w, NO_RESULT);
    InSyncCommonDepth(src.items, updated.items);
  }

  /** An update, error-free or not, leaves what only the destination has as it was. */
  lemma DestinationKept(src: Node, dst: Node, p: Patience)
    requires src.Dir? && dst.Dir? && Proper(src.items)
    ensures UpdateTree(src, dst, p).0.Dir? && Kept(src.items, dst.items, UpdateTree(src, dst, p).0.items)
  {
    hide UpdateDir, Proper, Kept;
    UpdateDirKeeps(src.items, dst.items, 0, p, Walk(0, 0, false), NO_RESULT);
  }

  // ---------------------------------------------------------------- by content

  lemma EqualIsByDigest(x: seq<bv8>, y: seq<bv8>)
    ensures Equal(x, y) <==> |x| == |y| && Sha256.Digest(x) == Sha256.Digest(y)
  {
    hide Sha256.Digest;
  }

  /** What lies at the end of a path of names. */
  function At(items: Items, path: seq<string>): Option<Node>
    decreases |path|
  {
    if path == [] || path[0] == "." || path[0] == ".." then None
    else
      var node := Find(items, path[0]);
      if |path| == 1 || node.None? then node
      else if node.value.Dir? then At(node.value.items, path[1..]) else None
  }

  /** A file where a file was, of the same size and digest; a directory where a directory was. */
  predicate SameKind(node: Node, other: Option<Node>) {
    && other.Some? && other.value.Dir? == node.Dir?
    && (node.File? ==>
          |node.data| == |other.value.data| && Sha256.Digest(node.data) == Sha256.Digest(other.value.data))
  }

  lemma {:induction false} InSyncFinds(s: Items, dst: Items, name: string)
    requires InSync(s, dst) && Usable(name) && Find(s, name).Some?
    ensures Find(dst, name).Some? && SameNode(Find(s, name).value, Find(dst, name).value)
  {
    match s
    case Item(n, node, rest) =>
      hide SameNode, Usable;
      if n != name {
        InSyncFinds(rest, dst, name);
      }
  }

  lemma {:induction false} InSyncAt(s: Items, dst: Items, path: seq<string>)
    requires InSync(s, dst) && At(s, path).Some?
    ensures SameKind(At(s, path).value, At(dst, path))
    decreases |path|
  {
    hide InSync, Equal, Sha256.Digest, Find;
    InSyncFinds(s, dst, path[0]);
    var node, other := Find(s, path[0]).value, Find(dst, path[0]).value;
    if |path| > 1 {
      InSyncAt(node.items, other.items, path[1..]);
    } else if node.File? {
      EqualIsByDigest(node.data, other.data);
    }
  }

  /** After an error-free update every file of the source has, at its path, a file of the same size with
      the same SHA-256, and every directory a directory. */
  lemma UpdatedByContent(src: Node, dst: Node, p: Patience, path: seq<string>)
    requires src.Dir? && dst.Dir? && Proper(src.items) && UpdateTree(src, dst, p).1.status == Success
    requires At(src.items, path).Some?
    ensures var node, updated := At(src.items, path).value, UpdateTree(src, dst, p).0;
            && updated.Dir? && At(updated.items, path).Some?
            && var other := At(updated.items, path).value;
               && (node.Dir? <==> other.Dir?)
               && (node.File? ==>
                     |node.data| == |other.data| && Sha256.Digest(node.data) == Sha256.Digest(other.data))
  {
    hide UpdateDir, InSync, At, Proper, Sha256.Digest;
    UpdateDirSyncs(src.items, dst.items, 0, p, Walk(0, 0, false), NO_RESULT);
    InSyncAt(src.items, UpdateTree(src, dst, p).0.items, path);
  }

  // ---------------------------------------------------------------- trees too deep to compare

  /** Directories nested n deep, each holding the next. */
  function Chain(n: nat): Items {
    if n == 0 then Nil else Item("d", Dir(Chain(n - 1)), Nil)
  }

  lemma {:induction false} ChainNests(n: nat)
    ensures Proper(Chain(n)) && Depth(Chain(n)) == n && CommonDepth(Chain(n), Nil) == 0
  {
    ChainStep(n);
    if n > 0 {
      ChainNests(n - 1);
    }
  }

  lemma ChainStep(n: nat)
    ensures n == 0 ==> Proper(Chain(n)) && Depth(Chain(n)) == 0 && CommonDepth(Chain(n), Nil) == 0
    ensures n > 0 ==> (Proper(Chain(n)) <==> Proper(Chain(n - 1))) && Depth(Chain(n)) == 1 + Depth(Chain(n - 1))
                      && CommonDepth(Chain(n), Nil) == 0
  {
  }

  lemma IntoEmpty(src: Items)
    requires Proper(src) && CommonDepth(src, Nil) == 0
    ensures var (updated, u) := UpdateTree(Dir(src), Dir(Nil), Forever);
            && u.status == Success
            && (CompareTrees(Dir(src), updated, Forever).status == Success <==> Depth(src) <= MAX_DEPTH)
            && (UpdateTree(Dir(src), updated, Forever).1.status == Success <==> Depth(src) <= MAX_DEPTH)
  {
    hide UpdateDir, CompareDir, Depth, Proper, CommonDepth, InSync, Kept;
    UpdateDirSucceedsIff(src, Nil, 0, Walk(0, 0, false), NO_RESULT);
    UpdateThenAgree(Dir(src), Dir(Nil), Forever, Forever);
  }

  lemma ChainCopied(n: nat)
    ensures var (updated, u) := UpdateTree(Dir(Chain(n)), Dir(Nil), Forever);
            && u.status == Success
            && (CompareTrees(Dir(Chain(n)), updated, Forever).status == Success <==> n <= 64)
            && (UpdateTree(Dir(Chain(n)), updated, Forever).1.status == Success <==> n <= 64)
  {
    hide Chain, UpdateTree, CompareTrees, Depth, Proper, CommonDepth;
    ChainNests(n);
    IntoEmpty(Chain(n));
  }
}
