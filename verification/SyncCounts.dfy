/** What the counts of a comparison and of an update mean (ec/Sync.c), said of the two trees alone. */
module SyncCounts {
  import opened SyncTrees
  import Sha256

  /** The names in a directory, without "." and "..". */
  function Names(items: Items): (names: set<string>)
    ensures forall n :: n in names <==> n != "." && n != ".." && Find(items, n).Some?
  {
    match items
    case Nil => {}
    case Item(n, _, rest) => if n == "." || n == ".." then Names(rest) else {n} + Names(rest)
  }

  lemma NamesStep(n: string, node: Node, rest: Items, other: Items)
    requires Proper(Item(n, node, rest))
    ensures var here, there := Names(Item(n, node, rest)) - Names(other), Names(rest) - Names(other);
            if Usable(n) && Find(other, n).None? then n !in there && here == there + {n} else here == there
  {
    ProperParts(n, node, rest);
    hide Find, Proper;
  }

  lemma {:induction false} MissingAreNames(items: Items, other: Items)
    requires Proper(items)
    ensures Missing(items, other) == |Names(items) - Names(other)|
  {
    hide Names, Find, Proper, Usable;
    match items
    case Nil => NoNames(other);
    case Item(n, node, rest) =>
      ProperParts(n, node, rest);
      NamesStep(n, node, rest, other);
      MissingAreNames(rest, other);
  }

  lemma NoNames(other: Items)
    ensures Names(Nil) - Names(other) == {}
  {
  }

  /** Over all directories common to both sides: files that agree in size and digest, entries of one name
      that do not agree, entries only the left has, the common directories themselves, entries only the
      right has, and of the left's entries how many were files, and how many were directories the other
      side has not. */
  datatype Tally = Tally(same: nat, other: nat, missing: nat, directories: nat, extra: nat, files: nat, trees: nat)

  const ZERO := Tally(0, 0, 0, 0, 0, 0, 0)

  function Plus(a: Tally, b: Tally): Tally {
    Tally(a.same + b.same, a.other + b.other, a.missing + b.missing, a.directories + b.directories, a.extra + b.extra,
          a.files + b.files, a.trees + b.trees)
  }

  /** An entry that is not gone into. */
  function Single(node: Node, other: Option<Node>): Tally {
    var kind := if node.File? then ZERO.(files := 1) else ZERO.(trees := 1);
    if other.None? then kind.(missing := 1)
    else if node.File? && other.value.File? && |node.data| == |other.value.data|
            && Sha256.Digest(node.data) == Sha256.Digest(other.value.data) then kind.(same := 1)
    else kind.(other := 1)
  }

  /** A directory on both sides, without what is in it but for what only the right has there. */
  function Both(left: Items, right: Items): Tally {
    ZERO.(directories := 1, extra := |Names(right) - Names(left)|)
  }

  function TallyOf(l: Items, right: Items): Tally {
    match l
    case Nil => ZERO
    case Item(name, node, rest) =>
      var other := Find(right, name);
      var here := if name == "." || name == ".." then ZERO
                  else if node.Dir? && other.Some? && other.value.Dir?
                  then Plus(Both(node.items, other.value.items), TallyOf(node.items, other.value.items))
                  else Single(node, other);
      Plus(here, TallyOf(rest, right))
  }

  /** One entry, gone into or not. */
  lemma TallySteps(name: string, node: Node, rest: Items, right: Items)
    ensures var other, all := Find(right, name), TallyOf(Item(name, node, rest), right);
            && (!Usable(name) ==> all == TallyOf(rest, right))
            && (Usable(name) && BothDirs(node, other) ==>
                  all == Plus(Plus(Both(node.items, other.value.items), TallyOf(node.items, other.value.items)),
                              TallyOf(rest, right)))
            && (Usable(name) && !BothDirs(node, other) ==> all == Plus(Single(node, other), TallyOf(rest, right)))
  {
    PlusZero(TallyOf(rest, right));
    hide Find, Single, Both, Names, Plus;
  }

  lemma PlusZero(t: Tally)
    ensures Plus(ZERO, t) == t
  {
  }

  lemma {:induction false} ProperInside(items: Items, name: string)
    requires Proper(items) && Usable(name) && Find(items, name).Some? && Find(items, name).value.Dir?
    ensures Proper(Find(items, name).value.items)
  {
    match items
    case Item(n, node, rest) =>
      hide Usable;
      if n != name {
        ProperInside(rest, name);
      }
  }

  // ---------------------------------------------------------------- a comparison

  /** The walk and the summary have moved by the tally. */
  predicate Counted(w: Walk, sum: Summary, w': Walk, sum': Summary, t: Tally) {
    && sum'.equalFiles == sum.equalFiles + t.same && sum'.different == sum.different + t.other
    && sum'.leftOnly == sum.leftOnly + t.missing && sum'.rightOnly == sum.rightOnly + t.extra
    && sum'.commonDirectories == sum.commonDirectories + t.directories && sum'.errors == sum.errors
    && w'.files == w.files + t.files && w'.directories == w.directories + t.directories + t.trees
  }

  lemma CountedJoins(w: Walk, a: Summary, w1: Walk, b: Summary, w2: Walk, c: Summary, x: Tally, y: Tally)
    ensures Counted(w, a, w1, b, x) && Counted(w1, b, w2, c, y) ==> Counted(w, a, w2, c, Plus(x, y))
  {
  }

  lemma SingleCounts(p: Patience, w: Walk, node: Node, other: Option<Node>, sum: Summary)
    requires Tick(p, w, node.Dir?).1 && !BothDirs(node, other)
    ensures var sum' := if other.None? then sum.(leftOnly := sum.leftOnly + 1)
                        else if EqualFiles(node, other) then sum.(equalFiles := sum.equalFiles + 1)
                        else sum.(different := sum.different + 1);
            Counted(w, sum, Tick(p, w, node.Dir?).0, sum', Single(node, other))
  {
    if node.File? && other.Some? && other.value.File? {
      EqualIsByDigest(node.data, other.value.data);
    }
    hide Equal, Sha256.Digest;
  }

  lemma NothingCounts(w: Walk, sum: Summary)
    ensures Counted(w, sum, w, sum, ZERO)
  {
  }

  /** Entering a common directory, and what only the right has there. */
  lemma BothCounts(p: Patience, w: Walk, left: Items, right: Items, sum: Summary, w': Walk, sum': Summary, t: Tally)
    requires Tick(p, w, true).1 && Proper(right)
    requires Counted(Tick(p, w, true).0, sum.(commonDirectories := sum.commonDirectories + 1), w', sum', t)
    ensures Counted(w, sum, w', sum'.(rightOnly := sum'.rightOnly + Missing(right, left)), Plus(Both(left, right), t))
  {
    hide Missing, Names, Proper;
    MissingAreNames(right, left);
    Entered(p, w, sum, w', sum', t, |Names(right) - Names(left)|);
  }

  lemma Entered(p: Patience, w: Walk, sum: Summary, w': Walk, sum': Summary, t: Tally, extra: nat)
    requires Tick(p, w, true).1
    requires Counted(Tick(p, w, true).0, sum.(commonDirectories := sum.commonDirectories + 1), w', sum', t)
    ensures Counted(w, sum, w', sum'.(rightOnly := sum'.rightOnly + extra),
                    Plus(ZERO.(directories := 1, extra := extra), t))
  {
  }

  lemma DirIs(left: Items, right: Items, depth: nat, p: Patience, w: Walk, sum: Summary)
    requires CompareDir(left, right, depth, p, w, sum).status == Success
    ensures var c, b := CompareItems(left, right, depth, p, w, sum), CompareDir(left, right, depth, p, w, sum);
            c.status == Success && b == c.(sum := c.sum.(rightOnly := c.sum.rightOnly + Missing(right, left)))
  {
    hide CompareItems, Missing;
  }

  /** A comparison that ends without an error counts at every common path what is there. */
  lemma {:induction false} CountsTally(l: Items, right: Items, depth: nat, p: Patience, w: Walk, sum: Summary)
    requires CompareItems(l, right, depth, p, w, sum).status == Success && Proper(right)
    ensures var c := CompareItems(l, right, depth, p, w, sum); Counted(w, sum, c.walk, c.sum, TallyOf(l, right))
    decreases l, 0
  {
    hide *;
    var c := CompareItems(l, right, depth, p, w, sum);
    match l
    case Nil =>
      CompareSkips("", Dir(Nil), Nil, right, depth, p, w, sum);
      NoTally(right);
      NothingCounts(w, sum);
    case Item(name, node, rest) =>
      CompareSkips(name, node, rest, right, depth, p, w, sum);
      TallySteps(name, node, rest, right);
      if !Usable(name) {
        CountsTally(rest, right, depth, p, w, sum);
      } else {
        CompareUnrolls(name, node, rest, right, depth, p, w, sum);
        var w' := Tick(p, w, node.Dir?).0;
        var other := Find(right, name);
        BothAre(node, other);
        if BothDirs(node, other) {
          var sum' := sum.(commonDirectories := sum.commonDirectories + 1);
          var there := other.value.items;
          DirIs(node.items, there, depth + 1, p, w', sum');
          var b, inside := CompareDir(node.items, there, depth + 1, p, w', sum'), TallyOf(node.items, there);
          var d := CompareItems(node.items, there, depth + 1, p, w', sum');
          ProperInside(right, name);
          CountsTally(node.items, there, depth + 1, p, w', sum');
          BothCounts(p, w, node.items, there, sum, d.walk, d.sum, inside);
          CountsTally(rest, right, depth, p, b.walk, b.sum);
          CountedJoins(w, sum, b.walk, b.sum, c.walk, c.sum, Plus(Both(node.items, there), inside),
                       TallyOf(rest, right));
        } else {
          var sum' := if other.None? then sum.(leftOnly := sum.leftOnly + 1)
                      else if EqualFiles(node, other) then sum.(equalFiles := sum.equalFiles + 1)
                      else sum.(different := sum.different + 1);
          SingleCounts(p, w, node, other, sum);
          CountsTally(rest, right, depth, p, w', sum');
          CountedJoins(w, sum, w', sum', c.walk, c.sum, Single(node, other), TallyOf(rest, right));
        }
      }
  }

  lemma NoTally(right: Items)
    ensures TallyOf(Nil, right) == ZERO
  {
  }

  /** The whole comparison: two files count as equal exactly if their sizes and digests agree and as
      different otherwise, and every other entry of either side is counted once. */
  lemma ComparedByContent(left: Node, right: Node, p: Patience)
    requires left.Dir? && right.Dir? && Proper(right.items) && CompareTrees(left, right, p).status == Success
    ensures var (c, t) := (CompareTrees(left, right, p), TallyOf(left.items, right.items));
            && c.sum.equalFiles == t.same && c.sum.different == t.other && c.sum.leftOnly == t.missing
            && c.sum.commonDirectories == t.directories && c.sum.errors == 0
            && c.sum.rightOnly == t.extra + |Names(right.items) - Names(left.items)|
            && c.walk.files == t.files && c.walk.directories == t.directories + t.trees
  {
    hide CompareItems, TallyOf, Names, Missing;
    DirIs(left.items, right.items, 0, p, Walk(0, 0, false), NO_SUMMARY);
    CountsTally(left.items, right.items, 0, p, Walk(0, 0, false), NO_SUMMARY);
    MissingAreNames(right.items, left.items);
  }

  // ---------------------------------------------------------------- an update

  /** The walk and the result have moved by the tally: what agrees is skipped, what does not is replaced,
      and that and what is missing is copied. */
  predicate Done(w: Walk, r: Result, w': Walk, r': Result, t: Tally) {
    && r'.skippedEqual == r.skippedEqual + t.same && r'.replacedEntries == r.replacedEntries + t.other
    && r'.copiedFiles + t.same == r.copiedFiles + t.files && r'.copiedTrees == r.copiedTrees + t.trees
    && w'.files == w.files + t.files && w'.directories == w.directories + t.directories + t.trees
  }

  lemma DoneJoins(w: Walk, a: Result, w1: Walk, b: Result, w2: Walk, c: Result, x: Tally, y: Tally)
    ensures Done(w, a, w1, b, x) && Done(w1, b, w2, c, y) ==> Done(w, a, w2, c, Plus(x, y))
    ensures Done(w, a, w, a, ZERO)
  {
  }

  lemma SingleDone(p: Patience, w: Walk, node: Node, other: Option<Node>, r: Result)
    requires Tick(p, w, node.Dir?).1 && !BothDirs(node, other)
    ensures var r' := if EqualFiles(node, other) then r.(skippedEqual := r.skippedEqual + 1)
                      else CopiedOver(r, node, other);
            Done(w, r, Tick(p, w, node.Dir?).0, r', Single(node, other))
  {
    if node.File? && other.Some? && other.value.File? {
      EqualIsByDigest(node.data, other.value.data);
    }
    hide Equal, Sha256.Digest;
  }

  lemma BothDone(p: Patience, w: Walk, left: Items, right: Items, r: Result, w': Walk, r': Result, t: Tally)
    requires Tick(p, w, true).1 && Done(Tick(p, w, true).0, r, w', r', t)
    ensures Done(w, r, w', r', Plus(Both(left, right), t))
  {
    hide Names;
  }

  /** What is done under one name does not matter to the others. */
  lemma {:induction false} SameTally(s: Items, dst: Items, mid: Items)
    requires forall m :: Has(s, m) ==> Find(mid, m) == Find(dst, m)
    ensures TallyOf(s, mid) == TallyOf(s, dst)
  {
    match s
    case Nil =>
    case Item(name, node, rest) =>
      hide Single, Both;
      assert Usable(name) ==> Has(s, name);
      forall m | Has(rest, m) ensures Find(mid, m) == Find(dst, m) {
        assert Has(s, m);
      }
      SameTally(rest, dst, mid);
  }

  lemma RestTally(name: string, node: Node, rest: Items, dst: Items, mid: Items)
    requires Usable(name) && Proper(Item(name, node, rest)) && forall m :: m != name ==> Find(mid, m) == Find(dst, m)
    ensures TallyOf(rest, mid) == TallyOf(rest, dst) && Proper(rest) && (node.Dir? ==> Proper(node.items))
  {
    ProperParts(name, node, rest);
    forall m | Has(rest, m) ensures Find(mid, m) == Find(dst, m) {
      assert m != name;
    }
    SameTally(rest, dst, mid);
  }

  lemma UpdateDirIs(src: Items, dst: Items, depth: nat, p: Patience, w: Walk, r: Result)
    requires UpdateDir(src, dst, depth, p, w, r).status == Success
    ensures UpdateDir(src, dst, depth, p, w, r) == UpdateItems(src, dst, depth, p, w, r)
  {
    hide UpdateItems;
  }

  lemma {:induction false} DoesTally(s: Items, dst: Items, depth: nat, p: Patience, w: Walk, r: Result)
    requires UpdateItems(s, dst, depth, p, w, r).status == Success && Proper(s)
    ensures var u := UpdateItems(s, dst, depth, p, w, r); Done(w, r, u.walk, u.result, TallyOf(s, dst))
    decreases s, 0
  {
    hide *;
    var u := UpdateItems(s, dst, depth, p, w, r);
    match s
    case Nil =>
      UpdateSkips("", Dir(Nil), Nil, dst, depth, p, w, r);
      NoTally(dst);
      DoneJoins(w, r, w, r, w, r, ZERO, ZERO);
    case Item(name, node, rest) =>
      UpdateSkips(name, node, rest, dst, depth, p, w, r);
      TallySteps(name, node, rest, dst);
      ProperParts(name, node, rest);
      if !Usable(name) {
        DoesTally(rest, dst, depth, p, w, r);
      } else {
        UpdateCases(name, node, rest, dst, depth, p, w, r);
        var w' := Tick(p, w, node.Dir?).0;
        var other := Find(dst, name);
        BothAre(node, other);
        if BothDirs(node, other) {
          var there := other.value.items;
          UpdateDirIs(node.items, there, depth + 1, p, w', r);
          var b, inside := UpdateDir(node.items, there, depth + 1, p, w', r), TallyOf(node.items, there);
          DoesTally(node.items, there, depth + 1, p, w', r);
          BothDone(p, w, node.items, there, r, b.walk, b.result, inside);
          var mid := Replace(dst, name, Dir(b.dst));
          ReplaceElsewhere(dst, name, Dir(b.dst));
          RestTally(name, node, rest, dst, mid);
          DoesTally(rest, mid, depth, p, b.walk, b.result);
          DoneJoins(w, r, b.walk, b.result, u.walk, u.result, Plus(Both(node.items, there), inside),
                    TallyOf(rest, dst));
        } else {
          SingleDone(p, w, node, other, r);
          if EqualFiles(node, other) {
            var r' := r.(skippedEqual := r.skippedEqual + 1);
            DoesTally(rest, dst, depth, p, w', r');
            DoneJoins(w, r, w', r', u.walk, u.result, Single(node, other), TallyOf(rest, dst));
          } else {
            var mid, r' := Put(dst, name, CopyOf(node)), CopiedOver(r, node, other);
            PutElsewhere(dst, name, CopyOf(node));
            RestTally(name, node, rest, dst, mid);
            DoesTally(rest, mid, depth, p, w', r');
            DoneJoins(w, r, w', r', u.walk, u.result, Single(node, other), TallyOf(rest, dst));
          }
        }
      }
  }

  /** An error-free update does what an error-free comparison beforehand says is to be done: it skips as
      many files as compare as equal, replaces as many entries as compare as different, copies these and
      all that only the source has, and both walks look at the same entries. */
  lemma UpdateDoesWhatCompareSays(src: Node, dst: Node, p: Patience, q: Patience)
    requires src.Dir? && dst.Dir? && Proper(src.items) && Proper(dst.items)
    requires CompareTrees(src, dst, p).status == Success && UpdateTree(src, dst, q).1.status == Success
    ensures var c, u := CompareTrees(src, dst, p), UpdateTree(src, dst, q).1;
            && u.result.skippedEqual == c.sum.equalFiles && u.result.replacedEntries == c.sum.different
            && u.result.copiedFiles + u.result.copiedTrees == c.sum.different + c.sum.leftOnly
            && u.result.copiedFiles + c.sum.equalFiles == c.walk.files
            && u.result.copiedTrees + c.sum.commonDirectories == c.walk.directories
            && u.walk.files == c.walk.files && u.walk.directories == c.walk.directories
  {
    hide CompareDir, CompareItems, UpdateItems, UpdateDir, CompareTrees, TallyOf, Names, Proper;
    ComparedByContent(src, dst, p);
    UpdateDirIs(src.items, dst.items, 0, q, Walk(0, 0, false), NO_RESULT);
    DoesTally(src.items, dst.items, 0, q, Walk(0, 0, false), NO_RESULT);
    EntriesAreOnce(src.items, dst.items);
  }

  /** Every entry looked at is a file or a directory, and has one fate. */
  lemma {:induction false} EntriesAreOnce(l: Items, right: Items)
    ensures var t := TallyOf(l, right); t.same + t.other + t.missing == t.files + t.trees
  {
    match l
    case Nil =>
    case Item(name, node, rest) =>
      hide Single, Both, TallyOf;
      TallySteps(name, node, rest, right);
      EntriesAreOnce(rest, right);
      SinglesAreOnce(node, Find(right, name));
      BothAre(node, Find(right, name));
      if BothDirs(node, Find(right, name)) {
        EntriesAreOnce(node.items, Find(right, name).value.items);
        BothIsNone(node.items, Find(right, name).value.items);
      }
  }

  lemma SinglesAreOnce(node: Node, other: Option<Node>)
    ensures var t := Single(node, other); t.same + t.other + t.missing == t.files + t.trees
  {
    hide Sha256.Digest;
  }

  lemma BothIsNone(left: Items, right: Items)
    ensures var t := Both(left, right); t.same + t.other + t.missing == t.files + t.trees
  {
    hide Names;
  }

  function OneFile(x: seq<bv8>): Items {
    Item("f", File(x), Nil)
  }

  lemma OneFileIs(x: seq<bv8>, y: seq<bv8>)
    ensures Usable("f") && Find(OneFile(y), "f") == Some(File(y)) && CopyOf(File(x)) == File(x)
    ensures Put(OneFile(y), "f", File(x)) == OneFile(x)
  {
    assert Remove(OneFile(y), "f") == Nil;
  }

  lemma ChangedIsDifferent(x: seq<bv8>, y: seq<bv8>, w: Walk)
    requires |x| == |y| && Sha256.Digest(x) != Sha256.Digest(y) && !w.aborted
    ensures CompareItems(OneFile(x), OneFile(y), 0, Forever, w, NO_SUMMARY)
            == Comparison(Tick(Forever, w, false).0, NO_SUMMARY.(different := 1), Success)
    ensures UpdateItems(OneFile(x), OneFile(y), 0, Forever, w, NO_RESULT)
            == Updating(OneFile(x), Tick(Forever, w, false).0, Result(1, 0, 1, 0), Success)
  {
    EqualIsByDigest(x, y);
    OneFileIs(x, y);
    TickSays(Forever, w, false);
    var w', other := Tick(Forever, w, false).0, Find(OneFile(y), "f");
    assert !BothDirs(File(x), other) && !EqualFiles(File(x), other);
    assert CopiedOver(NO_RESULT, File(x), other) == Result(1, 0, 1, 0);
    assert OneFile(x) == Item("f", File(x), Nil);
    hide *;
    CompareUnrolls("f", File(x), Nil, OneFile(y), 0, Forever, w, NO_SUMMARY);
    CompareSkips("f", File(x), Nil, OneFile(y), 0, Forever, w', NO_SUMMARY.(different := 1));
    UpdateCases("f", File(x), Nil, OneFile(y), 0, Forever, w, NO_RESULT);
    UpdateSkips("f", File(x), Nil, OneFile(x), 0, Forever, w', Result(1, 0, 1, 0));
  }

  /** Two files of one size whose digests differ: a comparison counts them as different, and an update
      replaces the one at the destination. */
  lemma ChangedIsReplaced(x: seq<bv8>, y: seq<bv8>)
    requires |x| == |y| && Sha256.Digest(x) != Sha256.Digest(y)
    ensures var src, dst := Dir(OneFile(x)), Dir(OneFile(y));
            var c, (updated, u) := CompareTrees(src, dst, Forever), UpdateTree(src, dst, Forever);
            && c.status == Success && c.sum.equalFiles == 0 && c.sum.different == 1
            && u.status == Success && updated == src && u.result.replacedEntries == 1 && u.result.skippedEqual == 0
  {
    hide Sha256.Digest, OneFile, CompareItems, UpdateItems, Tick;
    ChangedIsDifferent(x, y, Walk(0, 0, false));
  }
}
