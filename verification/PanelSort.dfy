/** Sorting a file panel (ec/Panel.c): a comparison by kind, sort mode and name, and a Shell sort in
    place.  The comparison is shown to be a total preorder, on which the sort rests. */
module PanelSort {
  import opened ByteData
  import opened Letters

  /** A character of a name. */
  type Char16 = word

  const DOT: Char16 := 0x2E
  const PARENT: seq<Char16> := [DOT, DOT]

  datatype Time = Time(year: nat, month: nat, day: nat, hour: nat, minute: nat, second: nat)

  datatype FileItem = FileItem(name: seq<Char16>, size: nat, attributes: nat, isDirectory: bool, modified: Time,
                               selected: bool)

  datatype SortMode = ByName | ByExtension | ByModified | BySize

  // ---------------------------------------------------------------- comparing

  function Sign(x: int, y: int): int {
    if x < y then -1 else if x > y then 1 else 0
  }

  /** The first comparison that tells the two apart decides. */
  function Then(first: int, second: int): int {
    if first != 0 then first else second
  }

  function TimeOrder(a: Time, b: Time): int {
    Then(Sign(a.year, b.year), Then(Sign(a.month, b.month), Then(Sign(a.day, b.day),
      Then(Sign(a.hour, b.hour), Then(Sign(a.minute, b.minute), Sign(a.second, b.second))))))
  }

  function UpCaseChar(c: Char16): Char16 {
    if 0x61 <= c <= 0x7A then c - 0x20 else c
  }

  /** By ASCII-folded characters; a prefix comes first. */
  function TextOrder(a: seq<Char16>, b: seq<Char16>): int {
    if a == [] || b == [] then Sign(|a|, |b|)
    else Then(Sign(UpCaseChar(a[0]), UpCaseChar(b[0])), TextOrder(a[1..], b[1..]))
  }

  /** Where the last dot is, or -1. */
  function LastDot(s: seq<Char16>): (k: int)
    ensures -1 <= k < |s|
  {
    if s == [] then -1 else if s[|s| - 1] == DOT then |s| - 1 else LastDot(s[..|s| - 1])
  }

  /** What follows the last dot. */
  function Extension(s: seq<Char16>): seq<Char16> {
    if LastDot(s) < 0 then [] else s[LastDot(s) + 1..]
  }

  function ModeOrder(mode: SortMode, a: FileItem, b: FileItem): int {
    match mode
    case ByExtension => Then(TextOrder(Extension(a.name), Extension(b.name)), TextOrder(a.name, b.name))
    case ByModified => Then(TimeOrder(a.modified, b.modified), TextOrder(a.name, b.name))
    case BySize => Then(Sign(a.size, b.size), TextOrder(a.name, b.name))
    case ByName => TextOrder(a.name, b.name)
  }

  /** The parent entry comes first, then directories, then files; only the order within each kind
      depends on the mode and the direction. */
  function ItemOrder(mode: SortMode, descending: bool, a: FileItem, b: FileItem): int {
    if a.name == PARENT then -1
    else if b.name == PARENT then 1
    else if a.isDirectory != b.isDirectory then (if a.isDirectory then -1 else 1)
    else if descending then -ModeOrder(mode, a, b)
    else ModeOrder(mode, a, b)
  }

  // ---------------------------------------------------------------- a total preorder

  /** Three results of one comparison fit together: a before b and b before c put a before c, and
      a level with c only when all three are. */
  predicate Chain(ab: int, bc: int, ac: int) {
    ab <= 0 && bc <= 0 ==> ac <= 0 && (ac == 0 ==> ab == 0 && bc == 0)
  }

  lemma ChainThen(ab1: int, bc1: int, ac1: int, ab2: int, bc2: int, ac2: int)
    requires Chain(ab1, bc1, ac1) && Chain(ab2, bc2, ac2)
    ensures Chain(Then(ab1, ab2), Then(bc1, bc2), Then(ac1, ac2))
  {
  }

  lemma {:induction false} TextChain(a: seq<Char16>, b: seq<Char16>, c: seq<Char16>)
    ensures Chain(TextOrder(a, b), TextOrder(b, c), TextOrder(a, c))
    decreases |a|
  {
    hide UpCaseChar;
    if a != [] && b != [] && c != [] {
      TextChain(a[1..], b[1..], c[1..]);
    }
  }

  lemma {:induction false} TextOpposite(a: seq<Char16>, b: seq<Char16>)
    ensures TextOrder(b, a) == -TextOrder(a, b)
    decreases |a|
  {
    hide UpCaseChar;
    if a != [] && b != [] {
      TextOpposite(a[1..], b[1..]);
    }
  }

  lemma TimeChain(a: Time, b: Time, c: Time)
    ensures Chain(TimeOrder(a, b), TimeOrder(b, c), TimeOrder(a, c))
    ensures TimeOrder(b, a) == -TimeOrder(a, b)
  {
  }

  lemma ModeChain(mode: SortMode, a: FileItem, b: FileItem, c: FileItem)
    ensures Chain(ModeOrder(mode, a, b), ModeOrder(mode, b, c), ModeOrder(mode, a, c))
    ensures ModeOrder(mode, b, a) == -ModeOrder(mode, a, b)
  {
    hide TextOrder, TimeOrder, Extension, Chain, Then, Sign;
    var ab, bc, ac := TextOrder(a.name, b.name), TextOrder(b.name, c.name), TextOrder(a.name, c.name);
    TextChain(a.name, b.name, c.name);
    TextOpposite(a.name, b.name);
    match mode
    case ByName =>
    case ByExtension =>
      var x, y, z := Extension(a.name), Extension(b.name), Extension(c.name);
      TextChain(x, y, z);
      TextOpposite(x, y);
      ThenOpposite(TextOrder(x, y), ab);
      ChainThen(TextOrder(x, y), TextOrder(y, z), TextOrder(x, z), ab, bc, ac);
    case ByModified =>
      var x, y, z := a.modified, b.modified, c.modified;
      TimeChain(x, y, z);
      ThenOpposite(TimeOrder(x, y), ab);
      ChainThen(TimeOrder(x, y), TimeOrder(y, z), TimeOrder(x, z), ab, bc, ac);
    case BySize =>
      SizeChain(a.size, b.size, c.size);
      ThenOpposite(Sign(a.size, b.size), ab);
      ChainThen(Sign(a.size, b.size), Sign(b.size, c.size), Sign(a.size, c.size), ab, bc, ac);
  }

  lemma SizeChain(a: nat, b: nat, c: nat)
    ensures Chain(Sign(a, b), Sign(b, c), Sign(a, c)) && Sign(b, a) == -Sign(a, b)
  {
  }

  lemma ThenOpposite(first: int, second: int)
    ensures Then(-first, -second) == -Then(first, second)
  {
  }

  predicate Before(mode: SortMode, descending: bool, a: FileItem, b: FileItem) {
    ItemOrder(mode, descending, a, b) <= 0
  }

  lemma BeforeIsTotal(mode: SortMode, descending: bool, a: FileItem, b: FileItem)
    ensures Before(mode, descending, a, b) || Before(mode, descending, b, a)
    ensures Before(mode, descending, a, a)
  {
    hide ModeOrder;
    ModeChain(mode, a, b, a);
    ModeChain(mode, a, a, a);
  }

  lemma BeforeIsTransitive(mode: SortMode, descending: bool, a: FileItem, b: FileItem, c: FileItem)
    requires Before(mode, descending, a, b) && Before(mode, descending, b, c)
    ensures Before(mode, descending, a, c)
  {
    hide ModeOrder;
    ModeChain(mode, a, b, c);
    ModeChain(mode, c, b, a);
    ModeChain(mode, a, c, b);
  }

  ghost predicate Sorted(mode: SortMode, descending: bool, s: seq<FileItem>) {
    forall i, j :: 0 <= i < j < |s| ==> Before(mode, descending, s[i], s[j])
  }

  /** What order means to the reader of a panel: nothing but a parent entry stands before a parent
      entry, and no file before a directory. */
  lemma ParentThenDirectories(mode: SortMode, descending: bool, s: seq<FileItem>, i: nat, j: nat)
    requires Sorted(mode, descending, s) && i < j < |s|
    ensures s[j].name == PARENT ==> s[i].name == PARENT
    ensures s[j].isDirectory && s[i].name != PARENT ==> s[i].isDirectory
  {
    hide ModeOrder;
    assert Before(mode, descending, s[i], s[j]);
  }

  // ---------------------------------------------------------------- what each mode sorts by

  /** Folding gives the capital of an ASCII letter, and every other character itself. */
  lemma FoldedLetter(c: Char16, d: Char16)
    ensures Cases(c, d) ==> UpCaseChar(c) == d
    ensures !Cases(c, UpCaseChar(c)) ==> UpCaseChar(c) == c
  {
    CasesAre(c, d);
    CasesAre(c, UpCaseChar(c));
    hide Cases;
  }

  /** The first k characters of both are the same but for case. */
  predicate SameFront(a: seq<Char16>, b: seq<Char16>, k: nat) {
    k <= |a| && k <= |b| && forall i :: 0 <= i < k ==> UpCaseChar(a[i]) == UpCaseChar(b[i])
  }

  /** The texts part at character k, or one ends there, and the first is the lesser or the shorter. */
  predicate PartsAt(a: seq<Char16>, b: seq<Char16>, k: nat) {
    && SameFront(a, b, k)
    && (if k < |a| && k < |b| then UpCaseChar(a[k]) < UpCaseChar(b[k]) else k == |a| < |b|)
  }

  lemma PartsLater(a: seq<Char16>, b: seq<Char16>, k: nat)
    requires a != [] && b != [] && UpCaseChar(a[0]) == UpCaseChar(b[0])
    ensures PartsAt(a[1..], b[1..], k) <==> PartsAt(a, b, k + 1)
    ensures SameFront(a[1..], b[1..], k) <==> SameFront(a, b, k + 1)
  {
    hide UpCaseChar;
    var x, y := a[1..], b[1..];
    assert forall i :: 0 <= i < |x| ==> x[i] == a[i + 1];
    assert forall i :: 0 <= i < |y| ==> y[i] == b[i + 1];
    if SameFront(x, y, k) {
      forall i | 0 <= i < k + 1 ensures UpCaseChar(a[i]) == UpCaseChar(b[i]) {
        if i > 0 {
          assert x[i - 1] == a[i] && y[i - 1] == b[i];
        }
      }
    }
  }

  /** One text stands before another exactly if it is less where they part, or ends there. */
  lemma {:induction false} TextMeans(a: seq<Char16>, b: seq<Char16>)
    ensures TextOrder(a, b) < 0 <==> exists k :: 0 <= k <= |a| && PartsAt(a, b, k)
    ensures TextOrder(a, b) == 0 <==> |a| == |b| && SameFront(a, b, |a|)
    decreases |a|
  {
    hide UpCaseChar;
    if a == [] || b == [] {
      assert PartsAt(a, b, 0) <==> |a| < |b|;
    } else if UpCaseChar(a[0]) != UpCaseChar(b[0]) {
      assert PartsAt(a, b, 0) <==> UpCaseChar(a[0]) < UpCaseChar(b[0]);
    } else {
      TextMeans(a[1..], b[1..]);
      if TextOrder(a, b) < 0 {
        var k :| 0 <= k <= |a[1..]| && PartsAt(a[1..], b[1..], k);
        PartsLater(a, b, k);
      }
      forall k | 0 <= k <= |a| && PartsAt(a, b, k) ensures TextOrder(a, b) < 0 {
        assert k > 0;
        PartsLater(a, b, k - 1);
      }
      PartsLater(a, b, |a| - 1);
    }
  }

  /** A name's extension is what is behind its last dot; a name without one has none. */
  lemma {:induction false} ExtensionMeans(s: seq<Char16>, stem: seq<Char16>, e: seq<Char16>)
    requires 0x2E !in e
    ensures Extension(stem + [0x2E] + e) == e
    ensures 0x2E !in s ==> Extension(s) == []
  {
    DotIs(stem, e);
    if 0x2E !in s {
      NoDot(s);
    }
    assert (stem + [0x2E] + e)[|stem| + 1..] == e;
  }

  lemma {:induction false} DotIs(stem: seq<Char16>, e: seq<Char16>)
    requires 0x2E !in e
    ensures LastDot(stem + [0x2E] + e) == |stem|
    decreases |e|
  {
    var s := stem + [0x2E] + e;
    if e != [] {
      var n := |e| - 1;
      assert s[..|s| - 1] == stem + [0x2E] + e[..n] && s[|s| - 1] == e[n];
      DotIs(stem, e[..n]);
    }
  }

  lemma {:induction false} NoDot(s: seq<Char16>)
    requires 0x2E !in s
    ensures LastDot(s) == -1
    decreases |s|
  {
    if s != [] {
      NoDot(s[..|s| - 1]);
    }
  }

  /** One time is before another: by year, then month, and so on down to the second. */
  predicate Earlier(a: Time, b: Time) {
    || a.year < b.year
    || (a.year == b.year && a.month < b.month)
    || (a.year == b.year && a.month == b.month && a.day < b.day)
    || (a.year == b.year && a.month == b.month && a.day == b.day && a.hour < b.hour)
    || (a.year == b.year && a.month == b.month && a.day == b.day && a.hour == b.hour && a.minute < b.minute)
    || (a.year == b.year && a.month == b.month && a.day == b.day && a.hour == b.hour && a.minute == b.minute
        && a.second < b.second)
  }

  lemma TimeMeans(a: Time, b: Time)
    ensures TimeOrder(a, b) < 0 <==> Earlier(a, b)
    ensures TimeOrder(a, b) == 0 <==> a == b
  {
  }

  /** The field a mode sorts by puts the first item before the second. */
  predicate Less(mode: SortMode, a: FileItem, b: FileItem) {
    match mode
    case ByName => TextOrder(a.name, b.name) < 0
    case ByExtension => TextOrder(Extension(a.name), Extension(b.name)) < 0
    case ByModified => Earlier(a.modified, b.modified)
    case BySize => a.size < b.size
  }

  lemma ModeMeans(mode: SortMode, a: FileItem, b: FileItem)
    ensures ModeOrder(mode, a, b) <= 0 ==> !Less(mode, b, a)
    ensures ModeOrder(mode, a, b) <= 0 && !Less(mode, a, b) ==> TextOrder(a.name, b.name) <= 0
  {
    TimeMeans(a.modified, b.modified);
    TimeMeans(b.modified, a.modified);
    TimeChain(a.modified, b.modified, a.modified);
    TextOpposite(Extension(a.name), Extension(b.name));
    TextOpposite(a.name, b.name);
    hide TextOrder, TimeOrder, Extension, Earlier;
  }

  /** What a sorted panel shows: among directories, and among files, nothing stands behind an item that
      the mode's field puts before it, and where the field does not decide the name does; all of it the
      other way round when descending. */
  lemma SortedByField(mode: SortMode, descending: bool, s: seq<FileItem>, i: nat, j: nat)
    requires Sorted(mode, descending, s) && i < j < |s|
    requires s[i].name != [0x2E, 0x2E] && s[j].name != [0x2E, 0x2E] && s[i].isDirectory == s[j].isDirectory
    ensures var (a, b) := if descending then (s[j], s[i]) else (s[i], s[j]);
            !Less(mode, b, a) && (!Less(mode, a, b) ==> TextOrder(a.name, b.name) <= 0)
  {
    assert Before(mode, descending, s[i], s[j]);
    var a, b := s[i], s[j];
    ModeChain(mode, a, b, a);
    ModeMeans(mode, a, b);
    ModeMeans(mode, b, a);
    hide ModeOrder, Less;
  }

  // ---------------------------------------------------------------- the comparisons as they run

  lemma TextFrom(a: seq<Char16>, b: seq<Char16>, i: nat)
    requires i <= |a| && i <= |b|
    ensures i < |a| && i < |b| ==>
              TextOrder(a[i..], b[i..])
                == Then(Sign(UpCaseChar(a[i]), UpCaseChar(b[i])), TextOrder(a[i + 1..], b[i + 1..]))
    ensures i == |a| || i == |b| ==> TextOrder(a[i..], b[i..]) == Sign(|a|, |b|)
  {
    hide UpCaseChar;
  }

  method CompareTextInsensitive(a: seq<Char16>, b: seq<Char16>) returns (r: int)
    ensures r == TextOrder(a, b)
  {
    hide UpCaseChar;
    var i := 0;
    assert a[0..] == a && b[0..] == b;
    while i < |a| && i < |b|
      invariant i <= |a| && i <= |b| && TextOrder(a[i..], b[i..]) == TextOrder(a, b)
    {
      TextFrom(a, b, i);
      var ca, cb := UpCaseChar(a[i]), UpCaseChar(b[i]);
      if ca != cb {
        return if ca < cb then -1 else 1;
      }
      i := i + 1;
    }
    TextFrom(a, b, i);
    if i == |a| && i == |b| {
      return 0;
    }
    return if i == |a| then -1 else 1;
  }

  method FileExtension(name: seq<Char16>) returns (e: seq<Char16>)
    ensures e == Extension(name)
  {
    var dot, i := -1, 0;
    while i < |name|
      invariant i <= |name| && dot == LastDot(name[..i])
    {
      assert name[..i + 1][..i] == name[..i];
      if name[i] == DOT {
        dot := i;
      }
      i := i + 1;
    }
    assert name[..i] == name;
    return if dot < 0 then [] else name[dot + 1..];
  }

  method CompareTime(a: Time, b: Time) returns (r: int)
    ensures r == TimeOrder(a, b)
  {
    if a.year != b.year { return if a.year < b.year then -1 else 1; }
    if a.month != b.month { return if a.month < b.month then -1 else 1; }
    if a.day != b.day { return if a.day < b.day then -1 else 1; }
    if a.hour != b.hour { return if a.hour < b.hour then -1 else 1; }
    if a.minute != b.minute { return if a.minute < b.minute then -1 else 1; }
    if a.second != b.second { return if a.second < b.second then -1 else 1; }
    return 0;
  }

  // ---------------------------------------------------------------- Shell sort

  /** Elements `gap` apart are in order, as far as index `end`. */
  ghost predicate GapSorted(mode: SortMode, descending: bool, s: seq<FileItem>, gap: nat, end: nat) {
    1 <= gap && end <= |s| && forall k :: gap <= k < end ==> Before(mode, descending, s[k - gap], s[k])
  }

  /** Adjacent elements in order put all in order. */
  lemma {:induction false} GapOneOrders(mode: SortMode, descending: bool, s: seq<FileItem>, i: nat, j: nat)
    requires GapSorted(mode, descending, s, 1, |s|) && i <= j < |s|
    ensures Before(mode, descending, s[i], s[j])
    decreases j - i
  {
    hide ItemOrder;
    if i == j {
      BeforeIsTotal(mode, descending, s[i], s[i]);
    } else {
      GapOneOrders(mode, descending, s, i, j - 1);
      assert Before(mode, descending, s[j - 1], s[j]);
      BeforeIsTransitive(mode, descending, s[i], s[j - 1], s[j]);
    }
  }

  lemma GapOneSorted(mode: SortMode, descending: bool, s: seq<FileItem>)
    requires GapSorted(mode, descending, s, 1, |s|)
    ensures Sorted(mode, descending, s)
  {
    hide Before, GapSorted;
    forall i, j | 0 <= i < j < |s| ensures Before(mode, descending, s[i], s[j]) {
      GapOneOrders(mode, descending, s, i, j);
    }
  }

  /** While an element is on its way down there is a hole at j: everything else up to i is in order,
      across the hole too, and what lies above the hole belongs behind the element. */
  ghost predicate Sinking(mode: SortMode, descending: bool, s: seq<FileItem>, gap: nat, i: nat, j: nat,
                          item: FileItem) {
    && 1 <= gap && j <= i < |s|
    && (forall k :: gap <= k <= i && k != j && k != j + gap ==> Before(mode, descending, s[k - gap], s[k]))
    && (gap <= j && j + gap <= i ==> Before(mode, descending, s[j - gap], s[j + gap]))
    && (j + gap <= i ==> Before(mode, descending, item, s[j + gap]))
  }

  lemma SinkStart(mode: SortMode, descending: bool, s: seq<FileItem>, gap: nat, i: nat)
    requires GapSorted(mode, descending, s, gap, i) && gap <= i < |s|
    ensures Sinking(mode, descending, s, gap, i, i, s[i])
  {
    hide Before;
  }

  lemma SinkStep(mode: SortMode, descending: bool, s: seq<FileItem>, gap: nat, i: nat, j: nat, item: FileItem)
    requires Sinking(mode, descending, s, gap, i, j, item) && gap <= j && !Before(mode, descending, s[j - gap], item)
    ensures Sinking(mode, descending, s[j := s[j - gap]], gap, i, j - gap, item)
  {
    hide ItemOrder;
    BeforeIsTotal(mode, descending, s[j - gap], item);
    hide Before;
    var t := s[j := s[j - gap]];
    forall k | gap <= k <= i && k != j - gap && k != j ensures Before(mode, descending, t[k - gap], t[k]) {
      if k == j + gap {
        assert Before(mode, descending, s[j - gap], s[j + gap]);
      } else {
        assert Before(mode, descending, s[k - gap], s[k]);
      }
    }
    if 2 * gap <= j {
      assert Before(mode, descending, s[j - gap - gap], s[j - gap]);
    }
  }

  lemma SinkEnd(mode: SortMode, descending: bool, s: seq<FileItem>, gap: nat, i: nat, j: nat, item: FileItem)
    requires Sinking(mode, descending, s, gap, i, j, item)
    requires j < gap || Before(mode, descending, s[j - gap], item)
    ensures GapSorted(mode, descending, s[j := item], gap, i + 1)
  {
    hide Before;
    var t := s[j := item];
    forall k | gap <= k < i + 1 ensures Before(mode, descending, t[k - gap], t[k]) {
      if k != j && k != j + gap {
        assert Before(mode, descending, s[k - gap], s[k]);
      }
    }
  }

  predicate Permutes(s: seq<FileItem>, t: seq<FileItem>) {
    multiset(s) == multiset(t)
  }

  /** Moving the hole is a swap. */
  lemma HoleMoves(s: seq<FileItem>, j: nat, k: nat, item: FileItem)
    requires j < |s| && k < |s| && j != k
    ensures Permutes(s[j := s[k]][k := item], s[j := item])
  {
    var t := s[j := item];
    assert s[j := s[k]][k := item] == t[j := t[k]][k := t[j]];
    SwapPermutes(t, j, k);
  }

  lemma SwapPermutes<T>(t: seq<T>, j: nat, k: nat)
    requires j < |t| && k < |t| && j != k
    ensures multiset(t[j := t[k]][k := t[j]]) == multiset(t)
  {
    var u := t[j := t[k]];
    assert multiset(u) == multiset(t) - multiset{t[j]} + multiset{t[k]};
    assert multiset(u[k := t[j]]) == multiset(u) - multiset{u[k]} + multiset{t[j]};
    assert t[j] in multiset(t);
    TakeAndPutBack(multiset(t), t[j], t[k]);
  }

  lemma TakeAndPutBack<T>(m: multiset<T>, x: T, y: T)
    requires x in m
    ensures m - multiset{x} + multiset{y} - multiset{y} + multiset{x} == m
  {
  }

  /** The hole at j and the element on its way, against what the items were before. */
  ghost predicate Hole(mode: SortMode, descending: bool, s: seq<FileItem>, gap: nat, i: nat, j: nat, item: FileItem,
                       before: seq<FileItem>)
  {
    j < |s| && Sinking(mode, descending, s, gap, i, j, item) && Permutes(s[j := item], before)
  }

  lemma HoleStart(mode: SortMode, descending: bool, s: seq<FileItem>, gap: nat, i: nat)
    requires GapSorted(mode, descending, s, gap, i) && gap <= i < |s|
    ensures Hole(mode, descending, s, gap, i, i, s[i], s)
  {
    hide Sinking, GapSorted;
    SinkStart(mode, descending, s, gap, i);
    assert s[i := s[i]] == s;
  }

  lemma HoleStep(mode: SortMode, descending: bool, s: seq<FileItem>, gap: nat, i: nat, j: nat, item: FileItem,
                 before: seq<FileItem>)
    requires Hole(mode, descending, s, gap, i, j, item, before) && 1 <= gap <= j < |s|
    requires !Before(mode, descending, s[j - gap], item)
    ensures Hole(mode, descending, s[j := s[j - gap]], gap, i, j - gap, item, before)
  {
    hide Sinking, Permutes, Before;
    SinkStep(mode, descending, s, gap, i, j, item);
    HoleMoves(s, j, j - gap, item);
    PermutesOn(s[j := s[j - gap]][j - gap := item], s[j := item], before);
  }

  lemma HoleEnd(mode: SortMode, descending: bool, s: seq<FileItem>, gap: nat, i: nat, j: nat, item: FileItem,
                before: seq<FileItem>)
    requires Hole(mode, descending, s, gap, i, j, item, before) && j < |s|
    requires 1 <= gap && (j < gap || Before(mode, descending, s[j - gap], item)) && i < |s|
    ensures GapSorted(mode, descending, s[j := item], gap, i + 1) && Permutes(s[j := item], before)
  {
    hide Sinking, Permutes, Before;
    SinkEnd(mode, descending, s, gap, i, j, item);
  }

  class Panel {
    const files: array<FileItem>
    var fileCount: nat
    var sortMode: SortMode
    var sortDescending: bool

    ghost predicate Valid()
      reads this
    {
      fileCount <= files.Length
    }

    constructor (files: array<FileItem>, count: nat, mode: SortMode, descending: bool)
      requires count <= files.Length
      ensures Valid() && this.files == files && fileCount == count && sortMode == mode && sortDescending == descending
    {
      this.files, fileCount, sortMode, sortDescending := files, count, mode, descending;
    }

    /** The items shown. */
    ghost function Shown(): seq<FileItem>
      requires Valid()
      reads this, files
    {
      files[..fileCount]
    }

    method CompareItems(a: FileItem, b: FileItem) returns (r: int)
      ensures r == ItemOrder(sortMode, sortDescending, a, b)
    {
      hide TextOrder, TimeOrder, Extension;
      if a.name == PARENT {
        return -1;
      }
      if b.name == PARENT {
        return 1;
      }
      if a.isDirectory != b.isDirectory {
        return if a.isDirectory then -1 else 1;
      }
      match sortMode {
        case ByExtension =>
          var ea := FileExtension(a.name);
          var eb := FileExtension(b.name);
          r := CompareTextInsensitive(ea, eb);
          if r == 0 {
            r := CompareTextInsensitive(a.name, b.name);
          }
        case ByModified =>
          r := CompareTime(a.modified, b.modified);
          if r == 0 {
            r := CompareTextInsensitive(a.name, b.name);
          }
        case BySize =>
          r := 0;
          if a.size != b.size {
            r := if a.size < b.size then -1 else 1;
          }
          if r == 0 {
            r := CompareTextInsensitive(a.name, b.name);
          }
        case ByName =>
          r := CompareTextInsensitive(a.name, b.name);
      }
      if sortDescending && r != 0 {
        r := -r;
      }
    }

    /** Let one item sink to its place among those `gap` apart. */
    method Sink(gap: nat, i: nat)
      requires Valid() && 1 <= gap <= i < fileCount && GapSorted(sortMode, sortDescending, Shown(), gap, i)
      modifies files
      ensures Permutes(Shown(), old(Shown())) && GapSorted(sortMode, sortDescending, Shown(), gap, i + 1)
      ensures files[fileCount..] == old(files[fileCount..])
    {
      hide ItemOrder, Permutes, GapSorted, Hole;
      var temp := files[i];
      var j: nat := i;
      ghost var before := Shown();
      HoleStart(sortMode, sortDescending, before, gap, i);
      while j >= gap
        invariant j <= i && Hole(sortMode, sortDescending, Shown(), gap, i, j, temp, before)
        invariant files[fileCount..] == old(files[fileCount..])
        decreases j
      {
        ghost var s := Shown();
        var above := files[j - gap];
        var order := CompareItems(above, temp);
        if order <= 0 {
          break;
        }
        HoleStep(sortMode, sortDescending, s, gap, i, j, temp, before);
        files[j] := above;
        assert Shown() == s[j := above];
        j := j - gap;
      }
      ghost var s := Shown();
      HoleEnd(sortMode, sortDescending, s, gap, i, j, temp, before);
      files[j] := temp;
      assert Shown() == s[j := temp];
    }

    method Pass(gap: nat)
      requires Valid() && 1 <= gap
      modifies files
      ensures Permutes(Shown(), old(Shown()))
      ensures gap <= fileCount ==> GapSorted(sortMode, sortDescending, Shown(), gap, fileCount)
      ensures files[fileCount..] == old(files[fileCount..])
    {
      hide ItemOrder, Permutes, GapSorted;
      PermutesItself(Shown());
      if gap >= fileCount {
        NothingApart(sortMode, sortDescending, Shown(), gap, fileCount);
        return;
      }
      var i := gap;
      NothingApart(sortMode, sortDescending, Shown(), gap, gap);
      while i < fileCount
        invariant gap <= i <= fileCount && Permutes(Shown(), old(Shown()))
        invariant GapSorted(sortMode, sortDescending, Shown(), gap, i)
        invariant files[fileCount..] == old(files[fileCount..])
      {
        ghost var s := Shown();
        Sink(gap, i);
        PermutesOn(Shown(), s, old(Shown()));
        i := i + 1;
      }
    }

    /** Sort the panel: a permutation of its items, every pair in order. */
    method SortItems()
      requires Valid()
      modifies files
      ensures Permutes(Shown(), old(Shown())) && Sorted(sortMode, sortDescending, Shown())
      ensures files[fileCount..] == old(files[fileCount..])
    {
      hide ItemOrder, Permutes, GapSorted, Before;
      PermutesItself(Shown());
      if fileCount < 2 {
        return;
      }
      var gap: nat := fileCount / 2;
      while gap > 0
        invariant gap <= fileCount && Permutes(Shown(), old(Shown()))
        invariant gap == 0 ==> GapSorted(sortMode, sortDescending, Shown(), 1, fileCount)
        invariant files[fileCount..] == old(files[fileCount..])
      {
        ghost var s := Shown();
        Pass(gap);
        PermutesOn(Shown(), s, old(Shown()));
        gap := gap / 2;
      }
      GapOneSorted(sortMode, sortDescending, Shown());
    }
  }

  lemma NothingApart(mode: SortMode, descending: bool, s: seq<FileItem>, gap: nat, end: nat)
    requires 1 <= gap && end <= gap && end <= |s|
    ensures GapSorted(mode, descending, s, gap, end)
  {
  }

  lemma PermutesItself(s: seq<FileItem>)
    ensures Permutes(s, s)
  {
  }

  lemma PermutesOn(s: seq<FileItem>, t: seq<FileItem>, u: seq<FileItem>)
    requires Permutes(s, t) && Permutes(t, u)
    ensures Permutes(s, u)
  {
  }
}
