/** The two walks of ec/Sync.c as they run: loops over a directory's entries that count in place and
    join paths, and recursion into directories, proved to compute what SyncPaths says.  The destination
    tree goes in as it was and comes out as the walk left it.  Where an operation is given a path that
    does not lead to what is meant, the walk has gone astray and its model ends. */
module SyncWalk {
  import Sha256
  import opened SyncPaths
  import opened SyncTrees

  class WalkState {
    const patience: Patience
    var files: nat
    var directories: nat
    var aborted: bool

    constructor (patience: Patience)
      ensures this.patience == patience && View() == Walk(0, 0, false)
    {
      this.patience := patience;
      files, directories, aborted := 0, 0, false;
    }

    function View(): Walk
      reads this
    {
      Walk(files, directories, aborted)
    }

    /** The caller's report: it says stop at one count and not before. */
    function Report(): bool
      reads this
    {
      patience != StopsAt(files + directories)
    }

    /** Count one entry and give the caller its say. */
    method Count(isDirectory: bool) returns (goOn: bool)
      modifies this
      ensures (View(), goOn) == Tick(patience, old(View()), isDirectory)
    {
      if aborted {
        return false;
      }
      if isDirectory {
        directories := directories + 1;
      } else {
        files := files + 1;
      }
      if !Report() {
        aborted := true;
        return false;
      }
      return true;
    }
  }

  method FindItem(items: Items, name: string) returns (r: Option<Node>)
    ensures r == Find(items, name)
  {
    var rest := items;
    while rest.Item?
      invariant Find(rest, name) == Find(items, name)
      decreases rest
    {
      if rest.name == name {
        return Some(rest.node);
      }
      rest := rest.rest;
    }
    return None;
  }

  /** Files of one size are equal when their checksums are. */
  method FilesEqual(left: seq<bv8>, right: seq<bv8>) returns (equal: bool)
    requires |left| == |right|
    ensures equal == Equal(left, right)
    ensures equal <==> Sha256.Digest(left) == Sha256.Digest(right)
  {
    hide Sha256.Digest;
    var a, _ := Sha256.ChecksumFile(Pieces(left));
    var b, _ := Sha256.ChecksumFile(Pieces(right));
    equal := a == b;
  }

  lemma SizesDiffer(a: seq<bv8>, b: seq<bv8>)
    requires |a| != |b|
    ensures !Equal(a, b)
  {
  }

  /** A file as reads of at most 64 KiB deliver it. */
  function Pieces(data: seq<bv8>): (p: seq<seq<bv8>>)
    ensures Sha256.Flatten(p) == data && forall x :: x in p ==> 1 <= |x| <= 64 * 1024
  {
    if data == [] then []
    else
      var n := if |data| <= 64 * 1024 then 0 else |data| - 64 * 1024;
      var before := Pieces(data[..n]);
      assert (before + [data[n..]])[..|before|] == before;
      assert data[..n] + data[n..] == data;
      before + [data[n..]]
  }

  // ---------------------------------------------------------------- comparing

  class SummaryCounts {
    var leftOnly: nat
    var rightOnly: nat
    var different: nat
    var equalFiles: nat
    var commonDirectories: nat
    var errors: nat

    constructor ()
      ensures View() == NO_SUMMARY
    {
      leftOnly, rightOnly, different, equalFiles, commonDirectories, errors := 0, 0, 0, 0, 0, 0;
    }

    function View(): Summary
      reads this
    {
      Summary(leftOnly, rightOnly, different, equalFiles, commonDirectories, errors)
    }
  }

  lemma EntryCompares(node: Node, other: Option<Node>, a: nat, b: nat, name: string)
    ensures BothDirs(node, other) <==> node.Dir? && other.Some? && other.value.Dir?
    ensures SameSize(node, other) <==>
            node.File? && other.Some? && other.value.File? && |node.data| == |other.value.data|
    ensures EqualFiles(node, other) <==>
            node.File? && other.Some? && other.value.File? && Equal(node.data, other.value.data)
    ensures GoesOver(node, other, a, b, name) <==> (BothDirs(node, other) || SameSize(node, other) ==> Fit(a, b, name))
  {
    hide Equal;
  }

  /** One usable entry of the left side: counted, or gone into. */
  method CompareEntry(name: string, node: Node, right: Items, leftRoot: string, rightRoot: string, depth: nat,
                      walk: WalkState, summary: SummaryCounts, ghost rest: Items) returns (status: Status)
    requires Usable(name) && IsName(name) && (node.Dir? ==> Named(node.items))
    requires |leftRoot| < MAX_PATH_LEN && |rightRoot| < MAX_PATH_LEN
    modifies walk, summary
    ensures var l, a, b := Item(name, node, rest), Stem(leftRoot), Stem(rightRoot);
            var c := CompareItemsAt(l, right, a, b, depth, walk.patience, old(walk.View()), old(summary.View()));
            if status == Success
            then c == CompareItemsAt(rest, right, a, b, depth, walk.patience, walk.View(), summary.View())
            else c == Comparison(walk.View(), summary.View(), status)
    decreases node, 0
  {
    hide Sha256.Digest, Equal, Usable, Find, CompareDirAt, CompareItemsAt, Tick, Fit, Stem, IsName, Named, Join,
      Leads, EqualFiles, SameSize, BothDirs, GoesOver;
    ghost var w, sum := walk.View(), summary.View();
    CompareAtCases(name, node, rest, right, Stem(leftRoot), Stem(rightRoot), depth, walk.patience, w, sum);
    BothLead(leftRoot, rightRoot, name);
    var leftPath := CombinePath(leftRoot, name);
    var rightPath := CombinePath(rightRoot, name);
    var found := Leads(leftRoot, name, leftPath) && Leads(rightRoot, name, rightPath);
    var goOn := walk.Count(node.Dir?);
    if !goOn {
      return Aborted;
    }
    var other := FindItem(right, name);
    EntryCompares(node, other, Stem(leftRoot), Stem(rightRoot), name);
    if other.None? {
      summary.leftOnly := summary.leftOnly + 1;
      return Success;
    }
    if node.Dir? != other.value.Dir? {
      summary.different := summary.different + 1;
      return Success;
    }
    if node.Dir? {
      summary.commonDirectories := summary.commonDirectories + 1;
      if !found {
        return Astray;
      }
      status := CompareInternal(node.items, other.value.items, leftPath, rightPath, depth + 1, walk, summary);
      if status != Success && status != Aborted && status != Astray {
        summary.errors := summary.errors + 1;
      }
      return;
    }
    if |node.data| != |other.value.data| {
      SizesDiffer(node.data, other.value.data);
      summary.different := summary.different + 1;
      return Success;
    }
    if !found {
      return Astray;
    }
    var equal := FilesEqual(node.data, other.value.data);
    if equal {
      summary.equalFiles := summary.equalFiles + 1;
    } else {
      summary.different := summary.different + 1;
    }
    return Success;
  }

  method CompareInternal(left: Items, right: Items, leftRoot: string, rightRoot: string, depth: nat, walk: WalkState,
                         summary: SummaryCounts)
    returns (status: Status)
    requires Named(left) && |leftRoot| < MAX_PATH_LEN && |rightRoot| < MAX_PATH_LEN
    modifies walk, summary
    ensures CompareDirAt(left, right, Stem(leftRoot), Stem(rightRoot), depth, walk.patience, old(walk.View()),
                         old(summary.View()))
            == Comparison(walk.View(), summary.View(), status)
    decreases left, 1
  {
    hide Find, Usable, Equal, Missing, Stem, IsName, Named;
    if depth > MAX_DEPTH {
      return BadBufferSize;
    }
    ghost var p, a, b := walk.patience, Stem(leftRoot), Stem(rightRoot);
    ghost var all := CompareItemsAt(left, right, a, b, depth, p, walk.View(), summary.View());
    hide CompareItemsAt;
    var rest := left;
    while rest.Item?
      invariant (rest == left || rest < left) && Named(rest)
      invariant CompareItemsAt(rest, right, a, b, depth, p, walk.View(), summary.View()) == all
      decreases rest
    {
      NamedParts(rest.name, rest.node, rest.rest);
      if !Usable(rest.name) {
        CompareAtSkips(rest.name, rest.node, rest.rest, right, a, b, depth, p, walk.View(), summary.View());
      } else {
        status := CompareEntry(rest.name, rest.node, right, leftRoot, rightRoot, depth, walk, summary, rest.rest);
        if status != Success {
          return;
        }
      }
      rest := rest.rest;
    }
    CompareAtSkips("", Dir(Nil), Nil, right, a, b, depth, p, walk.View(), summary.View());
    CountMissing(right, left, summary);
    return Success;
  }

  /** Count the usable entries that only the right side has. */
  method CountMissing(right: Items, left: Items, summary: SummaryCounts)
    modifies summary
    ensures summary.View() == old(summary.View()).(rightOnly := old(summary.rightOnly) + Missing(right, left))
  {
    hide Find, Usable;
    var rest := right;
    while rest.Item?
      invariant summary.rightOnly + Missing(rest, left) == old(summary.rightOnly) + Missing(right, left)
      invariant summary.View() == old(summary.View()).(rightOnly := summary.rightOnly)
      decreases rest
    {
      if Usable(rest.name) {
        var other := FindItem(left, rest.name);
        if other.None? {
          summary.rightOnly := summary.rightOnly + 1;
        }
      }
      rest := rest.rest;
    }
  }

  method Compare(left: Node, right: Node, leftRoot: string, rightRoot: string, p: Patience)
    returns (walk: WalkState, summary: SummaryCounts, status: Status)
    requires left.Dir? ==> Named(left.items)
    requires |leftRoot| < MAX_PATH_LEN && |rightRoot| < MAX_PATH_LEN
    ensures fresh(walk) && fresh(summary)
    ensures Comparison(walk.View(), summary.View(), status)
            == CompareTreesAt(left, right, Stem(leftRoot), Stem(rightRoot), p)
  {
    hide CompareDirAt, Stem, Named;
    walk := new WalkState(p);
    summary := new SummaryCounts();
    if !left.Dir? || !right.Dir? {
      return walk, summary, NotFound;
    }
    status := CompareInternal(left.items, right.items, leftRoot, rightRoot, 0, walk, summary);
  }

  // ---------------------------------------------------------------- updating

  class ResultCounts {
    var copiedFiles: nat
    var copiedTrees: nat
    var replacedEntries: nat
    var skippedEqual: nat

    constructor ()
      ensures View() == NO_RESULT
    {
      copiedFiles, copiedTrees, replacedEntries, skippedEqual := 0, 0, 0, 0;
    }

    function View(): Result
      reads this
    {
      Result(copiedFiles, copiedTrees, replacedEntries, skippedEqual)
    }

    method CountCopy(isTree: bool)
      modifies this
      ensures View() == Copied(old(View()), isTree)
    {
      if isTree {
        copiedTrees := copiedTrees + 1;
      } else {
        copiedFiles := copiedFiles + 1;
      }
    }
  }

  /** Delete an entry of the destination, or what lies where its path leads instead. */
  method DeleteEntry(dst: Items, name: string, other: Node, root: string, path: string)
    returns (deleted: bool, left: Items)
    requires Leads(root, name, path) <==> Stem(root) + |name| < MAX_PATH_LEN
    ensures deleted == DeletesIt(other, Stem(root), name)
    ensures left == if deleted then Remove(dst, name) else Misdeleted(dst, name, other, Stem(root))
  {
    hide Leads, Stem, Left, LeftItems;
    if !Leads(root, name, path) {
      return false, LeftItems(dst, Stem(root));
    }
    var remains := Left(other, Stem(root) + |name| + 1);
    if remains.Some? {
      return false, Replace(dst, name, remains.value);
    }
    return true, Remove(dst, name);
  }

  /** Copy an entry of the source to where nothing is in the way, and count it. */
  method CopyEntry(left: Items, name: string, node: Node, found: bool, source: string, destination: string,
                   result: ResultCounts)
    returns (copied: bool, dst': Items)
    modifies result
    ensures copied == (found && CopyFits(node, Stem(source), Stem(destination)))
    ensures copied ==> dst' == Append(left, name, CopyOf(node))
    ensures copied ==> result.View() == Copied(old(result.View()), node.Dir?)
    ensures !copied ==> dst' == left && result.View() == old(result.View())
  {
    hide Stem, CopyFits, Append, CopyOf, Copied;
    if !found || !CopyFits(node, Stem(source), Stem(destination)) {
      return false, left;
    }
    result.CountCopy(node.Dir?);
    return true, Append(left, name, CopyOf(node));
  }

  lemma NothingToRemove(dst: Items, name: string)
    requires Find(dst, name).None?
    ensures Remove(dst, name) == dst
  {
  }

  /** The kinds of entry there are, in the terms of the walk by path. */
  lemma EntryIs(node: Node, other: Option<Node>, a: nat, b: nat, name: string)
    ensures BothDirs(node, other) <==> node.Dir? && other.Some? && other.value.Dir?
    ensures SameSize(node, other) <==>
            node.File? && other.Some? && other.value.File? && |node.data| == |other.value.data|
    ensures EqualFiles(node, other) <==> SameSize(node, other) && Equal(node.data, other.value.data)
    ensures BothDirs(node, other) || EqualFiles(node, other) ==> (Goes(node, other, a, b, name) <==> Fit(a, b, name))
    ensures var copies := CopyFits(node, a + |name| + 1, b + |name| + 1);
            !BothDirs(node, other) && !EqualFiles(node, other) ==>
              (Goes(node, other, a, b, name)
               <==> Fit(a, b, name) && copies && (other.Some? ==> DeletesIt(other.value, b, name)))
  {
    hide CopyFits, Left;
  }

  /** Bring one usable entry of the source over. */
  method UpdateEntry(name: string, node: Node, dst: Items, sourceRoot: string, destinationRoot: string, depth: nat,
                     walk: WalkState, result: ResultCounts, ghost rest: Items)
    returns (status: Status, dst': Items)
    requires Usable(name) && IsName(name) && (node.Dir? ==> Named(node.items))
    requires |sourceRoot| < MAX_PATH_LEN && |destinationRoot| < MAX_PATH_LEN
    modifies walk, result
    ensures var s, a, b := Item(name, node, rest), Stem(sourceRoot), Stem(destinationRoot);
            var u := UpdateItemsAt(s, dst, a, b, depth, walk.patience, old(walk.View()), old(result.View()));
            if status == Success
            then u == UpdateItemsAt(rest, dst', a, b, depth, walk.patience, walk.View(), result.View())
            else u == Updating(dst', walk.View(), result.View(), status)
    decreases node, 0
  {
    hide Sha256.Digest, Equal, EqualFiles, SameSize, BothDirs, Usable, Find, UpdateDirAt, UpdateItemsAt, Append,
      Remove, Replace, CopyOf, Copied, Tick, Fit, CopyFits, Goes, DeletesIt, Misdeleted, Left, LeftItems, Stem,
      IsName, Named, Join, Leads;
    ghost var a, b, w, r := Stem(sourceRoot), Stem(destinationRoot), walk.View(), result.View();
    UpdateAtCases(name, node, rest, dst, a, b, depth, walk.patience, w, r);
    BothLead(sourceRoot, destinationRoot, name);
    var sourcePath := CombinePath(sourceRoot, name);
    var destinationPath := CombinePath(destinationRoot, name);
    var found := Leads(sourceRoot, name, sourcePath) && Leads(destinationRoot, name, destinationPath);
    var goOn := walk.Count(node.Dir?);
    if !goOn {
      return Aborted, dst;
    }
    UpdateAtStrays(name, node, rest, dst, a, b, depth, walk.patience, w, r);
    var other := FindItem(dst, name);
    EntryIs(node, other, a, b, name);
    if other.None? {
      NothingToRemove(dst, name);
      var copied;
      copied, dst' := CopyEntry(dst, name, node, found, sourcePath, destinationPath, result);
      return if copied then Success else Astray, dst';
    }
    if node.Dir? && other.value.Dir? {
      if !found {
        return Astray, dst;
      }
      var inner;
      status, inner := UpdateInternal(node.items, other.value.items, sourcePath, destinationPath, depth + 1, walk,
                                      result);
      return status, Replace(dst, name, Dir(inner));
    }
    if node.File? && other.value.File? && |node.data| == |other.value.data| {
      if !found {
        return Astray, dst;
      }
      var equal := FilesEqual(node.data, other.value.data);
      if equal {
        result.skippedEqual := result.skippedEqual + 1;
        return Success, dst;
      }
    }
    var deleted, left := DeleteEntry(dst, name, other.value, destinationRoot, destinationPath);
    if !deleted {
      return Astray, left;
    }
    result.replacedEntries := result.replacedEntries + 1;
    var copied;
    copied, dst' := CopyEntry(left, name, node, found, sourcePath, destinationPath, result);
    return if copied then Success else Astray, dst';
  }

  method UpdateInternal(src: Items, dst: Items, sourceRoot: string, destinationRoot: string, depth: nat,
                        walk: WalkState, result: ResultCounts)
    returns (status: Status, dst': Items)
    requires Named(src) && |sourceRoot| < MAX_PATH_LEN && |destinationRoot| < MAX_PATH_LEN
    modifies walk, result
    ensures UpdateDirAt(src, dst, Stem(sourceRoot), Stem(destinationRoot), depth, walk.patience, old(walk.View()),
                        old(result.View()))
            == Updating(dst', walk.View(), result.View(), status)
    decreases src, 1
  {
    hide Find, Usable, Equal, Stem, IsName, Named;
    dst' := dst;
    if depth > MAX_DEPTH {
      return BadBufferSize, dst;
    }
    ghost var p, a, b := walk.patience, Stem(sourceRoot), Stem(destinationRoot);
    ghost var all := UpdateItemsAt(src, dst, a, b, depth, p, walk.View(), result.View());
    hide UpdateItemsAt;
    var rest := src;
    while rest.Item?
      invariant (rest == src || rest < src) && Named(rest)
      invariant UpdateItemsAt(rest, dst', a, b, depth, p, walk.View(), result.View()) == all
      decreases rest
    {
      NamedParts(rest.name, rest.node, rest.rest);
      if !Usable(rest.name) {
        UpdateAtSkips(rest.name, rest.node, rest.rest, dst', a, b, depth, p, walk.View(), result.View());
      } else {
        status, dst' := UpdateEntry(rest.name, rest.node, dst', sourceRoot, destinationRoot, depth, walk, result,
                                    rest.rest);
        if status != Success {
          return;
        }
      }
      rest := rest.rest;
    }
    UpdateAtSkips("", Dir(Nil), Nil, dst', a, b, depth, p, walk.View(), result.View());
    return Success, dst';
  }

  method Update(src: Node, dst: Node, sourceRoot: string, destinationRoot: string, p: Patience)
    returns (dst': Node, walk: WalkState, result: ResultCounts, status: Status)
    requires src.Dir? ==> Named(src.items)
    requires |sourceRoot| < MAX_PATH_LEN && |destinationRoot| < MAX_PATH_LEN
    ensures fresh(walk) && fresh(result)
    ensures var (after, u) := UpdateTreeAt(src, dst, Stem(sourceRoot), Stem(destinationRoot), p);
            dst' == after && status == u.status && walk.View() == u.walk && result.View() == u.result
  {
    hide UpdateDirAt, Stem, Named;
    walk := new WalkState(p);
    result := new ResultCounts();
    if !src.Dir? || !dst.Dir? {
      return dst, walk, result, NotFound;
    }
    var items;
    status, items := UpdateInternal(src.items, dst.items, sourceRoot, destinationRoot, 0, walk, result);
    dst' := Dir(items);
  }
}
