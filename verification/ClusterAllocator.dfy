/** The cluster allocator over the volume's $Bitmap (src/ntfs_bitmap.c): a two-phase scan from a
    rolling cursor, the bitmap on disk, its mirror in memory and the free-cluster count, and what
    they keep through any interleaving of allocations and frees. */
module ClusterAllocator {
  import opened Arith
  import opened Bits
  import opened BitScan

  datatype Status = Success | VolumeFull

  const RETREAT_BYTES := 256 * 1024

  /** Clusters the bitmap speaks for: its own length, but never more than the volume has. */
  function BitCount(bm: seq<bv8>, totalClusters: nat): nat {
    if 8 * |bm| > totalClusters then totalClusters else 8 * |bm|
  }

  function StartBit(hint: nat, bits: nat): nat {
    if hint >= bits then 0 else hint
  }

  /** The second phase, from the beginning to the cursor, runs only when the first fell short of
      the request; the longer run wins, the first on a tie. */
  ghost predicate SecondPhase(bm: seq<bv8>, cursor: nat, needed: nat, s1: nat, l1: nat, start: nat, len: nat)
    requires cursor <= 8 * |bm|
  {
    if l1 < needed && cursor != 0
    then exists s2: nat, l2: nat ::
           && ScanResult(bm, 0, cursor, needed, s2, l2)
           && (start, len) == if l2 > l1 then (s2, l2) else (s1, l1)
    else (start, len) == (s1, l1)
  }

  /** The two-phase search, starting from the cursor. */
  ghost predicate Found(bm: seq<bv8>, bits: nat, cursor: nat, needed: nat, start: nat, len: nat)
    requires cursor <= bits <= 8 * |bm|
  {
    exists s1: nat, l1: nat ::
      && ScanResult(bm, cursor, bits, if needed == 0 then 1 else needed, s1, l1)
      && SecondPhase(bm, cursor, needed, s1, l1, start, len)
  }

  lemma ScanFindsFree(bm: seq<bv8>, from: nat, to: nat, want: nat, start: nat, len: nat)
    requires from <= to <= 8 * |bm| && want >= 1 && ScanResult(bm, from, to, want, start, len)
    ensures len == 0 <==> AllUsed(bm, from, to)
  {
    if len == 0 {
      forall i | from <= i < to ensures Used(bm, i) {
        assert !FreeRun(bm, from, to, i, 1);
      }
    } else {
      assert !Used(bm, start);
    }
  }

  /** What an allocation may hand out: free clusters, at most as many as asked for (one, when
      none are asked for), and nothing exactly when the searched part of the bitmap is full.  With
      a request of zero clusters the part before the cursor is never searched. */
  lemma FoundIsFree(bm: seq<bv8>, bits: nat, cursor: nat, needed: nat, start: nat, len: nat)
    requires cursor <= bits <= 8 * |bm| && Found(bm, bits, cursor, needed, start, len)
    ensures len <= (if needed == 0 then 1 else needed)
    ensures len > 0 ==> FreeRun(bm, 0, bits, start, len)
    ensures len == 0 <==> AllUsed(bm, if needed == 0 then cursor else 0, bits)
  {
    var s1: nat, l1: nat :|
      && ScanResult(bm, cursor, bits, if needed == 0 then 1 else needed, s1, l1)
      && SecondPhase(bm, cursor, needed, s1, l1, start, len);
    ScanFindsFree(bm, cursor, bits, if needed == 0 then 1 else needed, s1, l1);
    if l1 < needed && cursor != 0 {
      var s2: nat, l2: nat :|
        && ScanResult(bm, 0, cursor, needed, s2, l2)
        && (start, len) == if l2 > l1 then (s2, l2) else (s1, l1);
      ScanFindsFree(bm, 0, cursor, needed, s2, l2);
    }
  }

  lemma NoneLonger(bm: seq<bv8>, from: nat, to: nat, want: nat, start: nat, len: nat, s: nat, l: nat)
    requires from <= to <= 8 * |bm| && ScanResult(bm, from, to, want, start, len) && len < want
    requires FreeRun(bm, from, to, s, l)
    ensures l <= len
  {
  }

  /** A short answer is the longest free run on either side of the cursor. */
  lemma ShortIsLongest(bm: seq<bv8>, bits: nat, cursor: nat, needed: nat, start: nat, len: nat, s: nat, l: nat)
    requires cursor <= bits <= 8 * |bm| && Found(bm, bits, cursor, needed, start, len) && len < needed
    requires FreeRun(bm, 0, cursor, s, l) || FreeRun(bm, cursor, bits, s, l)
    ensures l <= len
  {
    var s1: nat, l1: nat :|
      && ScanResult(bm, cursor, bits, needed, s1, l1)
      && SecondPhase(bm, cursor, needed, s1, l1, start, len);
    hide ScanResult;
    if FreeRun(bm, cursor, bits, s, l) {
      NoneLonger(bm, cursor, bits, needed, s1, l1, s, l);
    }
    if cursor != 0 {
      var s2: nat, l2: nat :|
        && ScanResult(bm, 0, cursor, needed, s2, l2)
        && (start, len) == if l2 > l1 then (s2, l2) else (s1, l1);
      if FreeRun(bm, 0, cursor, s, l) {
        NoneLonger(bm, 0, cursor, needed, s2, l2, s, l);
      }
    }
  }

  // ---------------------------------------------------------------- the two operations

  datatype Geometry = Geometry(totalClusters: nat, bytesPerCluster: nat)

  /** The bitmap on disk, the free-cluster count and the rolling cursor. */
  datatype State = State(bm: seq<bv8>, free: nat, hint: nat)

  ghost predicate AllocStep(g: Geometry, s: State, needed: nat, s': State, status: Status, start: nat, got: nat) {
    var bits := BitCount(s.bm, g.totalClusters);
    && Found(s.bm, bits, StartBit(s.hint, bits), needed, start, got)
    && (status == VolumeFull <==> got == 0)
    && s' == if got == 0 then s else AfterAlloc(s, start, got)
  }

  ghost function AfterAlloc(s: State, start: nat, got: nat): State {
    if start + got > 8 * |s.bm| then s
    else State(Mark(s.bm, start, got, true), if s.free > got then s.free - got else 0, start + got)
  }

  function RetreatThreshold(bytesPerCluster: nat): nat
    requires bytesPerCluster > 0
  {
    (RETREAT_BYTES + bytesPerCluster - 1) / bytesPerCluster
  }

  /** A large enough free behind the cursor pulls the cursor back. */
  function AfterFree(g: Geometry, s: State, start: nat, count: nat): State
    requires start + count <= 8 * |s.bm| && g.bytesPerCluster > 0
  {
    if count == 0 then s
    else State(Mark(s.bm, start, count, false), s.free + count,
               if start < s.hint && count >= RetreatThreshold(g.bytesPerCluster) then start else s.hint)
  }

  method MarkBit(a: array<bv8>, bit: nat, value: bool)
    requires bit < 8 * a.Length
    modifies a
    ensures a[..] == if value then SetBit(old(a[..]), bit) else ClearBit(old(a[..]), bit)
  {
    hide Mask;
    var q := bit / 8;
    if value {
      Put(a, q, a[q] | Mask(bit % 8));
    } else {
      Put(a, q, a[q] & !Mask(bit % 8));
    }
  }

  method Put<T>(a: array<T>, q: nat, cell: T)
    requires q < a.Length
    modifies a
    ensures a[..] == old(a[..])[q := cell]
  {
    a[q] := cell;
  }

  /** Set or clear the bits one by one. */
  method MarkBits(a: array<bv8>, start: nat, len: nat, value: bool)
    requires start + len <= 8 * a.Length
    modifies a
    ensures a[..] == Mark(old(a[..]), start, len, value)
  {
    hide *;
    ghost var was := a[..];
    MarkNone(was, start, value);
    for i := 0 to len
      invariant a[..] == Mark(was, start, i, value)
    {
      MarkNext(was, start, i, value);
      MarkBit(a, start + i, value);
    }
  }

  lemma MarkNone(bm: seq<bv8>, start: nat, value: bool)
    requires start <= 8 * |bm|
    ensures Mark(bm, start, 0, value) == bm
  {
  }

  lemma MarkNext(bm: seq<bv8>, start: nat, len: nat, value: bool)
    requires start + len < 8 * |bm|
    ensures Mark(bm, start, len + 1, value) ==
            if value then SetBit(Mark(bm, start, len, value), start + len)
            else ClearBit(Mark(bm, start, len, value), start + len)
  {
    hide SetBit, ClearBit;
  }

  /** Write the changed bytes through to the bitmap on disk. */
  method WriteThrough(disk: array<bv8>, buf: array<bv8>, start: nat, len: nat, value: bool)
    requires disk != buf && disk.Length == buf.Length && 1 <= len && start + len <= 8 * disk.Length
    requires buf[..] == Mark(disk[..], start, len, value)
    modifies disk
    ensures disk[..] == buf[..] == old(buf[..])
  {
    ghost var was := disk[..];
    var first, last := start / 8, (start + len - 1) / 8;
    forall b | 0 <= b < disk.Length && !(first <= b <= last) ensures disk[b] == buf[b] {
      MarkedBytes(was, start, len, value, b);
      assert buf[b] == buf[..][b];
    }
    hide Mark;
    forall b | first <= b <= last {
      disk[b] := buf[b];
    }
    assert forall b :: 0 <= b < disk.Length ==> disk[b] == buf[b];
  }

  /** The free count a volume starts with: what the bitmap says, if it could be loaded. */
  function Mounted(bm: seq<bv8>, loaded: bool): State {
    State(bm, if loaded then CountFree(bm, 8 * |bm|) else 8 * |bm|, 0)
  }

  /** Count the bits in use, half a byte at a time. */
  method CountUsed(bm: seq<bv8>) returns (used: nat)
    ensures used + CountFree(bm, 8 * |bm|) == 8 * |bm|
  {
    hide PopCount4, CountFree, Used;
    used := 0;
    CountNone(bm);
    for i := 0 to |bm|
      invariant used + CountFree(bm, 8 * i) == 8 * i
    {
      CountByte(bm, i);
      used := used + PopCount4(bm[i] & 0x0F) + PopCount4((bm[i] >> 4) & 0x0F);
    }
  }

  lemma CountNone(bm: seq<bv8>)
    ensures CountFree(bm, 0) == 0
  {
  }

  class Volume {
    const g: Geometry
    const disk: array<bv8>      // the $Bitmap attribute's data
    var mirror: array?<bv8>     // its copy in memory, when it could be loaded at mount
    var freeClusters: nat
    var allocHint: nat

    /** Mounting: the bitmap is read once, to be counted and kept as the mirror.  When it cannot be
        loaded there is no mirror, and nothing is counted as used. */
    constructor Mount(bytesPerCluster: nat, disk: array<bv8>, loaded: bool)
      requires bytesPerCluster > 0
      ensures Valid() && this.disk == disk && (mirror != null <==> loaded) && (mirror != null ==> fresh(mirror))
      ensures g == Geometry(8 * disk.Length, bytesPerCluster)
      ensures Now() == Mounted(disk[..], loaded)
    {
      g := Geometry(8 * disk.Length, bytesPerCluster);
      this.disk := disk;
      mirror := null;
      freeClusters, allocHint := 8 * disk.Length, 0;
      new;
      if loaded {
        var buf := ReadBitmap();
        var used := CountUsed(buf[..]);
        freeClusters := if 8 * disk.Length > used then 8 * disk.Length - used else 0;
        mirror := buf;
      }
    }

    ghost predicate Valid()
      reads this, disk, mirror
    {
      && g.bytesPerCluster > 0
      && (mirror != null ==> mirror != disk && mirror.Length == disk.Length && mirror[..] == disk[..])
    }

    ghost function Now(): State
      reads this, disk
    {
      State(disk[..], freeClusters, allocHint)
    }

    method ReadBitmap() returns (buf: array<bv8>)
      ensures fresh(buf) && buf.Length == disk.Length && buf[..] == disk[..]
    {
      buf := new bv8[disk.Length];
      forall b | 0 <= b < disk.Length {
        buf[b] := disk[b];
      }
    }

    method Search(bm: seq<bv8>, needed: nat) returns (start: nat, len: nat)
      ensures var bits := BitCount(bm, g.totalClusters);
              Found(bm, bits, StartBit(allocHint, bits), needed, start, len)
    {
      hide ScanResult;
      var bits := if 8 * |bm| > g.totalClusters then g.totalClusters else 8 * |bm|;
      var cursor := allocHint;
      if cursor >= bits {
        cursor := 0;
      }
      start, len := ScanBitmapRange(bm, cursor, bits, needed);
      ghost var s1, l1 := start, len;
      if len < needed && cursor != 0 {
        var start2, len2 := ScanBitmapRange(bm, 0, cursor, needed);
        if len2 > len {
          start, len := start2, len2;
        }
      }
      assert SecondPhase(bm, cursor, needed, s1, l1, start, len);
    }

    /** The mirror, or else the bitmap read anew. */
    method LoadBitmap() returns (buf: array<bv8>)
      requires Valid()
      ensures buf != disk && buf[..] == disk[..]
      ensures if mirror != null then buf == mirror else fresh(buf)
    {
      if mirror != null {
        return mirror;
      }
      buf := ReadBitmap();
    }

    /** Mark a range in the buffer and write the bytes it touches through to the disk. */
    method MarkThrough(buf: array<bv8>, start: nat, len: nat, value: bool)
      requires buf != disk && buf[..] == disk[..] && len > 0 && start + len <= 8 * disk.Length
      modifies buf, disk
      ensures buf[..] == disk[..] == Mark(old(disk[..]), start, len, value)
    {
      hide Mark;
      MarkBits(buf, start, len, value);
      WriteThrough(disk, buf, start, len, value);
    }

    method AllocateClusters(needed: nat) returns (status: Status, start: nat, got: nat)
      requires Valid()
      modifies this`freeClusters, this`allocHint, disk, mirror
      ensures Valid() && mirror == old(mirror)
      ensures AllocStep(g, old(Now()), needed, Now(), status, start, got)
    {
      hide Found, Mark, FreeRun, AllUsed;
      var buf := LoadBitmap();
      start, got := Search(buf[..], needed);
      if got == 0 {
        return VolumeFull, start, got;
      }
      FoundInside(buf[..], BitCount(buf[..], g.totalClusters), allocHint, needed, start, got);
      MarkThrough(buf, start, got, true);
      freeClusters := if freeClusters > got then freeClusters - got else 0;
      allocHint := start + got;
      status := Success;
    }

    method FreeClusters(start: nat, count: nat)
      requires Valid() && start + count <= 8 * disk.Length
      modifies this`freeClusters, this`allocHint, disk, mirror
      ensures Valid() && mirror == old(mirror)
      ensures Now() == AfterFree(g, old(Now()), start, count)
    {
      hide Mark;
      if count == 0 {
        return;
      }
      var buf := LoadBitmap();
      MarkThrough(buf, start, count, false);
      freeClusters := freeClusters + count;
      if start < allocHint && count >= (RETREAT_BYTES + g.bytesPerCluster - 1) / g.bytesPerCluster {
        allocHint := start;
      }
    }
  }

  lemma FoundInside(bm: seq<bv8>, bits: nat, hint: nat, needed: nat, start: nat, len: nat)
    requires bits <= 8 * |bm| && Found(bm, bits, StartBit(hint, bits), needed, start, len) && len > 0
    ensures start + len <= bits
  {
    FoundIsFree(bm, bits, StartBit(hint, bits), needed, start, len);
    hide Found, Used;
  }

  /** Where the volume's clusters that the bitmap speaks for end. */
  predicate IsEnd(g: Geometry, bm: seq<bv8>, end: nat) {
    end <= 8 * |bm| && end <= g.totalClusters && (end == 8 * |bm| || end == g.totalClusters)
  }

  /** An allocation takes the first run that is long enough from the cursor on, or from the beginning
      when the cursor stands at the end; the next one starts behind it. */
  lemma FirstFit(g: Geometry, s: State, needed: nat, s': State, status: Status, start: nat, got: nat,
                 end: nat, at: nat)
    requires AllocStep(g, s, needed, s', status, start, got) && needed > 0 && IsEnd(g, s.bm, end)
    requires FreeRun(s.bm, if s.hint < end then s.hint else 0, end, at, needed)
    ensures status == Success && got == needed && FreeRun(s.bm, 0, end, start, needed)
    ensures (if s.hint < end then s.hint else 0) <= start <= at
    ensures s'.hint == start + needed && |s'.bm| == |s.bm|
    ensures s'.free == if s.free > needed then s.free - needed else 0
    ensures forall c: nat :: c < 8 * |s.bm| ==>
              (Used(s'.bm, c) <==> start <= c < start + needed || Used(s.bm, c))
  {
    FirstFound(s.bm, end, if s.hint < end then s.hint else 0, needed, start, got, at);
    hide Found, Used, Mark;
    forall c: nat | c < 8 * |s.bm| ensures Used(s'.bm, c) <==> start <= c < start + needed || Used(s.bm, c) {
      MarkedBit(s.bm, start, got, true, c);
    }
  }

  lemma FirstFound(bm: seq<bv8>, bits: nat, cursor: nat, needed: nat, start: nat, len: nat, at: nat)
    requires cursor <= bits <= 8 * |bm| && Found(bm, bits, cursor, needed, start, len) && needed > 0
    requires FreeRun(bm, cursor, bits, at, needed)
    ensures len == needed && cursor <= start <= at && FreeRun(bm, cursor, bits, start, needed)
  {
    hide Used;
  }

  /** Only when nothing from the cursor on is long enough, the part before the cursor is searched. */
  lemma WrapsAround(g: Geometry, s: State, needed: nat, s': State, status: Status, start: nat, got: nat,
                    end: nat, at: nat)
    requires AllocStep(g, s, needed, s', status, start, got) && needed > 0 && IsEnd(g, s.bm, end) && s.hint < end
    requires forall x: nat :: !FreeRun(s.bm, s.hint, end, x, needed)
    requires FreeRun(s.bm, 0, s.hint, at, needed)
    ensures status == Success && got == needed && start <= at && FreeRun(s.bm, 0, s.hint, start, needed)
    ensures s'.hint == start + needed
  {
    hide Used;
  }

  /** A free gives the bits and the count back, and takes the cursor along exactly when it begins before
      the cursor and covers at least 256 KiB. */
  lemma FreedIs(g: Geometry, s: State, start: nat, count: nat)
    requires start + count <= 8 * |s.bm| && g.bytesPerCluster > 0
    ensures var s' := AfterFree(g, s, start, count);
            && s'.free == s.free + count
            && s'.hint == (if start < s.hint && count * g.bytesPerCluster >= 0x40000 then start else s.hint)
            && |s'.bm| == |s.bm|
            && forall c: nat :: c < 8 * |s.bm| ==> (Used(s'.bm, c) <==> Used(s.bm, c) && !(start <= c < start + count))
  {
    RetreatsFrom(g.bytesPerCluster, count);
    hide Used, Mark, RetreatThreshold;
    forall c: nat | c < 8 * |s.bm|
      ensures Used(AfterFree(g, s, start, count).bm, c) <==> Used(s.bm, c) && !(start <= c < start + count)
    {
      if count > 0 {
        MarkedBit(s.bm, start, count, false, c);
      }
    }
  }

  lemma RetreatsFrom(bytesPerCluster: nat, count: nat)
    requires bytesPerCluster > 0
    ensures count >= RetreatThreshold(bytesPerCluster) <==> count * bytesPerCluster >= 0x40000
  {
    var x, q := RETREAT_BYTES + bytesPerCluster - 1, RetreatThreshold(bytesPerCluster);
    assert x == bytesPerCluster * q + x % bytesPerCluster;
    if count < q {
      FactorLess(bytesPerCluster, count, q);
    } else {
      FactorLess(bytesPerCluster, q, count + 1);
    }
  }

  // ---------------------------------------------------------------- every interleaving

  /** The volume, and which clusters each live extent still holds. */
  datatype World = World(vol: State, live: map<nat, set<nat>>)

  datatype Event =
    | Allocated(needed: nat, start: nat, got: nat, id: nat)
    | Refused(needed: nat)
    | Freed(id: nat, start: nat, count: nat)

  function Clusters(start: nat, count: nat): (cs: set<nat>)
    ensures forall c: nat :: c in cs <==> start <= c < start + count
    decreases count
  {
    if count == 0 then {} else Clusters(start, count - 1) + {start + count - 1}
  }

  /** One call.  A caller frees only clusters it still holds, whole extents or parts of them. */
  ghost predicate Step(g: Geometry, w: World, e: Event, w': World)
    requires g.bytesPerCluster > 0
  {
    match e
    case Allocated(needed, start, got, id) =>
      && AllocStep(g, w.vol, needed, w'.vol, Success, start, got)
      && id !in w.live && w'.live == w.live[id := Clusters(start, got)]
    case Refused(needed) =>
      AllocStep(g, w.vol, needed, w'.vol, VolumeFull, 0, 0) && w'.live == w.live
    case Freed(id, start, count) =>
      && start + count <= 8 * |w.vol.bm|
      && id in w.live && Clusters(start, count) <= w.live[id]
      && w'.vol == AfterFree(g, w.vol, start, count)
      && w'.live == w.live[id := w.live[id] - Clusters(start, count)]
  }

  /** All clusters held by some live extent. */
  ghost function Held(live: map<nat, set<nat>>): set<nat> {
    set id, c | id in live && c in live[id] :: c
  }

  predicate Disjoint(live: map<nat, set<nat>>) {
    forall a, b :: a in live && b in live && a != b ==> live[a] !! live[b]
  }

  /** A cluster's bit is set exactly when it was in use from the start or is held now, never both,
      and the free count is the number of clear bits. */
  ghost predicate BitBooks(s: State, bits: nat, base: set<nat>, held: set<nat>)
    requires bits <= 8 * |s.bm|
  {
    && base !! held
    && (forall c :: c in held ==> c < bits)
    && (forall c :: 0 <= c < bits ==> (Used(s.bm, c) <==> c in base || c in held))
    && s.free == CountFree(s.bm, bits)
  }

  /** The books of the volume: live extents are pairwise disjoint and the bits agree with them. */
  ghost predicate Books(g: Geometry, base: set<nat>, w: World) {
    Disjoint(w.live) && BitBooks(w.vol, BitCount(w.vol.bm, g.totalClusters), base, Held(w.live))
  }

  function UsedBits(bm: seq<bv8>): (base: set<nat>)
    ensures forall c :: c in base <==> 0 <= c < 8 * |bm| && Used(bm, c)
  {
    set c | 0 <= c < 8 * |bm| && Used(bm, c)
  }

  /** A volume keeps its books from the moment it is mounted if and only if its bitmap could be loaded,
      or has nothing in use. */
  lemma MountKeepsBooks(bm: seq<bv8>, bytesPerCluster: nat, loaded: bool)
    ensures Books(Geometry(8 * |bm|, bytesPerCluster), UsedBits(bm), World(Mounted(bm, loaded), map[]))
            <==> loaded || UsedBits(bm) == {}
  {
    hide Used;
    var n := 8 * |bm|;
    FullCount(bm, n);
    if UsedBits(bm) == {} {
      forall i | 0 <= i < n ensures !Used(bm, i) {
        assert i !in UsedBits(bm);
      }
    }
  }

  lemma HeldAfterAlloc(live: map<nat, set<nat>>, id: nat, cs: set<nat>)
    requires Disjoint(live) && id !in live && Held(live) !! cs
    ensures Disjoint(live[id := cs]) && Held(live[id := cs]) == Held(live) + cs
  {
    var live' := live[id := cs];
    forall a, c | a in live && c in live[a] ensures c in Held(live) && c !in cs {
    }
    forall c | c in Held(live) + cs ensures c in Held(live') {
      if c in cs {
        assert id in live' && c in live'[id];
      } else {
        var a :| a in live && c in live[a];
        assert a in live' && c in live'[a];
      }
    }
  }

  lemma HeldAfterFree(live: map<nat, set<nat>>, id: nat, cs: set<nat>)
    requires Disjoint(live) && id in live && cs <= live[id]
    ensures cs <= Held(live)
    ensures Disjoint(live[id := live[id] - cs]) && Held(live[id := live[id] - cs]) == Held(live) - cs
  {
    var live' := live[id := live[id] - cs];
    forall c | c in cs ensures c in Held(live) && c !in Held(live') {
      assert c in live[id];
      forall a | a in live' ensures c !in live'[a] {
        assert a != id ==> live[a] !! live[id];
      }
    }
    forall c | c in Held(live) - cs ensures c in Held(live') {
      var a :| a in live && c in live[a];
      assert a in live' && c in live'[a];
    }
  }

  /** Turning a range of bits turns membership of the same clusters. */
  lemma BitBooksAfterMark(s: State, s': State, bits: nat, base: set<nat>, held: set<nat>,
                          start: nat, count: nat, value: bool)
    requires bits <= 8 * |s.bm| && start + count <= bits && BitBooks(s, bits, base, held)
    requires RangeIs(s.bm, start, count, !value) && base !! Clusters(start, count)
    requires s'.bm == Mark(s.bm, start, count, value)
    requires s'.free == (if value then s.free - count else s.free + count)
    ensures BitBooks(s', bits, base, if value then held + Clusters(start, count) else held - Clusters(start, count))
  {
    hide Mark, Used, CountFree, RangeIs;
    forall c: nat | c < bits
      ensures Used(s'.bm, c) <==> if start <= c < start + count then value else Used(s.bm, c)
    {
      MarkedBit(s.bm, start, count, value, c);
    }
    CountMarked(s.bm, start, count, value, bits);
  }

  /** Handed-out clusters were free, so nobody holds any of them. */
  lemma FreshClusters(s: State, bits: nat, base: set<nat>, held: set<nat>, start: nat, got: nat)
    requires bits <= 8 * |s.bm| && start + got <= bits && BitBooks(s, bits, base, held)
    requires RangeIs(s.bm, start, got, false)
    ensures base !! Clusters(start, got) && held !! Clusters(start, got)
  {
    hide Used;
    forall c: nat | start <= c < start + got ensures c !in base && c !in held {
      assert !Used(s.bm, c);
    }
  }

  /** What holders give back was in use. */
  lemma GivenBackWasUsed(s: State, bits: nat, base: set<nat>, held: set<nat>, start: nat, count: nat)
    requires bits <= 8 * |s.bm| && BitBooks(s, bits, base, held)
    requires count > 0 && Clusters(start, count) <= held
    ensures start + count <= bits && RangeIs(s.bm, start, count, true) && base !! Clusters(start, count)
  {
    hide Used;
    assert start + count - 1 in Clusters(start, count);
    forall c: nat | start <= c < start + count ensures c in held && c < bits && Used(s.bm, c) {
      assert c in Clusters(start, count);
    }
  }

  lemma AllocatedKeepsBooks(g: Geometry, base: set<nat>, w: World, w': World, needed: nat, start: nat, got: nat,
                            id: nat)
    requires g.bytesPerCluster > 0 && Books(g, base, w) && Step(g, w, Allocated(needed, start, got, id), w')
    ensures Books(g, base, w') && Held(w.live) !! Clusters(start, got)
  {
    var bm, bits, cs := w.vol.bm, BitCount(w.vol.bm, g.totalClusters), Clusters(start, got);
    FoundIsFree(bm, bits, StartBit(w.vol.hint, bits), needed, start, got);
    assert RangeIs(bm, start, got, false);
    hide Found, Mark, CountFree, RangeIs, Held, Clusters, BitBooks, Disjoint;
    FreshClusters(w.vol, bits, base, Held(w.live), start, got);
    HeldAfterAlloc(w.live, id, cs);
    AllocState(w.vol, bits, base, Held(w.live), start, got);
    BitBooksAfterMark(w.vol, w'.vol, bits, base, Held(w.live), start, got, true);
  }

  lemma AllocState(s: State, bits: nat, base: set<nat>, held: set<nat>, start: nat, got: nat)
    requires bits <= 8 * |s.bm| && start + got <= bits && BitBooks(s, bits, base, held)
    requires RangeIs(s.bm, start, got, false)
    ensures var s' := AfterAlloc(s, start, got);
            s'.bm == Mark(s.bm, start, got, true) && s'.free == s.free - got
  {
    hide Mark;
    CountMarked(s.bm, start, got, true, bits);
  }

  lemma FreedKeepsBooks(g: Geometry, base: set<nat>, w: World, w': World, id: nat, start: nat, count: nat)
    requires g.bytesPerCluster > 0 && Books(g, base, w) && Step(g, w, Freed(id, start, count), w')
    ensures Books(g, base, w')
  {
    var bm, bits, cs := w.vol.bm, BitCount(w.vol.bm, g.totalClusters), Clusters(start, count);
    hide Mark, CountFree, RangeIs, Held, BitBooks, Disjoint;
    HeldAfterFree(w.live, id, cs);
    if count == 0 {
      assert Held(w.live) - cs == Held(w.live);
    } else {
      GivenBackWasUsed(w.vol, bits, base, Held(w.live), start, count);
      BitBooksAfterMark(w.vol, w'.vol, bits, base, Held(w.live), start, count, false);
    }
  }

  /** A run: worlds joined by calls. */
  ghost predicate Run(g: Geometry, ws: seq<World>, es: seq<Event>)
    requires g.bytesPerCluster > 0
  {
    |ws| == |es| + 1 && forall i :: 0 <= i < |es| ==> Step(g, ws[i], es[i], ws[i + 1])
  }

  /** The books hold after every call of every interleaving. */
  lemma {:induction false} RunKeepsBooks(g: Geometry, base: set<nat>, ws: seq<World>, es: seq<Event>, n: nat)
    requires g.bytesPerCluster > 0 && Run(g, ws, es) && Books(g, base, ws[0]) && n <= |es|
    ensures Books(g, base, ws[n])
    decreases n
  {
    if n > 0 {
      RunKeepsBooks(g, base, ws, es, n - 1);
      hide Books;
      assert Step(g, ws[n - 1], es[n - 1], ws[n]);
      match es[n - 1]
      case Allocated(needed, start, got, id) =>
        AllocatedKeepsBooks(g, base, ws[n - 1], ws[n], needed, start, got, id);
      case Refused(needed) =>
      case Freed(id, start, count) =>
        FreedKeepsBooks(g, base, ws[n - 1], ws[n], id, start, count);
    }
  }

  /** A request is refused exactly when no clear bit is left, provided it asks for something; a
      request for nothing is refused exactly when none is left from the cursor on. */
  lemma RefusedIffFull(g: Geometry, w: World, e: Event, w': World)
    requires g.bytesPerCluster > 0 && Step(g, w, e, w') && !e.Freed?
    ensures var bits := BitCount(w.vol.bm, g.totalClusters);
            e.Refused? <==> AllUsed(w.vol.bm, if e.needed == 0 then StartBit(w.vol.hint, bits) else 0, bits)
  {
    var bits := BitCount(w.vol.bm, g.totalClusters);
    if e.Refused? {
      FoundIsFree(w.vol.bm, bits, StartBit(w.vol.hint, bits), e.needed, 0, 0);
    } else {
      FoundIsFree(w.vol.bm, bits, StartBit(w.vol.hint, bits), e.needed, e.start, e.got);
    }
  }

  /** While the books are kept the free count decides: a request for something is refused exactly when
      it stands at zero. */
  lemma RefusedIffNoneFree(g: Geometry, base: set<nat>, w: World, e: Event, w': World)
    requires g.bytesPerCluster > 0 && Books(g, base, w) && Step(g, w, e, w') && !e.Freed? && e.needed > 0
    ensures e.Refused? <==> w.vol.free == 0
  {
    RefusedIffFull(g, w, e, w');
    hide Step, Used, CountFree;
    CountZero(w.vol.bm, BitCount(w.vol.bm, g.totalClusters));
  }

  /** So a volume with room may refuse: cluster 0 clear, the rest used, the cursor at 1. */
  lemma EmptyRequestRefusedWithRoom()
    ensures var s := State([0xFE], 1, 1);
            && AllocStep(Geometry(8, 4096), s, 0, s, VolumeFull, 0, 0)
            && !Used(s.bm, 0) && s.free == CountFree(s.bm, 8)
  {
    var bm: seq<bv8> := [0xFE];
    UsedIsMask(0xFE, 0);
    forall i | 1 <= i < 8 ensures Used(bm, i) {
      UsedIsMask(0xFE, i);
    }
    hide Used;
    assert ScanResult(bm, 1, 8, 1, 0, 0) by {
      forall st: nat, l: nat | 1 <= l && 1 <= st && st + l <= 8 ensures !FreeRun(bm, 1, 8, st, l) {
        assert Used(bm, st);
      }
    }
    assert SecondPhase(bm, 1, 0, 0, 0, 0, 0);
    CountBelow(bm);
  }

  lemma CountBelow(bm: seq<bv8>)
    requires |bm| == 1 && !Used(bm, 0) && forall i :: 1 <= i < 8 ==> Used(bm, i)
    ensures CountFree(bm, 8) == 1
  {
    hide Used;
    assert CountFree(bm, 1) == 1;
    assert CountFree(bm, 3) == CountFree(bm, 1);
    assert CountFree(bm, 5) == CountFree(bm, 3);
    assert CountFree(bm, 7) == CountFree(bm, 5);
  }
}
