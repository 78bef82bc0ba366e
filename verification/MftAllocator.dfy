/** Handing out MFT records (src/ntfs_bitmap.c): the $MFT's own bitmap, resident in record 0 or in
    clusters of its own, the growth of the table, and the volume's copy of record 0 that growth
    writes back wholesale. */
module MftAllocator {
  import opened Arith
  import opened Bits
  import opened BitScan
  import opened ByteData
  import opened UpdateSequence

  /** A refusal outside diagnostic builds reads as Unsupported. */
  datatype Status = Success | Unsupported | GrowthFailed | VolumeCorrupted

  /** The bitmap inside record 0, or the length of the one in the clusters. */
  datatype BitmapAttr = Resident(bits: seq<bv8>) | NonResident(len: nat)

  /** The parts of record 0 that matter here: its update sequence number, the bitmap attribute, and
      the sizes of the unnamed $DATA, the table itself. */
  datatype Record0 = Record0(usn: word, bitmap: BitmapAttr, dataSize: nat, allocatedSize: nat)

  datatype Sizes = Sizes(recordSize: nat, bytesPerCluster: nat)

  /** `stored` is what a read of record 0 gives, `copy` the volume's own copy, `tableSize` the size
      the volume's context of the table knows, and `stream` all clusters of a bitmap outside record 0. */
  datatype State = State(stored: Record0, copy: Record0, tableSize: nat, stream: seq<bv8>)

  /** What the rest of the driver does for a growth: clusters for the table may be had and recorded,
      and so may room for more bitmap bytes, in clusters that hold whatever was there before. */
  datatype TableRoom = NoClusters | Clusters(count: nat)
  datatype BitmapRoom = NoRoom | Room(left: seq<bv8>)

  /** At least one cluster was had. */
  predicate Had(table: TableRoom) {
    table.Clusters? && table.count >= 1
  }

  predicate Shape(z: Sizes, s: State) {
    z.recordSize > 0 && (s.stored.bitmap.NonResident? ==> s.stored.bitmap.len <= |s.stream|)
  }

  function BitmapOf(z: Sizes, s: State): seq<bv8>
    requires Shape(z, s)
  {
    match s.stored.bitmap
    case Resident(bits) => bits
    case NonResident(len) => s.stream[..len]
  }

  function Records(z: Sizes, size: nat): nat
    requires z.recordSize > 0
  {
    size / z.recordSize
  }

  /** As many records as fit into the table whole. */
  lemma RecordsAre(z: Sizes, size: nat, n: nat)
    requires z.recordSize > 0
    ensures Records(z, size) == n <==> z.recordSize * n <= size < z.recordSize * n + z.recordSize
  {
    var q, r := size / z.recordSize, size % z.recordSize;
    assert size == z.recordSize * q + r;
    if z.recordSize * n <= size < z.recordSize * n + z.recordSize {
      DivisionIsUnique(size, z.recordSize, n, size - z.recordSize * n);
    }
  }

  function Limit(z: Sizes, s: State): (l: nat)
    requires Shape(z, s)
    ensures l <= 8 * |BitmapOf(z, s)|
  {
    var bits, records := 8 * |BitmapOf(z, s)|, Records(z, s.tableSize);
    if bits < records then bits else records
  }

  /** The volume's own copy of record 0, and the table size it works with, are what the disk says. */
  predicate InStep(z: Sizes, s: State) {
    Shape(z, s) && s.copy == s.stored && s.tableSize == s.stored.dataSize
  }

  /** Record j is marked as taken. */
  predicate Taken(z: Sizes, s: State, j: nat)
    requires Shape(z, s)
  {
    j < 8 * |BitmapOf(z, s)| && Used(BitmapOf(z, s), j)
  }

  // ---------------------------------------------------------------- the steps

  /** Write record 0 and keep the volume's copy of it, and the table size, in step. */
  function StoreRecord0(s: State, rec: Record0): State {
    var written := rec.(usn := NextUsn(rec.usn));
    s.(stored := written, copy := written, tableSize := written.dataSize)
  }

  /** Every write of record 0 gives it the next sequence number, never 0 and never the last two, and
      the copy that number too. */
  lemma WrittenRecord0(s: State, rec: Record0)
    ensures var after := StoreRecord0(s, rec);
            && after.copy == after.stored == rec.(usn := if rec.usn >= 0xFFFE then 1 else rec.usn + 1)
            && after.tableSize == rec.dataSize && after.stream == s.stream
  {
  }

  /** Set or clear one bit: in record 0, or in the clusters of the bitmap. */
  function PutBit(z: Sizes, s: State, i: nat, value: bool): State
    requires Shape(z, s) && i < 8 * |BitmapOf(z, s)|
  {
    match s.stored.bitmap
    case Resident(bits) =>
      StoreRecord0(s, s.stored.(bitmap := Resident(if value then SetBit(bits, i) else ClearBit(bits, i))))
    case NonResident(_) =>
      s.(stream := if value then SetBit(s.stream, i) else ClearBit(s.stream, i))
  }

  /** The least clear bit from i on, or the limit. */
  function LeastClear(bm: seq<bv8>, i: nat, limit: nat): (k: nat)
    requires limit <= 8 * |bm|
    ensures i <= k && (k < limit ==> !Used(bm, k)) && (k <= limit || k == i)
    ensures forall j :: i <= j < k && j < limit ==> Used(bm, j)
    decreases limit - i
  {
    if i < limit && Used(bm, i) then LeastClear(bm, i + 1, limit) else i
  }

  /** One pass of the search: the state with the bit set and its index, or nothing. */
  function Pass(z: Sizes, s: State): (r: (State, bool, nat))
    requires Shape(z, s)
  {
    var k := LeastClear(BitmapOf(z, s), FIRST_USER_FILE, Limit(z, s));
    if k < Limit(z, s) then (PutBit(z, s, k, true), true, k) else (s, false, 0)
  }

  /** The table grows inside the volume's copy of record 0, which is then written back. */
  function GrowTable(z: Sizes, s: State, count: nat): State {
    var size := s.copy.allocatedSize + count * z.bytesPerCluster;
    StoreRecord0(s, s.copy.(dataSize := size, allocatedSize := size))
  }

  /** Bytes for one bit per record, rounded up to eight. */
  function NeededLength(records: nat): (n: nat)
    ensures records <= 8 * n
  {
    ((records + 7) / 8 + 7) / 8 * 8
  }

  function Zeros(n: nat): (s: seq<bv8>)
    ensures |s| == n
  {
    seq(n, _ => 0)
  }

  /** Grow the bitmap to `need` bytes. */
  function GrowBitmap(z: Sizes, s: State, need: nat, room: BitmapRoom): (r: (State, Status))
    requires Shape(z, s)
  {
    var len := |BitmapOf(z, s)|;
    if need <= len then (s, Success)
    else if s.stored.bitmap.Resident? then
      if room == NoRoom then (s, Unsupported)
      else (StoreRecord0(s, s.stored.(bitmap := Resident(s.stored.bitmap.bits + Zeros(need - len)))), Success)
    else if need <= |s.stream| then (Widen(s, s.stream, len, need), Success)
    else if room == NoRoom || |s.stream| + |room.left| < need then (s, GrowthFailed)
    else (Widen(s, s.stream + room.left, len, need), Success)
  }

  /** The bitmap outside record 0 now ends at `need`, and what lies between is cleared. */
  function Widen(s: State, wide: seq<bv8>, len: nat, need: nat): State
    requires len <= need <= |wide|
  {
    StoreRecord0(s, s.stored.(bitmap := NonResident(need))).(stream := wide[..len] + Zeros(need - len) + wide[need..])
  }

  function GrowBoth(z: Sizes, s: State, table: TableRoom, room: BitmapRoom): (r: (State, Status))
    requires InStep(z, s)
  {
    if !Had(table) then (s, GrowthFailed)
    else
      var grown := GrowTable(z, s, table.count);
      var records := Records(z, grown.tableSize);
      if records > 8 * |BitmapOf(z, grown)| then GrowBitmap(z, grown, NeededLength(records), room) else (grown, Success)
  }

  /** Two passes at most, with a growth of table and bitmap between them. */
  function Allocate(z: Sizes, s: State, table: TableRoom, room: BitmapRoom): (r: (State, Status, nat))
    requires InStep(z, s)
  {
    var (first, found, k) := Pass(z, s);
    if found then (first, Success, k)
    else
      var (grown, status) := GrowBoth(z, s, table, room);
      if status != Success then (grown, status, 0)
      else
        GrowthKeepsStep(z, s, table, room);
        var (second, found', k') := Pass(z, grown);
        if found' then (second, Success, k') else (grown, Unsupported, 0)
  }

  /** Give a record back.  Only a bitmap inside record 0 has the index checked against it; in clusters
      the byte is changed wherever the index leads, and a byte that is not there is not. */
  function Free(z: Sizes, s: State, index: nat): (State, Status)
    requires Shape(z, s)
  {
    match s.stored.bitmap
    case Resident(bits) => if index / 8 >= |bits| then (s, VolumeCorrupted) else (PutBit(z, s, index, false), Success)
    case NonResident(_) =>
      (if index / 8 >= |s.stream| then s else s.(stream := ClearBit(s.stream, index)), Success)
  }

  // ---------------------------------------------------------------- what each step does to the bits

  lemma PrefixBit(bm: seq<bv8>, len: nat, j: nat)
    requires len <= |bm| && j < 8 * len
    ensures Used(bm[..len], j) <==> Used(bm, j)
  {
  }

  lemma StreamBit(bm: seq<bv8>, len: nat, i: nat, value: bool, j: nat)
    requires len <= |bm| && i < 8 * len && j < 8 * len
    ensures var after := if value then SetBit(bm, i) else ClearBit(bm, i);
            Used(after[..len], j) <==> if j == i then value else Used(bm[..len], j)
  {
    hide SetBit, ClearBit, Used;
    SetBitSize(bm, i);
    PrefixBit(bm, len, j);
    PrefixBit(if value then SetBit(bm, i) else ClearBit(bm, i), len, j);
    SetBitChangesOne(bm, i, j);
    ClearBitChangesOne(bm, i, j);
  }

  lemma SetBitSize(bm: seq<bv8>, i: nat)
    requires i < 8 * |bm|
    ensures |SetBit(bm, i)| == |ClearBit(bm, i)| == |bm|
  {
  }

  /** One bit of the bitmap changes, wherever the bitmap lives, and nothing comes out of step. */
  lemma PutBitChangesOne(z: Sizes, s: State, i: nat, value: bool, j: nat)
    requires InStep(z, s) && i < 8 * |BitmapOf(z, s)|
    ensures var after := PutBit(z, s, i, value);
            && InStep(z, after) && after.tableSize == s.tableSize
            && |BitmapOf(z, after)| == |BitmapOf(z, s)|
            && (Taken(z, after, j) <==> if j == i then value else Taken(z, s, j))
  {
    hide SetBit, ClearBit, Used;
    match s.stored.bitmap
    case Resident(bits) =>
      SetBitSize(bits, i);
      if j < 8 * |bits| {
        SetBitChangesOne(bits, i, j);
        ClearBitChangesOne(bits, i, j);
      }
    case NonResident(len) =>
      SetBitSize(s.stream, i);
      if j < 8 * len {
        StreamBit(s.stream, len, i, value, j);
      }
  }

  lemma ZeroBits(bm: seq<bv8>, n: nat, j: nat)
    requires j < 8 * (|bm| + n)
    ensures Used(bm + Zeros(n), j) <==> j < 8 * |bm| && Used(bm, j)
  {
    if j >= 8 * |bm| {
      assert (bm + Zeros(n))[j / 8] == 0;
      ZeroByte(j % 8);
    }
  }

  lemma ZeroByte(k: nat)
    requires k < 8
    ensures !UsedBit(0, k)
  {
    assert !UsedBit(0, 0) && !UsedBit(0, 1) && !UsedBit(0, 2) && !UsedBit(0, 3);
    assert !UsedBit(0, 4) && !UsedBit(0, 5) && !UsedBit(0, 6) && !UsedBit(0, 7);
  }

  /** Growing the table changes no bit: record 0 goes back with the bitmap it had. */
  lemma GrowTableKeepsBits(z: Sizes, s: State, count: nat, j: nat)
    requires InStep(z, s)
    ensures var after := GrowTable(z, s, count);
            && InStep(z, after) && BitmapOf(z, after) == BitmapOf(z, s)
            && (Taken(z, after, j) <==> Taken(z, s, j))
  {
  }

  lemma WidenedBitmap(z: Sizes, s: State, wide: seq<bv8>, len: nat, need: nat)
    requires InStep(z, s) && s.stored.bitmap == NonResident(len) && s.stream <= wide && len <= need <= |wide|
    ensures var after := Widen(s, wide, len, need);
            && InStep(z, after) && after.tableSize == s.tableSize
            && BitmapOf(z, after) == BitmapOf(z, s) + Zeros(need - len)
  {
    var after := Widen(s, wide, len, need);
    assert after.stream[..need] == s.stream[..len] + Zeros(need - len);
  }

  /** A grown bitmap is the old one with clear bytes behind it, whatever its new clusters held. */
  lemma GrownBitmap(z: Sizes, s: State, need: nat, room: BitmapRoom)
    requires InStep(z, s)
    ensures var (after, status) := GrowBitmap(z, s, need, room);
            && InStep(z, after) && after.tableSize == s.tableSize
            && (status != Success ==> after == s)
            && (status == Success && need > |BitmapOf(z, s)| ==>
                  BitmapOf(z, after) == BitmapOf(z, s) + Zeros(need - |BitmapOf(z, s)|))
            && (status == Success && need <= |BitmapOf(z, s)| ==> after == s)
  {
    var len := |BitmapOf(z, s)|;
    if need > len && s.stored.bitmap.NonResident? {
      if need <= |s.stream| {
        WidenedBitmap(z, s, s.stream, len, need);
      } else if room != NoRoom && |s.stream| + |room.left| >= need {
        WidenedBitmap(z, s, s.stream + room.left, len, need);
      }
    }
  }

  lemma GrownBits(z: Sizes, s: State, need: nat, room: BitmapRoom, j: nat)
    requires InStep(z, s)
    ensures var (after, status) := GrowBitmap(z, s, need, room);
            && InStep(z, after) && after.tableSize == s.tableSize
            && (Taken(z, after, j) <==> Taken(z, s, j))
            && (status == Success ==> need <= |BitmapOf(z, after)|)
            && |BitmapOf(z, s)| <= |BitmapOf(z, after)|
  {
    hide Used, GrowBitmap, BitmapOf;
    GrownBitmap(z, s, need, room);
    var bm := BitmapOf(z, s);
    if need > |bm| && j < 8 * need {
      ZeroBits(bm, need - |bm|, j);
    }
  }

  predicate Grew(z: Sizes, s: State, after: State)
    requires Shape(z, s)
  {
    InStep(z, after) && |BitmapOf(z, s)| <= |BitmapOf(z, after)|
  }

  lemma GrowthKeepsStep(z: Sizes, s: State, table: TableRoom, room: BitmapRoom)
    requires InStep(z, s)
    ensures Grew(z, s, GrowBoth(z, s, table, room).0)
  {
    GrowthKeepsBits(z, s, table, room, 0);
  }

  /** Growth leaves every record as it was marked: no bit is undone, and every record that is new
      to the bitmap is free.  After a success the bitmap covers the whole table. */
  lemma GrowthKeepsBits(z: Sizes, s: State, table: TableRoom, room: BitmapRoom, j: nat)
    requires InStep(z, s)
    ensures var (after, status) := GrowBoth(z, s, table, room);
            && Grew(z, s, after)
            && (Taken(z, after, j) <==> Taken(z, s, j))
            && (status == Success ==> Limit(z, after) == Records(z, after.tableSize))
  {
    hide Used, GrowBitmap, BitmapOf, NeededLength, Taken, GrowTable, InStep, Records;
    if Had(table) {
      var grown := GrowTable(z, s, table.count);
      GrowTableKeepsBits(z, s, table.count, j);
      InStepShape(z, grown);
      var records := Records(z, grown.tableSize);
      GrownBits(z, grown, NeededLength(records), room, j);
      InStepShape(z, GrowBitmap(z, grown, NeededLength(records), room).0);
    }
  }

  lemma InStepShape(z: Sizes, s: State)
    requires InStep(z, s)
    ensures Shape(z, s)
  {
  }

  // ---------------------------------------------------------------- one call

  /** What a pass that finds a record does. */
  predicate Gives(z: Sizes, s: State, after: State, k: nat)
    requires Shape(z, s)
  {
    && InStep(z, after)
    && 16 <= k < Limit(z, s)
    && after == PutBit(z, s, k, true)
    && !Taken(z, s, k)
    && forall j :: 16 <= j < k ==> Taken(z, s, j)
  }

  predicate Full(z: Sizes, s: State)
    requires Shape(z, s)
  {
    forall j :: 16 <= j < Limit(z, s) ==> Taken(z, s, j)
  }

  lemma PassGives(z: Sizes, s: State)
    requires InStep(z, s)
    ensures var (after, found, k) := Pass(z, s);
            if found then Gives(z, s, after, k) else Full(z, s) && after == s && k == 0
  {
    hide Used, PutBit;
    var bm, limit := BitmapOf(z, s), Limit(z, s);
    var k := LeastClear(bm, FIRST_USER_FILE, limit);
    if k < limit {
      PutBitChangesOne(z, s, k, true, k);
      forall j | FIRST_USER_FILE <= j < k ensures Taken(z, s, j) {
        assert Used(bm, j);
      }
    }
  }

  /** What one call promises, whatever growth does: nothing is out of step, the one record handed
      out was free and every user record below it was taken, and no other mark changes. */
  ghost predicate Allocated(z: Sizes, s: State, after: State, status: Status, k: nat)
    requires InStep(z, s)
  {
    && InStep(z, after) && (status == Success ==> 16 <= k < Records(z, after.tableSize))
    && (status == Success ==> !Taken(z, s, k) && Taken(z, after, k))
    && (status == Success ==> forall j :: 16 <= j < k ==> Taken(z, s, j))
    && (status != Success ==> k == 0 && Full(z, s))
    && forall j: nat {:trigger Taken(z, after, j)} :: j != k || status != Success
         ==> (Taken(z, after, j) <==> Taken(z, s, j))
  }

  lemma GaveIsAllocated(z: Sizes, s: State, grown: State, after: State, k: nat)
    requires InStep(z, s) && InStep(z, grown) && Gives(z, grown, after, k)
    requires forall j: nat {:trigger Taken(z, grown, j)} :: Taken(z, grown, j) <==> Taken(z, s, j)
    ensures Allocated(z, s, after, Success, k)
  {
    hide Taken, BitmapOf, PutBit;
    forall j: nat ensures Taken(z, after, j) <==> j == k || Taken(z, s, j) {
      PutBitChangesOne(z, grown, k, true, j);
      assert Taken(z, grown, j) <==> Taken(z, s, j);
    }
    assert !Taken(z, grown, k);
    forall j | FIRST_USER_FILE <= j < k ensures Taken(z, s, j) {
      assert Taken(z, grown, j);
    }
    PutBitChangesOne(z, grown, k, true, k);
    LimitInTable(z, grown);
  }

  lemma LimitInTable(z: Sizes, s: State)
    requires Shape(z, s)
    ensures Limit(z, s) <= Records(z, s.tableSize)
  {
  }

  lemma AllGrowthKeepsBits(z: Sizes, s: State, table: TableRoom, room: BitmapRoom)
    requires InStep(z, s)
    ensures var (after, status) := GrowBoth(z, s, table, room);
            && Grew(z, s, after)
            && (forall j: nat {:trigger Taken(z, after, j)} :: Taken(z, after, j) <==> Taken(z, s, j))
            && (status == Success ==> Limit(z, after) == Records(z, after.tableSize))
  {
    hide Taken, GrowBoth, InStep, BitmapOf, Limit;
    GrowthKeepsBits(z, s, table, room, 0);
    var after := GrowBoth(z, s, table, room).0;
    InStepShape(z, s);
    InStepShape(z, after);
    forall j: nat ensures Taken(z, after, j) <==> Taken(z, s, j) {
      GrowthKeepsBits(z, s, table, room, j);
    }
  }

  /** The whole call keeps its promise. */
  lemma AllocateGives(z: Sizes, s: State, table: TableRoom, room: BitmapRoom)
    requires InStep(z, s)
    ensures var (after, status, k) := Allocate(z, s, table, room); Allocated(z, s, after, status, k)
  {
    hide Taken, GrowBoth, Pass, BitmapOf, Limit, PutBit, Records;
    PassGives(z, s);
    var (first, found, k) := Pass(z, s);
    if found {
      GaveIsAllocated(z, s, s, first, k);
    } else {
      AllGrowthKeepsBits(z, s, table, room);
      var (grown, status) := GrowBoth(z, s, table, room);
      PassGives(z, grown);
      var (second, found', k') := Pass(z, grown);
      if status == Success && found' {
        GaveIsAllocated(z, s, grown, second, k');
      }
    }
  }

  /** Refusal exactly when it should be: with a free user record in the table a call succeeds
      without growing anything, and after a growth it fails only if the bitmap already marked every
      user record of the larger table. */
  lemma RefusedIffFull(z: Sizes, s: State, table: TableRoom, room: BitmapRoom)
    requires InStep(z, s)
    ensures !Full(z, s) ==>
              var (after, status, k) := Allocate(z, s, table, room);
              status == Success && after.tableSize == s.tableSize && |BitmapOf(z, after)| == |BitmapOf(z, s)|
    ensures Full(z, s) && GrowBoth(z, s, table, room).1 == Success ==>
              (Allocate(z, s, table, room).1 != Success <==>
               forall j :: FIRST_USER_FILE <= j < Records(z, GrowBoth(z, s, table, room).0.tableSize)
                 ==> Taken(z, s, j))
  {
    hide Taken, GrowBoth, Pass, BitmapOf, Limit, PutBit, Records;
    PassGives(z, s);
    var (first, found, k) := Pass(z, s);
    if found {
      PutBitChangesOne(z, s, k, true, k);
    } else {
      AllGrowthKeepsBits(z, s, table, room);
      var (grown, status) := GrowBoth(z, s, table, room);
      PassGives(z, grown);
      if status == Success && Pass(z, grown).1 {
        assert !Taken(z, grown, Pass(z, grown).2);
      }
      if status == Success && !Pass(z, grown).1 {
        forall j | FIRST_USER_FILE <= j < Records(z, grown.tableSize) ensures Taken(z, s, j) {
          assert Taken(z, grown, j);
        }
      }
    }
  }

  // ---------------------------------------------------------------- how much a growth adds

  /** There is room for a bitmap of that many bytes: it has them, or record 0 can hold them, or its
      clusters can, with those that can be had. */
  predicate HasRoom(z: Sizes, s: State, need: nat, room: BitmapRoom)
    requires Shape(z, s)
  {
    || need <= |BitmapOf(z, s)|
    || (s.stored.bitmap.Resident? && room.Room?)
    || (s.stored.bitmap.NonResident? && need <= |s.stream| + (if room.Room? then |room.left| else 0))
  }

  lemma BitmapGrowsIff(z: Sizes, s: State, need: nat, room: BitmapRoom)
    requires InStep(z, s)
    ensures GrowBitmap(z, s, need, room).1 == Success <==> HasRoom(z, s, need, room)
  {
    hide StoreRecord0, Widen, Zeros;
  }

  /** A bitmap in clusters that grows keeps its clusters, with those that can be had behind them where it
      needs them, and clears in them exactly the bytes that are new to it. */
  lemma WidensInPlace(z: Sizes, s: State, need: nat, room: BitmapRoom, b: nat)
    requires InStep(z, s) && s.stored.bitmap.NonResident? && need > s.stored.bitmap.len
    requires GrowBitmap(z, s, need, room).1 == Success
    ensures var wide := if need <= |s.stream| then s.stream else if room.Room? then s.stream + room.left else [];
            var s' := GrowBitmap(z, s, need, room).0;
            && s'.stored.bitmap == NonResident(need) && |s'.stream| == |wide|
            && (b < |wide| ==> s'.stream[b] == if s.stored.bitmap.len <= b < need then 0 else wide[b])
  {
  }

  /** The bitmap grows to the fewest words of eight bytes that hold a bit for each record. */
  lemma NeededIsLeast(records: nat)
    ensures var n := NeededLength(records); n % 8 == 0 && records <= 8 * n < records + 64
  {
  }

  /** A growth by that many clusters succeeds exactly if the bitmap can follow; then the table has these
      clusters' bytes more than were allocated to it, all of them in use. */
  lemma TableGrows(z: Sizes, s: State, count: nat, room: BitmapRoom)
    requires InStep(z, s) && count >= 1
    ensures var size := s.stored.allocatedSize + count * z.bytesPerCluster;
            var records := size / z.recordSize;
            var (after, status) := GrowBoth(z, s, Clusters(count), room);
            && after.tableSize == after.stored.dataSize == after.stored.allocatedSize == size
            && (status == Success <==> records <= 8 * |BitmapOf(z, s)| || HasRoom(z, s, NeededLength(records), room))
            && (status == Success ==> Limit(z, after) == records)
  {
    hide NeededLength, Limit;
    var grown := GrowTable(z, s, count);
    GrowTableKeepsBits(z, s, count, 0);
    var records := Records(z, grown.tableSize);
    BitmapGrowsIff(z, grown, NeededLength(records), room);
    GrownSizes(z, grown, NeededLength(records), room);
    GrowthKeepsBits(z, s, Clusters(count), room, 0);
    hide GrowBitmap;
  }

  lemma GrownSizes(z: Sizes, s: State, need: nat, room: BitmapRoom)
    requires InStep(z, s)
    ensures var after := GrowBitmap(z, s, need, room).0;
            after.stored.dataSize == s.stored.dataSize && after.stored.allocatedSize == s.stored.allocatedSize
            && after.tableSize == s.tableSize
  {
    hide Zeros;
  }

  /** Records that fill clusters: so many more for each cluster. */
  lemma RecordsAdded(z: Sizes, size: nat, perCluster: nat, count: nat)
    requires z.recordSize > 0 && z.bytesPerCluster == perCluster * z.recordSize && size % z.recordSize == 0
    ensures (size + count * z.bytesPerCluster) / z.recordSize == size / z.recordSize + count * perCluster
  {
    var m := size / z.recordSize;
    assert count * (perCluster * z.recordSize) == (count * perCluster) * z.recordSize;
    DivisionIsUnique(size + count * z.bytesPerCluster, z.recordSize, m + count * perCluster, 0);
  }

  /** On a table with no free record, clusters and room for the bitmap: the call succeeds exactly if the
      bitmap leaves one of the records unmarked that the larger table has, and hands out the least. */
  lemma FullTableGrows(z: Sizes, s: State, count: nat, room: BitmapRoom)
    requires InStep(z, s) && Full(z, s) && count >= 1
    requires HasRoom(z, s, NeededLength((s.stored.allocatedSize + count * z.bytesPerCluster) / z.recordSize), room)
    ensures var records := (s.stored.allocatedSize + count * z.bytesPerCluster) / z.recordSize;
            var (after, status, k) := Allocate(z, s, Clusters(count), room);
            && (status == Success <==> exists j :: 16 <= j < records && !Taken(z, s, j))
            && (status == Success ==> 16 <= k < records && !Taken(z, s, k)
                                      && forall j :: 16 <= j < k ==> Taken(z, s, j))
            && (status == Success ==> Records(z, after.tableSize) == records)
  {
    hide Taken, Full, BitmapOf, NeededLength, Limit, HasRoom, Allocate, GrowBoth;
    var table := Clusters(count);
    InStepShape(z, s);
    TableGrows(z, s, count, room);
    RefusedIffFull(z, s, table, room);
    AllocateGives(z, s, table, room);
    AllocatedSize(z, s, table, room);
  }

  /** The usual case, a full table in whole clusters and nothing marked behind it: the first record of the
      new clusters is handed out. */
  lemma FirstNewRecord(z: Sizes, s: State, perCluster: nat, count: nat, room: BitmapRoom)
    requires InStep(z, s) && z.bytesPerCluster == perCluster * z.recordSize
    requires s.stored.allocatedSize % z.recordSize == 0
    requires var records := s.stored.allocatedSize / z.recordSize;
             && records >= 16 && !Taken(z, s, records)
             && (forall j :: 16 <= j < records ==> Taken(z, s, j))
             && s.stored.dataSize == s.stored.allocatedSize
             && HasRoom(z, s, NeededLength(records + count * perCluster), room)
    requires count >= 1 && perCluster >= 1
    ensures var records := s.stored.allocatedSize / z.recordSize;
            var (after, status, k) := Allocate(z, s, Clusters(count), room);
            && status == Success && k == records && Records(z, after.tableSize) == records + count * perCluster
  {
    hide Taken, BitmapOf, NeededLength, HasRoom, Allocate;
    var records := s.stored.allocatedSize / z.recordSize;
    InStepShape(z, s);
    LimitInTable(z, s);
    RecordsAdded(z, s.stored.allocatedSize, perCluster, count);
    assert count * perCluster >= 1;
    FullTableGrows(z, s, count, room);
  }

  /** What a call leaves of the table's size when it had to grow. */
  lemma AllocatedSize(z: Sizes, s: State, table: TableRoom, room: BitmapRoom)
    requires InStep(z, s) && Full(z, s)
    ensures Allocate(z, s, table, room).0.tableSize == GrowBoth(z, s, table, room).0.tableSize
  {
    hide Taken, GrowBoth, BitmapOf, PutBit, InStep, Limit, Pass;
    InStepShape(z, s);
    FullPass(z, s);
    var (grown, status) := GrowBoth(z, s, table, room);
    GrowthKeepsStep(z, s, table, room);
    PassKeepsSize(z, grown);
  }

  lemma FullPass(z: Sizes, s: State)
    requires InStep(z, s) && Full(z, s)
    ensures Pass(z, s) == (s, false, 0)
  {
    hide Taken, PutBit, BitmapOf, Limit;
    PassGives(z, s);
  }

  lemma PassKeepsSize(z: Sizes, s: State)
    requires InStep(z, s)
    ensures Pass(z, s).0.tableSize == s.tableSize
  {
    hide Used, PutBit, Taken;
    PassGives(z, s);
    if Pass(z, s).1 {
      PutBitChangesOne(z, s, Pass(z, s).2, true, 0);
    }
  }

  lemma ClearBehind(bm: seq<bv8>, len: nat, i: nat)
    requires len <= |bm| && 8 * len <= i < 8 * |bm|
    ensures |ClearBit(bm, i)| == |bm| && ClearBit(bm, i)[..len] == bm[..len]
  {
    hide Mask;
    assert i / 8 >= len;
  }

  /** Giving back clears one mark; an index the bitmap does not reach changes no mark at all. */
  lemma FreeGives(z: Sizes, s: State, index: nat, j: nat)
    requires InStep(z, s)
    ensures var (after, status) := Free(z, s, index);
            && InStep(z, after) && (Taken(z, after, j) <==> j != index && Taken(z, s, j))
            && (status == Success <==> s.stored.bitmap.NonResident? || index < 8 * |BitmapOf(z, s)|)
  {
    hide Used, SetBit, ClearBit;
    if index < 8 * |BitmapOf(z, s)| {
      PutBitChangesOne(z, s, index, false, j);
    } else if s.stored.bitmap.NonResident? && index < 8 * |s.stream| {
      ClearBehind(s.stream, s.stored.bitmap.len, index);
    }
  }

  // ---------------------------------------------------------------- runs

  /** The records handed out and not yet given back. */
  datatype World = World(vol: State, live: set<nat>)

  datatype Event = Take(table: TableRoom, room: BitmapRoom) | GiveBack(index: nat)

  /** Callers give back only what they hold. */
  predicate Step(z: Sizes, w: World, e: Event, w': World)
    requires InStep(z, w.vol)
  {
    match e
    case Take(table, room) =>
      var (after, status, k) := Allocate(z, w.vol, table, room);
      w' == World(after, if status == Success then w.live + {k} else w.live)
    case GiveBack(index) =>
      index in w.live && w' == World(Free(z, w.vol, index).0, w.live - {index})
  }

  /** The marks are those the run began with plus the live records, and these do not overlap. */
  ghost predicate Books(z: Sizes, base: set<nat>, w: World) {
    InStep(z, w.vol) && base !! w.live
    && forall j: nat {:trigger Taken(z, w.vol, j)} :: Taken(z, w.vol, j) <==> j in base || j in w.live
  }

  lemma StepKeepsBooks(z: Sizes, base: set<nat>, w: World, e: Event, w': World)
    requires Books(z, base, w) && Step(z, w, e, w')
    ensures Books(z, base, w')
    ensures e.Take? && w'.live != w.live ==> z.recordSize > 0 && HandsOutLeast(z, base, w, w')
  {
    hide Taken, Allocate, Free, InStep, BitmapOf, Records, Full;
    InStepShape(z, w.vol);
    match e
    case Take(table, room) =>
      AllocateGives(z, w.vol, table, room);
      var (after, status, k) := Allocate(z, w.vol, table, room);
      if status == Success {
        assert !Taken(z, w.vol, k);
        assert k in w'.live;
        forall j: nat | FIRST_USER_FILE <= j < k ensures j in base || j in w.live {
          assert Taken(z, w.vol, j);
        }
      }
    case GiveBack(index) =>
      FreeGives(z, w.vol, index, index);
      InStepShape(z, w'.vol);
      forall j: nat ensures Taken(z, w'.vol, j) <==> j in base || j in w'.live {
        FreeGives(z, w.vol, index, j);
        assert Taken(z, w.vol, j) <==> j in base || j in w.live;
      }
  }

  predicate Run(z: Sizes, ws: seq<World>, es: seq<Event>) {
    |ws| == |es| + 1
    && forall i :: 0 <= i < |es| && InStep(z, ws[i].vol) ==> Step(z, ws[i], es[i], ws[i + 1])
  }

  lemma BooksInStep(z: Sizes, base: set<nat>, w: World)
    requires Books(z, base, w)
    ensures InStep(z, w.vol)
  {
  }

  /** The record that is new in w' was free, and is the least free one of a user's. */
  ghost predicate HandsOutLeast(z: Sizes, base: set<nat>, w: World, w': World)
    requires z.recordSize > 0
  {
    exists k :: k in w'.live && k !in w.live && k !in base && 16 <= k < Records(z, w'.vol.tableSize)
                && forall j :: 16 <= j < k ==> j in base || j in w.live
  }

  /** In every run nothing ever falls out of step, no record is handed out while it is live or marked
      from before, and the bitmap accounts for exactly the live records. */
  lemma {:induction false} RunKeepsBooks(z: Sizes, base: set<nat>, ws: seq<World>, es: seq<Event>, n: nat)
    requires Run(z, ws, es) && n < |ws| && Books(z, base, ws[0])
    ensures Books(z, base, ws[n])
    ensures n > 0 && es[n - 1].Take? && ws[n].live != ws[n - 1].live ==>
              z.recordSize > 0 && HandsOutLeast(z, base, ws[n - 1], ws[n])
  {
    hide Books, Step, InStep, HandsOutLeast;
    if n > 0 {
      RunKeepsBooks(z, base, ws, es, n - 1);
      BooksInStep(z, base, ws[n - 1]);
      StepKeepsBooks(z, base, ws[n - 1], es[n - 1], ws[n]);
    }
  }

  // ---------------------------------------------------------------- the driver's own steps

  lemma FirstFreeIsLeastClear(bm: seq<bv8>, limit: nat, bit: nat)
    requires limit <= 8 * |bm| && FIRST_USER_FILE <= bit < limit
    requires !Used(bm, bit) && AllUsed(bm, FIRST_USER_FILE, bit)
    ensures LeastClear(bm, FIRST_USER_FILE, limit) == bit
  {
    hide Used;
    var k := LeastClear(bm, FIRST_USER_FILE, limit);
  }

  class MftVolume {
    const z: Sizes
    var stored: Record0
    var copy: Record0
    var tableSize: nat
    var stream: seq<bv8>

    constructor (z: Sizes, s: State)
      requires InStep(z, s)
      ensures this.z == z && View() == s
    {
      this.z := z;
      stored, copy, tableSize, stream := s.stored, s.copy, s.tableSize, s.stream;
    }

    function View(): State
      reads this
    {
      State(stored, copy, tableSize, stream)
    }

    method WriteMftRec0(rec: Record0)
      modifies this
      ensures View() == StoreRecord0(old(View()), rec)
    {
      stored := rec.(usn := NextUsn(rec.usn));
      copy := stored;
      tableSize := copy.dataSize;
    }

    /** Grow the table inside the volume's copy of record 0 and write that copy back. */
    method GrowMft(table: TableRoom) returns (status: Status)
      modifies this
      ensures status == (if Had(table) then Success else GrowthFailed)
      ensures View() == if Had(table) then GrowTable(z, old(View()), table.count) else old(View())
    {
      if table == NoClusters || table.count < 1 {
        return GrowthFailed;
      }
      var size := copy.allocatedSize + table.count * z.bytesPerCluster;
      copy := copy.(dataSize := size, allocatedSize := size);
      WriteMftRec0(copy);
      return Success;
    }

    method GrowMftBitmap(need: nat, room: BitmapRoom) returns (status: Status)
      requires Shape(z, View())
      modifies this
      ensures (View(), status) == GrowBitmap(z, old(View()), need, room)
    {
      var rec, len := stored, |BitmapOf(z, View())|;
      if need <= len {
        return Success;
      }
      if rec.bitmap.Resident? {
        if room == NoRoom {
          return Unsupported;
        }
        WriteMftRec0(rec.(bitmap := Resident(rec.bitmap.bits + Zeros(need - len))));
        return Success;
      }
      if need > |stream| {
        if room == NoRoom || |stream| + |room.left| < need {
          return GrowthFailed;
        }
        stream := stream + room.left;
      }
      WriteMftRec0(rec.(bitmap := NonResident(need)));
      stream := stream[..len] + Zeros(need - len) + stream[need..];
      return Success;
    }

    /** One pass: read record 0, look for a free record, and mark it where the bitmap lives. */
    method TakeFirstFree() returns (found: bool, bit: nat)
      requires InStep(z, View())
      modifies this
      ensures (View(), found, bit) == Pass(z, old(View()))
    {
      hide Used, SetBit, ClearBit;
      var rec := stored;
      var bm := BitmapOf(z, View());
      found, bit := FirstFreeBit(bm, Limit(z, View()));
      if found {
        FirstFreeIsLeastClear(bm, Limit(z, View()), bit);
        if rec.bitmap.Resident? {
          WriteMftRec0(rec.(bitmap := Resident(SetBit(bm, bit))));
        } else {
          stream := SetBit(stream, bit);
        }
      } else {
        ghost var k := LeastClear(bm, FIRST_USER_FILE, Limit(z, View()));
        assert k >= Limit(z, View());
        bit := 0;
      }
    }

    /** Look for a free record; failing that grow the table and its bitmap once and look again. */
    method AllocateMftRecord(table: TableRoom, room: BitmapRoom) returns (status: Status, index: nat)
      requires InStep(z, View())
      modifies this
      ensures (View(), status, index) == Allocate(z, old(View()), table, room)
      ensures Allocated(z, old(View()), View(), status, index)
    {
      hide Pass, GrowBitmap, BitmapOf, Allocated, GrowTable, NeededLength, Limit;
      ghost var s := View();
      AllocateGives(z, s, table, room);
      AllGrowthKeepsBits(z, s, table, room);
      index := 0;
      var attempt := 0;
      while attempt < 2
        invariant attempt <= 1 && index == 0
        invariant attempt == 0 ==> View() == s
        invariant attempt == 1 ==> Pass(z, s) == (s, false, 0) && GrowBoth(z, s, table, room) == (View(), Success)
        invariant InStep(z, View())
        decreases 2 - attempt
      {
        var found: bool, bit: nat;
        PassGives(z, View());
        found, bit := TakeFirstFree();
        if found {
          return Success, bit;
        }
        if attempt > 0 {
          break;
        }
        status := GrowMft(table);
        if status != Success {
          return;
        }
        GrowTableKeepsBits(z, s, table.count, 0);
        var records := Records(z, tableSize);
        if records > 8 * |BitmapOf(z, View())| {
          status := GrowMftBitmap(NeededLength(records), room);
          if status != Success {
            return;
          }
        }
        attempt := attempt + 1;
      }
      status := Unsupported;
    }

    method FreeMftRecord(index: nat) returns (status: Status)
      requires InStep(z, View())
      modifies this
      ensures (View(), status) == Free(z, old(View()), index)
      ensures InStep(z, View())
    {
      hide Used, SetBit, ClearBit;
      FreeGives(z, View(), index, index);
      status := Success;
      var rec := stored;
      match rec.bitmap
      case Resident(bits) =>
        if index / 8 >= |bits| {
          return VolumeCorrupted;
        }
        WriteMftRec0(rec.(bitmap := Resident(ClearBit(bits, index))));
      case NonResident(_) =>
        if index / 8 < |stream| {
          stream := ClearBit(stream, index);
        }
    }
  }
}
