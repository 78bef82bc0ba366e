/** Reading and writing MFT records through the record cache (src/ntfs_mft.c): sixteen slots of
    fixed-up images, filled round robin, over a disk on which the table and $MFTMirr lie in runs; the
    mirror's runs are found, at each write of one of records 0-3, through record 1 itself. */
module RecordCache {
  import opened AttributeData
  import opened ByteData
  import opened RecordRuns
  import opened UpdateSequence
  import RunList

  type Run = RunList.Run

  datatype Status = Success | DeviceError | VolumeCorrupted

  datatype Option<T> = None | Some(value: T)

  const CACHE_ENTRIES := 16
  const CACHE_RECORD_SIZE := 4096
  const MFT_MIRROR := 1
  const MIRRORED := 4
  const RECORD_HEADER_SIZE := 48

  /** The volume's geometry and the runs of the table; `mirrorRuns` stands for finding the unnamed $DATA
      attribute in record 1 and decoding its runs. */
  datatype Setup = Setup(g: Geometry, bpc: nat, table: seq<Run>, mirrorRuns: seq<byte> -> Option<seq<Run>>)

  datatype Slot = Slot(valid: bool, index: nat, data: seq<byte>)

  datatype State = State(slots: seq<Slot>, next: nat, disk: seq<byte>)

  predicate IsImage(g: Geometry, img: seq<byte>) {
    |img| == g.bytesPerFileRecord >= RECORD_HEADER_SIZE && Fits(g, img)
  }

  /** The header fields that every attribute walk relies on. */
  predicate HeaderSane(g: Geometry, r: seq<byte>)
    requires |r| >= RECORD_HEADER_SIZE
  {
    var attributeOffset, bytesInUse, bytesAllocated := Word(r, 20), DWord(r, 24), DWord(r, 28);
    && attributeOffset <= g.bytesPerFileRecord
    && bytesInUse <= g.bytesPerFileRecord
    && bytesAllocated <= g.bytesPerFileRecord
    && attributeOffset <= bytesInUse
  }

  /** Record k as it lies in the table; empty when the table ends before it does. */
  function TableImage(p: Setup, disk: seq<byte>, k: nat): (img: seq<byte>)
    requires AllOnDisk(p.table, p.bpc, |disk|)
    ensures img == [] || |img| == p.g.bytesPerFileRecord
  {
    Image(p.table, p.bpc, disk, p.g.bytesPerFileRecord, k)
  }

  predicate InTable(p: Setup, k: nat) {
    Contains(p.table, p.bpc, p.g.bytesPerFileRecord, k)
  }

  ghost predicate AllImages(p: Setup, disk: seq<byte>)
    requires AllOnDisk(p.table, p.bpc, |disk|)
  {
    forall k: nat :: TableImage(p, disk, k) != [] ==> IsImage(p.g, TableImage(p, disk, k))
  }

  predicate SlotsOk(g: Geometry, slots: seq<Slot>, next: nat) {
    && |slots| == CACHE_ENTRIES && next < CACHE_ENTRIES
    && forall k :: 0 <= k < |slots| ==> |slots[k].data| == g.bytesPerFileRecord
  }

  /** The table lies in runs of its own that are no holes; what they hold are records. */
  ghost predicate DiskOk(p: Setup, disk: seq<byte>) {
    && p.g.bytesPerFileRecord >= RECORD_HEADER_SIZE
    && Solid(p.table, p.bpc, |disk|) && AllImages(p, disk)
  }

  ghost predicate Shape(p: Setup, s: State) {
    SlotsOk(p.g, s.slots, s.next) && DiskOk(p, s.disk)
  }

  // ---------------------------------------------------------------- the operations as functions

  /** The least slot from `i` on that holds the record, or 16. */
  function SlotOf(slots: seq<Slot>, index: nat, i: nat): (k: nat)
    requires i <= |slots|
    ensures i <= k <= |slots|
    ensures k < |slots| ==> slots[k].valid && slots[k].index == index
    ensures forall j :: i <= j < k ==> !(slots[j].valid && slots[j].index == index)
    decreases |slots| - i
  {
    if i == |slots| then i
    else if slots[i].valid && slots[i].index == index then i
    else SlotOf(slots, index, i + 1)
  }

  predicate Cached(s: State, index: nat) {
    SlotOf(s.slots, index, 0) < |s.slots|
  }

  /** What a read straight from the disk would give. */
  function Uncached(p: Setup, disk: seq<byte>, index: nat): (Status, seq<byte>)
    requires DiskOk(p, disk)
  {
    var img := TableImage(p, disk, index);
    if img == [] then (DeviceError, [])
    else
      var (ok, r) := Fix(p.g, img);
      if !ok || !HeaderSane(p.g, r) then (VolumeCorrupted, r) else (Success, r)
  }

  function Put(g: Geometry, s: State, index: nat, data: seq<byte>): State
    requires |s.slots| == CACHE_ENTRIES && s.next < CACHE_ENTRIES
  {
    if g.bytesPerFileRecord > CACHE_RECORD_SIZE then s
    else
      var k := SlotOf(s.slots, index, 0);
      if k < CACHE_ENTRIES then s.(slots := s.slots[k := Slot(true, index, data)])
      else s.(slots := s.slots[s.next := Slot(true, index, data)], next := (s.next + 1) % CACHE_ENTRIES)
  }

  function Read(p: Setup, s: State, index: nat): (State, Status, seq<byte>)
    requires Shape(p, s)
  {
    var k := SlotOf(s.slots, index, 0);
    if k < CACHE_ENTRIES then (s, Success, s.slots[k].data)
    else
      var (status, data) := Uncached(p, s.disk, index);
      (if status == Success then Put(p.g, s, index, data) else s, status, data)
  }

  /** The runs that record 1 names for the mirror; a place off the disk cannot be written to. */
  function MirrorPlace(p: Setup, record: seq<byte>, diskSize: nat): (m: Option<seq<Run>>)
    ensures m.Some? ==> AllOnDisk(m.value, p.bpc, diskSize)
  {
    match p.mirrorRuns(record)
    case None => None
    case Some(m) => if AllOnDisk(m, p.bpc, diskSize) then Some(m) else None
  }

  /** Write a raw image to record `index` of a place. */
  function StoreAt(p: Setup, runs: seq<Run>, disk: seq<byte>, index: nat, raw: seq<byte>): (r: (nat, seq<byte>))
    requires AllOnDisk(runs, p.bpc, |disk|)
    ensures |r.1| == |disk|
  {
    WriteFrom(runs, p.bpc, disk, index * p.g.bytesPerFileRecord, raw)
  }

  function SyncMirror(p: Setup, s: State, index: nat, raw: seq<byte>): State
    requires Shape(p, s)
  {
    if index >= MIRRORED then s
    else
      var (s', status, record1) := Read(p, s, MFT_MIRROR);
      var place := if status == Success then MirrorPlace(p, record1, |s.disk|) else None;
      if place.None? then s' else s'.(disk := StoreAt(p, place.value, s.disk, index, raw).1)
  }

  /** A record a writer may pass in: its update sequence array, if any, is refused by the bounds
      check or lies clear of the header and the sector ends. */
  ghost predicate Writable(g: Geometry, rec: seq<byte>) {
    IsImage(g, rec) && (NoFixup(rec) || !BoundsOk(g, rec) || WellLaid(g, rec))
  }

  /** The raw form of a record is itself an image that fixup accepts. */
  lemma RawIsImage(g: Geometry, rec: seq<byte>)
    requires Writable(g, rec)
    ensures IsImage(g, Unfix(g, rec).1)
    ensures Unfix(g, rec).0 ==> Fix(g, Unfix(g, rec).1).0
  {
    if !NoFixup(rec) && BoundsOk(g, rec) {
      FixUndoesUnfix(g, rec);
    }
  }

  /** A write to the table reaches the disk whole exactly when the record lies in the table; then that
      record has its new image, and in any case all others keep theirs. */
  lemma StoreInTable(p: Setup, disk: seq<byte>, index: nat, raw: seq<byte>)
    requires DiskOk(p, disk) && IsImage(p.g, raw)
    ensures var (n, disk') := StoreAt(p, p.table, disk, index, raw);
            && |disk'| == |disk| && DiskOk(p, disk')
            && (n == p.g.bytesPerFileRecord <==> InTable(p, index))
            && forall k: nat :: TableImage(p, disk', k)
                                == if k == index && InTable(p, index) then raw else TableImage(p, disk, k)
  {
    hide Fits, WriteFrom, Image, Contains, AllOnDisk, Disjoint;
    WholeWrite(p.table, p.bpc, disk, p.g.bytesPerFileRecord, index, raw);
    var disk' := StoreAt(p, p.table, disk, index, raw).1;
    forall k: nat ensures TableImage(p, disk', k)
                          == if k == index && InTable(p, index) then raw else TableImage(p, disk, k) {
      ImageAfterWrite(p.table, p.bpc, disk, p.g.bytesPerFileRecord, index, raw, k);
    }
  }

  /** Write a fixed-up record: the new state, the status, and what the caller's buffer holds. */
  ghost function Write(p: Setup, s: State, index: nat, rec: seq<byte>): (State, Status, seq<byte>)
    requires Shape(p, s) && Writable(p.g, rec)
  {
    RawIsImage(p.g, rec);
    var (ok, raw) := Unfix(p.g, rec);
    if !ok then (s, VolumeCorrupted, rec)
    else
      StoreInTable(p, s.disk, index, raw);
      var (n, disk) := StoreAt(p, p.table, s.disk, index, raw);
      var written, back := s.(disk := disk), Fix(p.g, raw).1;
      if n != p.g.bytesPerFileRecord then (written, DeviceError, back)
      else
        SyncKeepsSlots(p, written, index, raw);
        (Put(p.g, SyncMirror(p, written, index, raw), index, back), Success, back)
  }

  lemma UncachedSize(p: Setup, disk: seq<byte>, index: nat)
    requires DiskOk(p, disk)
    ensures Uncached(p, disk, index).0 == Success ==> |Uncached(p, disk, index).1| == p.g.bytesPerFileRecord
  {
    hide Fix, HeaderSane, Image, Solid;
  }

  lemma PutKeepsSlots(g: Geometry, s: State, index: nat, data: seq<byte>)
    requires SlotsOk(g, s.slots, s.next) && |data| == g.bytesPerFileRecord
    ensures var s' := Put(g, s, index, data); SlotsOk(g, s'.slots, s'.next) && s'.disk == s.disk
  {
  }

  lemma ReadKeepsSlots(p: Setup, s: State, index: nat)
    requires Shape(p, s)
    ensures var s' := Read(p, s, index).0; SlotsOk(p.g, s'.slots, s'.next) && s'.disk == s.disk
  {
    hide Uncached, DiskOk, SlotsOk, Put;
    UncachedSize(p, s.disk, index);
    SlotCount(p.g, s);
    if Uncached(p, s.disk, index).0 == Success {
      PutKeepsSlots(p.g, s, index, Uncached(p, s.disk, index).1);
    }
  }

  lemma SlotCount(g: Geometry, s: State)
    requires SlotsOk(g, s.slots, s.next)
    ensures |s.slots| == CACHE_ENTRIES && s.next < CACHE_ENTRIES
  {
  }

  lemma SyncKeepsSlots(p: Setup, s: State, index: nat, raw: seq<byte>)
    requires Shape(p, s)
    ensures var s' := SyncMirror(p, s, index, raw); SlotsOk(p.g, s'.slots, s'.next)
    ensures |SyncMirror(p, s, index, raw).slots| == CACHE_ENTRIES && SyncMirror(p, s, index, raw).next < CACHE_ENTRIES
  {
    hide DiskOk, Read, MirrorPlace, StoreAt;
    ReadKeepsSlots(p, s, MFT_MIRROR);
  }

  // ---------------------------------------------------------------- coherence

  /** No record has two valid slots, and records too large for a slot have none. */
  predicate OneSlotEach(g: Geometry, slots: seq<Slot>) {
    && (forall i, j :: 0 <= i < j < |slots| && slots[i].valid && slots[j].valid ==> slots[i].index != slots[j].index)
    && (g.bytesPerFileRecord > CACHE_RECORD_SIZE ==> forall i :: 0 <= i < |slots| ==> !slots[i].valid)
  }

  /** Every valid slot, but perhaps that of record `stale`, holds what the disk would give. */
  ghost predicate Fresh(p: Setup, s: State, stale: int)
    requires Shape(p, s)
  {
    forall i :: 0 <= i < |s.slots| && s.slots[i].valid && s.slots[i].index != stale ==>
      Uncached(p, s.disk, s.slots[i].index) == (Success, s.slots[i].data)
  }

  ghost predicate Coherent(p: Setup, s: State, stale: int) {
    Shape(p, s) && OneSlotEach(p.g, s.slots) && Fresh(p, s, stale)
  }

  const NONE := -1

  /** Caching what the disk gives leaves the cache coherent, the record itself included. */
  lemma PutKeepsCoherence(p: Setup, s: State, index: nat, data: seq<byte>, stale: int)
    requires Coherent(p, s, stale) && Uncached(p, s.disk, index) == (Success, data)
    ensures Coherent(p, Put(p.g, s, index, data), stale)
    ensures stale == index ==> Coherent(p, Put(p.g, s, index, data), NONE)
  {
    hide Uncached, DiskOk;
    UncachedSize(p, s.disk, index);
    var s' := Put(p.g, s, index, data);
    var k := SlotOf(s.slots, index, 0);
    PutKeepsSlots(p.g, s, index, data);
    assert OneSlotEach(p.g, s'.slots);
  }

  /** A read of a coherent cache is a read of the disk, and leaves both as they are in substance. */
  lemma ReadIsUncached(p: Setup, s: State, index: nat, stale: int)
    requires Coherent(p, s, stale)
    ensures var (s', status, data) := Read(p, s, index);
            && Coherent(p, s', stale) && s'.disk == s.disk
            && (index != stale ==>
                  status == Uncached(p, s.disk, index).0
                    && (status == Success ==> data == Uncached(p, s.disk, index).1))
  {
    hide Uncached, DiskOk, Put, SlotsOk, OneSlotEach;
    SlotCount(p.g, s);
    var k := SlotOf(s.slots, index, 0);
    if k == CACHE_ENTRIES && Uncached(p, s.disk, index).0 == Success {
      var data := Uncached(p, s.disk, index).1;
      PutKeepsCoherence(p, s, index, data, stale);
      UncachedSize(p, s.disk, index);
      PutKeepsSlots(p.g, s, index, data);
    }
  }

  /** What the disk gives depends on the table's images only. */
  lemma SameImagesSameReads(p: Setup, disk: seq<byte>, disk': seq<byte>, index: nat)
    requires DiskOk(p, disk) && DiskOk(p, disk') && TableImage(p, disk', index) == TableImage(p, disk, index)
    ensures Uncached(p, disk', index) == Uncached(p, disk, index)
  {
    hide Fix, HeaderSane, Image, Solid;
  }

  lemma CoherenceMoves(p: Setup, s: State, s': State, stale: int)
    requires Coherent(p, s, stale) && s' == s.(disk := s'.disk) && DiskOk(p, s'.disk)
    requires forall k: nat :: k != stale ==> TableImage(p, s'.disk, k) == TableImage(p, s.disk, k)
    ensures Coherent(p, s', stale)
  {
    hide TableImage, Uncached, DiskOk, SlotsOk, OneSlotEach;
    forall i | 0 <= i < |s.slots| && s.slots[i].valid && s.slots[i].index != stale
      ensures Uncached(p, s'.disk, s.slots[i].index) == (Success, s.slots[i].data) {
      SameImagesSameReads(p, s.disk, s'.disk, s.slots[i].index);
    }
  }

  // ---------------------------------------------------------------- the mirror's place

  /** A place for the mirror: runs of its own, no holes, none of the table's. */
  ghost predicate Safe(p: Setup, m: seq<Run>, diskSize: nat) {
    Solid(m, p.bpc, diskSize) && Solid(p.table, p.bpc, diskSize) && NoOverlap(p.table, m, p.bpc, diskSize)
  }

  /** If the record names a place at all, it is a safe one. */
  ghost predicate NamesSafe(p: Setup, record: seq<byte>, diskSize: nat) {
    MirrorPlace(p, record, diskSize).Some? ==> Safe(p, MirrorPlace(p, record, diskSize).value, diskSize)
  }

  /** A write to a safe place leaves all records of the table alone. */
  lemma StoreAtMirror(p: Setup, m: seq<Run>, disk: seq<byte>, index: nat, raw: seq<byte>)
    requires DiskOk(p, disk) && Safe(p, m, |disk|)
    ensures var disk' := StoreAt(p, m, disk, index, raw).1;
            && |disk'| == |disk| && DiskOk(p, disk')
            && forall k: nat :: TableImage(p, disk', k) == TableImage(p, disk, k)
  {
    hide Fits, WriteFrom, Image, AllOnDisk, Disjoint, NoOverlap;
    var disk' := StoreAt(p, m, disk, index, raw).1;
    forall k: nat ensures TableImage(p, disk', k) == TableImage(p, disk, k) {
      ImageElsewhere(p.table, m, p.bpc, disk, index * p.g.bytesPerFileRecord, raw, p.g.bytesPerFileRecord, k);
    }
  }

  lemma SyncKeepsCoherence(p: Setup, s: State, index: nat, raw: seq<byte>, stale: int)
    requires Coherent(p, s, stale) && NamesSafe(p, Read(p, s, MFT_MIRROR).2, |s.disk|)
    ensures var s' := SyncMirror(p, s, index, raw);
            && Coherent(p, s', stale)
            && forall k: nat :: TableImage(p, s'.disk, k) == TableImage(p, s.disk, k)
  {
    hide Coherent, TableImage, Read, MirrorPlace, StoreAt, Safe, SlotsOk, DiskOk;
    CoherentShape(p, s, stale);
    ReadIsUncached(p, s, MFT_MIRROR, stale);
    var (s', status, record1) := Read(p, s, MFT_MIRROR);
    var place := if status == Success then MirrorPlace(p, record1, |s.disk|) else None;
    if index < MIRRORED && place.Some? {
      StoreAtMirror(p, place.value, s.disk, index, raw);
      CoherenceMoves(p, s', SyncMirror(p, s, index, raw), stale);
    }
  }

  lemma CoherentShape(p: Setup, s: State, stale: int)
    requires Coherent(p, s, stale)
    ensures Shape(p, s)
  {
  }

  // ---------------------------------------------------------------- writing

  /** The record has reached the table and neither mirror nor cache. */
  function Stored(p: Setup, s: State, index: nat, raw: seq<byte>): State
    requires AllOnDisk(p.table, p.bpc, |s.disk|)
  {
    s.(disk := StoreAt(p, p.table, s.disk, index, raw).1)
  }

  lemma TableOnDisk(p: Setup, disk: seq<byte>)
    requires DiskOk(p, disk)
    ensures AllOnDisk(p.table, p.bpc, |disk|)
  {
  }

  lemma StoredIs(p: Setup, s: State, index: nat, raw: seq<byte>)
    requires Shape(p, s) && IsImage(p.g, raw)
    ensures var w := Stored(p, s, index, raw);
            && Shape(p, w) && w.slots == s.slots && |w.disk| == |s.disk|
            && forall k: nat :: TableImage(p, w.disk, k)
                                == if k == index && InTable(p, index) then raw else TableImage(p, s.disk, k)
  {
    StoreInTable(p, s.disk, index, raw);
    hide StoreAt, SlotsOk, IsImage, TableImage, InTable;
  }

  lemma WriteCases(p: Setup, s: State, index: nat, rec: seq<byte>)
    requires Shape(p, s) && Writable(p.g, rec)
    ensures var (ok, raw) := Unfix(p.g, rec);
            && IsImage(p.g, raw) && (ok ==> Fix(p.g, raw).0) && |Fix(p.g, raw).1| == p.g.bytesPerFileRecord
            && Shape(p, Stored(p, s, index, raw))
            && (!ok ==> Write(p, s, index, rec) == (s, VolumeCorrupted, rec))
            && (ok && !InTable(p, index) ==>
                  Write(p, s, index, rec) == (Stored(p, s, index, raw), DeviceError, Fix(p.g, raw).1))
            && (ok && InTable(p, index) ==>
                  var synced := SyncMirror(p, Stored(p, s, index, raw), index, raw);
                  && SlotsOk(p.g, synced.slots, synced.next) && |synced.slots| == CACHE_ENTRIES
                  && synced.next < CACHE_ENTRIES
                  && Write(p, s, index, rec) == (Put(p.g, synced, index, Fix(p.g, raw).1), Success, Fix(p.g, raw).1))
  {
    RawIsImage(p.g, rec);
    var (ok, raw) := Unfix(p.g, rec);
    StoreInTable(p, s.disk, index, raw);
    StoredIs(p, s, index, raw);
    SyncKeepsSlots(p, Stored(p, s, index, raw), index, raw);
    hide Unfix, Fix, StoreAt, SyncMirror, Put, InTable, TableImage, DiskOk, SlotsOk, WellLaid;
  }

  lemma UncachedOf(p: Setup, disk: seq<byte>, index: nat, img: seq<byte>)
    requires DiskOk(p, disk) && IsImage(p.g, img) && TableImage(p, disk, index) == img
    ensures |Fix(p.g, img).1| == p.g.bytesPerFileRecord
    ensures Uncached(p, disk, index) ==
            (if Fix(p.g, img).0 && HeaderSane(p.g, Fix(p.g, img).1) then Success else VolumeCorrupted, Fix(p.g, img).1)
  {
    hide Fix, HeaderSane, Image, Solid;
  }

  /** The header of a fixed-up record as it is written: where its attributes begin, how many bytes are in
      use, and how many it has. */
  predicate HeaderHolds(r: seq<byte>, attributes: nat, inUse: nat, space: nat) {
    && Lies(r, 20, Bytes(attributes, 2)) && Lies(r, 24, Bytes(inUse, 4)) && Lies(r, 28, Bytes(space, 4))
    && attributes < 0x1_0000 && inUse < 0x1_0000_0000 && space < 0x1_0000_0000
  }

  lemma HeaderMeans(g: Geometry, r: seq<byte>, attributes: nat, inUse: nat, space: nat)
    requires |r| == g.bytesPerFileRecord >= RECORD_HEADER_SIZE && HeaderHolds(r, attributes, inUse, space)
    ensures HeaderSane(g, r) <==> attributes <= inUse <= |r| && space <= |r|
  {
    WordHeld(r, 20, attributes);
    DWordHeld(r, 24, inUse);
    DWordHeld(r, 28, space);
    hide Bytes, Word, DWord;
  }

  /** A record that fixes up is read with success exactly if the walk from its attributes to the end of
      the bytes in use goes forward and stays inside it, and it claims no more bytes than it has. */
  lemma ReadIffInOrder(p: Setup, disk: seq<byte>, index: nat, attributes: nat, inUse: nat, space: nat)
    requires DiskOk(p, disk) && TableImage(p, disk, index) != [] && IsImage(p.g, TableImage(p, disk, index))
    requires Fix(p.g, TableImage(p, disk, index)).0
    requires HeaderHolds(Fix(p.g, TableImage(p, disk, index)).1, attributes, inUse, space)
    ensures var (status, r) := Uncached(p, disk, index);
            && r == Fix(p.g, TableImage(p, disk, index)).1 && |r| == p.g.bytesPerFileRecord
            && status == if attributes <= inUse <= |r| && space <= |r| then Success else VolumeCorrupted
  {
    hide TableImage, Fix, HeaderSane, HeaderHolds, DiskOk;
    TableOnDisk(p, disk);
    var img := TableImage(p, disk, index);
    UncachedOf(p, disk, index, img);
    HeaderMeans(p.g, Fix(p.g, img).1, attributes, inUse, space);
  }

  /** The two ways a read fails: the record does not lie inside the table's runs, or it does and is not
      accepted by the fixup or by the check of its header. */
  lemma FailsIff(p: Setup, disk: seq<byte>, index: nat)
    requires DiskOk(p, disk)
    ensures AllOnDisk(p.table, p.bpc, |disk|)
    ensures var size, (status, r), img := p.g.bytesPerFileRecord, Uncached(p, disk, index), TableImage(p, disk, index);
            && (status == DeviceError <==> index * size + size > Total(p.table, p.bpc))
            && (status != DeviceError ==> IsImage(p.g, img) && r == Fix(p.g, img).1 && |r| == size)
            && (status != DeviceError ==> (status == Success <==> Fix(p.g, img).0 && HeaderSane(p.g, r)))
  {
    TableOnDisk(p, disk);
    var img := TableImage(p, disk, index);
    ImageIs(p.table, p.bpc, disk, p.g.bytesPerFileRecord, index);
    hide Fix, HeaderSane, ReadFrom, ByteAt, Total, Solid, Fits;
    assert img != [] ==> IsImage(p.g, img);
  }

  lemma StoredIsCoherent(p: Setup, s: State, index: nat, raw: seq<byte>)
    requires Coherent(p, s, NONE) && IsImage(p.g, raw)
    ensures Coherent(p, Stored(p, s, index, raw), index)
    ensures !InTable(p, index) ==> Coherent(p, Stored(p, s, index, raw), NONE)
  {
    StoredIs(p, s, index, raw);
    hide TableImage, DiskOk, SlotsOk, OneSlotEach, Uncached, StoreAt, InTable, IsImage;
    assert Coherent(p, s, index);
    CoherenceMoves(p, s, Stored(p, s, index, raw), index);
    if !InTable(p, index) {
      CoherenceMoves(p, s, Stored(p, s, index, raw), NONE);
    }
  }

  /** What the sync reads as record 1: what the disk held before the write, except that a write of record
      1 itself is seen when record 1 is not cached. */
  lemma SyncSees(p: Setup, s: State, index: nat, raw: seq<byte>)
    requires Coherent(p, s, NONE) && IsImage(p.g, raw) && InTable(p, index)
    ensures Shape(p, Stored(p, s, index, raw)) && |Fix(p.g, raw).1| == p.g.bytesPerFileRecord
    ensures var (_, status, record1) := Read(p, Stored(p, s, index, raw), MFT_MIRROR);
            if index == MFT_MIRROR && !Cached(s, MFT_MIRROR)
            then record1 == Fix(p.g, raw).1
                 && (status == Success <==> Fix(p.g, raw).0 && HeaderSane(p.g, Fix(p.g, raw).1))
            else status == Uncached(p, s.disk, MFT_MIRROR).0 && record1 == Uncached(p, s.disk, MFT_MIRROR).1
  {
    var w := Stored(p, s, index, raw);
    StoredIs(p, s, index, raw);
    hide TableImage, DiskOk, OneSlotEach, Uncached, StoreAt, InTable, IsImage, Put, Fix, HeaderSane, Stored;
    if index == MFT_MIRROR {
      UncachedOf(p, w.disk, index, raw);
    } else {
      SameImagesSameReads(p, s.disk, w.disk, MFT_MIRROR);
    }
  }

  /** Wherever the sync may write, it is a safe place. */
  ghost predicate SyncIsSafe(p: Setup, s: State, index: nat, raw: seq<byte>)
    requires Shape(p, s) && IsImage(p.g, raw)
  {
    && NamesSafe(p, Uncached(p, s.disk, MFT_MIRROR).1, |s.disk|)
    && (index == MFT_MIRROR ==> NamesSafe(p, Fix(p.g, raw).1, |s.disk|))
  }

  /** After the sync the table holds the new image and no other, and only that record may be stale. */
  lemma SyncedIsCoherent(p: Setup, s: State, index: nat, raw: seq<byte>)
    requires Coherent(p, s, NONE) && IsImage(p.g, raw) && InTable(p, index) && SyncIsSafe(p, s, index, raw)
    ensures Shape(p, Stored(p, s, index, raw))
    ensures var synced := SyncMirror(p, Stored(p, s, index, raw), index, raw);
            && Coherent(p, synced, index) && TableImage(p, synced.disk, index) == raw
            && forall k: nat :: k != index ==> TableImage(p, synced.disk, k) == TableImage(p, s.disk, k)
  {
    hide TableImage, DiskOk, OneSlotEach, SlotsOk, Uncached, StoreAt, InTable, Put, Fix, HeaderSane, Stored, Read,
      IsImage, MirrorPlace, NamesSafe, SyncMirror;
    TableOnDisk(p, s.disk);
    StoredIs(p, s, index, raw);
    StoredIsCoherent(p, s, index, raw);
    SyncSees(p, s, index, raw);
    SyncKeepsCoherence(p, Stored(p, s, index, raw), index, raw, index);
  }

  lemma FixedSize(g: Geometry, raw: seq<byte>)
    requires IsImage(g, raw)
    ensures |Fix(g, raw).1| == g.bytesPerFileRecord >= RECORD_HEADER_SIZE
  {
    hide Fix;
  }

  /** A write of a record with a sane header keeps the cache coherent. */
  lemma WriteKeepsCoherence(p: Setup, s: State, index: nat, rec: seq<byte>)
    requires Coherent(p, s, NONE) && Writable(p.g, rec)
    requires var (ok, raw) := Unfix(p.g, rec);
             ok && IsImage(p.g, raw) ==> HeaderSane(p.g, Fix(p.g, raw).1) && SyncIsSafe(p, s, index, raw)
    ensures Coherent(p, Write(p, s, index, rec).0, NONE)
  {
    hide TableImage, DiskOk, OneSlotEach, SlotsOk, Uncached, StoreAt, InTable, Put, Fix, Unfix, HeaderSane, Stored,
      Read, SyncMirror, Fresh, SyncIsSafe, WellLaid;
    TableOnDisk(p, s.disk);
    var (ok, raw) := Unfix(p.g, rec);
    WriteCases(p, s, index, rec);
    if ok {
      StoredIsCoherent(p, s, index, raw);
      if InTable(p, index) {
        SyncedIsCoherent(p, s, index, raw);
        var synced := SyncMirror(p, Stored(p, s, index, raw), index, raw);
        UncachedOf(p, synced.disk, index, raw);
        PutKeepsCoherence(p, synced, index, Fix(p.g, raw).1, index);
      }
    }
  }

  /** The exact condition: right after a successful write of a record that fits a slot, the cached
      read agrees with the uncached one if and only if the record's header is sane. */
  lemma AgreesIffSane(p: Setup, s: State, index: nat, rec: seq<byte>)
    requires Coherent(p, s, NONE) && Writable(p.g, rec) && p.g.bytesPerFileRecord <= CACHE_RECORD_SIZE
    requires IsImage(p.g, Unfix(p.g, rec).1) ==> SyncIsSafe(p, s, index, Unfix(p.g, rec).1)
    requires Write(p, s, index, rec).1 == Success
    ensures var (s', status, back) := Write(p, s, index, rec);
            && Shape(p, s') && |back| == p.g.bytesPerFileRecord
            && Read(p, s', index).1 == Success && Read(p, s', index).2 == back
            && (Uncached(p, s'.disk, index).0 == Success <==> HeaderSane(p.g, back))
            && Uncached(p, s'.disk, index).1 == back
  {
    hide TableImage, DiskOk, OneSlotEach, SlotsOk, Uncached, StoreAt, InTable, Put, Fix, Unfix, HeaderSane, Stored,
      SyncMirror, Fresh, SyncIsSafe, WellLaid;
    TableOnDisk(p, s.disk);
    var (ok, raw) := Unfix(p.g, rec);
    WriteCases(p, s, index, rec);
    SyncedIsCoherent(p, s, index, raw);
    FixedSize(p.g, raw);
    var synced, back := SyncMirror(p, Stored(p, s, index, raw), index, raw), Fix(p.g, raw).1;
    UncachedOf(p, synced.disk, index, raw);
    PutKeepsSlots(p.g, synced, index, back);
    PutIsFound(p.g, synced, index, back);
  }

  lemma PutIsFound(g: Geometry, s: State, index: nat, data: seq<byte>)
    requires SlotsOk(g, s.slots, s.next) && |data| == g.bytesPerFileRecord <= CACHE_RECORD_SIZE
    ensures var s' := Put(g, s, index, data);
            var k := SlotOf(s'.slots, index, 0);
            k < CACHE_ENTRIES == |s'.slots| && (OneSlotEach(g, s.slots) ==> s'.slots[k].data == data)
  {
    var s' := Put(g, s, index, data);
    var k := SlotOf(s.slots, index, 0);
    var at := if k < CACHE_ENTRIES then k else s.next;
    assert s'.slots[at] == Slot(true, index, data);
  }

  // ---------------------------------------------------------------- the mirror's contents

  /** The record names this place, which is safe and has room for the four records. */
  ghost predicate Serves(p: Setup, record: seq<byte>, diskSize: nat, m: seq<Run>) {
    && MirrorPlace(p, record, diskSize) == Some(m) && Safe(p, m, diskSize)
    && Contains(m, p.bpc, p.g.bytesPerFileRecord, MIRRORED - 1)
  }

  /** Record 1 on disk can be read and names this place. */
  ghost predicate Named(p: Setup, disk: seq<byte>, m: seq<Run>)
    requires DiskOk(p, disk)
  {
    Uncached(p, disk, MFT_MIRROR).0 == Success && Serves(p, Uncached(p, disk, MFT_MIRROR).1, |disk|, m)
  }

  function MirrorImage(p: Setup, m: seq<Run>, disk: seq<byte>, k: nat): seq<byte>
    requires AllOnDisk(m, p.bpc, |disk|)
  {
    Image(m, p.bpc, disk, p.g.bytesPerFileRecord, k)
  }

  lemma SafeOnDisk(p: Setup, m: seq<Run>, diskSize: nat)
    requires Safe(p, m, diskSize)
    ensures AllOnDisk(m, p.bpc, diskSize)
  {
  }

  lemma RoomBelow(p: Setup, m: seq<Run>, index: nat)
    requires Contains(m, p.bpc, p.g.bytesPerFileRecord, MIRRORED - 1) && index < MIRRORED
    ensures Contains(m, p.bpc, p.g.bytesPerFileRecord, index)
  {
    hide Total;
  }

  lemma StoreInMirror(p: Setup, m: seq<Run>, disk: seq<byte>, index: nat, raw: seq<byte>, k: nat)
    requires Safe(p, m, |disk|) && Contains(m, p.bpc, p.g.bytesPerFileRecord, MIRRORED - 1) && index < MIRRORED
    requires |raw| == p.g.bytesPerFileRecord > 0
    ensures var disk' := StoreAt(p, m, disk, index, raw).1;
            && |disk'| == |disk| && AllOnDisk(m, p.bpc, |disk|)
            && MirrorImage(p, m, disk', k) == if k == index then raw else MirrorImage(p, m, disk, k)
  {
    RoomBelow(p, m, index);
    ImageAfterWrite(m, p.bpc, disk, p.g.bytesPerFileRecord, index, raw, k);
    hide WriteFrom, Image, Contains, AllOnDisk, Disjoint, NoOverlap;
  }

  /** Writing to the table leaves a safe place alone. */
  lemma TableLeavesMirror(p: Setup, m: seq<Run>, disk: seq<byte>, index: nat, raw: seq<byte>, k: nat)
    requires Safe(p, m, |disk|) && p.g.bytesPerFileRecord > 0
    ensures var disk' := StoreAt(p, p.table, disk, index, raw).1;
            |disk'| == |disk| && AllOnDisk(m, p.bpc, |disk|)
            && MirrorImage(p, m, disk', k) == MirrorImage(p, m, disk, k)
  {
    OverlapIsMutual(p.table, m, p.bpc, |disk|);
    ImageElsewhere(m, p.table, p.bpc, disk, index * p.g.bytesPerFileRecord, raw, p.g.bytesPerFileRecord, k);
    hide WriteFrom, Image, AllOnDisk, Disjoint, NoOverlap;
  }

  /** Where the sync writes: the place record 1 names, and when record 1 itself is written the new one
      only if it was not cached. */
  function UsedPlace(s: State, index: nat, m: seq<Run>, m': seq<Run>): seq<Run> {
    if index == MFT_MIRROR && !Cached(s, MFT_MIRROR) then m' else m
  }

  /** m is the place record 1 names, and m' the one it will name after this write. */
  ghost predicate Moves(p: Setup, s: State, index: nat, raw: seq<byte>, m: seq<Run>, m': seq<Run>)
    requires Shape(p, s) && IsImage(p.g, raw)
  {
    && Named(p, s.disk, m) && Fix(p.g, raw).0 && HeaderSane(p.g, Fix(p.g, raw).1)
    && (if index == MFT_MIRROR then Serves(p, Fix(p.g, raw).1, |s.disk|, m') else m' == m)
  }

  lemma MovesIsSafe(p: Setup, s: State, index: nat, raw: seq<byte>, m: seq<Run>, m': seq<Run>)
    requires Shape(p, s) && IsImage(p.g, raw) && Moves(p, s, index, raw, m, m')
    ensures SyncIsSafe(p, s, index, raw)
    ensures forall u | u == m || u == m' ::
              Safe(p, u, |s.disk|) && Contains(u, p.bpc, p.g.bytesPerFileRecord, MIRRORED - 1)
  {
    hide Fix, HeaderSane, Uncached, DiskOk, MirrorPlace, Safe, Contains;
  }

  /** The disk after the sync of one of the first four records. */
  lemma SyncedDisk(p: Setup, s: State, index: nat, raw: seq<byte>, m: seq<Run>, m': seq<Run>)
    requires Coherent(p, s, NONE) && IsImage(p.g, raw) && InTable(p, index) && Moves(p, s, index, raw, m, m')
    ensures Shape(p, Stored(p, s, index, raw)) && AllOnDisk(UsedPlace(s, index, m, m'), p.bpc, |s.disk|)
    ensures var w := Stored(p, s, index, raw);
            SyncMirror(p, w, index, raw).disk ==
            if index < MIRRORED then StoreAt(p, UsedPlace(s, index, m, m'), w.disk, index, raw).1 else w.disk
  {
    hide TableImage, DiskOk, OneSlotEach, SlotsOk, Uncached, StoreAt, InTable, Put, Fix, HeaderSane, Stored, Read,
      IsImage, MirrorPlace, Cached, Fresh, Safe, Contains;
    TableOnDisk(p, s.disk);
    StoredIs(p, s, index, raw);
    SyncSees(p, s, index, raw);
    MovesIsSafe(p, s, index, raw, m, m');
    SafeOnDisk(p, UsedPlace(s, index, m, m'), |s.disk|);
    ReadKeepsSlots(p, Stored(p, s, index, raw), MFT_MIRROR);
  }

  /** After a write of one of the first four records its image in the mirror equals the one in the
      table, at the place that was used, and no other image changes, in the mirror or in the table. */
  lemma WriteReachesMirror(p: Setup, s: State, index: nat, rec: seq<byte>, m: seq<Run>, m': seq<Run>, k: nat)
    requires Coherent(p, s, NONE) && Writable(p.g, rec) && InTable(p, index) && Unfix(p.g, rec).0
    requires IsImage(p.g, Unfix(p.g, rec).1) ==> Moves(p, s, index, Unfix(p.g, rec).1, m, m')
    ensures AllOnDisk(UsedPlace(s, index, m, m'), p.bpc, |s.disk|)
    ensures var (s', raw, used) := (Write(p, s, index, rec).0, Unfix(p.g, rec).1, UsedPlace(s, index, m, m'));
            && Shape(p, s') && |s'.disk| == |s.disk|
            && TableImage(p, s'.disk, k) == (if k == index then raw else TableImage(p, s.disk, k))
            && MirrorImage(p, used, s'.disk, k)
               == if k == index < MIRRORED then raw else MirrorImage(p, used, s.disk, k)
  {
    hide TableImage, MirrorImage, DiskOk, OneSlotEach, SlotsOk, Uncached, StoreAt, InTable, Fix, Unfix, HeaderSane,
      Stored, Read, SyncMirror, MirrorPlace, Cached, Fresh, Safe, Contains, UsedPlace, Moves, SyncIsSafe, WellLaid;
    var raw, used := Unfix(p.g, rec).1, UsedPlace(s, index, m, m');
    TableOnDisk(p, s.disk);
    WriteCases(p, s, index, rec);
    MovesIsSafe(p, s, index, raw, m, m');
    SyncedIsCoherent(p, s, index, raw);
    SyncedDisk(p, s, index, raw, m, m');
    UsedIsSafe(p, s, index, raw, m, m');
    var w := Stored(p, s, index, raw);
    var synced := SyncMirror(p, w, index, raw);
    StoredIs(p, s, index, raw);
    TableLeavesMirror(p, used, s.disk, index, raw, k);
    StoredDisk(p, s, index, raw);
    if index < MIRRORED {
      StoreInMirror(p, used, w.disk, index, raw, k);
    }
    PutKeepsSlots(p.g, synced, index, Fix(p.g, raw).1);
  }

  /** Records 0 to 3, and no others, are copied to the runs that record 1 names. */
  lemma CopiedToMirror(p: Setup, s: State, index: nat, rec: seq<byte>, m: seq<Run>, k: nat)
    requires Coherent(p, s, NONE) && Writable(p.g, rec) && InTable(p, index) && Unfix(p.g, rec).0 && index != 1
    requires Uncached(p, s.disk, 1).0 == Success && p.mirrorRuns(Uncached(p, s.disk, 1).1) == Some(m)
    requires Safe(p, m, |s.disk|) && Contains(m, p.bpc, p.g.bytesPerFileRecord, 3)
    requires IsImage(p.g, Unfix(p.g, rec).1) ==> HeaderSane(p.g, Fix(p.g, Unfix(p.g, rec).1).1)
    ensures AllOnDisk(m, p.bpc, |s.disk|)
    ensures var disk' := Write(p, s, index, rec).0.disk;
            && |disk'| == |s.disk|
            && MirrorImage(p, m, disk', k) == if k == index < 4 then Unfix(p.g, rec).1 else MirrorImage(p, m, s.disk, k)
  {
    hide TableImage, MirrorImage, DiskOk, OneSlotEach, SlotsOk, Uncached, InTable, Fix, Unfix, HeaderSane, Fresh, Safe,
      Contains, WellLaid, Write;
    RawIsImage(p.g, rec);
    SafeOnDisk(p, m, |s.disk|);
    WriteReachesMirror(p, s, index, rec, m, m, k);
  }

  lemma StoredDisk(p: Setup, s: State, index: nat, raw: seq<byte>)
    requires AllOnDisk(p.table, p.bpc, |s.disk|)
    ensures Stored(p, s, index, raw).disk == StoreAt(p, p.table, s.disk, index, raw).1
  {
    hide StoreAt;
  }

  lemma UsedIsSafe(p: Setup, s: State, index: nat, raw: seq<byte>, m: seq<Run>, m': seq<Run>)
    requires Shape(p, s) && IsImage(p.g, raw) && Moves(p, s, index, raw, m, m')
    ensures Safe(p, UsedPlace(s, index, m, m'), |s.disk|)
    ensures Contains(UsedPlace(s, index, m, m'), p.bpc, p.g.bytesPerFileRecord, MIRRORED - 1)
  {
    MovesIsSafe(p, s, index, raw, m, m');
    hide Moves, Safe, Contains, Cached, Shape;
  }

  // ---------------------------------------------------------------- every run

  datatype Op = ReadOp(index: nat) | WriteOp(index: nat, rec: seq<byte>)

  /** The record names a place for the mirror that is safe and has room. */
  ghost predicate NamesRoom(p: Setup, record: seq<byte>, diskSize: nat) {
    MirrorPlace(p, record, diskSize).Some? && Serves(p, record, diskSize, MirrorPlace(p, record, diskSize).value)
  }

  /** Writers pass records with sane headers, and a record 1 that names a place for the mirror. */
  ghost predicate Proper(p: Setup, op: Op, diskSize: nat) {
    op.WriteOp? ==>
      && Writable(p.g, op.rec)
      && var (ok, raw) := Unfix(p.g, op.rec);
         ok ==> IsImage(p.g, raw) && HeaderSane(p.g, Fix(p.g, raw).1)
                && (op.index == MFT_MIRROR ==> NamesRoom(p, Fix(p.g, raw).1, diskSize))
  }

  ghost predicate Step(p: Setup, s: State, op: Op, s': State) {
    Proper(p, op, |s.disk|) &&
    (Shape(p, s) ==>
       match op
       case ReadOp(index) => s' == Read(p, s, index).0
       case WriteOp(index, rec) => s' == Write(p, s, index, rec).0)
  }

  /** Does this call put a new image of record k on disk? */
  ghost predicate Writes(p: Setup, op: Op, k: nat) {
    op.WriteOp? && op.index == k && InTable(p, k) && Writable(p.g, op.rec) && Unfix(p.g, op.rec).0
  }

  /** Where record 1 says the mirror is, and which of the first four records are known to agree there. */
  datatype Mirror = Mirror(place: seq<Run>, inStep: set<nat>)

  ghost function NextPlace(p: Setup, op: Op, diskSize: nat, m: seq<Run>): seq<Run> {
    if Writes(p, op, MFT_MIRROR) then
      RawIsImage(p.g, op.rec);
      var place := MirrorPlace(p, Fix(p.g, Unfix(p.g, op.rec).1).1, diskSize);
      if place.Some? then place.value else m
    else m
  }

  /** A write brings its record into step.  If it moves the mirror nothing at the new place is known to
      agree but record 1, and that only if record 1 was not cached: otherwise the copy went to the old
      place. */
  ghost function NextMirror(p: Setup, s: State, op: Op, t: Mirror): Mirror {
    var m' := NextPlace(p, op, |s.disk|, t.place);
    if !(op.WriteOp? && op.index < MIRRORED && Writes(p, op, op.index)) then t
    else if m' == t.place then Mirror(m', t.inStep + {op.index})
    else Mirror(m', if Cached(s, MFT_MIRROR) then {} else {MFT_MIRROR})
  }

  ghost predicate Agrees(p: Setup, m: seq<Run>, disk: seq<byte>, k: nat)
    requires AllOnDisk(p.table, p.bpc, |disk|)
  {
    k < MIRRORED && AllOnDisk(m, p.bpc, |disk|) && MirrorImage(p, m, disk, k) == TableImage(p, disk, k)
  }

  /** The cache is coherent, record 1 names the mirror's place, and the two tables agree where they are
      known to. */
  ghost predicate InStep(p: Setup, s: State, t: Mirror) {
    && Coherent(p, s, NONE) && Named(p, s.disk, t.place)
    && forall k :: k in t.inStep ==> Agrees(p, t.place, s.disk, k)
  }

  lemma NamedPlace(p: Setup, disk: seq<byte>, m: seq<Run>)
    requires DiskOk(p, disk) && Named(p, disk, m)
    ensures Safe(p, m, |disk|) && AllOnDisk(m, p.bpc, |disk|)
  {
    hide Uncached;
  }

  lemma NamedStays(p: Setup, disk: seq<byte>, disk': seq<byte>, m: seq<Run>)
    requires DiskOk(p, disk) && DiskOk(p, disk') && |disk'| == |disk| && Named(p, disk, m)
    requires TableImage(p, disk', MFT_MIRROR) == TableImage(p, disk, MFT_MIRROR)
    ensures Named(p, disk', m)
  {
    hide Uncached, DiskOk, Serves, TableImage;
    SameImagesSameReads(p, disk, disk', MFT_MIRROR);
  }

  /** The record lies past the end of the table: its write changes no image anywhere. */
  lemma PastTheTable(p: Setup, s: State, index: nat, raw: seq<byte>, t: Mirror)
    requires InStep(p, s, t) && IsImage(p.g, raw) && !InTable(p, index)
    ensures InStep(p, Stored(p, s, index, raw), t)
  {
    hide TableImage, MirrorImage, DiskOk, OneSlotEach, SlotsOk, Uncached, StoreAt, InTable, Stored, Fresh, Safe,
      Named, IsImage;
    TableOnDisk(p, s.disk);
    var w := Stored(p, s, index, raw);
    StoredIs(p, s, index, raw);
    StoredDisk(p, s, index, raw);
    StoredIsCoherent(p, s, index, raw);
    NamedPlace(p, s.disk, t.place);
    NamedStays(p, s.disk, w.disk, t.place);
    RecordSize(p, s.disk);
    forall k | k in t.inStep ensures Agrees(p, t.place, w.disk, k) {
      TableLeavesMirror(p, t.place, s.disk, index, raw, k);
    }
  }

  lemma RecordSize(p: Setup, disk: seq<byte>)
    requires DiskOk(p, disk)
    ensures p.g.bytesPerFileRecord > 0 && AllOnDisk(p.table, p.bpc, |disk|)
  {
  }

  /** The place a written record 1 names is the place the disk names afterwards. */
  lemma NamedAfter(p: Setup, s: State, index: nat, raw: seq<byte>, m: seq<Run>, m': seq<Run>, disk: seq<byte>)
    requires Shape(p, s) && IsImage(p.g, raw) && Moves(p, s, index, raw, m, m') && DiskOk(p, disk) && |disk| == |s.disk|
    requires TableImage(p, disk, MFT_MIRROR) == if index == MFT_MIRROR then raw else TableImage(p, s.disk, MFT_MIRROR)
    ensures Named(p, disk, m')
  {
    hide Uncached, DiskOk, Serves, TableImage, Fix, HeaderSane, IsImage;
    if index == MFT_MIRROR {
      UncachedOf(p, disk, index, raw);
    } else {
      SameImagesSameReads(p, s.disk, disk, MFT_MIRROR);
    }
  }

  /** The record lies in the table: it, and nothing else, comes into step at the place that was used. */
  lemma InTheTable(p: Setup, s: State, index: nat, rec: seq<byte>, t: Mirror, m': seq<Run>, known: set<nat>)
    requires InStep(p, s, t) && Writable(p.g, rec) && InTable(p, index) && Unfix(p.g, rec).0
    requires IsImage(p.g, Unfix(p.g, rec).1) ==> Moves(p, s, index, Unfix(p.g, rec).1, t.place, m')
    requires forall k :: k in known ==>
               UsedPlace(s, index, t.place, m') == m' && (k == index < MIRRORED || (m' == t.place && k in t.inStep))
    ensures InStep(p, Write(p, s, index, rec).0, Mirror(m', known))
  {
    hide TableImage, MirrorImage, DiskOk, OneSlotEach, SlotsOk, Uncached, StoreAt, InTable, Stored, Fresh, Safe,
      Named, Write, Moves, Fix, Unfix, UsedPlace, SyncIsSafe, HeaderSane, WellLaid;
    TableOnDisk(p, s.disk);
    WriteCases(p, s, index, rec);
    var raw, s' := Unfix(p.g, rec).1, Write(p, s, index, rec).0;
    MovesIsSafe(p, s, index, raw, t.place, m');
    MovesIsSane(p, s, index, raw, t.place, m');
    WriteKeepsCoherence(p, s, index, rec);
    WriteReachesMirror(p, s, index, rec, t.place, m', MFT_MIRROR);
    NamedAfter(p, s, index, raw, t.place, m', s'.disk);
    forall k | k in known ensures Agrees(p, m', s'.disk, k) {
      WriteReachesMirror(p, s, index, rec, t.place, m', k);
    }
  }

  lemma MovesIsSane(p: Setup, s: State, index: nat, raw: seq<byte>, m: seq<Run>, m': seq<Run>)
    requires Shape(p, s) && IsImage(p.g, raw) && Moves(p, s, index, raw, m, m')
    ensures |Fix(p.g, raw).1| >= RECORD_HEADER_SIZE && HeaderSane(p.g, Fix(p.g, raw).1)
  {
    FixedSize(p.g, raw);
    hide Fix, HeaderSane, Named, Serves;
  }

  /** What NextMirror says of a write that reaches the table. */
  lemma NextIs(p: Setup, s: State, index: nat, rec: seq<byte>, t: Mirror)
    requires InStep(p, s, t) && Proper(p, WriteOp(index, rec), |s.disk|) && InTable(p, index) && Unfix(p.g, rec).0
    ensures var next := NextMirror(p, s, WriteOp(index, rec), t);
            && (IsImage(p.g, Unfix(p.g, rec).1) ==> Moves(p, s, index, Unfix(p.g, rec).1, t.place, next.place))
            && forall k :: k in next.inStep ==>
                 && UsedPlace(s, index, t.place, next.place) == next.place
                 && (k == index < MIRRORED || (next.place == t.place && k in t.inStep))
  {
    RawIsImage(p.g, rec);
    hide Fix, Unfix, HeaderSane, InTable, WellLaid, Coherent, Named, Serves, MirrorPlace, Cached, IsImage;
  }

  lemma NoChange(p: Setup, s: State, op: Op, t: Mirror)
    requires !Writes(p, op, op.index)
    ensures NextMirror(p, s, op, t) == t
  {
    hide Writes;
  }

  lemma StepKeepsInStep(p: Setup, s: State, op: Op, s': State, t: Mirror)
    requires InStep(p, s, t) && Step(p, s, op, s')
    ensures InStep(p, s', NextMirror(p, s, op, t)) && |s'.disk| == |s.disk|
  {
    hide TableImage, DiskOk, OneSlotEach, SlotsOk, Uncached, StoreAt, InTable, Stored, Fresh, Named, Write, Read,
      Moves, Fix, Unfix, UsedPlace, NextMirror, Agrees, HeaderSane, WellLaid, NamesRoom;
    InStepShape(p, s, t);
    match op
    case ReadOp(index) =>
      ReadIsUncached(p, s, index, NONE);
      NoChange(p, s, op, t);
    case WriteOp(index, rec) =>
      WriteCases(p, s, index, rec);
      var (ok, raw) := Unfix(p.g, rec);
      StoredIs(p, s, index, raw);
      if ok && InTable(p, index) {
        NextIs(p, s, index, rec, t);
        var next := NextMirror(p, s, op, t);
        InTheTable(p, s, index, rec, t, next.place, next.inStep);
        WriteReachesMirror(p, s, index, rec, t.place, next.place, index);
      } else {
        NoChange(p, s, op, t);
        if ok {
          PastTheTable(p, s, index, raw, t);
        }
      }
  }

  lemma InStepShape(p: Setup, s: State, t: Mirror)
    requires InStep(p, s, t)
    ensures Shape(p, s) && AllOnDisk(p.table, p.bpc, |s.disk|)
  {
  }

  ghost predicate Follows(p: Setup, ss: seq<State>, ops: seq<Op>) {
    |ss| == |ops| + 1 && forall i :: 0 <= i < |ops| ==> Step(p, ss[i], ops[i], ss[i + 1])
  }

  /** The mirror as it stands after the first n calls of a run. */
  ghost function Tracked(p: Setup, ss: seq<State>, ops: seq<Op>, n: nat, t: Mirror): Mirror
    requires |ss| == |ops| + 1 && n <= |ops|
  {
    if n == 0 then t else NextMirror(p, ss[n - 1], ops[n - 1], Tracked(p, ss, ops, n - 1, t))
  }

  /** The state stays in step through every run, wherever record 1 moves the mirror. */
  lemma {:induction false} RunStaysInStep(p: Setup, ss: seq<State>, ops: seq<Op>, n: nat, t: Mirror)
    requires Follows(p, ss, ops) && InStep(p, ss[0], t) && n <= |ops|
    ensures InStep(p, ss[n], Tracked(p, ss, ops, n, t)) && |ss[n].disk| == |ss[0].disk|
    decreases n
  {
    hide Step, InStep, NextMirror;
    if n > 0 {
      RunStaysInStep(p, ss, ops, n - 1, t);
      StepKeepsInStep(p, ss[n - 1], ops[n - 1], ss[n], Tracked(p, ss, ops, n - 1, t));
    }
  }

  /** Whatever reads and writes came before, the next read gives what the disk gives. */
  lemma EveryReadIsUncached(p: Setup, ss: seq<State>, ops: seq<Op>, n: nat, t: Mirror, index: nat)
    requires Follows(p, ss, ops) && InStep(p, ss[0], t) && n <= |ops|
    ensures Shape(p, ss[n]) && OneSlotEach(p.g, ss[n].slots)
    ensures var (_, status, data) := Read(p, ss[n], index);
            && status == Uncached(p, ss[n].disk, index).0
            && (status == Success ==> data == Uncached(p, ss[n].disk, index).1)
  {
    RunStaysInStep(p, ss, ops, n, t);
    hide DiskOk, SlotsOk, OneSlotEach, Uncached, Read, Named, Step, Agrees, NextMirror, Fresh;
    ReadIsUncached(p, ss[n], index, NONE);
  }

  /** No call of the run moves the mirror. */
  ghost predicate Unmoved(p: Setup, ss: seq<State>, ops: seq<Op>, n: nat, m: seq<Run>)
    requires |ss| == |ops| + 1 && n <= |ops|
  {
    forall i :: 0 <= i < n ==> NextPlace(p, ops[i], |ss[i].disk|, m) == m
  }

  ghost predicate WrittenBefore(p: Setup, ops: seq<Op>, n: nat, k: nat)
    requires n <= |ops|
  {
    exists i :: 0 <= i < n && Writes(p, ops[i], k)
  }

  /** While the mirror stays where it is, the records known to agree are those written so far. */
  lemma {:induction false} TrackedAreWritten(p: Setup, ss: seq<State>, ops: seq<Op>, n: nat, m: seq<Run>, k: nat)
    requires |ss| == |ops| + 1 && n <= |ops| && Unmoved(p, ss, ops, n, m)
    ensures var t := Tracked(p, ss, ops, n, Mirror(m, {}));
            t.place == m && (k in t.inStep <==> k < MIRRORED && WrittenBefore(p, ops, n, k))
    decreases n
  {
    hide Writes, NextPlace;
    if n > 0 {
      TrackedAreWritten(p, ss, ops, n - 1, m, k);
      assert WrittenBefore(p, ops, n, k) <==> WrittenBefore(p, ops, n - 1, k) || Writes(p, ops[n - 1], k);
      WritesItself(p, ops[n - 1], k);
    }
  }

  lemma WritesItself(p: Setup, op: Op, k: nat)
    ensures Writes(p, op, k) ==> op.WriteOp? && op.index == k
  {
  }

  /** In every run that leaves the mirror where it is, every one of the first four records that was
      written has the same raw image in the table and in the mirror. */
  lemma MirrorIsInLockStep(p: Setup, ss: seq<State>, ops: seq<Op>, n: nat, m: seq<Run>, k: nat)
    requires Follows(p, ss, ops) && InStep(p, ss[0], Mirror(m, {})) && n <= |ops| && Unmoved(p, ss, ops, n, m)
    requires k < 4 && WrittenBefore(p, ops, n, k)
    ensures AllOnDisk(p.table, p.bpc, |ss[n].disk|) && AllOnDisk(m, p.bpc, |ss[n].disk|)
    ensures MirrorImage(p, m, ss[n].disk, k) == TableImage(p, ss[n].disk, k)
  {
    RunStaysInStep(p, ss, ops, n, Mirror(m, {}));
    TrackedAreWritten(p, ss, ops, n, m, k);
    hide Step, Tracked, Writes, NextMirror, TableImage, MirrorImage, Named, Unmoved;
    InStepShape(p, ss[n], Tracked(p, ss, ops, n, Mirror(m, {})));
  }

  /** A record 1 that moves the mirror: its own copy goes to the new place exactly when it was not cached,
      and otherwise to the old one, while nothing at a new place apart from the old one changes. */
  lemma MovedMirror(p: Setup, s: State, rec: seq<byte>, m: seq<Run>, m': seq<Run>, k: nat)
    requires Coherent(p, s, NONE) && Writable(p.g, rec) && InTable(p, MFT_MIRROR) && Unfix(p.g, rec).0
    requires IsImage(p.g, Unfix(p.g, rec).1) ==> Moves(p, s, MFT_MIRROR, Unfix(p.g, rec).1, m, m')
    requires Safe(p, m, |s.disk|) && Safe(p, m', |s.disk|) && NoOverlap(m', m, p.bpc, |s.disk|)
    ensures var (s', raw) := (Write(p, s, MFT_MIRROR, rec).0, Unfix(p.g, rec).1);
            && |s'.disk| == |s.disk| && DiskOk(p, s'.disk) && Named(p, s'.disk, m')
            && (!Cached(s, MFT_MIRROR) ==>
                  MirrorImage(p, m', s'.disk, k) == if k == MFT_MIRROR then raw else MirrorImage(p, m', s.disk, k))
            && (Cached(s, MFT_MIRROR) ==>
                  && MirrorImage(p, m, s'.disk, k) == (if k == MFT_MIRROR then raw else MirrorImage(p, m, s.disk, k))
                  && MirrorImage(p, m', s'.disk, k) == MirrorImage(p, m', s.disk, k))
  {
    hide TableImage, MirrorImage, DiskOk, OneSlotEach, SlotsOk, Uncached, StoreAt, InTable, Stored, Fresh, Safe,
      Named, Write, Moves, Fix, Unfix, HeaderSane, WellLaid, Cached, NoOverlap;
    TableOnDisk(p, s.disk);
    SafeOnDisk(p, m, |s.disk|);
    SafeOnDisk(p, m', |s.disk|);
    WriteCases(p, s, MFT_MIRROR, rec);
    var raw, s' := Unfix(p.g, rec).1, Write(p, s, MFT_MIRROR, rec).0;
    WriteReachesMirror(p, s, MFT_MIRROR, rec, m, m', k);
    WriteReachesMirror(p, s, MFT_MIRROR, rec, m, m', MFT_MIRROR);
    NamedAfter(p, s, MFT_MIRROR, raw, m, m', s'.disk);
    if Cached(s, MFT_MIRROR) {
      NewPlaceKeeps(p, s, rec, m, m', k);
    }
  }

  lemma NewPlaceKeeps(p: Setup, s: State, rec: seq<byte>, m: seq<Run>, m': seq<Run>, k: nat)
    requires Coherent(p, s, NONE) && Writable(p.g, rec) && InTable(p, MFT_MIRROR) && Unfix(p.g, rec).0
    requires IsImage(p.g, Unfix(p.g, rec).1) ==> Moves(p, s, MFT_MIRROR, Unfix(p.g, rec).1, m, m')
    requires Safe(p, m, |s.disk|) && Safe(p, m', |s.disk|) && NoOverlap(m', m, p.bpc, |s.disk|) && Cached(s, MFT_MIRROR)
    ensures var s' := Write(p, s, MFT_MIRROR, rec).0;
            |s'.disk| == |s.disk| && AllOnDisk(m', p.bpc, |s.disk|)
            && MirrorImage(p, m', s'.disk, k) == MirrorImage(p, m', s.disk, k)
  {
    hide TableImage, DiskOk, OneSlotEach, SlotsOk, Uncached, WriteFrom, InTable, Stored, Fresh, Safe, Named, Write,
      Moves, Fix, Unfix, HeaderSane, WellLaid, Cached, NoOverlap, Image, SyncMirror;
    TableOnDisk(p, s.disk);
    SafeOnDisk(p, m', |s.disk|);
    WriteCases(p, s, MFT_MIRROR, rec);
    var raw := Unfix(p.g, rec).1;
    var w := Stored(p, s, MFT_MIRROR, raw);
    SyncedDisk(p, s, MFT_MIRROR, raw, m, m');
    StoredIs(p, s, MFT_MIRROR, raw);
    StoredDisk(p, s, MFT_MIRROR, raw);
    RecordSize(p, s.disk);
    TableLeavesMirror(p, m', s.disk, MFT_MIRROR, raw, k);
    SafeIsSolid(p, m, |s.disk|);
    SafeIsSolid(p, m', |s.disk|);
    ImageElsewhere(m', m, p.bpc, w.disk, MFT_MIRROR * p.g.bytesPerFileRecord, raw, p.g.bytesPerFileRecord, k);
    var synced := SyncMirror(p, w, MFT_MIRROR, raw);
    PutKeepsSlots(p.g, synced, MFT_MIRROR, Fix(p.g, raw).1);
  }

  lemma SafeIsSolid(p: Setup, m: seq<Run>, diskSize: nat)
    requires Safe(p, m, diskSize)
    ensures Solid(m, p.bpc, diskSize)
  {
  }

  /** A write leaves every byte of the disk alone that is neither in the table nor at the mirror's place,
      old or new. */
  lemma OtherBytesStay(p: Setup, s: State, index: nat, rec: seq<byte>, m: seq<Run>, m': seq<Run>, q: nat)
    requires Coherent(p, s, NONE) && Writable(p.g, rec)
    requires var (ok, raw) := Unfix(p.g, rec); ok && IsImage(p.g, raw) ==> Moves(p, s, index, raw, m, m')
    requires Safe(p, m, |s.disk|) && Safe(p, m', |s.disk|)
    requires q < |s.disk| && OffRuns(p.table, p.bpc, q) && OffRuns(m, p.bpc, q) && OffRuns(m', p.bpc, q)
    ensures var s' := Write(p, s, index, rec).0; |s'.disk| == |s.disk| && s'.disk[q] == s.disk[q]
  {
    hide TableImage, DiskOk, OneSlotEach, SlotsOk, Uncached, WriteFrom, InTable, Stored, Fresh, Safe, Named, Write,
      Moves, Fix, Unfix, HeaderSane, WellLaid, Cached, SyncMirror, OffRuns, UsedPlace;
    TableOnDisk(p, s.disk);
    SafeOnDisk(p, m, |s.disk|);
    SafeOnDisk(p, m', |s.disk|);
    WriteCases(p, s, index, rec);
    var (ok, raw) := Unfix(p.g, rec);
    if ok {
      var w, used := Stored(p, s, index, raw), UsedPlace(s, index, m, m');
      StoredDisk(p, s, index, raw);
      WriteStaysInRuns(p.table, p.bpc, s.disk, index * p.g.bytesPerFileRecord, raw, q);
      if InTable(p, index) {
        SyncedDisk(p, s, index, raw, m, m');
        UsedIsOne(s, index, m, m');
        if index < MIRRORED {
          WriteStaysInRuns(used, p.bpc, w.disk, index * p.g.bytesPerFileRecord, raw, q);
        }
        PutKeepsSlots(p.g, SyncMirror(p, w, index, raw), index, Fix(p.g, raw).1);
      }
    }
  }

  lemma UsedIsOne(s: State, index: nat, m: seq<Run>, m': seq<Run>)
    ensures UsedPlace(s, index, m, m') == m || UsedPlace(s, index, m, m') == m'
  {
  }

  // ---------------------------------------------------------------- the class

  method CopyIn(a: array<byte>, s: seq<byte>)
    requires a.Length == |s|
    modifies a
    ensures a[..] == s
  {
    forall k | 0 <= k < |s| {
      a[k] := s[k];
    }
  }

  lemma ImageOf(p: Setup, disk: seq<byte>, index: nat)
    requires DiskOk(p, disk) && TableImage(p, disk, index) != []
    ensures IsImage(p.g, TableImage(p, disk, index))
  {
    hide TableImage, Solid;
  }

  class RecordVolume {
    const p: Setup
    const slots: array<Slot>
    var next: nat
    const disk: array<byte>
    const table: AttrContext

    /** A volume just mounted: nothing is cached. */
    constructor (p: Setup, disk: array<byte>)
      requires DiskOk(p, disk[..])
      ensures Valid() && this.p == p && this.disk == disk && fresh(slots) && fresh(table)
      ensures Now().disk == disk[..] && Coherent(p, Now(), NONE)
    {
      this.p := p;
      this.disk := disk;
      next := 0;
      slots := new Slot[CACHE_ENTRIES](_ => Slot(false, 0, seq(p.g.bytesPerFileRecord, _ => 0)));
      table := new AttrContext(p.table);
    }

    ghost predicate Valid()
      reads this, slots, disk, table
    {
      Shape(p, Now()) && table.runs == p.table && table.Valid(p.bpc)
    }

    ghost function Now(): State
      reads this, slots, disk
    {
      State(slots[..], next, disk[..])
    }

    method FindSlot(index: nat) returns (k: nat)
      requires slots.Length == CACHE_ENTRIES
      ensures k == SlotOf(slots[..], index, 0)
    {
      k := 0;
      while k < CACHE_ENTRIES && !(slots[k].valid && slots[k].index == index)
        invariant k <= CACHE_ENTRIES
        invariant SlotOf(slots[..], index, k) == SlotOf(slots[..], index, 0)
      {
        k := k + 1;
      }
    }

    method CachePut(index: nat, record: array<byte>)
      requires slots.Length == CACHE_ENTRIES && next < CACHE_ENTRIES
      modifies this`next, slots
      ensures Now() == Put(p.g, old(Now()), index, record[..])
    {
      if p.g.bytesPerFileRecord > CACHE_RECORD_SIZE {
        return;
      }
      var k := FindSlot(index);
      if k == CACHE_ENTRIES {
        k := next;
        next := (next + 1) % CACHE_ENTRIES;
      }
      slots[k] := Slot(true, index, record[..]);
    }

    /** Read a record's bytes through the table's runs. */
    method ReadRaw(index: nat, record: array<byte>) returns (whole: bool)
      requires Valid() && record.Length == p.g.bytesPerFileRecord && record != disk
      modifies record, table
      ensures Valid() && Now() == old(Now())
      ensures whole <==> TableImage(p, disk[..], index) != []
      ensures whole ==> record[..] == TableImage(p, disk[..], index) && IsImage(p.g, record[..])
    {
      hide ReadFrom, AllImages, Disjoint;
      var n := table.ReadAttr(p.bpc, disk[..], index * p.g.bytesPerFileRecord, record, p.g.bytesPerFileRecord);
      whole := n == p.g.bytesPerFileRecord;
      if whole {
        ImageOf(p, disk[..], index);
      }
    }

    method ReadFileRecord(index: nat, record: array<byte>) returns (status: Status)
      requires Valid() && record.Length == p.g.bytesPerFileRecord && record != disk
      modifies this`next, slots, record, table
      ensures Valid()
      ensures (Now(), status) == (Read(p, old(Now()), index).0, Read(p, old(Now()), index).1)
      ensures status == Success ==> record[..] == Read(p, old(Now()), index).2
    {
      hide DiskOk, TableImage, Fix, HeaderSane, Put;
      ReadKeepsSlots(p, Now(), index);
      var k := FindSlot(index);
      if k < CACHE_ENTRIES {
        var data := slots[k].data;
        CopyIn(record, data);
        return Success;
      }
      var whole := ReadRaw(index, record);
      if !whole {
        return DeviceError;
      }
      var ok := FixupRecord(p.g, record);
      if !ok {
        return VolumeCorrupted;
      }
      if !HeaderSane(p.g, record[..]) {
        return VolumeCorrupted;
      }
      CachePut(index, record);
      return Success;
    }

    /** Copy the raw image of one of the first four records to the place record 1 names. */
    method SyncMftMirror(index: nat, raw: array<byte>)
      requires Valid() && raw.Length == p.g.bytesPerFileRecord && raw != disk
      modifies this`next, slots, disk, table
      ensures slots.Length == CACHE_ENTRIES && next < CACHE_ENTRIES && table.runs == p.table && table.Valid(p.bpc)
      ensures Now() == SyncMirror(p, old(Now()), index, raw[..])
    {
      hide DiskOk, Read, WriteFrom;
      ghost var before, image := Now(), raw[..];
      ReadKeepsSlots(p, before, MFT_MIRROR);
      if index >= MIRRORED {
        return;
      }
      var record1 := new byte[p.g.bytesPerFileRecord];
      var status := ReadFileRecord(MFT_MIRROR, record1);
      if status != Success {
        return;
      }
      var place := MirrorPlace(p, record1[..], disk.Length);
      if place.Some? {
        var _ := WriteAttr(place.value, p.bpc, disk, index * p.g.bytesPerFileRecord, raw[..]);
      }
    }

    /** Write a raw record to the table and, if all of it got there, to the mirror. */
    method StoreRecord(index: nat, raw: array<byte>) returns (whole: bool)
      requires Valid() && IsImage(p.g, raw[..]) && raw != disk
      modifies this`next, slots, disk, table
      ensures slots.Length == CACHE_ENTRIES && next < CACHE_ENTRIES && table.runs == p.table && table.Valid(p.bpc)
      ensures AllOnDisk(p.table, p.bpc, disk.Length) && Shape(p, Stored(p, old(Now()), index, raw[..]))
      ensures whole <==> InTable(p, index)
      ensures Now() == if whole then SyncMirror(p, Stored(p, old(Now()), index, raw[..]), index, raw[..])
                       else Stored(p, old(Now()), index, raw[..])
    {
      ghost var before, image := Now(), raw[..];
      TableOnDisk(p, disk[..]);
      StoredIs(p, before, index, image);
      StoreInTable(p, before.disk, index, image);
      hide WriteFrom, SyncMirror, DiskOk, InTable, TableImage, AllOnDisk, IsImage, SlotsOk;
      SlotCount(p.g, before);
      var n := WriteAttr(p.table, p.bpc, disk, index * p.g.bytesPerFileRecord, raw[..]);
      whole := n == p.g.bytesPerFileRecord;
      if whole {
        SyncMftMirror(index, raw);
      }
    }

    method WriteFileRecord(index: nat, record: array<byte>) returns (status: Status)
      requires Valid() && Writable(p.g, record[..]) && record != disk
      modifies this`next, slots, disk, record, table
      ensures (Now(), status, record[..]) == Write(p, old(Now()), index, old(record[..]))
      ensures table.runs == p.table && table.Valid(p.bpc)
    {
      ghost var rec, before := record[..], Now();
      RawIsImage(p.g, rec);
      WriteCases(p, before, index, rec);
      hide Unfix, Fix, Stored, SyncMirror, DiskOk, Write, InTable, Put, WellLaid;
      var ok := UnfixupRecord(p.g, record);
      if !ok {
        return VolumeCorrupted;
      }
      var whole := StoreRecord(index, record);
      var _ := FixupRecord(p.g, record);
      if !whole {
        return DeviceError;
      }
      CachePut(index, record);
      return Success;
    }
  }
}
