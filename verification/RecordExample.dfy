/** A volume on which all of RecordCache's assumptions hold, a write on it after which cache and disk
    differ, and one after which the mirror's new place lacks what was written. */
module RecordExample {
  import opened AttributeData
  import opened ByteData
  import opened RecordCache
  import opened RecordRuns
  import opened UpdateSequence
  import RunList

  const TABLE: seq<Run> := [RunList.Run(0, 0, 4)]
  const MIRROR: seq<Run> := [RunList.Run(0, 4, 4)]
  const SPARE: seq<Run> := [RunList.Run(0, 8, 4)]

  function Zeros(n: nat): (s: seq<byte>)
    ensures |s| == n && forall i :: 0 <= i < n ==> s[i] == 0
  {
    seq(n, _ => 0)
  }

  /** Byte 100 of a record 1 says which of two places it names. */
  function PlaceOf(r: seq<byte>): seq<Run> {
    if |r| > 100 && r[100] == 1 then SPARE else MIRROR
  }

  /** Records of 1024 bytes, one to a cluster: four in the table, and room for four behind it and behind
      that again. */
  function Volume(): Setup {
    Setup(Geometry(512, 1024, 4096), 1024, TABLE, r => Some(PlaceOf(r)))
  }

  /** Just mounted, and all zeros. */
  function Blank(): State {
    State(seq(CACHE_ENTRIES, _ => Slot(false, 0, Zeros(1024))), 0, Zeros(12288))
  }

  lemma PlaceIsSolid(first: nat)
    requires first <= 8
    ensures var m := [RunList.Run(0, first, 4)]; Solid(m, 1024, 12288) && Total(m, 1024) == 4096
  {
    assert Start([RunList.Run(0, first, 4)], 1024, 1) == 4096;
  }

  lemma PlacesAreSolid()
    ensures Solid(TABLE, 1024, 12288) && Solid(MIRROR, 1024, 12288) && Solid(SPARE, 1024, 12288)
    ensures Total(TABLE, 1024) == Total(MIRROR, 1024) == Total(SPARE, 1024) == 4096
    ensures NoOverlap(TABLE, MIRROR, 1024, 12288) && NoOverlap(TABLE, SPARE, 1024, 12288)
    ensures NoOverlap(SPARE, MIRROR, 1024, 12288)
  {
    PlaceIsSolid(0);
    PlaceIsSolid(4);
    PlaceIsSolid(8);
    hide Solid, Total;
  }

  lemma BlankByte(m: seq<Run>, o: nat)
    requires AllOnDisk(m, 1024, 12288)
    ensures ByteAt(m, 1024, Zeros(12288), o) == 0
  {
    FindIs(m, 1024, o);
    hide Find, Zeros;
  }

  lemma BlankImage(m: seq<Run>, k: nat)
    requires AllOnDisk(m, 1024, 12288) && Total(m, 1024) == 4096
    ensures Image(m, 1024, Zeros(12288), 1024, k) == if k < 4 then Zeros(1024) else []
  {
    hide ByteAt, Zeros, Image, Total, AllOnDisk;
    ImageIs(m, 1024, Zeros(12288), 1024, k);
    if k < 4 {
      var img := Image(m, 1024, Zeros(12288), 1024, k);
      forall j | 0 <= j < 1024 ensures img[j] == 0 {
        BlankByte(m, k * 1024 + j);
        assert img[k * 1024 + j - k * 1024] == 0;
      }
      assert img == Zeros(1024);
    }
  }

  lemma ZeroWord(at: nat)
    requires at + 2 <= 1024
    ensures Word(Zeros(1024), at) == 0
  {
  }

  lemma ZeroRecord(g: Geometry)
    requires g == Geometry(512, 1024, 4096)
    ensures var z := Zeros(1024); IsImage(g, z) && Fix(g, z) == (true, z) && HeaderSane(g, z)
  {
    ZeroWord(0);
    ZeroWord(2);
    ZeroWord(4);
    ZeroWord(20);
    ZeroWord(24);
    ZeroWord(26);
    ZeroWord(28);
    ZeroWord(30);
    hide Zeros, Word, FixFrom, BoundsOk;
  }

  lemma BlankShape()
    ensures Shape(Volume(), Blank())
  {
    PlacesAreSolid();
    ZeroRecord(Volume().g);
    forall k: nat ensures TableImage(Volume(), Zeros(12288), k) == if k < 4 then Zeros(1024) else [] {
      BlankImage(TABLE, k);
    }
    hide TableImage, Zeros, Solid, IsImage, Image, Total;
  }

  /** Every record names a place that serves. */
  lemma BlankServes(r: seq<byte>)
    ensures Serves(Volume(), r, 12288, PlaceOf(r))
  {
    PlacesAreSolid();
    hide Solid, NoOverlap, Total;
  }

  lemma BlankReads()
    requires DiskOk(Volume(), Zeros(12288))
    ensures Uncached(Volume(), Zeros(12288), MFT_MIRROR) == (Success, Zeros(1024))
  {
    PlacesAreSolid();
    BlankImage(TABLE, MFT_MIRROR);
    ZeroRecord(Volume().g);
    hide Zeros, Solid, IsImage, DiskOk, Uncached, Fix, HeaderSane, Total, NoOverlap, Image, PlaceOf;
    UncachedOf(Volume(), Zeros(12288), MFT_MIRROR, Zeros(1024));
  }

  lemma BlankNames()
    requires DiskOk(Volume(), Zeros(12288))
    ensures Named(Volume(), Zeros(12288), MIRROR)
  {
    assert PlaceOf(Zeros(1024)) == MIRROR;
    hide Zeros, DiskOk, Uncached, Serves, PlaceOf;
    BlankReads();
    BlankServes(Zeros(1024));
  }

  /** The blank volume is in step, with the mirror behind the table. */
  lemma BlankIsInStep()
    ensures InStep(Volume(), Blank(), Mirror(MIRROR, {}))
  {
    hide Zeros, DiskOk, Named, Coherent, Blank;
    BlankShape();
    BlankDisk();
    ShapeIsDisk(Volume(), Blank());
    BlankNames();
    BlankCoherent();
  }

  lemma ShapeIsDisk(p: Setup, s: State)
    requires Shape(p, s)
    ensures DiskOk(p, s.disk)
  {
    hide DiskOk;
  }

  lemma BlankDisk()
    ensures Blank().disk == Zeros(12288)
  {
    hide Zeros;
  }

  lemma BlankCoherent()
    ensures Coherent(Volume(), Blank(), NONE)
  {
    BlankShape();
    hide Shape, Zeros, Uncached, Volume;
  }

  /** A record that is zero but for the top byte of the bytes in use: more than the record can hold. */
  function Insane(): (r: seq<byte>)
    ensures |r| == 1024
  {
    Zeros(1024)[27 := 255]
  }

  lemma InsaneRecord(g: Geometry)
    requires g == Geometry(512, 1024, 4096)
    ensures var r := Insane(); Writable(g, r) && Unfix(g, r) == (true, r) && Fix(g, r) == (true, r) && !HeaderSane(g, r)
  {
    var r := Insane();
    assert DWord(r, 0) == 0 && Word(r, 4) == 0;
    assert DWord(r, 24) == 255 * 0x100_0000;
  }

  lemma BlankIsSafe(index: nat, raw: seq<byte>)
    requires Shape(Volume(), Blank()) && IsImage(Volume().g, raw)
    ensures SyncIsSafe(Volume(), Blank(), index, raw)
  {
    PlacesAreSolid();
    hide Solid, Shape, IsImage, Uncached, Fix, NoOverlap, Zeros;
  }

  lemma BlankTable()
    ensures InTable(Volume(), 0)
  {
    PlacesAreSolid();
    hide Total, Solid;
  }

  lemma TwoAnswers(p: Setup, disk: seq<byte>, index: nat)
    requires DiskOk(p, disk)
    ensures Uncached(p, disk, index).0 == DeviceError ==> Uncached(p, disk, index).1 == []
  {
    hide TableImage, Fix, HeaderSane;
  }

  lemma CachedNotOnDisk(p: Setup, s: State, index: nat, r: seq<byte>)
    requires Coherent(p, s, NONE) && Writable(p.g, r) && InTable(p, index)
             && p.g.bytesPerFileRecord <= CACHE_RECORD_SIZE
    requires Unfix(p.g, r) == (true, r) && Fix(p.g, r) == (true, r) && !HeaderSane(p.g, r) && SyncIsSafe(p, s, index, r)
    ensures var (s', status, _) := Write(p, s, index, r);
            && status == Success && Shape(p, s')
            && Read(p, s', index).1 == Success && Uncached(p, s'.disk, index).0 == VolumeCorrupted
  {
    hide DiskOk, SlotsOk, Unfix, Fix, HeaderSane, Write, Uncached, Read, SyncIsSafe, Fresh, Stored, SyncMirror,
      InTable, Put;
    WriteCases(p, s, index, r);
    AgreesIffSane(p, s, index, r);
    TwoAnswers(p, Write(p, s, index, r).0.disk, index);
  }

  /** On the blank volume such a record is written without complaint; the cache then gives it back, while
      the disk would refuse it. */
  lemma InsaneRecordIsCached()
    ensures Shape(Volume(), Blank()) && Writable(Volume().g, Insane())
    ensures var (s, status, _) := Write(Volume(), Blank(), 0, Insane());
            && status == Success && Shape(Volume(), s)
            && Read(Volume(), s, 0).1 == Success && Uncached(Volume(), s.disk, 0).0 == VolumeCorrupted
  {
    BlankShape();
    BlankCoherent();
    BlankTable();
    InsaneRecord(Volume().g);
    BlankIsSafe(0, Insane());
    hide DiskOk, SlotsOk, Unfix, Fix, HeaderSane, Insane, Writable, Blank, Write, Uncached, Read, SyncIsSafe,
      Coherent, InTable;
    CachedNotOnDisk(Volume(), Blank(), 0, Insane());
  }

  // ---------------------------------------------------------------- a formatted record

  /** A record with its attributes from byte 56 on, 416 bytes in use, and 1024 in all. */
  function Formatted(): (r: seq<byte>)
    ensures |r| == 1024
  {
    Zeros(1024)[20 := 56][24 := 0xA0][25 := 1][29 := 4]
  }

  lemma FormattedFields()
    ensures HeaderHolds(Formatted(), 56, 416, 1024)
  {
    var r := Formatted();
    assert Bytes(56, 2) == [56, 0];
    NumberBytes(416, 0xA0, 1);
    NumberBytes(1024, 0, 4);
    assert r[20..22] == [56, 0] && r[24..28] == [0xA0, 1, 0, 0] && r[28..32] == [0, 4, 0, 0];
    hide Bytes;
  }

  lemma NumberBytes(v: nat, low: byte, high: byte)
    requires v == low as int + 256 * high as int
    ensures Bytes(v, 4) == [low, high, 0, 0]
  {
    assert Bytes(v, 4) == [v % 256] + Bytes(v / 256, 3) && Bytes(v / 256, 3) == [v / 256 % 256] + Bytes(0, 2);
    assert Bytes(0, 2) == [0] + Bytes(0, 1) && Bytes(0, 1) == [0] + Bytes(0, 0);
  }

  lemma FormattedRecord(g: Geometry)
    requires g == Geometry(512, 1024, 4096)
    ensures var r := Formatted(); Writable(g, r) && Unfix(g, r) == (true, r) && Fix(g, r) == (true, r) && IsImage(g, r)
  {
    var r := Formatted();
    assert DWord(r, 0) == 0 && Word(r, 4) == 0;
  }

  /** Written to the blank volume, it is read back from the disk with success. */
  lemma FormattedIsRead()
    ensures Shape(Volume(), Blank()) && Writable(Volume().g, Formatted())
    ensures var (s, status, _) := Write(Volume(), Blank(), 0, Formatted());
            && status == Success && Shape(Volume(), s)
            && Uncached(Volume(), s.disk, 0) == (Success, Formatted())
  {
    var p, r := Volume(), Formatted();
    BlankShape();
    BlankCoherent();
    BlankTable();
    FormattedRecord(p.g);
    FormattedFields();
    BlankIsSafe(0, r);
    HeaderMeans(p.g, r, 56, 416, 1024);
    hide DiskOk, SlotsOk, Unfix, Fix, HeaderSane, Formatted, Writable, Blank, Write, Uncached, Read, SyncIsSafe,
      Coherent, InTable, HeaderHolds, Stored, SyncMirror, Put, IsImage;
    WriteCases(p, Blank(), 0, r);
    AgreesIffSane(p, Blank(), 0, r);
  }

  // ---------------------------------------------------------------- a mirror that moves

  /** A record 1 that names the other place. */
  function Mover(): (r: seq<byte>)
    ensures |r| == 1024
  {
    Zeros(1024)[100 := 1]
  }

  lemma MoverWord(at: nat)
    requires at + 2 <= 100
    ensures Word(Mover(), at) == 0
  {
  }

  lemma MoverRecord(g: Geometry)
    requires g == Geometry(512, 1024, 4096)
    ensures var r := Mover();
            && Writable(g, r) && Unfix(g, r) == (true, r) && Fix(g, r) == (true, r) && HeaderSane(g, r)
            && PlaceOf(r) == SPARE
  {
    MoverWord(0);
    MoverWord(2);
    MoverWord(4);
    MoverWord(20);
    MoverWord(24);
    MoverWord(26);
    MoverWord(28);
    MoverWord(30);
    assert Mover()[100] == 1;
    hide Mover, Word, FixFrom, StampFrom, BoundsOk, WellLaid;
  }

  /** The blank volume after record 1 has been read. */
  function Warm(): State
    requires Shape(Volume(), Blank())
  {
    Read(Volume(), Blank(), MFT_MIRROR).0
  }

  lemma NothingCached(index: nat)
    ensures SlotOf(Blank().slots, index, 0) == CACHE_ENTRIES
  {
    hide Zeros;
  }

  lemma WarmIsCached()
    ensures Shape(Volume(), Blank())
    ensures Coherent(Volume(), Warm(), NONE) && Warm().disk == Zeros(12288) && Cached(Warm(), MFT_MIRROR)
  {
    BlankShape();
    BlankDisk();
    BlankCoherent();
    NothingCached(MFT_MIRROR);
    ReadIsUncached(Volume(), Blank(), MFT_MIRROR, NONE);
    ShapeIsDisk(Volume(), Blank());
    BlankReads();
    assert SlotsOk(Volume().g, Blank().slots, Blank().next);
    PutIsFound(Volume().g, Blank(), MFT_MIRROR, Zeros(1024));
    hide Blank, Zeros, Put, DiskOk, SlotsOk, Uncached, Coherent, SlotOf, PlaceOf, OneSlotEach;
  }

  lemma MoverMoves(s: State)
    requires Shape(Volume(), s) && s.disk == Zeros(12288) && IsImage(Volume().g, Mover())
    requires Fix(Volume().g, Mover()) == (true, Mover()) && HeaderSane(Volume().g, Mover()) && PlaceOf(Mover()) == SPARE
    ensures Moves(Volume(), s, MFT_MIRROR, Mover(), MIRROR, SPARE)
  {
    hide Zeros, Mover, Fix, HeaderSane, DiskOk, SlotsOk, Named, Serves, IsImage, PlaceOf;
    ShapeIsDisk(Volume(), s);
    BlankNames();
    BlankServes(Mover());
  }

  lemma BothSafe()
    ensures Safe(Volume(), MIRROR, 12288) && Safe(Volume(), SPARE, 12288) && NoOverlap(SPARE, MIRROR, 1024, 12288)
    ensures InTable(Volume(), MFT_MIRROR)
    ensures MirrorImage(Volume(), SPARE, Zeros(12288), MFT_MIRROR) == Zeros(1024)
  {
    PlacesAreSolid();
    BlankImage(SPARE, MFT_MIRROR);
    hide Solid, NoOverlap, Total, Image, Zeros;
  }

  /** With record 1 cached, a new record 1 that moves the mirror is written; its copy goes to the old
      place, and at the new one, which record 1 now names, it is missing. */
  lemma CopyGoesAstray()
    ensures Shape(Volume(), Blank()) && Shape(Volume(), Warm()) && Writable(Volume().g, Mover())
    ensures var (s, status, _) := Write(Volume(), Warm(), MFT_MIRROR, Mover());
            && status == Success && Shape(Volume(), s) && Named(Volume(), s.disk, SPARE)
            && TableImage(Volume(), s.disk, MFT_MIRROR) == Mover()
            && AllOnDisk(MIRROR, 1024, |s.disk|) && MirrorImage(Volume(), MIRROR, s.disk, MFT_MIRROR) == Mover()
            && AllOnDisk(SPARE, 1024, |s.disk|) && MirrorImage(Volume(), SPARE, s.disk, MFT_MIRROR) != Mover()
  {
    var p, r := Volume(), Mover();
    WarmIsCached();
    MoverRecord(p.g);
    BothSafe();
    assert r[100] == 1 && Zeros(1024)[100] == 0;
    hide Zeros, Mover, Blank, Warm, Fix, Unfix, HeaderSane, DiskOk, SlotsOk, Named, Serves, PlaceOf, Fresh, OneSlotEach,
      InTable, NoOverlap, Write, MirrorImage, TableImage, Safe, Moves, Stored, Cached, SyncMirror, Put, WellLaid;
    var s := Warm();
    MoverMoves(s);
    WriteCases(p, s, MFT_MIRROR, r);
    WriteReachesMirror(p, s, MFT_MIRROR, r, MIRROR, SPARE, MFT_MIRROR);
    MovedMirror(p, s, r, MIRROR, SPARE, MFT_MIRROR);
    SafeOnDisk(p, MIRROR, 12288);
    SafeOnDisk(p, SPARE, 12288);
  }
}
