/** Writing a protected record through an attribute (src/ntfs_mft.c): prepare it, write it run by run,
    and restore the copy in memory. */
module MultiSector {
  import opened AttributeData
  import opened ByteData
  import opened RunList
  import opened UpdateSequence

  datatype Outcome = Done | ShortWrite | Refused

  datatype Written = Written(status: Outcome, disk: seq<byte>, record: seq<byte>)

  ghost function WriteRecord(g: Geometry, runs: seq<Run>, bpc: nat, disk: seq<byte>, offset: nat,
                             rec: seq<byte>): Written
    requires Writable(g, rec) && AllOnDisk(runs, bpc, |disk|)
  {
    var (ok, raw) := Unfix(g, rec);
    if !ok then Written(Refused, disk, rec)
    else
      var (n, after) := WriteFrom(runs, bpc, disk, offset, raw);
      Written(if n == |raw| then Done else ShortWrite, after, Fix(g, raw).1)
  }

  /** A record that fits its buffer, and whose prepared form does. */
  ghost predicate Writable(g: Geometry, rec: seq<byte>) {
    Fits(g, rec) && Fits(g, Unfix(g, rec).1)
  }

  lemma WellLaidIsWritable(g: Geometry, rec: seq<byte>)
    requires WellLaid(g, rec)
    ensures Writable(g, rec)
  {
    hide Fix, Unfix, NextUsn;
    FixUndoesUnfix(g, rec);
  }

  /** After a successful write the disk gives back the record as it stands in memory: accepted by the
      fixup, and outside the update sequence array byte for byte the one the caller handed in. */
  lemma WrittenReadsBack(g: Geometry, runs: seq<Run>, bpc: nat, disk: seq<byte>, offset: nat, rec: seq<byte>)
    requires WellLaid(g, rec) && AllOnDisk(runs, bpc, |disk|) && Disjoint(runs, bpc)
    requires (WellLaidIsWritable(g, rec); WriteRecord(g, runs, bpc, disk, offset, rec).status == Done)
    ensures var w := (WellLaidIsWritable(g, rec); WriteRecord(g, runs, bpc, disk, offset, rec));
            var raw := ReadFrom(runs, bpc, w.disk, offset, |rec|);
            && |raw| == |rec| == |w.record| && WellLaid(g, raw) && Fix(g, raw) == (true, w.record)
            && forall p :: 0 <= p < |rec| && !InArray(rec, p) ==> w.record[p] == rec[p]
  {
    hide Fix, Unfix, NextUsn, WriteFrom, ReadFrom, Disjoint, WellLaid, AllOnDisk;
    FixUndoesUnfix(g, rec);
    WellLaidIsWritable(g, rec);
    var raw := Unfix(g, rec).1;
    ReadAfterWrite(runs, bpc, disk, offset, raw);
    assert raw[..|raw|] == raw;
  }

  /** Which of the three outcomes a write has.  It is refused when the record cannot be prepared, and
      then nothing changes; it is done exactly if all the bytes it should cover lie in the runs, none of
      them in a hole, and otherwise it is short. */
  lemma OutcomeMeans(g: Geometry, runs: seq<Run>, bpc: nat, disk: seq<byte>, offset: nat, rec: seq<byte>)
    requires Writable(g, rec) && AllOnDisk(runs, bpc, |disk|) && rec != []
    ensures var w := WriteRecord(g, runs, bpc, disk, offset, rec);
            && (w.status == Refused <==> !Unfix(g, rec).0)
            && (w.status == Refused ==> w.disk == disk && w.record == rec)
            && (w.status == Done <==> Unfix(g, rec).0 && AllReal(runs, bpc, offset, |rec|))
  {
    hide Fix, Unfix, WriteFrom, AllReal, AllOnDisk, Fits;
    if Unfix(g, rec).0 {
      DoneIff(runs, bpc, disk, offset, Unfix(g, rec).1);
    }
  }

  lemma DoneIff(runs: seq<Run>, bpc: nat, disk: seq<byte>, offset: nat, raw: seq<byte>)
    requires AllOnDisk(runs, bpc, |disk|) && raw != []
    ensures WriteFrom(runs, bpc, disk, offset, raw).0 == |raw| <==> AllReal(runs, bpc, offset, |raw|)
  {
    hide *;
    var n := WriteFrom(runs, bpc, disk, offset, raw).0;
    forall o: nat | offset <= o < offset + n ensures Real(runs, bpc, o) {
      WriteStops(runs, bpc, disk, offset, raw, o);
      RealIs(runs, bpc, o);
    }
    WriteStops(runs, bpc, disk, offset, raw, offset);
    RealIs(runs, bpc, offset + n);
    AllRealIs(runs, bpc, offset, |raw|);
  }

  lemma RealIs(runs: seq<Run>, bpc: nat, o: nat)
    ensures Real(runs, bpc, o) <==> o < Total(runs, bpc) && !InHole(runs, bpc, o)
  {
    hide Total, InHole;
  }

  lemma AllRealIs(runs: seq<Run>, bpc: nat, offset: nat, size: nat)
    ensures AllReal(runs, bpc, offset, size) <==> forall o: nat :: offset <= o < offset + size ==> Real(runs, bpc, o)
  {
    hide Real;
  }

  /** The byte lies in a run that is no hole. */
  predicate Real(runs: seq<Run>, bpc: nat, o: nat) {
    o < Total(runs, bpc) && !InHole(runs, bpc, o)
  }

  /** So do all bytes of the stretch. */
  predicate AllReal(runs: seq<Run>, bpc: nat, offset: nat, size: nat) {
    forall o: nat :: offset <= o < offset + size ==> Real(runs, bpc, o)
  }

  /** A write that fails half way reports it, and touches nothing outside the attribute's real runs. */
  lemma OnlyRunsAreTouched(g: Geometry, runs: seq<Run>, bpc: nat, disk: seq<byte>, offset: nat, rec: seq<byte>, q: nat)
    requires Writable(g, rec) && AllOnDisk(runs, bpc, |disk|) && q < |disk| && OffRuns(runs, bpc, q)
    ensures var w := WriteRecord(g, runs, bpc, disk, offset, rec); |w.disk| == |disk| && w.disk[q] == disk[q]
  {
    hide Fix, Unfix, WriteFrom, OffRuns;
    WriteStaysInRuns(runs, bpc, disk, offset, Unfix(g, rec).1, q);
  }

  method WriteMultiSectorRecord(g: Geometry, runs: seq<Run>, bpc: nat, disk: array<byte>, offset: nat,
                                record: array<byte>)
    returns (status: Outcome)
    requires Writable(g, record[..]) && AllOnDisk(runs, bpc, disk.Length) && disk != record
    modifies disk, record
    ensures Written(status, disk[..], record[..]) == WriteRecord(g, runs, bpc, old(disk[..]), offset, old(record[..]))
  {
    hide Fix, Unfix, WriteFrom, AllOnDisk, Fits;
    UnfixKeepsRefused(g, record[..]);
    var ok := UnfixupRecord(g, record);
    if !ok {
      return Refused;
    }
    var n := WriteAttr(runs, bpc, disk, offset, record[..]);
    var length := record.Length;
    var _ := FixupRecord(g, record);
    return if n == length then Done else ShortWrite;
  }

  lemma UnfixKeepsRefused(g: Geometry, rec: seq<byte>)
    requires Fits(g, rec)
    ensures !Unfix(g, rec).0 ==> Unfix(g, rec).1 == rec
  {
  }
}
