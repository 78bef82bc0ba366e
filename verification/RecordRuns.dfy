/** Records of one size kept in the runs of an attribute (src/ntfs_mft.c, src/ntfs_attr.c): which bytes of
    the disk make up record k, and what a write of one record does to all others, here and elsewhere. */
module RecordRuns {
  import opened Arith
  import opened AttributeData
  import opened ByteData
  import RunList

  /** Runs on the disk, none of them a hole, no two of which share a byte. */
  predicate Solid(runs: seq<RunList.Run>, bpc: nat, diskSize: nat) {
    && AllOnDisk(runs, bpc, diskSize) && Disjoint(runs, bpc)
    && forall i :: 0 <= i < |runs| ==> !RunList.ReadsAsSparse(runs[i])
  }

  /** Record k lies inside the runs. */
  predicate Contains(runs: seq<RunList.Run>, bpc: nat, size: nat, k: nat) {
    k * size + size <= Total(runs, bpc)
  }

  /** The bytes of record k, as many as a whole record takes, or none. */
  function Image(runs: seq<RunList.Run>, bpc: nat, disk: seq<byte>, size: nat, k: nat): (r: seq<byte>)
    requires AllOnDisk(runs, bpc, |disk|)
    ensures r == [] || |r| == size
  {
    var r := ReadFrom(runs, bpc, disk, k * size, size);
    if |r| == size then r else []
  }

  lemma ImageIs(runs: seq<RunList.Run>, bpc: nat, disk: seq<byte>, size: nat, k: nat)
    requires AllOnDisk(runs, bpc, |disk|) && size > 0
    ensures Contains(runs, bpc, size, k) ==>
              && |Image(runs, bpc, disk, size, k)| == size
              && forall o :: k * size <= o < k * size + size ==>
                   Image(runs, bpc, disk, size, k)[o - k * size] == ByteAt(runs, bpc, disk, o)
    ensures !Contains(runs, bpc, size, k) ==> Image(runs, bpc, disk, size, k) == []
  {
    hide ReadFrom, ByteAt, Total, AllOnDisk;
    var start := k * size;
    ReadIsStream(runs, bpc, disk, start, size);
    if Contains(runs, bpc, size, k) {
      forall o | start <= o < start + size
        ensures Image(runs, bpc, disk, size, k)[o - start] == ByteAt(runs, bpc, disk, o) {
        assert o == start + (o - start);
      }
    }
  }

  /** An image is determined by the bytes of its stretch of the stream. */
  lemma SameBytesSameImage(runs: seq<RunList.Run>, bpc: nat, disk: seq<byte>, disk': seq<byte>, size: nat, k: nat)
    requires |disk'| == |disk| && AllOnDisk(runs, bpc, |disk|) && size > 0
    requires forall o :: k * size <= o < k * size + size ==> ByteAt(runs, bpc, disk', o) == ByteAt(runs, bpc, disk, o)
    ensures Image(runs, bpc, disk', size, k) == Image(runs, bpc, disk, size, k)
  {
    hide ReadFrom, ByteAt, Total, AllOnDisk, Image;
    ImageIs(runs, bpc, disk, size, k);
    ImageIs(runs, bpc, disk', size, k);
    if Contains(runs, bpc, size, k) {
      var start, a, b := k * size, Image(runs, bpc, disk', size, k), Image(runs, bpc, disk, size, k);
      forall j | 0 <= j < size ensures a[j] == b[j] {
        assert ByteAt(runs, bpc, disk', start + j) == ByteAt(runs, bpc, disk, start + j);
      }
    }
  }

  lemma NoHole(runs: seq<RunList.Run>, bpc: nat, diskSize: nat, o: nat)
    requires Solid(runs, bpc, diskSize)
    ensures !InHole(runs, bpc, o)
  {
    FindIs(runs, bpc, o);
    hide Find, Disjoint;
  }

  /** A write of a record goes through exactly when the record lies inside the runs. */
  lemma WholeWrite(runs: seq<RunList.Run>, bpc: nat, disk: seq<byte>, size: nat, k: nat, raw: seq<byte>)
    requires Solid(runs, bpc, |disk|) && |raw| == size > 0
    ensures WriteFrom(runs, bpc, disk, k * size, raw).0 == size <==> Contains(runs, bpc, size, k)
  {
    hide WriteFrom, InHole, Total, Disjoint, AllOnDisk;
    var n := WriteFrom(runs, bpc, disk, k * size, raw).0;
    WriteStops(runs, bpc, disk, k * size, raw, k * size + size - 1);
    NoHole(runs, bpc, |disk|, k * size + n);
  }

  /** Two records share no byte of the stream. */
  lemma RecordsApart(size: nat, k: nat, j: nat, o: nat)
    requires j != k && j * size <= o < j * size + size
    ensures o < k * size || k * size + size <= o
  {
    if j < k {
      FactorLess(size, j, k);
    } else {
      FactorLess(size, k, j);
    }
  }

  /** A write of record k gives k its new image, if it lies inside the runs, and no other record one. */
  lemma ImageAfterWrite(runs: seq<RunList.Run>, bpc: nat, disk: seq<byte>, size: nat, k: nat, raw: seq<byte>, j: nat)
    requires Solid(runs, bpc, |disk|) && |raw| == size > 0
    ensures var disk' := WriteFrom(runs, bpc, disk, k * size, raw).1;
            && |disk'| == |disk|
            && Image(runs, bpc, disk', size, j)
               == if j == k && Contains(runs, bpc, size, k) then raw else Image(runs, bpc, disk, size, j)
  {
    hide WriteFrom, ReadFrom, ByteAt, Total, Disjoint, AllOnDisk, Contains;
    var (n, disk') := WriteFrom(runs, bpc, disk, k * size, raw);
    WholeWrite(runs, bpc, disk, size, k, raw);
    if j == k {
      if Contains(runs, bpc, size, k) {
        ReadAfterWrite(runs, bpc, disk, k * size, raw);
        assert raw[..size] == raw;
      } else {
        ImageIs(runs, bpc, disk, size, k);
        ImageIs(runs, bpc, disk', size, k);
      }
    } else {
      hide Image;
      forall o | j * size <= o < j * size + size ensures ByteAt(runs, bpc, disk', o) == ByteAt(runs, bpc, disk, o) {
        RecordsApart(size, k, j, o);
        ReadSeesWrite(runs, bpc, disk, k * size, raw, o);
      }
      SameBytesSameImage(runs, bpc, disk, disk', size, j);
    }
  }

  // ---------------------------------------------------------------- two places on one disk

  /** No run of one place shares a byte with a run of the other. */
  predicate NoOverlap(a: seq<RunList.Run>, b: seq<RunList.Run>, bpc: nat, diskSize: nat)
    requires Solid(a, bpc, diskSize) && Solid(b, bpc, diskSize)
  {
    forall i, j :: 0 <= i < |a| && 0 <= j < |b| ==>
      DiskStart(a[i], bpc) + Size(a[i], bpc) <= DiskStart(b[j], bpc)
      || DiskStart(b[j], bpc) + Size(b[j], bpc) <= DiskStart(a[i], bpc)
  }

  lemma OverlapIsMutual(a: seq<RunList.Run>, b: seq<RunList.Run>, bpc: nat, diskSize: nat)
    requires Solid(a, bpc, diskSize) && Solid(b, bpc, diskSize) && NoOverlap(a, b, bpc, diskSize)
    ensures NoOverlap(b, a, bpc, diskSize)
  {
    hide Size, DiskStart, Disjoint;
  }

  lemma ByteElsewhere(a: seq<RunList.Run>, b: seq<RunList.Run>, bpc: nat, disk: seq<byte>, offset: nat, data: seq<byte>,
                      o: nat)
    requires Solid(a, bpc, |disk|) && Solid(b, bpc, |disk|) && NoOverlap(a, b, bpc, |disk|)
    ensures ByteAt(a, bpc, WriteFrom(b, bpc, disk, offset, data).1, o) == ByteAt(a, bpc, disk, o)
  {
    FindIs(a, bpc, o);
    hide WriteFrom, Find, Size, DiskStart, Disjoint;
    if Find(a, bpc, o).InRun? {
      var InRun(k, start) := Find(a, bpc, o);
      WriteStaysInRuns(b, bpc, disk, offset, data, DiskStart(a[k], bpc) + (o - start));
    }
  }

  /** A write to one place leaves every record of the other alone. */
  lemma ImageElsewhere(a: seq<RunList.Run>, b: seq<RunList.Run>, bpc: nat, disk: seq<byte>, offset: nat,
                       data: seq<byte>, size: nat, k: nat)
    requires Solid(a, bpc, |disk|) && Solid(b, bpc, |disk|) && NoOverlap(a, b, bpc, |disk|) && size > 0
    ensures Image(a, bpc, WriteFrom(b, bpc, disk, offset, data).1, size, k) == Image(a, bpc, disk, size, k)
  {
    hide WriteFrom, ByteAt, Image, Disjoint, NoOverlap;
    var disk' := WriteFrom(b, bpc, disk, offset, data).1;
    forall o | k * size <= o < k * size + size ensures ByteAt(a, bpc, disk', o) == ByteAt(a, bpc, disk, o) {
      ByteElsewhere(a, b, bpc, disk, offset, data, o);
    }
    SameBytesSameImage(a, bpc, disk, disk', size, k);
  }
}
