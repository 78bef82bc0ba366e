/** Reading and writing the bytes of an attribute through its run list (src/ntfs_attr.c).  Reads
    keep a cursor into the list; writes scan it from the start and stay inside real runs. */
module AttributeData {
  import opened Arith
  import opened ByteData
  import opened RunList

  // ---------------------------------------------------------------- the run list as a stream

  function Size(r: Run, bpc: nat): nat {
    r.len * bpc
  }

  /** Where a real run's bytes begin on disk. */
  function DiskStart(r: Run, bpc: nat): nat
    requires r.lbn >= 0
  {
    r.lbn * bpc
  }

  /** A real run lies on the disk. */
  predicate OnDisk(r: Run, bpc: nat, diskSize: nat) {
    ReadsAsSparse(r) || (r.lbn >= 0 && DiskStart(r, bpc) + Size(r, bpc) <= diskSize)
  }

  predicate AllOnDisk(runs: seq<Run>, bpc: nat, diskSize: nat) {
    forall i :: 0 <= i < |runs| ==> OnDisk(runs[i], bpc, diskSize)
  }

  /** Byte offset at which run i of the list begins. */
  function Start(runs: seq<Run>, bpc: nat, i: nat): nat
    requires i <= |runs|
  {
    if i == 0 then 0 else Start(runs, bpc, i - 1) + Size(runs[i - 1], bpc)
  }

  lemma {:induction false} StartsGrow(runs: seq<Run>, bpc: nat, i: nat, j: nat)
    requires i <= j <= |runs|
    ensures Start(runs, bpc, i) <= Start(runs, bpc, j)
    decreases j
  {
    if i < j {
      StartsGrow(runs, bpc, i, j - 1);
    }
  }

  datatype Place = Nowhere | InRun(run: nat, start: nat)

  /** The cursor-free scan: the first run from i on that holds the offset. */
  function Locate(runs: seq<Run>, bpc: nat, offset: nat, i: nat, scan: nat): Place
    requires i <= |runs|
    decreases |runs| - i
  {
    if i == |runs| then Nowhere
    else if offset < scan + Size(runs[i], bpc) then InRun(i, scan)
    else Locate(runs, bpc, offset, i + 1, scan + Size(runs[i], bpc))
  }

  function Find(runs: seq<Run>, bpc: nat, offset: nat): Place {
    Locate(runs, bpc, offset, 0, 0)
  }

  /** Run k, beginning at `start`, holds the offset. */
  predicate Holds(runs: seq<Run>, bpc: nat, k: nat, start: nat, offset: nat) {
    k < |runs| && start == Start(runs, bpc, k) && start <= offset < start + Size(runs[k], bpc)
  }

  lemma {:induction false} LocateIs(runs: seq<Run>, bpc: nat, offset: nat, i: nat, scan: nat)
    requires i <= |runs| && scan == Start(runs, bpc, i) && scan <= offset
    ensures match Locate(runs, bpc, offset, i, scan)
            case InRun(k, start) => Holds(runs, bpc, k, start, offset)
            case Nowhere => offset >= Start(runs, bpc, |runs|)
    ensures forall k, start :: i <= k && Holds(runs, bpc, k, start, offset) ==>
              Locate(runs, bpc, offset, i, scan) == InRun(k, start)
    decreases |runs| - i
  {
    hide Size;
    if i < |runs| {
      var next := scan + Size(runs[i], bpc);
      if offset < next {
        forall k, start | i < k && Holds(runs, bpc, k, start, offset) ensures false {
          StartsGrow(runs, bpc, i + 1, k);
        }
      } else {
        LocateIs(runs, bpc, offset, i + 1, next);
      }
    }
  }

  /** An offset has one place: where the cursor says, if the cursor's run holds it. */
  lemma FindIs(runs: seq<Run>, bpc: nat, offset: nat)
    ensures match Find(runs, bpc, offset)
            case InRun(k, start) => Holds(runs, bpc, k, start, offset)
            case Nowhere => offset >= Start(runs, bpc, |runs|)
    ensures forall k, start :: 0 <= k && Holds(runs, bpc, k, start, offset) ==>
              Find(runs, bpc, offset) == InRun(k, start)
  {
    LocateIs(runs, bpc, offset, 0, 0);
  }

  /** The byte of the stream at an offset: zero in a hole, otherwise from the disk. */
  function ByteAt(runs: seq<Run>, bpc: nat, disk: seq<byte>, offset: nat): byte
    requires AllOnDisk(runs, bpc, |disk|)
  {
    FindIs(runs, bpc, offset);
    match Find(runs, bpc, offset)
    case Nowhere => 0
    case InRun(k, start) => RunByte(runs[k], bpc, disk, offset - start)
  }

  function RunByte(r: Run, bpc: nat, disk: seq<byte>, inner: nat): byte
    requires OnDisk(r, bpc, |disk|) && inner < Size(r, bpc)
  {
    if ReadsAsSparse(r) then 0 else disk[DiskStart(r, bpc) + inner]
  }

  /** Clusters before run i. */
  function ClustersBefore(runs: seq<Run>, i: nat): nat
    requires i <= |runs|
  {
    if i == 0 then 0 else ClustersBefore(runs, i - 1) + runs[i - 1].len
  }

  lemma {:induction false} StartIsClusters(runs: seq<Run>, bpc: nat, i: nat)
    requires i <= |runs|
    ensures Start(runs, bpc, i) == ClustersBefore(runs, i) * bpc
    decreases i
  {
    if i > 0 {
      StartIsClusters(runs, bpc, i - 1);
    }
  }

  lemma Below(c: nat, len: nat, bpc: nat, x: nat)
    requires c < len && x < bpc
    ensures c * bpc + x < len * bpc
  {
    FactorLess(bpc, c, len);
  }

  /** Cluster by cluster: byte x of the c-th cluster of a run is byte x of the c-th cluster from where the
      run lies on the disk, and zero in a hole. */
  lemma ByteOfCluster(runs: seq<Run>, bpc: nat, disk: seq<byte>, k: nat, c: nat, x: nat)
    requires AllOnDisk(runs, bpc, |disk|) && k < |runs| && c < runs[k].len && x < bpc
    ensures var r, b := runs[k], ByteAt(runs, bpc, disk, (ClustersBefore(runs, k) + c) * bpc + x);
            && (r.lbn == -1 ==> b == 0)
            && (r.lbn != -1 ==> r.lbn >= 0 && 0 <= (r.lbn + c) * bpc + x < |disk| && b == disk[(r.lbn + c) * bpc + x])
  {
    var first, inner := ClustersBefore(runs, k), c * bpc + x;
    StartIsClusters(runs, bpc, k);
    Below(c, runs[k].len, bpc, x);
    assert (first + c) * bpc + x == first * bpc + inner;
    var o := (first + c) * bpc + x;
    FindIs(runs, bpc, o);
    assert Holds(runs, bpc, k, first * bpc, o);
    assert OnDisk(runs[k], bpc, |disk|);
    if runs[k].lbn != -1 {
      assert (runs[k].lbn + c) * bpc + x == runs[k].lbn * bpc + inner;
    }
    hide Find;
  }

  function Total(runs: seq<Run>, bpc: nat): nat {
    Start(runs, bpc, |runs|)
  }

  // ---------------------------------------------------------------- reading

  function Min(a: nat, b: nat): nat {
    if a < b then a else b
  }

  /** The cursor-free read: run by run from the one that holds the offset, until the request or
      the list is used up. */
  function ReadFrom(runs: seq<Run>, bpc: nat, disk: seq<byte>, offset: nat, length: nat): (r: seq<byte>)
    requires AllOnDisk(runs, bpc, |disk|)
    decreases length
  {
    if length == 0 then []
    else
      FindIs(runs, bpc, offset);
      match Find(runs, bpc, offset)
      case Nowhere => []
      case InRun(k, start) =>
        var take := Min(start + Size(runs[k], bpc) - offset, length);
        RunBytes(runs[k], bpc, disk, offset - start, take) + ReadFrom(runs, bpc, disk, offset + take, length - take)
  }

  function RunBytes(r: Run, bpc: nat, disk: seq<byte>, inner: nat, n: nat): (s: seq<byte>)
    requires OnDisk(r, bpc, |disk|) && inner + n <= Size(r, bpc)
    ensures |s| == n
  {
    if ReadsAsSparse(r) then seq(n, _ => 0)
    else disk[DiskStart(r, bpc) + inner..DiskStart(r, bpc) + inner + n]
  }

  lemma RunBytesAre(runs: seq<Run>, bpc: nat, disk: seq<byte>, k: nat, start: nat, inner: nat, n: nat)
    requires AllOnDisk(runs, bpc, |disk|) && k < |runs| && start == Start(runs, bpc, k)
    requires inner + n <= Size(runs[k], bpc)
    ensures forall j :: 0 <= j < n ==>
              RunBytes(runs[k], bpc, disk, inner, n)[j] == ByteAt(runs, bpc, disk, start + inner + j)
  {
    hide Size, DiskStart;
    forall j | 0 <= j < n
      ensures RunBytes(runs[k], bpc, disk, inner, n)[j] == ByteAt(runs, bpc, disk, start + inner + j) {
      FindIs(runs, bpc, start + inner + j);
      assert Holds(runs, bpc, k, start, start + inner + j);
    }
  }

  /** One turn of a read: the bytes of one run, then the rest. */
  lemma ReadUnfolds(runs: seq<Run>, bpc: nat, disk: seq<byte>, offset: nat, length: nat, k: nat, start: nat)
    requires AllOnDisk(runs, bpc, |disk|) && length > 0 && Find(runs, bpc, offset) == InRun(k, start)
    ensures Holds(runs, bpc, k, start, offset)
    ensures var take := Min(start + Size(runs[k], bpc) - offset, length);
            var r := ReadFrom(runs, bpc, disk, offset, length);
            && 0 < take <= |r| && r[..take] == RunBytes(runs[k], bpc, disk, offset - start, take)
            && r[take..] == ReadFrom(runs, bpc, disk, offset + take, length - take)
  {
    FindIs(runs, bpc, offset);
    hide Size, DiskStart, RunBytes, Find;
  }

  lemma NothingThere(runs: seq<Run>, bpc: nat, disk: seq<byte>, offset: nat, length: nat)
    requires AllOnDisk(runs, bpc, |disk|)
    ensures length == 0 || Find(runs, bpc, offset) == Nowhere ==> ReadFrom(runs, bpc, disk, offset, length) == []
    ensures Find(runs, bpc, offset) == Nowhere ==> offset >= Total(runs, bpc)
  {
    FindIs(runs, bpc, offset);
    hide Find;
  }

  /** A read returns the stream's bytes from the offset on, as many as there are up to the length. */
  lemma {:induction false} ReadIsStream(runs: seq<Run>, bpc: nat, disk: seq<byte>, offset: nat, length: nat)
    requires AllOnDisk(runs, bpc, |disk|)
    ensures var r := ReadFrom(runs, bpc, disk, offset, length);
            && |r| == (if offset >= Total(runs, bpc) then 0 else Min(Total(runs, bpc) - offset, length))
            && forall j :: 0 <= j < |r| ==> r[j] == ByteAt(runs, bpc, disk, offset + j)
    decreases length
  {
    hide Size, DiskStart, ByteAt, RunBytes, ReadFrom, Find;
    NothingThere(runs, bpc, disk, offset, length);
    if length > 0 && Find(runs, bpc, offset).InRun? {
      var InRun(k, start) := Find(runs, bpc, offset);
      ReadUnfolds(runs, bpc, disk, offset, length, k, start);
      var take := Min(start + Size(runs[k], bpc) - offset, length);
      StartsGrow(runs, bpc, k + 1, |runs|);
      RunBytesAre(runs, bpc, disk, k, start, offset - start, take);
      ReadIsStream(runs, bpc, disk, offset + take, length - take);
      var r := ReadFrom(runs, bpc, disk, offset, length);
      forall j | 0 <= j < |r| ensures r[j] == ByteAt(runs, bpc, disk, offset + j) {
        if j < take {
          assert r[j] == r[..take][j];
        } else {
          assert r[j] == r[take..][j - take];
        }
      }
    }
  }

  /** The cursor of an attribute context means something only while it points at a run. */
  class AttrContext {
    const runs: seq<Run>
    var cacheIdx: nat
    var cacheOffset: nat

    ghost predicate Valid(bpc: nat)
      reads this
    {
      cacheIdx <= |runs| && (cacheIdx < |runs| ==> cacheOffset == Start(runs, bpc, cacheIdx))
    }

    constructor (runs: seq<Run>)
      ensures this.runs == runs && forall bpc: nat :: Valid(bpc)
    {
      this.runs := runs;
      cacheIdx, cacheOffset := 0, 0;
    }

    /** Move the cursor to the run that holds the offset; off the list when none does. */
    method Seek(bpc: nat, offset: nat)
      requires Valid(bpc)
      modifies this
      ensures Valid(bpc)
      ensures cacheIdx < |runs| ==> Find(runs, bpc, offset) == InRun(cacheIdx, cacheOffset)
      ensures cacheIdx >= |runs| ==> Find(runs, bpc, offset) == Nowhere
    {
      hide Size;
      FindIs(runs, bpc, offset);
      if cacheIdx < |runs| {
        if offset < cacheOffset || offset >= cacheOffset + Size(runs[cacheIdx], bpc) {
          cacheIdx := |runs|;
        }
      }
      while cacheIdx < |runs|
        invariant Valid(bpc)
        invariant cacheIdx < |runs| ==> cacheOffset <= offset
        invariant cacheIdx <= |runs|
      {
        if offset < cacheOffset + Size(runs[cacheIdx], bpc) {
          break;
        }
        cacheOffset := cacheOffset + Size(runs[cacheIdx], bpc);
        cacheIdx := cacheIdx + 1;
      }
      if cacheIdx >= |runs| {
        var scan, i := 0, 0;
        while i < |runs|
          invariant i <= |runs| && cacheIdx >= |runs|
          invariant scan == Start(runs, bpc, i) && Locate(runs, bpc, offset, i, scan) == Find(runs, bpc, offset)
        {
          var bytes := Size(runs[i], bpc);
          if offset < scan + bytes {
            cacheIdx, cacheOffset := i, scan;
            break;
          }
          scan := scan + bytes;
          i := i + 1;
        }
      }
    }

    /** Copy n bytes of a run into the buffer. */
    method CopyRun(bpc: nat, disk: seq<byte>, r: Run, inner: nat, buffer: array<byte>, at: nat, n: nat)
      requires OnDisk(r, bpc, |disk|) && inner + n <= Size(r, bpc) && at + n <= buffer.Length
      modifies buffer
      ensures forall j :: at <= j < at + n ==> buffer[j] == RunBytes(r, bpc, disk, inner, n)[j - at]
      ensures forall j :: 0 <= j < at || at + n <= j < buffer.Length ==> buffer[j] == old(buffer[j])
    {
      hide Size, DiskStart;
      if r.lbn == -1 {
        forall j | 0 <= j < n {
          buffer[at + j] := 0;
        }
      } else {
        var pos := DiskStart(r, bpc) + inner;
        forall j | 0 <= j < n {
          buffer[at + j] := disk[pos + j];
        }
      }
    }

    /** Read up to the end of the run that holds the offset; nothing when no run does. */
    method ReadPiece(bpc: nat, disk: seq<byte>, pos: nat, buffer: array<byte>, at: nat, left: nat)
      returns (take: nat)
      requires Valid(bpc) && AllOnDisk(runs, bpc, |disk|) && at + left <= buffer.Length && left > 0
      modifies this, buffer
      ensures Valid(bpc) && take <= left
      ensures forall j :: 0 <= j < at || at + take <= j < buffer.Length ==> buffer[j] == old(buffer[j])
      ensures take == 0 ==> ReadFrom(runs, bpc, disk, pos, left) == []
      ensures take > 0 ==>
                var whole := ReadFrom(runs, bpc, disk, pos, left);
                && take <= |whole| && whole[take..] == ReadFrom(runs, bpc, disk, pos + take, left - take)
                && forall j :: at <= j < at + take ==> buffer[j] == whole[j - at]
    {
      hide Size, DiskStart, RunBytes, Find, ReadFrom;
      Seek(bpc, pos);
      if cacheIdx >= |runs| {
        NothingThere(runs, bpc, disk, pos, left);
        return 0;
      }
      ReadUnfolds(runs, bpc, disk, pos, left, cacheIdx, cacheOffset);
      var inner := pos - cacheOffset;
      var size := Size(runs[cacheIdx], bpc);
      take := Min(size - inner, left);
      CopyRun(bpc, disk, runs[cacheIdx], inner, buffer, at, take);
      ghost var whole, chunk := ReadFrom(runs, bpc, disk, pos, left), RunBytes(runs[cacheIdx], bpc, disk, inner, take);
      assert whole[..take] == chunk;
      if inner + take == size {
        cacheOffset := cacheOffset + size;
        cacheIdx := cacheIdx + 1;
      }
    }

    /** The bytes read are those of the cursor-free read, whatever the cursor was. */
    method ReadAttr(bpc: nat, disk: seq<byte>, offset: nat, buffer: array<byte>, length: nat) returns (n: nat)
      requires Valid(bpc) && AllOnDisk(runs, bpc, |disk|) && length <= buffer.Length
      modifies this, buffer
      ensures Valid(bpc)
      ensures var r := ReadFrom(runs, bpc, disk, offset, length);
              && n == |r| && n <= length
              && (forall j :: 0 <= j < n ==> buffer[j] == r[j])
              && forall j :: n <= j < buffer.Length ==> buffer[j] == old(buffer[j])
    {
      hide ReadFrom, AllOnDisk;
      ghost var whole := ReadFrom(runs, bpc, disk, offset, length);
      var pos, left := offset, length;
      n := 0;
      while left > 0
        invariant Valid(bpc) && n + left == length
        invariant n <= |whole| && whole[n..] == ReadFrom(runs, bpc, disk, pos, left)
        invariant forall j :: 0 <= j < n ==> buffer[j] == whole[j]
        invariant forall j :: n <= j < buffer.Length ==> buffer[j] == old(buffer[j])
        decreases left
      {
        ghost var tail := whole[n..];
        var take := ReadPiece(bpc, disk, pos, buffer, n, left);
        if take == 0 {
          return;
        }
        forall j | n <= j < n + take ensures buffer[j] == whole[j] {
          assert whole[j] == tail[j - n];
        }
        assert whole[n + take..] == tail[take..];
        pos, n, left := pos + take, n + take, left - take;
      }
      NothingThere(runs, bpc, disk, pos, 0);
    }
  }

  // ---------------------------------------------------------------- writing

  function Overwrite(disk: seq<byte>, pos: nat, data: seq<byte>): (r: seq<byte>)
    requires pos + |data| <= |disk|
    ensures |r| == |disk|
    ensures forall q :: 0 <= q < |disk| ==> r[q] == if pos <= q < pos + |data| then data[q - pos] else disk[q]
  {
    disk[..pos] + data + disk[pos + |data|..]
  }

  /** The in-place write: run by run, stopping at a hole or past the last run. */
  function WriteFrom(runs: seq<Run>, bpc: nat, disk: seq<byte>, offset: nat, data: seq<byte>): (r: (nat, seq<byte>))
    requires AllOnDisk(runs, bpc, |disk|)
    ensures r.0 <= |data| && |r.1| == |disk|
    decreases |data|
  {
    if |data| == 0 then (0, disk)
    else
      FindIs(runs, bpc, offset);
      match Find(runs, bpc, offset)
      case Nowhere => (0, disk)
      case InRun(k, start) =>
        if ReadsAsSparse(runs[k]) then (0, disk)
        else
          var take := Min(start + Size(runs[k], bpc) - offset, |data|);
          var written := Overwrite(disk, DiskStart(runs[k], bpc) + (offset - start), data[..take]);
          var rest := WriteFrom(runs, bpc, written, offset + take, data[take..]);
          (take + rest.0, rest.1)
  }

  /** No two real runs share a byte of the disk. */
  predicate Disjoint(runs: seq<Run>, bpc: nat)
    requires forall i :: 0 <= i < |runs| ==> ReadsAsSparse(runs[i]) || runs[i].lbn >= 0
  {
    forall i, j :: 0 <= i < |runs| && 0 <= j < |runs| && i != j
                   && !ReadsAsSparse(runs[i]) && !ReadsAsSparse(runs[j]) ==>
      DiskStart(runs[i], bpc) + Size(runs[i], bpc) <= DiskStart(runs[j], bpc)
      || DiskStart(runs[j], bpc) + Size(runs[j], bpc) <= DiskStart(runs[i], bpc)
  }

  /** The offset falls into a hole. */
  predicate InHole(runs: seq<Run>, bpc: nat, offset: nat) {
    FindIs(runs, bpc, offset);
    match Find(runs, bpc, offset)
    case Nowhere => false
    case InRun(k, _) => ReadsAsSparse(runs[k])
  }

  /** A byte of the disk that belongs to no real run. */
  predicate OffRuns(runs: seq<Run>, bpc: nat, q: nat)
    requires forall i :: 0 <= i < |runs| ==> ReadsAsSparse(runs[i]) || runs[i].lbn >= 0
  {
    forall i :: 0 <= i < |runs| && !ReadsAsSparse(runs[i]) ==>
      q < DiskStart(runs[i], bpc) || DiskStart(runs[i], bpc) + Size(runs[i], bpc) <= q
  }

  /** Overwriting part of one run changes exactly those offsets of the stream. */
  lemma OverwriteInRun(runs: seq<Run>, bpc: nat, disk: seq<byte>, k: nat, start: nat, offset: nat, data: seq<byte>,
                       o: nat)
    requires AllOnDisk(runs, bpc, |disk|) && Disjoint(runs, bpc)
    requires Holds(runs, bpc, k, start, offset) && !ReadsAsSparse(runs[k])
    requires offset + |data| <= start + Size(runs[k], bpc)
    ensures var written := Overwrite(disk, DiskStart(runs[k], bpc) + (offset - start), data);
            ByteAt(runs, bpc, written, o) ==
            if offset <= o < offset + |data| then data[o - offset] else ByteAt(runs, bpc, disk, o)
  {
    FindIs(runs, bpc, o);
    hide Size, DiskStart, Find, Overwrite;
    if offset <= o < offset + |data| {
      assert Holds(runs, bpc, k, start, o);
    } else if Find(runs, bpc, o).InRun? {
      var InRun(j, at) := Find(runs, bpc, o);
      assert j == k ==> at == start;
    }
  }

  /** One turn of a write into a real run. */
  lemma WriteUnfolds(runs: seq<Run>, bpc: nat, disk: seq<byte>, offset: nat, data: seq<byte>, k: nat, start: nat)
    requires AllOnDisk(runs, bpc, |disk|) && |data| > 0 && Find(runs, bpc, offset) == InRun(k, start)
    ensures Holds(runs, bpc, k, start, offset)
    ensures ReadsAsSparse(runs[k]) ==> WriteFrom(runs, bpc, disk, offset, data) == (0, disk)
    ensures !ReadsAsSparse(runs[k]) ==>
              var take := Min(start + Size(runs[k], bpc) - offset, |data|);
              && 0 < take && DiskStart(runs[k], bpc) + (offset - start) + take <= |disk|
              && var rest := WriteFrom(runs, bpc,
                   Overwrite(disk, DiskStart(runs[k], bpc) + (offset - start), data[..take]),
                   offset + take, data[take..]);
                 WriteFrom(runs, bpc, disk, offset, data) == (take + rest.0, rest.1)
  {
    FindIs(runs, bpc, offset);
    hide Size, DiskStart, Find, Overwrite;
  }

  lemma NothingWritten(runs: seq<Run>, bpc: nat, disk: seq<byte>, offset: nat, data: seq<byte>)
    requires AllOnDisk(runs, bpc, |disk|) && (|data| == 0 || Find(runs, bpc, offset) == Nowhere)
    ensures WriteFrom(runs, bpc, disk, offset, data) == (0, disk)
    ensures Find(runs, bpc, offset) == Nowhere ==> offset >= Total(runs, bpc)
  {
    FindIs(runs, bpc, offset);
    hide Find;
  }

  /** After a write a read sees exactly the bytes it reported written, and all others unchanged. */
  lemma {:induction false} ReadSeesWrite(runs: seq<Run>, bpc: nat, disk: seq<byte>, offset: nat, data: seq<byte>,
                                         o: nat)
    requires AllOnDisk(runs, bpc, |disk|) && Disjoint(runs, bpc)
    ensures var (n, after) := WriteFrom(runs, bpc, disk, offset, data);
            ByteAt(runs, bpc, after, o) ==
            if offset <= o < offset + n then data[o - offset] else ByteAt(runs, bpc, disk, o)
    decreases |data|
  {
    hide Size, DiskStart, ByteAt, Find, Overwrite, WriteFrom, Disjoint;
    if |data| == 0 || Find(runs, bpc, offset) == Nowhere {
      NothingWritten(runs, bpc, disk, offset, data);
    } else {
      var InRun(k, start) := Find(runs, bpc, offset);
      WriteUnfolds(runs, bpc, disk, offset, data, k, start);
      if !ReadsAsSparse(runs[k]) {
        var take := Min(start + Size(runs[k], bpc) - offset, |data|);
        var written := Overwrite(disk, DiskStart(runs[k], bpc) + (offset - start), data[..take]);
        OverwriteInRun(runs, bpc, disk, k, start, offset, data[..take], o);
        ReadSeesWrite(runs, bpc, written, offset + take, data[take..], o);
      }
    }
  }

  /** A byte of the disk that belongs to no real run is never touched. */
  lemma {:induction false} WriteStaysInRuns(runs: seq<Run>, bpc: nat, disk: seq<byte>, offset: nat, data: seq<byte>,
                                            q: nat)
    requires AllOnDisk(runs, bpc, |disk|) && q < |disk| && OffRuns(runs, bpc, q)
    ensures WriteFrom(runs, bpc, disk, offset, data).1[q] == disk[q]
    decreases |data|
  {
    hide Size, DiskStart, Find, Overwrite, WriteFrom;
    if |data| == 0 || Find(runs, bpc, offset) == Nowhere {
      NothingWritten(runs, bpc, disk, offset, data);
    } else {
      var InRun(k, start) := Find(runs, bpc, offset);
      WriteUnfolds(runs, bpc, disk, offset, data, k, start);
      if !ReadsAsSparse(runs[k]) {
        var take := Min(start + Size(runs[k], bpc) - offset, |data|);
        var written := Overwrite(disk, DiskStart(runs[k], bpc) + (offset - start), data[..take]);
        WriteStaysInRuns(runs, bpc, written, offset + take, data[take..], q);
      }
    }
  }

  /** A write goes on until its data is used up, a hole begins, or the last run ends. */
  lemma {:induction false} WriteStops(runs: seq<Run>, bpc: nat, disk: seq<byte>, offset: nat, data: seq<byte>, o: nat)
    requires AllOnDisk(runs, bpc, |disk|)
    ensures var n := WriteFrom(runs, bpc, disk, offset, data).0;
            && (n < |data| ==> InHole(runs, bpc, offset + n) || offset + n >= Total(runs, bpc))
            && (offset <= o < offset + n ==> !InHole(runs, bpc, o) && o < Total(runs, bpc))
    decreases |data|
  {
    hide Size, DiskStart, Overwrite, WriteFrom, Find;
    if |data| == 0 || Find(runs, bpc, offset) == Nowhere {
      NothingWritten(runs, bpc, disk, offset, data);
    } else {
      var InRun(k, start) := Find(runs, bpc, offset);
      WriteUnfolds(runs, bpc, disk, offset, data, k, start);
      if !ReadsAsSparse(runs[k]) {
        var take := Min(start + Size(runs[k], bpc) - offset, |data|);
        var written := Overwrite(disk, DiskStart(runs[k], bpc) + (offset - start), data[..take]);
        WriteStops(runs, bpc, written, offset + take, data[take..], o);
        StartsGrow(runs, bpc, k + 1, |runs|);
        if offset <= o < offset + take {
          FindIs(runs, bpc, o);
          assert Holds(runs, bpc, k, start, o);
        }
      }
    }
  }

  /** Reading back what a write reported written returns the data. */
  lemma ReadAfterWrite(runs: seq<Run>, bpc: nat, disk: seq<byte>, offset: nat, data: seq<byte>)
    requires AllOnDisk(runs, bpc, |disk|) && Disjoint(runs, bpc)
    ensures var (n, after) := WriteFrom(runs, bpc, disk, offset, data);
            ReadFrom(runs, bpc, after, offset, n) == data[..n]
  {
    hide ReadFrom, WriteFrom, ByteAt, InHole, Total, Disjoint;
    var (n, after) := WriteFrom(runs, bpc, disk, offset, data);
    ReadIsStream(runs, bpc, after, offset, n);
    if n > 0 {
      WriteStops(runs, bpc, disk, offset, data, offset + n - 1);
    }
    var r := ReadFrom(runs, bpc, after, offset, n);
    forall j | 0 <= j < |r| ensures r[j] == data[j] {
      ReadSeesWrite(runs, bpc, disk, offset, data, offset + j);
    }
  }

  /** The scan of a write, from the first run each time. */
  method ScanRuns(runs: seq<Run>, bpc: nat, offset: nat) returns (place: Place)
    ensures place == Find(runs, bpc, offset)
  {
    hide Size;
    var scan, i := 0, 0;
    while i < |runs|
      invariant i <= |runs| && Locate(runs, bpc, offset, i, scan) == Find(runs, bpc, offset)
    {
      var bytes := Size(runs[i], bpc);
      if offset < scan + bytes {
        return InRun(i, scan);
      }
      scan := scan + bytes;
      i := i + 1;
    }
    return Nowhere;
  }

  method WriteDisk(disk: array<byte>, pos: nat, data: seq<byte>)
    requires pos + |data| <= disk.Length
    modifies disk
    ensures disk[..] == Overwrite(old(disk[..]), pos, data)
  {
    forall j | 0 <= j < |data| {
      disk[pos + j] := data[j];
    }
  }

  method WriteAttr(runs: seq<Run>, bpc: nat, disk: array<byte>, offset: nat, data: seq<byte>) returns (n: nat)
    requires AllOnDisk(runs, bpc, disk.Length)
    modifies disk
    ensures (n, disk[..]) == WriteFrom(runs, bpc, old(disk[..]), offset, data)
  {
    hide Size, DiskStart, Overwrite, WriteFrom, Find;
    ghost var whole := WriteFrom(runs, bpc, disk[..], offset, data);
    var pos := offset;
    n := 0;
    while n < |data|
      invariant n <= |data| && pos == offset + n
      invariant var rest := WriteFrom(runs, bpc, disk[..], pos, data[n..]); whole == (n + rest.0, rest.1)
      decreases |data| - n
    {
      var place := ScanRuns(runs, bpc, pos);
      if place == Nowhere {
        NothingWritten(runs, bpc, disk[..], pos, data[n..]);
        return;
      }
      var InRun(k, start) := place;
      WriteUnfolds(runs, bpc, disk[..], pos, data[n..], k, start);
      if runs[k].lbn == -1 {
        return;
      }
      var take := Min(start + Size(runs[k], bpc) - pos, |data| - n);
      assert data[n..][..take] == data[n..n + take] && data[n..][take..] == data[n + take..];
      WriteDisk(disk, DiskStart(runs[k], bpc) + (pos - start), data[n..n + take]);
      pos, n := pos + take, n + take;
    }
    NothingWritten(runs, bpc, disk[..], pos, data[n..]);
  }
}
