/** Data runs, the compact "mapping pairs" stream that says where an attribute's clusters lie
    (src/ntfs_runlist.c): the decoder, the stream-length scan and the encoder. */
module RunList {
  import opened Arith
  import opened ByteData

  const TWO_63 := 0x8000_0000_0000_0000
  const TWO_64 := 0x1_0000_0000_0000_0000
  const ATTR_MIN_HEADER := 24

  datatype Status = Success | VolumeCorrupted | BufferTooSmall

  /** One extent of the decoded list; an lbn of -1 is what later layers take for a hole. */
  datatype Run = Run(vbn: nat, lbn: int, len: nat)

  predicate ReadsAsSparse(r: Run) {
    r.lbn == -1
  }

  /** An attribute record: the header fields this file looks at, and all `Length` bytes. */
  datatype AttrRecord = AttrRecord(nonResident: bool, mappingPairsOffset: nat, lowestVcn: nat, bytes: seq<byte>)

  // ---------------------------------------------------------------- numbers in bytes

  function Pow256(n: nat): (p: nat)
    ensures p >= 1
  {
    if n == 0 then 1 else 256 * Pow256(n - 1)
  }

  /** Little-endian unsigned value. */
  function Unsigned(s: seq<byte>): (v: nat)
    ensures v < Pow256(|s|)
  {
    if s == [] then 0 else s[0] + 256 * Unsigned(s[1..])
  }

  /** Little-endian two's complement value. */
  function Signed(s: seq<byte>): int
    requires s != []
  {
    if s[|s| - 1] < 128 then Unsigned(s) else Unsigned(s) - Pow256(|s|)
  }

  /** 64-bit two's complement wrap-around. */
  function Wrap(v: int): (w: int)
    ensures -TWO_63 <= w < TWO_63
  {
    (v + TWO_63) % TWO_64 - TWO_63
  }

  /** Block numbers are unsigned 64-bit and wrap. */
  function NextVbn(vbn: nat, len: nat): nat {
    (vbn + len) % TWO_64
  }

  lemma Pow256Values()
    ensures Pow256(0) == 1 && Pow256(1) == 0x100 && Pow256(2) == 0x1_0000 && Pow256(3) == 0x100_0000
    ensures Pow256(4) == 0x1_0000_0000 && Pow256(5) == 0x100_0000_0000 && Pow256(6) == 0x1_0000_0000_0000
    ensures Pow256(7) == 0x100_0000_0000_0000 && Pow256(8) == TWO_64
  {
    assert Pow256(3) == 256 * Pow256(2);
    assert Pow256(5) == 256 * Pow256(4) && Pow256(6) == 256 * Pow256(5);
    assert Pow256(7) == 256 * Pow256(6) && Pow256(8) == 256 * Pow256(7);
  }

  lemma SplitDivision(v: int, p: nat)
    requires p >= 1
    ensures v % (256 * p) == v % 256 + 256 * (v / 256 % p)
    ensures v / (256 * p) == v / 256 / p
  {
    var q, r := v / 256 / p, v / 256 % p;
    assert v / 256 == p * q + r;
    assert 256 * r <= 256 * (p - 1);
    assert v == (256 * p) * q + (v % 256 + 256 * r);
    DivisionIsUnique(v, 256 * p, q, v % 256 + 256 * r);
  }

  lemma {:induction false} UnsignedOfBytes(v: int, n: nat)
    ensures Unsigned(Bytes(v, n)) == v % Pow256(n)
    decreases n
  {
    if n > 0 {
      UnsignedOfBytes(v / 256, n - 1);
      var s := Bytes(v, n);
      assert s[0] == v % 256 && s[1..] == Bytes(v / 256, n - 1);
      SplitDivision(v, Pow256(n - 1));
    }
  }

  lemma {:induction false} ByteAt(v: int, n: nat, i: nat)
    requires i < n
    ensures Bytes(v, n)[i] == v / Pow256(i) % 256
    decreases n
  {
    if i > 0 {
      ByteAt(v / 256, n - 1, i - 1);
      SplitDivision(v, Pow256(i - 1));
    }
  }

  predicate FitsSigned(v: int, n: nat)
    requires n >= 1
  {
    -128 * Pow256(n - 1) <= v < 128 * Pow256(n - 1)
  }

  lemma SignedRange(v: int, p: nat)
    requires p >= 1 && -128 * p <= v < 128 * p
    ensures -128 <= v / p < 128 && (v / p >= 0 <==> v >= 0)
    ensures v % (256 * p) == if v >= 0 then v else v + 256 * p
  {
    var top, rest := v / p, v % p;
    assert v == p * top + rest;
    CancelFactor(p, top, 128);
    CancelFactor(p, -129, top);
    if v >= 0 {
      CancelFactor(p, -1, top);
      DivisionIsUnique(v, 256 * p, 0, v);
    } else {
      CancelFactor(p, top, 0);
      DivisionIsUnique(v, 256 * p, -1, v + 256 * p);
    }
  }

  /** Sign extension recovers every value that fits. */
  lemma SignedOfBytes(v: int, n: nat)
    requires n >= 1 && FitsSigned(v, n)
    ensures Signed(Bytes(v, n)) == v
  {
    UnsignedOfBytes(v, n);
    ByteAt(v, n, n - 1);
    SignedRange(v, Pow256(n - 1));
  }

  lemma {:induction false} UnsignedAppend(s: seq<byte>, b: byte)
    ensures Unsigned(s + [b]) == Unsigned(s) + b * Pow256(|s|)
  {
    if s != [] {
      UnsignedAppend(s[1..], b);
      assert (s + [b])[1..] == s[1..] + [b];
      MulAssoc(b, Pow256(|s| - 1));
    }
  }

  lemma MulAssoc(b: int, p: int)
    ensures 256 * (b * p) == b * (256 * p)
  {
  }

  // ---------------------------------------------------------------- one entry

  datatype Entry = Bad | Entry(next: nat, offset: int, len: nat, sparse: bool)

  function DecodeEntry(s: seq<byte>, pos: nat, end: nat): (e: Entry)
    requires pos < end <= |s|
    ensures e.Entry? ==> pos < e.next <= end
  {
    var lenBytes, offBytes := s[pos] % 16, s[pos] / 16;
    if lenBytes > 8 || offBytes > 8 || pos + 1 + lenBytes + offBytes > end then Bad
    else
      var mid := pos + 1 + lenBytes;
      Entry(mid + offBytes, if offBytes == 0 then 0 else Signed(s[mid..mid + offBytes]),
            Unsigned(s[pos + 1..mid]), offBytes == 0)
  }

  lemma OneByteMore(s: seq<byte>, from: nat, i: nat)
    requires from + i < |s|
    ensures Unsigned(s[from..from + i + 1]) == Unsigned(s[from..from + i]) + s[from + i] * Pow256(i)
  {
    hide Unsigned, Pow256;
    UnsignedAppend(s[from..from + i], s[from + i]);
    assert s[from..from + i] + [s[from + i]] == s[from..from + i + 1];
  }

  lemma NoBytes(s: seq<byte>, from: nat)
    requires from <= |s|
    ensures Unsigned(s[from..from]) == 0
  {
  }

  /** Bytes are or-ed into place one after the other; no two overlap, so `|` is `+` here. */
  method Accumulate(s: seq<byte>, from: nat, count: nat) returns (v: nat)
    requires from + count <= |s|
    ensures v == Unsigned(s[from..from + count])
  {
    hide *;
    v := 0;
    NoBytes(s, from);
    for i := 0 to count
      invariant v == Unsigned(s[from..from + i])
    {
      OneByteMore(s, from, i);
      v := v + s[from + i] * Pow256(i);
    }
  }

  lemma TopArithmetic(top: int, p: int, low: int)
    ensures top * p + low - 256 * p == (top - 256) * p + low
  {
  }

  lemma SignedIs(field: seq<byte>, n: nat)
    requires |field| == n + 1
    ensures Signed(field) == if field[n] < 128 then Unsigned(field) else Unsigned(field) - 256 * Pow256(n)
  {
    hide Unsigned;
    assert Pow256(n + 1) == 256 * Pow256(n);
  }

  lemma TopByte(s: seq<byte>, from: nat, n: nat)
    requires from + n < |s|
    ensures var top: int := s[from + n];
            Signed(s[from..from + n + 1])
            == (if top < 128 then top else top - 256) * Pow256(n) + Unsigned(s[from..from + n])
  {
    hide *;
    OneByteMore(s, from, n);
    SignedIs(s[from..from + n + 1], n);
    TopArithmetic(s[from + n], Pow256(n), Unsigned(s[from..from + n]));
  }

  /** The low bytes as above; the top one is taken as signed, shifted over them and added. */
  method SignExtend(s: seq<byte>, from: nat, count: nat) returns (v: int)
    requires 1 <= count && from + count <= |s|
    ensures v == Signed(s[from..from + count])
  {
    hide *;
    TopByte(s, from, count - 1);
    var low := Accumulate(s, from, count - 1);
    var top: int := s[from + count - 1];
    v := (if top < 128 then top else top - 256) * Pow256(count - 1) + low;
  }

  method DecodeRunEntry(s: seq<byte>, pos: nat, end: nat) returns (e: Entry)
    requires pos < end <= |s|
    ensures e == DecodeEntry(s, pos, end)
  {
    var lenBytes, offBytes := s[pos] % 16, s[pos] / 16;
    var sparse := offBytes == 0;
    if lenBytes > 8 || offBytes > 8 {
      return Bad;
    }
    if pos + 1 + lenBytes + offBytes > end {
      return Bad;
    }
    var mid := pos + 1 + lenBytes;
    var len := Accumulate(s, pos + 1, lenBytes);
    var offset: int := 0;
    if !sparse {
      offset := SignExtend(s, mid, offBytes);
    }
    e := Entry(mid + offBytes, offset, len, sparse);
  }

  /** Fewest bytes, at least one, that hold v with its sign bit. */
  function SignedWidth(v: int): (n: nat)
    ensures n >= 1
    decreases if v < 0 then -v else v
  {
    if -128 <= v < 128 then 1 else 1 + SignedWidth(v / 256)
  }

  /** That width fits, and no smaller one does. */
  lemma {:induction false} WidthIsLeast(v: int)
    ensures FitsSigned(v, SignedWidth(v))
    ensures SignedWidth(v) > 1 ==> !FitsSigned(v, SignedWidth(v) - 1)
    decreases if v < 0 then -v else v
  {
    if !(-128 <= v < 128) {
      WidthIsLeast(v / 256);
      NarrowerFits(v, SignedWidth(v));
      if SignedWidth(v) > 2 {
        NarrowerFits(v, SignedWidth(v) - 1);
      }
    }
  }

  lemma NarrowerFits(v: int, m: nat)
    requires m >= 2
    ensures FitsSigned(v, m) <==> FitsSigned(v / 256, m - 1)
  {
    assert Pow256(m - 1) == 256 * Pow256(m - 2);
  }

  // ---------------------------------------------------------------- the whole stream

  /** What decoding yields: the runs met before it stopped, where it stopped and why. */
  datatype Built = Built(status: Status, runs: seq<Run>, stop: nat)

  /** Decode from `pos`, with `lcn` the last real cluster number, `vbn` the next block of the
      attribute, and room for `room` more runs. */
  function Build(s: seq<byte>, pos: nat, lcn: int, vbn: nat, room: nat): Built
    decreases |s| - pos
  {
    if pos >= |s| || s[pos] == 0 then Built(Success, [], pos)
    else if room == 0 then Built(BufferTooSmall, [], pos)
    else
      match DecodeEntry(s, pos, |s|)
      case Bad => Built(VolumeCorrupted, [], pos)
      case Entry(next, offset, len, sparse) =>
        var lcn' := if sparse then lcn else Wrap(lcn + offset);
        var rest := Build(s, next, lcn', NextVbn(vbn, len), room - 1);
        Built(rest.status, [Run(vbn, if sparse then -1 else lcn', len)] + rest.runs, rest.stop)
  }

  lemma BuildStop(s: seq<byte>, pos: nat, lcn: int, vbn: nat, room: nat)
    ensures pos >= |s| || s[pos] == 0 ==> Build(s, pos, lcn, vbn, room) == Built(Success, [], pos)
    ensures pos < |s| && s[pos] != 0 && room == 0 ==> Build(s, pos, lcn, vbn, room) == Built(BufferTooSmall, [], pos)
    ensures pos < |s| && s[pos] != 0 && room > 0 && DecodeEntry(s, pos, |s|).Bad? ==>
              Build(s, pos, lcn, vbn, room) == Built(VolumeCorrupted, [], pos)
  {
    hide DecodeEntry, Wrap, NextVbn;
  }

  lemma BuildStep(s: seq<byte>, pos: nat, lcn: int, vbn: nat, room: nat, e: Entry, lcn': int)
    requires pos < |s| && s[pos] != 0 && room > 0 && e == DecodeEntry(s, pos, |s|) && e.Entry?
    requires lcn' == if e.sparse then lcn else Wrap(lcn + e.offset)
    ensures var rest := Build(s, e.next, lcn', NextVbn(vbn, e.len), room - 1);
            var b := Build(s, pos, lcn, vbn, room);
            && b.status == rest.status && b.stop == rest.stop
            && b.runs == [Run(vbn, if e.sparse then -1 else lcn', e.len)] + rest.runs
  {
    hide DecodeEntry, Wrap, NextVbn;
  }

  predicate HeaderOk(attr: AttrRecord) {
    attr.nonResident && |attr.bytes| >= ATTR_MIN_HEADER && attr.mappingPairsOffset < |attr.bytes|
  }

  function BuildAttr(attr: AttrRecord, maxRuns: nat): Built {
    if HeaderOk(attr) then Build(attr.bytes, attr.mappingPairsOffset, 0, attr.lowestVcn, maxRuns)
    else Built(VolumeCorrupted, [], 0)
  }

  /** Decoding yields `run` first and then whatever `next` is. */
  predicate Leads(whole: Built, run: Run, next: Built) {
    whole.status == next.status && whole.runs == [run] + next.runs
  }

  /** One turn of the decoding loop, up to storing the run. */
  method NextRun(s: seq<byte>, pos: nat, lcn: int, vbn: nat, ghost room: nat)
    returns (ok: bool, next: nat, lcn': int, run: Run)
    requires pos < |s| && s[pos] != 0 && room > 0
    ensures !ok ==> Build(s, pos, lcn, vbn, room) == Built(VolumeCorrupted, [], pos)
    ensures ok ==> pos < next <= |s| && run.vbn == vbn
    ensures ok ==> Leads(Build(s, pos, lcn, vbn, room), run, Build(s, next, lcn', NextVbn(vbn, run.len), room - 1))
  {
    hide Wrap, NextVbn, Signed, Unsigned;
    var e := DecodeRunEntry(s, pos, |s|);
    next, lcn', run := pos, lcn, Run(vbn, -1, 0);
    BuildStop(s, pos, lcn, vbn, room);
    if e.Bad? {
      return false, next, lcn', run;
    }
    if !e.sparse {
      lcn' := Wrap(lcn + e.offset);
    }
    BuildStep(s, pos, lcn, vbn, room, e, lcn');
    return true, e.next, lcn', Run(vbn, if e.sparse then -1 else lcn', e.len);
  }

  /** `count` runs of `all` are stored; `rest` is what decoding the remaining bytes yields. */
  ghost predicate Partial(runs: array<Run>, count: nat, all: Built, rest: Built)
    reads runs
  {
    && |all.runs| == count + |rest.runs| <= runs.Length && all.status == rest.status
    && (forall k :: 0 <= k < count ==> runs[k] == all.runs[k])
    && (forall k :: count <= k < |all.runs| ==> all.runs[k] == rest.runs[k - count])
  }

  method StoreRun(runs: array<Run>, count: nat, run: Run, ghost all: Built, ghost rest: Built, ghost next: Built)
    requires Partial(runs, count, all, rest)
    requires Leads(rest, run, next)
    modifies runs
    ensures Partial(runs, count + 1, all, next)
  {
    runs[count] := run;
    assert all.runs[count] == rest.runs[0] == run;
    forall k | count < k < |all.runs| ensures all.runs[k] == next.runs[k - count - 1] {
      assert rest.runs[k - count] == next.runs[k - count - 1];
    }
  }

  method BuildRunList(attr: AttrRecord, runs: array<Run>, maxRuns: nat) returns (status: Status, runCount: nat)
    requires maxRuns <= runs.Length
    modifies runs
    ensures var b := BuildAttr(attr, maxRuns);
            && status == b.status && |b.runs| <= maxRuns
            && (forall k :: 0 <= k < |b.runs| ==> runs[k] == b.runs[k])
            && runCount == if status == Success then |b.runs| else 0
  {
    if !attr.nonResident {
      return VolumeCorrupted, 0;
    }
    if |attr.bytes| < ATTR_MIN_HEADER || attr.mappingPairsOffset >= |attr.bytes| {
      return VolumeCorrupted, 0;
    }
    status, runCount := DecodeStream(attr.bytes, attr.mappingPairsOffset, attr.lowestVcn, runs, maxRuns);
  }

  /** The decoding loop. */
  method DecodeStream(s: seq<byte>, start: nat, lowestVcn: nat, runs: array<Run>, maxRuns: nat)
    returns (status: Status, runCount: nat)
    requires maxRuns <= runs.Length
    modifies runs
    ensures var all := Build(s, start, 0, lowestVcn, maxRuns);
            && status == all.status && |all.runs| <= maxRuns
            && (forall k :: 0 <= k < |all.runs| ==> runs[k] == all.runs[k])
            && runCount == if status == Success then |all.runs| else 0
  {
    hide *;
    var pos, lcn: int, vbn: nat, count: nat := start, 0, lowestVcn, 0;
    ghost var all := Build(s, pos, lcn, vbn, maxRuns);
    ghost var room: nat, rest := maxRuns, all;
    BuildFits(s, pos, lcn, vbn, maxRuns);
    PartialStart(runs, all);
    while pos < |s| && s[pos] != 0
      invariant room + count == maxRuns && rest == Build(s, pos, lcn, vbn, room)
      invariant Partial(runs, count, all, rest)
      decreases |s| - pos
    {
      BuildStop(s, pos, lcn, vbn, room);
      if count >= maxRuns {
        PartialEnd(runs, count, all, rest);
        return BufferTooSmall, 0;
      }
      var ok, run;
      ok, pos, lcn, run := NextRun(s, pos, lcn, vbn, room);
      if !ok {
        PartialEnd(runs, count, all, rest);
        return VolumeCorrupted, 0;
      }
      vbn := NextVbn(vbn, run.len);
      room := room - 1;
      ghost var next := Build(s, pos, lcn, vbn, room);
      StoreRun(runs, count, run, all, rest, next);
      count, rest := count + 1, next;
    }
    BuildStop(s, pos, lcn, vbn, room);
    PartialEnd(runs, count, all, rest);
    return Success, count;
  }

  lemma PartialStart(runs: array<Run>, all: Built)
    requires |all.runs| <= runs.Length
    ensures Partial(runs, 0, all, all)
  {
  }

  lemma PartialEnd(runs: array<Run>, count: nat, all: Built, rest: Built)
    requires Partial(runs, count, all, rest) && rest.runs == []
    ensures all.status == rest.status && |all.runs| == count
    ensures forall k :: 0 <= k < |all.runs| ==> runs[k] == all.runs[k]
  {
  }

  lemma {:induction false} BuildFits(s: seq<byte>, pos: nat, lcn: int, vbn: nat, room: nat)
    ensures |Build(s, pos, lcn, vbn, room).runs| <= room
    decreases |s| - pos
  {
    hide Build, Wrap, NextVbn, DecodeEntry;
    BuildStop(s, pos, lcn, vbn, room);
    if pos < |s| && s[pos] != 0 && room > 0 {
      var e := DecodeEntry(s, pos, |s|);
      if e.Entry? {
        var lcn' := if e.sparse then lcn else Wrap(lcn + e.offset);
        BuildStep(s, pos, lcn, vbn, room, e, lcn');
        BuildFits(s, e.next, lcn', NextVbn(vbn, e.len), room - 1);
      }
    }
  }

  /** Where the terminator stands when only the header nibbles are followed; None when a header
      is malformed or the attribute ends first. */
  datatype Stop = None | At(pos: nat)

  function PairsStop(s: seq<byte>, pos: nat): Stop
    decreases |s| - pos
  {
    if pos >= |s| then None
    else if s[pos] == 0 then At(pos)
    else if s[pos] % 16 > 8 || s[pos] / 16 > 8 then None
    else PairsStop(s, pos + 1 + s[pos] % 16 + s[pos] / 16)
  }

  method MappingPairsSize(attr: AttrRecord) returns (size: nat)
    ensures size > 0 <==> HeaderOk(attr) && PairsStop(attr.bytes, attr.mappingPairsOffset).At?
    ensures size > 0 ==> attr.mappingPairsOffset + size == PairsStop(attr.bytes, attr.mappingPairsOffset).pos + 1
  {
    if !attr.nonResident || |attr.bytes| < ATTR_MIN_HEADER || attr.mappingPairsOffset >= |attr.bytes| {
      return 0;
    }
    var s := attr.bytes;
    var pos := attr.mappingPairsOffset;
    while pos < |s| && s[pos] != 0
      invariant attr.mappingPairsOffset <= pos
      invariant PairsStop(s, pos) == PairsStop(s, attr.mappingPairsOffset)
      decreases |s| - pos
    {
      var lenBytes, offBytes := s[pos] % 16, s[pos] / 16;
      if lenBytes > 8 || offBytes > 8 {
        return 0;
      }
      pos := pos + 1 + lenBytes + offBytes;
    }
    if pos >= |s| {
      return 0;
    }
    return pos - attr.mappingPairsOffset + 1;
  }

  /** Where the decoder goes on the measurement goes on as well, and where the decoder finds a pair
      malformed no terminator is found. */
  lemma PairsFollow(s: seq<byte>, pos: nat)
    requires pos < |s| && s[pos] != 0
    ensures match DecodeEntry(s, pos, |s|)
            case Bad => PairsStop(s, pos) == None
            case Entry(next, _, _, _) => pos < next <= |s| && PairsStop(s, pos) == PairsStop(s, next)
  {
    hide Unsigned, Signed;
    var l, o := s[pos] % 16, s[pos] / 16;
    if l <= 8 && o <= 8 {
      PairsEnd(s, pos + 1 + l + o);
    }
  }

  lemma PairsEnd(s: seq<byte>, pos: nat)
    ensures pos >= |s| ==> PairsStop(s, pos) == None
    ensures pos < |s| && s[pos] == 0 ==> PairsStop(s, pos) == At(pos)
  {
  }

  /** A measured stream is never malformed to the decoder, and a decoder that gets through stops
      on the very terminator the measurement ends with; a stream the decoder accepts is measured
      as zero only when it runs to the end of the attribute without a terminator. */
  lemma {:induction false} MeasureAgreesWithDecode(s: seq<byte>, pos: nat, lcn: int, vbn: nat, room: nat)
    requires pos <= |s|
    ensures var b := Build(s, pos, lcn, vbn, room);
            && (PairsStop(s, pos).At? ==> b.status != VolumeCorrupted)
            && (b.status == Success ==>
                  if b.stop < |s| then PairsStop(s, pos) == At(b.stop) else PairsStop(s, pos) == None)
    decreases |s| - pos
  {
    hide Build, Wrap, NextVbn, DecodeEntry, PairsStop;
    BuildStop(s, pos, lcn, vbn, room);
    PairsEnd(s, pos);
    if pos < |s| && s[pos] != 0 && room > 0 {
      PairsFollow(s, pos);
      var e := DecodeEntry(s, pos, |s|);
      if e.Entry? {
        var lcn' := if e.sparse then lcn else Wrap(lcn + e.offset);
        BuildStep(s, pos, lcn, vbn, room, e, lcn');
        MeasureAgreesWithDecode(s, e.next, lcn', NextVbn(vbn, e.len), room - 1);
      }
    }
  }

  // ---------------------------------------------------------------- encoding

  lemma WidthBounds(v: int)
    requires -TWO_63 <= v < TWO_64
    ensures SignedWidth(v) <= 9
    ensures SignedWidth(v) <= 8 <==> v < TWO_63
  {
    Pow256Values();
    if v < TWO_63 {
      WidthAtMost(v, 8);
    } else {
      WidthAtMost(v, 9);
      WidthIsLeast(v);
      FitsUpwards(v, SignedWidth(v), 8);
    }
  }

  lemma WidthAtMost(v: int, n: nat)
    requires n >= 1 && FitsSigned(v, n)
    ensures SignedWidth(v) <= n
  {
    WidthIsLeast(v);
    if n < SignedWidth(v) {
      FitsUpwards(v, n, SignedWidth(v) - 1);
    }
  }

  lemma {:induction false} FitsUpwards(v: int, m: nat, n: nat)
    requires m >= 1 && FitsSigned(v, m)
    ensures m <= n ==> FitsSigned(v, n)
    decreases n
  {
    if m < n {
      FitsUpwards(v, m, n - 1);
      assert Pow256(n - 1) == 256 * Pow256(n - 2);
    }
  }

  lemma EntryWidths(length: nat, delta: int)
    requires length < TWO_64 && -TWO_63 <= delta < TWO_63
    ensures SignedWidth(length) <= 9 && SignedWidth(delta) <= 8
  {
    WidthBounds(length);
    WidthBounds(delta);
    hide SignedWidth;
  }

  /** The encoded entry.  A length is stored with the top bit of its last byte clear, so it takes
      as many bytes as a signed number of the same value. */
  function EncodeEntry(length: nat, delta: int): (s: seq<byte>)
    requires length < TWO_64 && -TWO_63 <= delta < TWO_63
  {
    EntryWidths(length, delta);
    [SignedWidth(length) + 16 * SignedWidth(delta)]
      + Bytes(length, SignedWidth(length)) + Bytes(delta, SignedWidth(delta))
  }

  function ByteCount(v: nat): (n: nat)
    ensures n >= 1
  {
    if v < 256 then 1 else 1 + ByteCount(v / 256)
  }

  function TopByteOf(v: nat): nat {
    if v < 256 then v else TopByteOf(v / 256)
  }

  /** Shifting out all bytes but the last leaves the byte that decides about an extra zero. */
  lemma {:induction false} WidthFromTop(v: nat)
    ensures v / Pow256(ByteCount(v) - 1) == TopByteOf(v) < 256
    ensures SignedWidth(v) == ByteCount(v) + if TopByteOf(v) >= 128 then 1 else 0
  {
    if v >= 256 {
      WidthFromTop(v / 256);
      SplitDivision(v, Pow256(ByteCount(v / 256) - 1));
    }
  }

  /** Count the bytes down to nothing, and one more when the top bit of the last one is set. */
  method LengthBytes(length: nat) returns (n: nat)
    ensures n == SignedWidth(length)
  {
    n := 1;
    var rest: nat := length / 256;
    while rest != 0
      invariant n >= 1
      invariant ByteCount(length) == n + if rest == 0 then 0 else ByteCount(rest)
      decreases rest
    {
      rest := rest / 256;
      n := n + 1;
    }
    WidthFromTop(length);
    if length / Pow256(n - 1) % 256 >= 128 {
      n := n + 1;
    }
  }

  /** Widen until the value lies between the least and the greatest the width can hold. */
  method DeltaBytes(delta: int) returns (n: nat)
    requires -TWO_63 <= delta < TWO_63
    ensures n == SignedWidth(delta)
  {
    n := 1;
    while !(-128 * Pow256(n - 1) <= delta < 128 * Pow256(n - 1))
      invariant 1 <= n <= SignedWidth(delta)
      decreases SignedWidth(delta) - n
    {
      WidthIsLeast(delta);
      n := n + 1;
    }
    WidthAtMost(delta, n);
  }

  function Shifted(v: int, i: nat): byte {
    v / Pow256(i) % 256
  }

  method WriteBytes(dest: array<byte>, at: nat, v: int, n: nat)
    requires at + n <= dest.Length
    modifies dest
    ensures forall k :: at <= k < at + n ==> dest[k] == Bytes(v, n)[k - at]
    ensures forall k :: 0 <= k < at || at + n <= k < dest.Length ==> dest[k] == old(dest[k])
  {
    hide Shifted;
    for i := 0 to n
      invariant forall k :: at <= k < at + i ==> dest[k] == Bytes(v, n)[k - at]
      invariant forall k :: 0 <= k < at || at + i <= k < dest.Length ==> dest[k] == old(dest[k])
    {
      ShiftedIsByte(v, n, i);
      dest[at + i] := Shifted(v, i);
    }
  }

  lemma ShiftedIsByte(v: int, n: nat, i: nat)
    requires i < n
    ensures Bytes(v, n)[i] == Shifted(v, i)
  {
    ByteAt(v, n, i);
  }

  lemma EntryShape(length: nat, delta: int)
    requires length < TWO_64 && -TWO_63 <= delta < TWO_63
    ensures var code := EncodeEntry(length, delta);
            var l, o := SignedWidth(length), SignedWidth(delta);
            && |code| == 1 + l + o && code[0] == l + 16 * o && l <= 9 && o <= 8
            && (forall i :: 1 <= i <= l ==> code[i] == Bytes(length, l)[i - 1])
            && (forall i :: l < i <= l + o ==> code[i] == Bytes(delta, o)[i - 1 - l])
  {
    EntryWidths(length, delta);
    hide Bytes, SignedWidth;
    var l, o := SignedWidth(length), SignedWidth(delta);
    Concatenated(l + 16 * o, Bytes(length, l), Bytes(delta, o));
  }

  lemma Concatenated(header: byte, a: seq<byte>, b: seq<byte>)
    ensures var code := [header] + a + b;
            && |code| == 1 + |a| + |b| && code[0] == header
            && (forall i :: 1 <= i <= |a| ==> code[i] == a[i - 1])
            && (forall i :: |a| < i <= |a| + |b| ==> code[i] == b[i - 1 - |a|])
  {
  }

  method EncodeRunEntry(dest: array<byte>, at: nat, length: nat, delta: int) returns (n: nat)
    requires length < TWO_64 && -TWO_63 <= delta < TWO_63
    requires at + |EncodeEntry(length, delta)| <= dest.Length
    modifies dest
    ensures n == |EncodeEntry(length, delta)|
    ensures forall k :: at <= k < at + n ==> dest[k] == EncodeEntry(length, delta)[k - at]
    ensures forall k :: 0 <= k < at || at + n <= k < dest.Length ==> dest[k] == old(dest[k])
  {
    hide *;
    ghost var code := EncodeEntry(length, delta);
    EntryShape(length, delta);
    var lenBytes := LengthBytes(length);
    var offBytes := DeltaBytes(delta);
    dest[at] := lenBytes + 16 * offBytes;
    WriteBytes(dest, at + 1, length, lenBytes);
    WriteBytes(dest, at + 1 + lenBytes, delta, offBytes);
    n := 1 + lenBytes + offBytes;
    forall k | at <= k < at + n ensures dest[k] == code[k - at] {
    }
  }

  // ---------------------------------------------------------------- the round trip

  /** An extent as the writers hold it: clusters, and the distance from the last real LCN. */
  datatype Extent = Extent(len: nat, delta: int)

  predicate Encodable(e: Extent) {
    e.len < TWO_64 && -TWO_63 <= e.delta < TWO_63
  }

  predicate AllEncodable(exts: seq<Extent>) {
    forall i :: 0 <= i < |exts| ==> Encodable(exts[i])
  }

  function EncodeAll(exts: seq<Extent>): seq<byte>
    requires AllEncodable(exts)
  {
    if |exts| == 0 then [] else EncodeEntry(exts[0].len, exts[0].delta) + EncodeAll(exts[1..])
  }

  function SumDelta(exts: seq<Extent>): int {
    if exts == [] then 0 else exts[0].delta + SumDelta(exts[1..])
  }

  function SumLen(exts: seq<Extent>): nat {
    if exts == [] then 0 else exts[0].len + SumLen(exts[1..])
  }

  lemma SubSlice(s: seq<byte>, pos: nat, code: seq<byte>, i: nat, j: nat)
    requires pos + |code| <= |s| && s[pos..pos + |code|] == code && i <= j <= |code|
    ensures s[pos + i..pos + j] == code[i..j]
  {
    forall k | 0 <= k < j - i ensures s[pos + i..pos + j][k] == code[i..j][k] {
      assert code[i + k] == s[pos..pos + |code|][i + k];
      assert code[i..j][k] == code[i + k];
    }
  }

  lemma LengthBack(length: nat, n: nat)
    requires n >= 1 && FitsSigned(length, n)
    ensures Unsigned(Bytes(length, n)) == length
  {
    UnsignedOfBytes(length, n);
    SignedRange(length, Pow256(n - 1));
  }

  lemma DecodeParts(s: seq<byte>, pos: nat, l: nat, o: nat)
    requires pos + 1 + l + o <= |s| && l <= 9 && 1 <= o <= 8 && s[pos] == l + 16 * o
    ensures DecodeEntry(s, pos, |s|) ==
            if l <= 8
            then Entry(pos + 1 + l + o, Signed(s[pos + 1 + l..pos + 1 + l + o]),
                       Unsigned(s[pos + 1..pos + 1 + l]), false)
            else Bad
  {
    hide Signed, Unsigned;
    DivisionIsUnique(s[pos], 16, o, l);
  }

  lemma LengthAndDeltaBack(e: Extent)
    requires Encodable(e)
    ensures Unsigned(Bytes(e.len, SignedWidth(e.len))) == e.len
    ensures SignedWidth(e.delta) >= 1 && Signed(Bytes(e.delta, SignedWidth(e.delta))) == e.delta
  {
    WidthIsLeast(e.len);
    WidthIsLeast(e.delta);
    LengthBack(e.len, SignedWidth(e.len));
    SignedOfBytes(e.delta, SignedWidth(e.delta));
  }

  /** Decoding an encoded entry: the same length and delta, never a hole, exactly for lengths
      below 2^63.  A longer one takes nine length bytes and is refused. */
  lemma DecodeOfEncode(s: seq<byte>, pos: nat, e: Extent)
    requires Encodable(e)
    requires pos + |EncodeEntry(e.len, e.delta)| <= |s|
    requires s[pos..pos + |EncodeEntry(e.len, e.delta)|] == EncodeEntry(e.len, e.delta)
    ensures s[pos] != 0
    ensures DecodeEntry(s, pos, |s|) ==
            if e.len < TWO_63 then Entry(pos + |EncodeEntry(e.len, e.delta)|, e.delta, e.len, false) else Bad
  {
    hide Bytes, SignedWidth, EncodeEntry, DecodeEntry, Signed, Unsigned;
    var code := EncodeEntry(e.len, e.delta);
    var l, o := SignedWidth(e.len), SignedWidth(e.delta);
    EntryShape(e.len, e.delta);
    WidthBounds(e.len);
    assert s[pos] == s[pos..pos + |code|][0];
    DecodeParts(s, pos, l, o);
    SubSlice(s, pos, code, 1, 1 + l);
    assert code[1..1 + l] == Bytes(e.len, l);
    SubSlice(s, pos, code, 1 + l, 1 + l + o);
    assert code[1 + l..1 + l + o] == Bytes(e.delta, o);
    LengthAndDeltaBack(e);
  }

  predicate AllShort(exts: seq<Extent>) {
    forall i :: 0 <= i < |exts| ==> exts[i].len < TWO_63
  }

  /** The runs the writer meant, one after the other. */
  function Intended(exts: seq<Extent>, lcn: int, vbn: nat): (runs: seq<Run>)
    ensures |runs| == |exts|
  {
    if |exts| == 0 then []
    else
      var here := Wrap(lcn + exts[0].delta);
      [Run(vbn, here, exts[0].len)] + Intended(exts[1..], here, NextVbn(vbn, exts[0].len))
  }

  /** `s` carries the encoded extents at `pos`, closed by the terminator. */
  predicate Carries(s: seq<byte>, pos: nat, exts: seq<Extent>)
    requires AllEncodable(exts)
  {
    var n := |EncodeAll(exts)|;
    pos + n < |s| && s[pos..pos + n] == EncodeAll(exts) && s[pos + n] == 0
  }

  lemma CarriesTail(s: seq<byte>, pos: nat, exts: seq<Extent>)
    requires AllEncodable(exts) && |exts| > 0 && Carries(s, pos, exts)
    ensures var code := EncodeEntry(exts[0].len, exts[0].delta);
            && pos + |code| <= |s| && s[pos..pos + |code|] == code
            && AllEncodable(exts[1..]) && Carries(s, pos + |code|, exts[1..])
            && |EncodeAll(exts)| == |code| + |EncodeAll(exts[1..])|
  {
    hide EncodeEntry;
    var code, rest := EncodeEntry(exts[0].len, exts[0].delta), EncodeAll(exts[1..]);
    var all := EncodeAll(exts);
    assert all == code + rest;
    SubSlice(s, pos, all, 0, |code|);
    assert all[0..|code|] == code;
    SubSlice(s, pos, all, |code|, |all|);
    assert all[|code|..|all|] == rest;
  }

  /** Decoding an encoded list gives the intended runs and stops on the terminator, when every
      length is below 2^63; otherwise the stream is refused. */
  lemma {:induction false} RoundTrip(s: seq<byte>, pos: nat, exts: seq<Extent>, lcn: int, vbn: nat, room: nat)
    requires AllEncodable(exts) && Carries(s, pos, exts) && |exts| <= room
    ensures AllShort(exts) ==>
              Build(s, pos, lcn, vbn, room) == Built(Success, Intended(exts, lcn, vbn), pos + |EncodeAll(exts)|)
    ensures !AllShort(exts) ==> Build(s, pos, lcn, vbn, room).status == VolumeCorrupted
    decreases |exts|
  {
    hide DecodeEntry, EncodeEntry, Wrap, NextVbn, Build;
    if |exts| == 0 {
      BuildStop(s, pos, lcn, vbn, room);
    } else {
      var e := exts[0];
      CarriesTail(s, pos, exts);
      DecodeOfEncode(s, pos, e);
      BuildStop(s, pos, lcn, vbn, room);
      assert AllShort(exts) <==> e.len < TWO_63 && AllShort(exts[1..]) by {
        assert forall i :: 1 <= i < |exts| ==> exts[i] == exts[1..][i - 1];
      }
      if e.len < TWO_63 {
        var entry := DecodeEntry(s, pos, |s|);
        var here := Wrap(lcn + e.delta);
        BuildStep(s, pos, lcn, vbn, room, entry, here);
        RoundTrip(s, entry.next, exts[1..], here, NextVbn(vbn, e.len), room - 1);
      }
    }
  }

  lemma WrapAbsorbs(a: int, b: int)
    ensures Wrap(Wrap(a) + b) == Wrap(a + b)
  {
    var q := (a + TWO_63) / TWO_64;
    assert Wrap(a) + TWO_64 * q == a;
    var x, y := Wrap(a) + b + TWO_63, a + b + TWO_63;
    assert y == TWO_64 * (x / TWO_64 + q) + x % TWO_64;
    DivisionIsUnique(y, TWO_64, x / TWO_64 + q, x % TWO_64);
  }

  lemma NextVbnAbsorbs(vbn: nat, a: nat, b: nat)
    ensures NextVbn(NextVbn(vbn, a), b) == NextVbn(vbn, a + b)
  {
    var q, x := (vbn + a) / TWO_64, NextVbn(vbn, a) + b;
    assert vbn + (a + b) == TWO_64 * (x / TWO_64 + q) + x % TWO_64;
    DivisionIsUnique(vbn + (a + b), TWO_64, x / TWO_64 + q, x % TWO_64);
  }

  /** Block and cluster numbers are running sums, in 64 bits. */
  lemma {:induction false} IntendedAt(exts: seq<Extent>, lcn: int, vbn: nat, k: nat)
    requires k < |exts| && vbn < TWO_64
    ensures Intended(exts, lcn, vbn)[k] ==
            Run(NextVbn(vbn, SumLen(exts[..k])), Wrap(lcn + SumDelta(exts[..k + 1])), exts[k].len)
    decreases k
  {
    if k == 0 {
      DivisionIsUnique(vbn, TWO_64, 0, vbn);
      assert exts[..1] == [exts[0]] && SumDelta([exts[0]]) == exts[0].delta;
    } else {
      hide Wrap, NextVbn;
      var here, tail := Wrap(lcn + exts[0].delta), exts[1..];
      NextVbnRange(vbn, exts[0].len);
      IntendedAt(tail, here, NextVbn(vbn, exts[0].len), k - 1);
      assert exts[..k][1..] == tail[..k - 1] && exts[..k + 1][1..] == tail[..k];
      WrapAbsorbs(lcn + exts[0].delta, SumDelta(tail[..k]));
      NextVbnAbsorbs(vbn, exts[0].len, SumLen(tail[..k - 1]));
    }
  }

  lemma NextVbnRange(vbn: nat, len: nat)
    ensures NextVbn(vbn, len) < TWO_64
  {
  }

  /** The whole journey of an attribute's run list through its mapping pairs, run by run.  A run
      written as real is later taken for a hole exactly when its absolute cluster number is -1. */
  lemma RealRunsSurvive(attr: AttrRecord, exts: seq<Extent>, maxRuns: nat, k: nat)
    requires HeaderOk(attr) && attr.lowestVcn < TWO_64 && |exts| <= maxRuns && k < |exts|
    requires AllEncodable(exts) && AllShort(exts) && Carries(attr.bytes, attr.mappingPairsOffset, exts)
    ensures var b := BuildAttr(attr, maxRuns);
            && b.status == Success && |b.runs| == |exts|
            && b.runs[k].len == exts[k].len
            && b.runs[k].vbn == NextVbn(attr.lowestVcn, SumLen(exts[..k]))
            && b.runs[k].lbn == Wrap(SumDelta(exts[..k + 1]))
            && (ReadsAsSparse(b.runs[k]) <==> Wrap(SumDelta(exts[..k + 1])) == -1)
  {
    hide Wrap, NextVbn, Build, SumLen, SumDelta, EncodeAll;
    RoundTrip(attr.bytes, attr.mappingPairsOffset, exts, 0, attr.lowestVcn, maxRuns);
    IntendedAt(exts, 0, attr.lowestVcn, k);
  }

  lemma OneExtent(e: Extent)
    requires Encodable(e)
    ensures AllEncodable([e]) && EncodeAll([e]) == EncodeEntry(e.len, e.delta)
    ensures AllShort([e]) <==> e.len < TWO_63
    ensures SumDelta([e]) == e.delta
  {
    hide EncodeEntry;
    assert [e][1..] == [];
    assert EncodeEntry(e.len, e.delta) + [] == EncodeEntry(e.len, e.delta);
  }

  lemma CarriesOne(e: Extent, s: seq<byte>)
    requires Encodable(e) && s == EncodeEntry(e.len, e.delta) + [0]
    ensures AllEncodable([e]) && Carries(s, 0, [e])
  {
    OneExtent(e);
    hide EncodeEntry, EncodeAll;
    var n := |EncodeEntry(e.len, e.delta)|;
    assert s[0..0 + n] == EncodeEntry(e.len, e.delta);
  }

  lemma OneRun(e: Extent)
    requires Encodable(e)
    ensures Intended([e], 0, 0) == [Run(0, Wrap(e.delta), e.len)]
  {
    hide Wrap;
    assert [e][1..] == [];
  }

  /** So the claim that no real run reads as a hole is false for a list that starts one cluster
      below the volume: a single extent with delta -1. */
  lemma RealRunTakenForHole()
    ensures var e := Extent(1, -1);
            && Encodable(e) && e.len < TWO_63
            && var b := Build(EncodeEntry(e.len, e.delta) + [0], 0, 0, 0, 1);
               b.status == Success && |b.runs| == 1 && ReadsAsSparse(b.runs[0])
  {
    var e := Extent(1, -1);
    assert Wrap(-1) == -1;
    hide EncodeEntry, Build, Intended, Wrap, Carries, AllShort;
    var s := EncodeEntry(e.len, e.delta) + [0];
    OneExtent(e);
    CarriesOne(e, s);
    OneRun(e);
    RoundTrip(s, 0, [e], 0, 0, 1);
  }

  /** And a list that is written and then refused: one extent of 2^63 clusters. */
  lemma LongExtentRefused()
    ensures var e := Extent(TWO_63, 0);
            Encodable(e) && Build(EncodeEntry(e.len, e.delta) + [0], 0, 0, 0, 1).status == VolumeCorrupted
  {
    var e := Extent(TWO_63, 0);
    hide EncodeEntry, Build, Intended, Carries, AllShort;
    OneExtent(e);
    CarriesOne(e, EncodeEntry(e.len, e.delta) + [0]);
    RoundTrip(EncodeEntry(e.len, e.delta) + [0], 0, [e], 0, 0, 1);
  }
}
