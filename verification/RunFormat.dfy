/** Mapping pairs as any writer may have laid them down (src/ntfs_runlist.c): holes as well as real runs,
    each number in as many bytes as the writer chose, and what the decoder makes of them. */
module RunFormat {
  import opened Arith
  import opened ByteData
  import opened RunList

  /** One mapping pair: the run's length in `l` bytes, and in `o` bytes how far its cluster lies from that
      of the last real run; no bytes there make a hole. */
  datatype Pair = Pair(l: nat, length: nat, o: nat, delta: int)

  predicate Fits(p: Pair) {
    && p.l <= 8 && p.o <= 8 && p.l + p.o > 0 && p.length < Pow256(p.l)
    && if p.o == 0 then p.delta == 0 else FitsSigned(p.delta, p.o)
  }

  function PairBytes(p: Pair): (s: seq<byte>)
    requires Fits(p)
    ensures |s| == 1 + p.l + p.o
  {
    [16 * p.o + p.l] + Bytes(p.length, p.l) + Bytes(p.delta, p.o)
  }

  predicate AllFit(ps: seq<Pair>) {
    forall i :: 0 <= i < |ps| ==> Fits(ps[i])
  }

  function PairsBytes(ps: seq<Pair>): seq<byte>
    requires AllFit(ps)
  {
    if ps == [] then [] else PairBytes(ps[0]) + PairsBytes(ps[1..])
  }

  /** Clusters in all pairs, and how far they lead from where they start. */
  function Covered(ps: seq<Pair>): nat {
    if ps == [] then 0 else ps[0].length + Covered(ps[1..])
  }

  function Moved(ps: seq<Pair>): int {
    if ps == [] then 0 else ps[0].delta + Moved(ps[1..])
  }

  lemma LengthIs(p: Pair)
    requires Fits(p)
    ensures Unsigned(Bytes(p.length, p.l)) == p.length
  {
    hide Unsigned, Bytes, FitsSigned;
    UnsignedOfBytes(p.length, p.l);
    DivisionIsUnique(p.length, Pow256(p.l), 0, p.length);
  }

  lemma Nibbles(l: nat, o: nat)
    requires l < 16
    ensures (16 * o + l) % 16 == l && (16 * o + l) / 16 == o
  {
  }

  /** Where the parts of a pair lie. */
  lemma PairLies(s: seq<byte>, pos: nat, p: Pair)
    requires Fits(p) && Lies(s, pos, PairBytes(p))
    ensures pos + 1 + p.l + p.o <= |s| && s[pos] == 16 * p.o + p.l
    ensures s[pos + 1..pos + 1 + p.l] == Bytes(p.length, p.l)
    ensures s[pos + 1 + p.l..pos + 1 + p.l + p.o] == Bytes(p.delta, p.o)
  {
    hide Bytes, FitsSigned, Pow256;
    LiesAt(s, pos, PairBytes(p), 0);
    LiesJoin(s, pos, [16 * p.o + p.l] + Bytes(p.length, p.l), Bytes(p.delta, p.o));
    LiesJoin(s, pos, [16 * p.o + p.l], Bytes(p.length, p.l));
  }

  /** What the nibbles and the bytes behind them decode to. */
  lemma DecodesTo(s: seq<byte>, pos: nat, l: nat, o: nat)
    requires l <= 8 && o <= 8 && pos + 1 + l + o <= |s| && s[pos] % 16 == l && s[pos] / 16 == o
    ensures DecodeEntry(s, pos, |s|)
            == Entry(pos + 1 + l + o, if o == 0 then 0 else Signed(s[pos + 1 + l..pos + 1 + l + o]),
                     Unsigned(s[pos + 1..pos + 1 + l]), o == 0)
  {
    hide Signed, Unsigned;
  }

  /** One pair is decoded as it was written. */
  lemma PairBack(s: seq<byte>, pos: nat, p: Pair)
    requires Fits(p) && Lies(s, pos, PairBytes(p))
    ensures pos < |s| && s[pos] != 0
    ensures DecodeEntry(s, pos, |s|) == Entry(pos + 1 + p.l + p.o, p.delta, p.length, p.o == 0)
  {
    hide Lies, PairBytes, Bytes, Unsigned, Signed, Pow256, DecodeEntry, FitsSigned;
    PairLies(s, pos, p);
    Nibbles(p.l, p.o);
    DecodesTo(s, pos, p.l, p.o);
    LengthIs(p);
    if p.o > 0 {
      SignedOfBytes(p.delta, p.o);
    }
  }

  // ---------------------------------------------------------------- the whole list

  function RunOf(p: Pair, lcn: int, vbn: nat): Run {
    Run(vbn, if p.o == 0 then -1 else Wrap(lcn + p.delta), p.length)
  }

  function Runs(ps: seq<Pair>, lcn: int, vbn: nat): (runs: seq<Run>)
    ensures |runs| == |ps|
  {
    if ps == [] then []
    else [RunOf(ps[0], lcn, vbn)] + Runs(ps[1..], Wrap(lcn + ps[0].delta), NextVbn(vbn, ps[0].length))
  }

  /** A 64-bit cluster number and a 64-bit block number. */
  predicate InRange(lcn: int, vbn: nat) {
    -TWO_63 <= lcn < TWO_63 && vbn < TWO_64
  }

  lemma Unmoved(lcn: int, vbn: nat)
    requires InRange(lcn, vbn)
    ensures Wrap(lcn) == lcn && NextVbn(vbn, 0) == vbn
  {
  }

  lemma Advance(lcn: int, vbn: nat, p: Pair)
    ensures InRange(Wrap(lcn + p.delta), NextVbn(vbn, p.length))
  {
  }

  lemma PairsLie(s: seq<byte>, pos: nat, ps: seq<Pair>)
    requires AllFit(ps) && ps != [] && Lies(s, pos, PairsBytes(ps))
    ensures Fits(ps[0]) && AllFit(ps[1..]) && |PairsBytes(ps)| == 1 + ps[0].l + ps[0].o + |PairsBytes(ps[1..])|
    ensures Lies(s, pos, PairBytes(ps[0])) && Lies(s, pos + 1 + ps[0].l + ps[0].o, PairsBytes(ps[1..]))
  {
    LiesJoin(s, pos, PairBytes(ps[0]), PairsBytes(ps[1..]));
    hide PairBytes, Lies, Fits;
  }

  lemma Prepended(run: Run, runs: seq<Run>, more: seq<Run>)
    ensures [run] + (runs + more) == ([run] + runs) + more
  {
  }

  lemma SumsOf(ps: seq<Pair>, lcn: int, vbn: nat)
    ensures ps == [] ==> Moved(ps) == Covered(ps) == 0 && Runs(ps, lcn, vbn) == []
    ensures ps != [] ==>
              && Moved(ps) == ps[0].delta + Moved(ps[1..]) && Covered(ps) == ps[0].length + Covered(ps[1..])
              && Runs(ps, lcn, vbn) == [RunOf(ps[0], lcn, vbn)]
                                       + Runs(ps[1..], Wrap(lcn + ps[0].delta), NextVbn(vbn, ps[0].length))
  {
    hide Wrap, NextVbn, RunOf;
  }

  lemma NothingLies(ps: seq<Pair>)
    requires AllFit(ps) && ps == []
    ensures PairsBytes(ps) == []
  {
  }

  lemma RunIs(p: Pair, lcn: int, vbn: nat)
    ensures RunOf(p, lcn, vbn) == Run(vbn, if p.o == 0 then -1 else Wrap(lcn + p.delta), p.length)
  {
    hide Wrap;
  }

  /** Decoding yields the runs of the pairs, and then whatever lies behind them. */
  lemma {:induction false} PairsBack(s: seq<byte>, pos: nat, ps: seq<Pair>, lcn: int, vbn: nat, room: nat)
    requires AllFit(ps) && Lies(s, pos, PairsBytes(ps)) && |ps| <= room && InRange(lcn, vbn)
    ensures var rest := Build(s, pos + |PairsBytes(ps)|, Wrap(lcn + Moved(ps)), NextVbn(vbn, Covered(ps)), room - |ps|);
            Build(s, pos, lcn, vbn, room) == Built(rest.status, Runs(ps, lcn, vbn) + rest.runs, rest.stop)
    decreases |ps|
  {
    hide *;
    SumsOf(ps, lcn, vbn);
    var rest := Build(s, pos + |PairsBytes(ps)|, Wrap(lcn + Moved(ps)), NextVbn(vbn, Covered(ps)), room - |ps|);
    if ps == [] {
      NothingLies(ps);
      Unmoved(lcn, vbn);
    } else {
      var p, tail := ps[0], ps[1..];
      PairsLie(s, pos, ps);
      PairBack(s, pos, p);
      var here, vbn' := Wrap(lcn + p.delta), NextVbn(vbn, p.length);
      HoleStays(p, lcn, vbn);
      BuildStep(s, pos, lcn, vbn, room, DecodeEntry(s, pos, |s|), here);
      RunIs(p, lcn, vbn);
      Advance(lcn, vbn, p);
      PairsBack(s, pos + 1 + p.l + p.o, tail, here, vbn', room - 1);
      WrapAbsorbs(lcn + p.delta, Moved(tail));
      NextVbnAbsorbs(vbn, p.length, Covered(tail));
      Prepended(RunOf(p, lcn, vbn), Runs(tail, here, vbn'), rest.runs);
    }
  }

  lemma HoleStays(p: Pair, lcn: int, vbn: nat)
    requires Fits(p) && InRange(lcn, vbn)
    ensures p.o == 0 ==> Wrap(lcn + p.delta) == lcn
  {
    if p.o == 0 {
      Unmoved(lcn, vbn);
    }
  }

  lemma {:induction false} RunAt(ps: seq<Pair>, lcn: int, vbn: nat, k: nat)
    requires k < |ps| && InRange(lcn, vbn)
    ensures Runs(ps, lcn, vbn)[k]
            == Run(NextVbn(vbn, Covered(ps[..k])), if ps[k].o == 0 then -1 else Wrap(lcn + Moved(ps[..k + 1])),
                   ps[k].length)
    decreases k
  {
    hide Wrap, NextVbn, InRange;
    if k == 0 {
      Unmoved(lcn, vbn);
      assert ps[..1] == [ps[0]] && Moved([ps[0]]) == ps[0].delta;
    } else {
      var here, tail := Wrap(lcn + ps[0].delta), ps[1..];
      Advance(lcn, vbn, ps[0]);
      RunAt(tail, here, NextVbn(vbn, ps[0].length), k - 1);
      assert ps[..k][1..] == tail[..k - 1] && ps[..k + 1][1..] == tail[..k];
      WrapAbsorbs(lcn + ps[0].delta, Moved(tail[..k]));
      NextVbnAbsorbs(vbn, ps[0].length, Covered(tail[..k - 1]));
    }
  }

  /** The two agree modulo 2^64. */
  predicate Wraps(v: int, w: int) {
    (v - w) % 0x1_0000_0000_0000_0000 == 0
  }

  lemma WrapMeans(v: int)
    ensures Wraps(v, Wrap(v)) && -0x8000_0000_0000_0000 <= Wrap(v) < 0x8000_0000_0000_0000
  {
    var q := (v + TWO_63) / TWO_64;
    assert v - Wrap(v) == TWO_64 * q;
    DivisionIsUnique(v - Wrap(v), TWO_64, q, 0);
  }

  lemma NextMeans(vbn: nat, n: nat)
    ensures Wraps(vbn + n, NextVbn(vbn, n)) && NextVbn(vbn, n) < 0x1_0000_0000_0000_0000
  {
    var q := (vbn + n) / TWO_64;
    assert vbn + n - NextVbn(vbn, n) == TWO_64 * q;
    DivisionIsUnique(vbn + n - NextVbn(vbn, n), TWO_64, q, 0);
  }

  /** The k-th run: block numbers are running sums of the lengths, cluster numbers of the distances, a
      hole has none and moves nothing, and both wrap around at 64 bits. */
  predicate IsRun(ps: seq<Pair>, vbn: nat, k: nat, run: Run)
    requires k < |ps|
  {
    && run.len == ps[k].length
    && Wraps(vbn + Covered(ps[..k]), run.vbn) && run.vbn < 0x1_0000_0000_0000_0000
    && if ps[k].o == 0 then run.lbn == -1
       else Wraps(Moved(ps[..k + 1]), run.lbn) && -0x8000_0000_0000_0000 <= run.lbn < 0x8000_0000_0000_0000
  }

  lemma RunsMean(ps: seq<Pair>, vbn: nat, k: nat)
    requires k < |ps| && vbn < TWO_64
    ensures IsRun(ps, vbn, k, Runs(ps, 0, vbn)[k])
  {
    RunAt(ps, 0, vbn, k);
    WrapMeans(Moved(ps[..k + 1]));
    NextMeans(vbn, Covered(ps[..k]));
    hide Wrap, NextVbn, Wraps, Runs, Moved, Covered;
  }

  /** A record that is not too short for its own header and points inside itself. */
  predicate Whole(attr: AttrRecord) {
    attr.nonResident && |attr.bytes| >= 24 && attr.mappingPairsOffset < |attr.bytes|
  }

  /** What stands behind the pairs: the terminator or the end of the record, or a pair that is malformed
      or sticks out, or one more for which there is no room. */
  predicate Ends(s: seq<byte>, at: nat) {
    at >= |s| || s[at] == 0
  }

  predicate Spoilt(s: seq<byte>, at: nat) {
    at < |s| && s[at] != 0 && (s[at] % 16 > 8 || s[at] / 16 > 8 || at + 1 + s[at] % 16 + s[at] / 16 > |s|)
  }

  lemma StopsThere(s: seq<byte>, at: nat, lcn: int, vbn: nat, room: nat)
    requires Ends(s, at) || room == 0 || Spoilt(s, at)
    ensures Build(s, at, lcn, vbn, room)
            == Built(if Ends(s, at) then Success else if room == 0 then BufferTooSmall else VolumeCorrupted, [], at)
  {
    hide Wrap, NextVbn, Signed, Unsigned;
  }

  /** What an attribute record decodes to, byte by byte: the runs of the pairs that lie in it, up to the
      first thing behind them that ends the list. */
  lemma AttributeRuns(attr: AttrRecord, ps: seq<Pair>, maxRuns: nat)
    requires AllFit(ps) && |ps| <= maxRuns && attr.lowestVcn < 0x1_0000_0000_0000_0000
    requires Whole(attr) ==> Lies(attr.bytes, attr.mappingPairsOffset, PairsBytes(ps))
    ensures var b := BuildAttr(attr, maxRuns);
            var (s, at) := (attr.bytes, attr.mappingPairsOffset + |PairsBytes(ps)|);
            && (!Whole(attr) ==> b.status == VolumeCorrupted && b.runs == [])
            && (Whole(attr) && (Ends(s, at) || |ps| == maxRuns || Spoilt(s, at)) ==>
                  && b.status == (if Ends(s, at) then Success
                                  else if |ps| == maxRuns then BufferTooSmall else VolumeCorrupted)
                  && |b.runs| == |ps| && forall k :: 0 <= k < |ps| ==> IsRun(ps, attr.lowestVcn, k, b.runs[k]))
  {
    hide Build, Runs, Lies, PairsBytes, AllFit, Wrap, NextVbn, Moved, Covered, IsRun, Ends, Spoilt;
    var s, at, vbn := attr.bytes, attr.mappingPairsOffset + |PairsBytes(ps)|, attr.lowestVcn;
    if Whole(attr) && (Ends(s, at) || |ps| == maxRuns || Spoilt(s, at)) {
      PairsBack(s, attr.mappingPairsOffset, ps, 0, vbn, maxRuns);
      StopsThere(s, at, Wrap(0 + Moved(ps)), NextVbn(vbn, Covered(ps)), maxRuns - |ps|);
      assert Runs(ps, 0, vbn) + [] == Runs(ps, 0, vbn);
      forall k | 0 <= k < |ps| ensures IsRun(ps, vbn, k, Runs(ps, 0, vbn)[k]) {
        RunsMean(ps, vbn, k);
      }
    }
  }

  lemma {:induction false} PairsFollowed(s: seq<byte>, pos: nat, ps: seq<Pair>)
    requires AllFit(ps) && Lies(s, pos, PairsBytes(ps))
    ensures PairsStop(s, pos) == PairsStop(s, pos + |PairsBytes(ps)|)
    decreases |ps|
  {
    hide Lies, PairBytes, DecodeEntry, PairsStop, Fits, AllFit;
    if ps != [] {
      PairsLie(s, pos, ps);
      PairBack(s, pos, ps[0]);
      PairsFollow(s, pos);
      PairsFollowed(s, pos + 1 + ps[0].l + ps[0].o, ps[1..]);
    }
  }

  /** The measurement follows the same pairs to the terminator, and comes to nothing without one. */
  lemma PairsMeasured(s: seq<byte>, pos: nat, ps: seq<Pair>)
    requires AllFit(ps) && Lies(s, pos, PairsBytes(ps))
    ensures var at := pos + |PairsBytes(ps)|;
            && (at < |s| && s[at] == 0 ==> PairsStop(s, pos) == At(at))
            && (at >= |s| || Spoilt(s, at) ==> PairsStop(s, pos) == None)
  {
    hide Lies, PairsBytes, PairsStop, AllFit, Spoilt;
    PairsFollowed(s, pos, ps);
    SpoiltStops(s, pos + |PairsBytes(ps)|);
  }

  lemma SpoiltStops(s: seq<byte>, at: nat)
    ensures at < |s| && s[at] == 0 ==> PairsStop(s, at) == At(at)
    ensures at >= |s| || Spoilt(s, at) ==> PairsStop(s, at) == None
  {
    if Spoilt(s, at) && s[at] % 16 <= 8 && s[at] / 16 <= 8 {
      PairsEnd(s, at + 1 + s[at] % 16 + s[at] / 16);
    }
  }

  /** What the driver writes is the shortest pair for its extent, among those whose length does not look
      negative. */
  lemma EncodedIsShortest(p: Pair)
    requires Fits(p) && p.l > 0 && p.o > 0 && FitsSigned(p.length, p.l)
    requires p.length < TWO_63 && -TWO_63 <= p.delta < TWO_63
    ensures |EncodeEntry(p.length, p.delta)| <= |PairBytes(p)|
    ensures exists l, o :: Fits(Pair(l, p.length, o, p.delta)) && o > 0
                           && EncodeEntry(p.length, p.delta) == PairBytes(Pair(l, p.length, o, p.delta))
  {
    EntryShape(p.length, p.delta);
    hide EncodeEntry, SignedWidth, Bytes, Pow256;
    var l, o := SignedWidth(p.length), SignedWidth(p.delta);
    WidthAtMost(p.length, p.l);
    WidthAtMost(p.delta, p.o);
    WidthIsLeast(p.length);
    WidthIsLeast(p.delta);
    WidthBounds(p.length);
    WidthBounds(p.delta);
    HalfIsLess(l);
    assert EncodeEntry(p.length, p.delta) == PairBytes(Pair(l, p.length, o, p.delta));
  }

  lemma HalfIsLess(l: nat)
    requires l >= 1
    ensures 128 * Pow256(l - 1) < Pow256(l)
  {
  }
}
