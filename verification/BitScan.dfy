/** Searching an allocation bitmap (src/ntfs_bitmap.c): one bit per cluster or record, 1 = in use.
    Both searches step over bytes and 8-byte words of all ones; both are proved against what the
    bits themselves say. */
module BitScan {
  import opened Bits

  const FIRST_USER_FILE := 16

  lemma AllOnes(k: nat)
    requires k < 8
    ensures UsedBit(0xFF, k)
  {
    assert UsedBit(0xFF, 0) && UsedBit(0xFF, 1) && UsedBit(0xFF, 2) && UsedBit(0xFF, 3);
    assert UsedBit(0xFF, 4) && UsedBit(0xFF, 5) && UsedBit(0xFF, 6) && UsedBit(0xFF, 7);
  }

  predicate AllUsed(bm: seq<bv8>, from: nat, to: nat)
    requires to <= 8 * |bm|
  {
    forall i :: from <= i < to ==> Used(bm, i)
  }

  lemma FullBytes(bm: seq<bv8>, from: nat, n: nat)
    requires from % 8 == 0 && from / 8 + n <= |bm|
    requires forall j :: from / 8 <= j < from / 8 + n ==> bm[j] == 0xFF
    ensures AllUsed(bm, from, from + 8 * n)
  {
    forall i | from <= i < from + 8 * n ensures Used(bm, i) {
      AllOnes(i % 8);
      assert bm[i / 8] == 0xFF;
    }
  }

  /** Step over whole all-ones words, then single all-ones bytes. */
  method SkipFull(bm: seq<bv8>, from: nat, to: nat) returns (bit: nat)
    requires from % 8 == 0 && to <= 8 * |bm| && from <= to
    ensures from <= bit <= to && AllUsed(bm, from, bit)
  {
    bit := from;
    while bit + 64 <= to && bm[bit / 8] == 0xFF && bm[bit / 8 + 1] == 0xFF && bm[bit / 8 + 2] == 0xFF
          && bm[bit / 8 + 3] == 0xFF && bm[bit / 8 + 4] == 0xFF && bm[bit / 8 + 5] == 0xFF
          && bm[bit / 8 + 6] == 0xFF && bm[bit / 8 + 7] == 0xFF
      invariant from <= bit <= to && bit % 8 == 0 && AllUsed(bm, from, bit)
    {
      FullBytes(bm, bit, 8);
      bit := bit + 64;
    }
    while bit + 8 <= to && bm[bit / 8] == 0xFF
      invariant from <= bit <= to && bit % 8 == 0 && AllUsed(bm, from, bit)
    {
      FullBytes(bm, bit, 1);
      bit := bit + 8;
    }
  }

  // ---------------------------------------------------------------- first free bit

  /** The least clear bit at or above 16 and below the limit, if there is one. */
  method FirstFreeBit(bm: seq<bv8>, limit: nat) returns (found: bool, bit: nat)
    requires limit <= 8 * |bm|
    ensures found <==> exists i :: FIRST_USER_FILE <= i < limit && !Used(bm, i)
    ensures found ==> FIRST_USER_FILE <= bit < limit && !Used(bm, bit) && AllUsed(bm, FIRST_USER_FILE, bit)
  {
    bit := FIRST_USER_FILE;
    while bit < limit
      invariant FIRST_USER_FILE <= bit && (bit <= limit || bit == FIRST_USER_FILE)
      invariant bit <= limit ==> AllUsed(bm, FIRST_USER_FILE, bit)
    {
      if bit % 8 == 0 {
        bit := SkipFull(bm, bit, limit);
        if bit >= limit {
          break;
        }
      }
      if !Used(bm, bit) {
        return true, bit;
      }
      bit := bit + 1;
    }
    return false, 0;
  }

  // ---------------------------------------------------------------- free runs

  /** [start, start + len) lies in [from, to) and is free. */
  predicate FreeRun(bm: seq<bv8>, from: nat, to: nat, start: nat, len: nat)
    requires to <= 8 * |bm|
  {
    from <= start && start + len <= to && forall i :: start <= i < start + len ==> !Used(bm, i)
  }

  /** No free run of [from, to) is longer than the best one, and none as long starts before it. */
  ghost predicate Best(bm: seq<bv8>, from: nat, to: nat, start: nat, len: nat)
    requires to <= 8 * |bm|
  {
    forall s: nat, l: nat :: 1 <= l && FreeRun(bm, from, to, s, l) ==> l < len || (l == len && start <= s)
  }

  /** What the scan promises, with `want` the run length at which it stops. */
  ghost predicate ScanResult(bm: seq<bv8>, from: nat, to: nat, want: nat, start: nat, len: nat)
    requires to <= 8 * |bm|
  {
    && len <= want
    && (len == 0 ==> start == 0)
    && (len > 0 ==> FreeRun(bm, from, to, start, len))
    && (len == want ==> forall s: nat :: s < start ==> !FreeRun(bm, from, to, s, want))
    && (len < want ==> Best(bm, from, to, start, len))
  }

  /** A used bit, or the end of the range, closes the open run: the better of it and the best
      one so far is the best of everything up to there. */
  lemma CloseRun(bm: seq<bv8>, from: nat, bit: nat, runLen: nat, bestStart: nat, bestLen: nat)
    requires bit <= 8 * |bm| && from + runLen <= bit
    requires FreeRun(bm, from, bit, bit - runLen, runLen)
    requires bit - runLen == from || Used(bm, bit - runLen - 1)
    requires Best(bm, from, bit - runLen, bestStart, bestLen)
    requires bestLen > 0 ==> bestStart + bestLen <= bit - runLen
    ensures if runLen > bestLen then Best(bm, from, bit, bit - runLen, runLen)
            else Best(bm, from, bit, bestStart, bestLen)
  {
    var open := bit - runLen;
    forall s: nat, l: nat | 1 <= l && FreeRun(bm, from, bit, s, l)
      ensures if runLen > bestLen then l < runLen || (l == runLen && open <= s)
              else l < bestLen || (l == bestLen && bestStart <= s)
    {
      if s < open {
        assert s + l <= open;
        assert FreeRun(bm, from, open, s, l);
      }
    }
  }

  lemma ExtendUsed(bm: seq<bv8>, from: nat, a: nat, b: nat, bestStart: nat, bestLen: nat)
    requires from <= a <= b <= 8 * |bm| && AllUsed(bm, a, b) && Best(bm, from, a, bestStart, bestLen)
    ensures Best(bm, from, b, bestStart, bestLen)
  {
    forall s: nat, l: nat | 1 <= l && a < s + l <= b ensures !FreeRun(bm, from, b, s, l) {
      assert Used(bm, s + l - 1);
    }
    forall s: nat, l: nat | 1 <= l && FreeRun(bm, from, b, s, l)
      ensures l < bestLen || (l == bestLen && bestStart <= s) {
      assert FreeRun(bm, from, a, s, l);
    }
  }

  /** When the open run reaches the wanted length it is the leftmost that long. */
  lemma Leftmost(bm: seq<bv8>, from: nat, to: nat, start: nat, want: nat, bestStart: nat, bestLen: nat)
    requires from <= start && start + want <= to <= 8 * |bm| && 1 <= want && bestLen < want
    requires start == from || Used(bm, start - 1)
    requires Best(bm, from, start, bestStart, bestLen)
    ensures forall s: nat :: s < start ==> !FreeRun(bm, from, to, s, want)
  {
    forall s: nat | from <= s < start < s + want ensures !FreeRun(bm, from, to, s, want) {
      assert Used(bm, start - 1);
    }
    forall s: nat | s < start && s + want <= start ensures !FreeRun(bm, from, to, s, want) {
      assert !FreeRun(bm, from, start, s, want);
    }
  }

  /** What the loop knows at `bit`: the open run ends there and cannot be extended to the left,
      and the best run so far is the best of everything before the open one. */
  ghost predicate Scanning(bm: seq<bv8>, from: nat, bit: nat, runLen: nat, bestStart: nat, bestLen: nat)
  {
    && from + runLen <= bit <= 8 * |bm|
    && FreeRun(bm, from, bit, bit - runLen, runLen)
    && (bit - runLen == from || Used(bm, bit - runLen - 1))
    && (bestLen == 0 ==> bestStart == 0)
    && (bestLen > 0 ==> FreeRun(bm, from, bit - runLen, bestStart, bestLen))
    && Best(bm, from, bit - runLen, bestStart, bestLen)
  }

  lemma StartScan(bm: seq<bv8>, from: nat)
    requires from <= 8 * |bm|
    ensures Scanning(bm, from, from, 0, 0, 0)
  {
    hide Used;
  }

  lemma StepFree(bm: seq<bv8>, from: nat, bit: nat, runLen: nat, bestStart: nat, bestLen: nat)
    requires Scanning(bm, from, bit, runLen, bestStart, bestLen) && bit < 8 * |bm| && !Used(bm, bit)
    ensures Scanning(bm, from, bit + 1, runLen + 1, bestStart, bestLen)
  {
  }

  lemma StepUsed(bm: seq<bv8>, from: nat, bit: nat, next: nat, runLen: nat, bestStart: nat, bestLen: nat)
    requires Scanning(bm, from, bit, runLen, bestStart, bestLen)
    requires bit < next <= 8 * |bm| && AllUsed(bm, bit, next)
    ensures if runLen > bestLen then Scanning(bm, from, next, 0, bit - runLen, runLen)
            else Scanning(bm, from, next, 0, bestStart, bestLen)
  {
    CloseRun(bm, from, bit, runLen, bestStart, bestLen);
    if runLen > bestLen {
      ExtendUsed(bm, from, bit, next, bit - runLen, runLen);
    } else {
      ExtendUsed(bm, from, bit, next, bestStart, bestLen);
    }
  }

  lemma EndScan(bm: seq<bv8>, from: nat, to: nat, want: nat, runLen: nat, bestStart: nat, bestLen: nat)
    requires Scanning(bm, from, to, runLen, bestStart, bestLen) && runLen < want && bestLen < want
    ensures if runLen > bestLen then ScanResult(bm, from, to, want, to - runLen, runLen)
            else ScanResult(bm, from, to, want, if bestLen == 0 then 0 else bestStart, bestLen)
  {
    CloseRun(bm, from, to, runLen, bestStart, bestLen);
  }

  lemma EndHit(bm: seq<bv8>, from: nat, to: nat, bit: nat, want: nat, bestStart: nat, bestLen: nat)
    requires Scanning(bm, from, bit, want, bestStart, bestLen) && bestLen < want && bit <= to <= 8 * |bm|
    ensures ScanResult(bm, from, to, want, bit - want, want)
  {
    Leftmost(bm, from, to, bit - want, want, bestStart, bestLen);
  }

  /** Skipping is allowed only on a byte boundary with no free run open. */
  method SkipBetweenRuns(bm: seq<bv8>, bit: nat, to: nat, runLen: nat,
                         ghost from: nat, ghost bestStart: nat, ghost bestLen: nat) returns (next: nat)
    requires Scanning(bm, from, bit, runLen, bestStart, bestLen) && bit <= to <= 8 * |bm|
    ensures bit <= next <= to && (runLen > 0 ==> next == bit)
    ensures Scanning(bm, from, next, runLen, bestStart, bestLen)
  {
    next := bit;
    if runLen == 0 && bit % 8 == 0 {
      next := SkipFull(bm, bit, to);
      if bit < next {
        StepUsed(bm, from, bit, next, 0, bestStart, bestLen);
      }
    }
  }

  /** A used bit ends the open run; the better of it and the best one so far is kept. */
  method EndRun(bm: seq<bv8>, bit: nat, runStart: int, runLen: nat, bestStart: nat, bestLen: nat, ghost from: nat)
    returns (start: nat, len: nat)
    requires Scanning(bm, from, bit, runLen, bestStart, bestLen) && bit < 8 * |bm| && Used(bm, bit)
    requires runStart == if runLen == 0 then -1 else bit - runLen
    ensures Scanning(bm, from, bit + 1, 0, start, len) && (len == runLen || len == bestLen)
  {
    OneUsed(bm, bit);
    StepUsed(bm, from, bit, bit + 1, runLen, bestStart, bestLen);
    hide Scanning, AllUsed, Used;
    start, len := bestStart, bestLen;
    if runLen > bestLen {
      start, len := runStart, runLen;
    }
  }

  /** The end of the range does the same. */
  method EndRange(bm: seq<bv8>, to: nat, runStart: int, runLen: nat, bestStart: nat, bestLen: nat,
                  ghost from: nat, ghost want: nat)
    returns (start: nat, len: nat)
    requires Scanning(bm, from, to, runLen, bestStart, bestLen) && to <= 8 * |bm| && runLen < want && bestLen < want
    requires runStart == if runLen == 0 then -1 else to - runLen
    ensures ScanResult(bm, from, to, want, start, len)
  {
    EndScan(bm, from, to, want, runLen, bestStart, bestLen);
    hide Scanning, ScanResult;
    start, len := bestStart, bestLen;
    if runLen > bestLen {
      start, len := runStart, runLen;
    }
    if len == 0 {
      start := 0;
    }
  }

  /** The scan: the leftmost free run of `needed` bits (of one bit when none is asked for), or
      else the earliest of the longest free runs, or nothing. */
  method ScanBitmapRange(bm: seq<bv8>, from: nat, to: nat, needed: nat) returns (start: nat, len: nat)
    requires from <= to <= 8 * |bm|
    ensures ScanResult(bm, from, to, if needed == 0 then 1 else needed, start, len)
  {
    hide *;
    ghost var want := if needed == 0 then 1 else needed;
    var runStart: int, runLen: nat, bestStart: nat, bestLen: nat, bit: nat := -1, 0, 0, 0, from;
    StartScan(bm, from);
    while bit < to
      invariant bit <= to && runLen < want && bestLen < want
      invariant runStart == if runLen == 0 then -1 else bit - runLen
      invariant runLen <= bit && Scanning(bm, from, bit, runLen, bestStart, bestLen)
    {
      bit := SkipBetweenRuns(bm, bit, to, runLen, from, bestStart, bestLen);
      if bit >= to {
        break;
      }
      if !Used(bm, bit) {
        if runStart == -1 {
          runStart := bit;
        }
        StepFree(bm, from, bit, runLen, bestStart, bestLen);
        runLen := runLen + 1;
        if runLen >= needed {
          EndHit(bm, from, to, bit + 1, runLen, bestStart, bestLen);
          return runStart, runLen;
        }
      } else {
        bestStart, bestLen := EndRun(bm, bit, runStart, runLen, bestStart, bestLen, from);
        runStart, runLen := -1, 0;
      }
      bit := bit + 1;
    }
    start, len := EndRange(bm, to, runStart, runLen, bestStart, bestLen, from, want);
  }

  lemma OneUsed(bm: seq<bv8>, bit: nat)
    requires bit < 8 * |bm| && Used(bm, bit)
    ensures AllUsed(bm, bit, bit + 1)
  {
  }
}
