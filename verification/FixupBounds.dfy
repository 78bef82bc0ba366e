/** Where a fixup touches memory (src/ntfs_mft.c).  It is not told how large its buffer is and goes by
    the record's type, so a record of one type in a buffer made for another can lead it outside. */
module FixupBounds {
  import opened Arith
  import opened ByteData
  import opened UpdateSequence

  /** The first sector from the i-th on that does not end in the number, or `count`. */
  function Stop(s: seq<byte>, bps: nat, usa: nat, count: nat, usn: word, i: nat): (k: nat)
    requires Covered(|s|, bps, usa, count) && i >= 1
    ensures i <= count ==> i <= k <= count
    decreases count - i
  {
    if i >= count then count
    else
      EndCovered(|s|, bps, usa, count, i);
      if Word(s, End(bps, i)) != usn then i
      else Stop(PutWord(s, End(bps, i), Word(s, usa + 2 * i)), bps, usa, count, usn, i + 1)
  }

  /** Where the words lie that the loop reads or writes from the i-th sector on. */
  function LoopTouches(s: seq<byte>, bps: nat, usa: nat, count: nat, usn: word, i: nat): seq<nat>
    requires Covered(|s|, bps, usa, count) && i >= 1
    decreases count - i
  {
    if i >= count then []
    else
      EndCovered(|s|, bps, usa, count, i);
      if Word(s, End(bps, i)) != usn then [End(bps, i)]
      else [End(bps, i), usa + 2 * i]
           + LoopTouches(PutWord(s, End(bps, i), Word(s, usa + 2 * i)), bps, usa, count, usn, i + 1)
  }

  /** Where the words lie that a fixup touches: the header's, the number, and those of the loop. */
  function Touches(g: Geometry, s: seq<byte>): seq<nat>
    requires Fits(g, s)
  {
    if NoFixup(s) then [4, 6]
    else if !BoundsOk(g, s) then [0, 2, 4, 6]
    else
      BoundsCover(g, s);
      [0, 2, 4, 6, UsaOffset(s)]
      + LoopTouches(s, g.bytesPerSector, UsaOffset(s), UsaCount(s), Word(s, UsaOffset(s)), 1)
  }

  predicate Inside(touched: seq<nat>, size: nat) {
    forall x :: x in touched ==> x + 2 <= size
  }

  lemma InsideJoin(a: seq<nat>, b: seq<nat>, size: nat)
    ensures Inside(a + b, size) <==> Inside(a, size) && Inside(b, size)
  {
    assert forall x :: x in a + b <==> x in a || x in b;
  }

  /** The last sector whose end is looked at, if the loop stops at sector k. */
  function Looked(k: nat, count: nat): nat {
    if k < count then k else if count == 0 then 0 else count - 1
  }

  /** The loop's last words are its furthest ones. */
  predicate Within(size: nat, bps: nat, usa: nat, count: nat, i: nat, k: nat) {
    i < count ==> Looked(k, count) * bps <= size && (k > i ==> usa + 2 * k <= size)
  }

  lemma WithinStep(size: nat, bps: nat, usa: nat, count: nat, i: nat, k: nat)
    requires bps >= 2 && 1 <= i < count && i + 1 <= k <= count
    ensures Within(size, bps, usa, count, i, k)
            <==> End(bps, i) + 2 <= size && usa + 2 * i + 2 <= size && Within(size, bps, usa, count, i + 1, k)
  {
    var l := Looked(k, count);
    if i < l {
      FactorLess(bps, i, l);
    }
  }

  lemma WithinEnds(size: nat, bps: nat, usa: nat, count: nat, i: nat)
    requires bps >= 2 && i >= 1
    ensures i < count ==> (Within(size, bps, usa, count, i, i) <==> End(bps, i) + 2 <= size)
    ensures i >= count ==> Within(size, bps, usa, count, i, count)
  {
  }

  /** One turn of the loop, with t as it leaves the sector's end. */
  lemma LoopStep(s: seq<byte>, bps: nat, usa: nat, count: nat, usn: word, i: nat)
    requires Covered(|s|, bps, usa, count) && i >= 1
    ensures i >= count ==> Stop(s, bps, usa, count, usn, i) == count && LoopTouches(s, bps, usa, count, usn, i) == []
                           && FixFrom(s, bps, usa, count, usn, i) == (true, s)
    ensures i < count ==> End(bps, i) + 2 <= |s| && usa + 2 * i + 2 <= |s|
    ensures i < count && Word(s, End(bps, i)) != usn ==>
              && Stop(s, bps, usa, count, usn, i) == i && LoopTouches(s, bps, usa, count, usn, i) == [End(bps, i)]
              && FixFrom(s, bps, usa, count, usn, i) == (false, s)
    ensures i < count && Word(s, End(bps, i)) == usn ==>
              var t := PutWord(s, End(bps, i), Word(s, usa + 2 * i));
              && Stop(s, bps, usa, count, usn, i) == Stop(t, bps, usa, count, usn, i + 1)
              && LoopTouches(s, bps, usa, count, usn, i)
                 == [End(bps, i), usa + 2 * i] + LoopTouches(t, bps, usa, count, usn, i + 1)
              && FixFrom(s, bps, usa, count, usn, i) == FixFrom(t, bps, usa, count, usn, i + 1)
  {
    hide Word, PutWord, End, Covered;
    if i < count {
      CoveredParts(|s|, bps, usa, count, i);
    }
  }

  lemma {:induction false} LoopInside(s: seq<byte>, bps: nat, usa: nat, count: nat, usn: word, i: nat, size: nat)
    requires Covered(|s|, bps, usa, count) && i >= 1
    ensures Inside(LoopTouches(s, bps, usa, count, usn, i), size)
            <==> Within(size, bps, usa, count, i, Stop(s, bps, usa, count, usn, i))
    decreases count - i
  {
    hide *;
    LoopStep(s, bps, usa, count, usn, i);
    InsideOf([], size);
    CoveredHas(|s|, bps, usa, count);
    WithinEnds(size, bps, usa, count, i);
    if i < count {
      var e := End(bps, i);
      InsideOf([e], size);
      if Word(s, e) == usn {
        var t := PutWord(s, e, Word(s, usa + 2 * i));
        LoopInside(t, bps, usa, count, usn, i + 1, size);
        InsideOf([e, usa + 2 * i], size);
        InsideJoin([e, usa + 2 * i], LoopTouches(t, bps, usa, count, usn, i + 1), size);
        WithinStep(size, bps, usa, count, i, Stop(t, bps, usa, count, usn, i + 1));
      }
    }
  }

  lemma CoveredHas(size: nat, bps: nat, usa: nat, count: nat)
    ensures Covered(size, bps, usa, count) ==> bps >= 2 && count >= 1
  {
  }

  lemma InsideOf(touched: seq<nat>, size: nat)
    ensures touched == [] ==> Inside(touched, size)
    ensures |touched| == 1 ==> (Inside(touched, size) <==> touched[0] + 2 <= size)
    ensures |touched| == 2 ==> (Inside(touched, size) <==> touched[0] + 2 <= size && touched[1] + 2 <= size)
  {
    assert forall x :: x in touched <==> exists j :: 0 <= j < |touched| && touched[j] == x;
    if |touched| == 1 {
      assert touched[0] in touched;
    }
    if |touched| == 2 {
      assert touched[0] in touched && touched[1] in touched;
    }
  }

  /** The loop sees nothing of a buffer but what it touches, and leaves the rest alone. */
  lemma {:induction false} LoopKeepsInside(s: seq<byte>, t: seq<byte>, bps: nat, usa: nat, count: nat, usn: word,
                                           i: nat, size: nat)
    requires Covered(|s|, bps, usa, count) && i >= 1 && |t| == |s| && size <= |s| && s[..size] == t[..size]
    requires Inside(LoopTouches(s, bps, usa, count, usn, i), size)
    ensures var (ok, r) := FixFrom(s, bps, usa, count, usn, i);
            var (ok', r') := FixFrom(t, bps, usa, count, usn, i);
            ok' == ok && r'[..size] == r[..size] && r[size..] == s[size..]
    decreases count - i
  {
    hide *;
    LoopStep(s, bps, usa, count, usn, i);
    LoopStep(t, bps, usa, count, usn, i);
    CoveredHas(|s|, bps, usa, count);
    if i < count {
      var e := End(bps, i);
      InsideOf([e], size);
      InsideOf([e, usa + 2 * i], size);
      if Word(s, e) == usn {
        var s' := PutWord(s, e, Word(s, usa + 2 * i));
        InsideJoin([e, usa + 2 * i], LoopTouches(s', bps, usa, count, usn, i + 1), size);
        FrontWord(s, t, e, size);
        FrontWord(s, t, usa + 2 * i, size);
        FrontPut(s, t, e, Word(s, usa + 2 * i), size);
        var t' := PutWord(t, e, Word(t, usa + 2 * i));
        LoopKeepsInside(s', t', bps, usa, count, usn, i + 1, size);
      } else {
        FrontWord(s, t, e, size);
      }
    }
  }

  lemma FrontWord(s: seq<byte>, t: seq<byte>, at: nat, size: nat)
    requires |t| == |s| && at + 2 <= size <= |s| && s[..size] == t[..size]
    ensures Word(t, at) == Word(s, at)
  {
    assert s[at] == s[..size][at] && s[at + 1] == s[..size][at + 1];
    assert t[at] == t[..size][at] && t[at + 1] == t[..size][at + 1];
  }

  lemma FrontPut(s: seq<byte>, t: seq<byte>, at: nat, w: word, size: nat)
    requires |t| == |s| && at + 2 <= size <= |s| && s[..size] == t[..size]
    ensures PutWord(t, at, w)[..size] == PutWord(s, at, w)[..size] && PutWord(s, at, w)[size..] == s[size..]
  {
    var s', t' := PutWord(s, at, w), PutWord(t, at, w);
    forall k | 0 <= k < size ensures t'[k] == s'[k] {
      assert s[k] == s[..size][k] && t[k] == t[..size][k];
    }
  }

  // ---------------------------------------------------------------- the whole fixup

  /** Where the loop stops, if the record has one. */
  function StopOf(g: Geometry, s: seq<byte>): nat
    requires Fits(g, s) && !NoFixup(s) && BoundsOk(g, s)
  {
    BoundsCover(g, s);
    Stop(s, g.bytesPerSector, UsaOffset(s), UsaCount(s), Word(s, UsaOffset(s)), 1)
  }

  /** The record's array, as far as the loop gets with it, and the sectors it looks at lie in a buffer. */
  predicate Reaches(g: Geometry, s: seq<byte>, size: nat)
    requires Fits(g, s) && !NoFixup(s) && BoundsOk(g, s)
  {
    var k := StopOf(g, s);
    UsaOffset(s) + 2 * k <= size && Looked(k, UsaCount(s)) * g.bytesPerSector <= size
  }

  lemma StopIsPositive(s: seq<byte>, bps: nat, usa: nat, count: nat, usn: word)
    requires Covered(|s|, bps, usa, count)
    ensures 1 <= Stop(s, bps, usa, count, usn, 1) <= count
  {
  }

  lemma HeadInside(usa: nat, rest: seq<nat>, size: nat)
    requires size >= HEADER_SIZE
    ensures Inside([4, 6], size) && Inside([0, 2, 4, 6], size)
    ensures Inside([0, 2, 4, 6, usa] + rest, size) <==> usa + 2 <= size && Inside(rest, size)
  {
    var head := [0, 2, 4, 6, usa];
    assert usa in head;
    assert forall x :: x in head ==> x == usa || x + 2 <= HEADER_SIZE;
    InsideJoin(head, rest, size);
  }

  lemma WithinFirst(size: nat, bps: nat, usa: nat, count: nat, k: nat)
    requires bps >= 2 && 1 <= k <= count
    ensures usa + 2 <= size && Within(size, bps, usa, count, 1, k)
            <==> usa + 2 * k <= size && Looked(k, count) * bps <= size
  {
    if count == 1 {
      assert Looked(k, count) * bps == 0 * bps == 0;
    }
  }

  /** A record s, with the memory behind its buffer of that size: fixing it up touches nothing outside
      the buffer exactly if it has no array, or is refused at once, or what the loop comes to before the
      first mismatch lies inside. */
  lemma FixupStaysInside(g: Geometry, s: seq<byte>, size: nat)
    requires Fits(g, s) && HEADER_SIZE <= size <= |s|
    ensures Inside(Touches(g, s), size) <==> NoFixup(s) || !BoundsOk(g, s) || Reaches(g, s, size)
  {
    hide Inside, Word, DWord, Within, Looked, Stop, LoopTouches, Covered;
    HeadInside(0, [], size);
    if !NoFixup(s) && BoundsOk(g, s) {
      BoundsCover(g, s);
      var bps, usa, count := g.bytesPerSector, UsaOffset(s), UsaCount(s);
      var usn := Word(s, usa);
      LoopInside(s, bps, usa, count, usn, 1, size);
      StopIsPositive(s, bps, usa, count, usn);
      HeadInside(usa, LoopTouches(s, bps, usa, count, usn, 1), size);
      WithinFirst(size, bps, usa, count, Stop(s, bps, usa, count, usn, 1));
    }
  }

  lemma {:induction false} AcceptedStopsLast(s: seq<byte>, bps: nat, usa: nat, count: nat, usn: word, i: nat)
    requires Covered(|s|, bps, usa, count) && 1 <= i <= count
    ensures FixFrom(s, bps, usa, count, usn, i).0 <==> Stop(s, bps, usa, count, usn, i) == count
    decreases count - i
  {
    hide *;
    LoopStep(s, bps, usa, count, usn, i);
    CoveredHas(|s|, bps, usa, count);
    if i < count && Word(s, End(bps, i)) == usn {
      AcceptedStopsLast(PutWord(s, End(bps, i), Word(s, usa + 2 * i)), bps, usa, count, usn, i + 1);
    }
  }

  /** An accepted record stays inside exactly if the code's own bounds hold of the buffer's size, and
      every record does if its buffer is as large as its type implies. */
  lemma AcceptedStaysInside(g: Geometry, s: seq<byte>, size: nat)
    requires Fits(g, s) && HEADER_SIZE <= size <= |s|
    ensures Fix(g, s).0 && !NoFixup(s) ==>
              (Inside(Touches(g, s), size)
               <==> UsaOffset(s) + 2 * UsaCount(s) <= size && (UsaCount(s) - 1) * g.bytesPerSector <= size)
    ensures ImpliedSize(g, s) <= size ==> Inside(Touches(g, s), size)
  {
    hide Inside, Word, DWord, Within, Stop, LoopTouches, Covered, Touches, FixFrom;
    FixupStaysInside(g, s, size);
    if !NoFixup(s) && BoundsOk(g, s) {
      BoundsCover(g, s);
      var bps, usa, count := g.bytesPerSector, UsaOffset(s), UsaCount(s);
      CoveredHas(|s|, bps, usa, count);
      AcceptedStopsLast(s, bps, usa, count, Word(s, usa), 1);
      StopIsPositive(s, bps, usa, count, Word(s, usa));
      LookedAtMost(StopOf(g, s), count, bps);
    }
  }

  lemma LookedAtMost(k: nat, count: nat, bps: nat)
    requires 1 <= k <= count
    ensures Looked(k, count) * bps <= (count - 1) * bps
    ensures k == count ==> Looked(k, count) == count - 1
  {
    if k < count - 1 {
      FactorLess(bps, k, count - 1);
    }
  }

  /** What a fixup does not touch it does not depend on, and does not change. */
  lemma BehindStays(g: Geometry, s: seq<byte>, t: seq<byte>, size: nat)
    requires Fits(g, s) && HEADER_SIZE <= size <= |s| && |t| == |s| && t[..size] == s[..size]
    requires Inside(Touches(g, s), size)
    ensures Fits(g, t) && Fix(g, t).0 == Fix(g, s).0
    ensures Fix(g, t).1[..size] == Fix(g, s).1[..size] && Fix(g, s).1[size..] == s[size..]
  {
    hide Inside, Word, LoopTouches, Covered, FixFrom;
    FrontWord(s, t, 0, size);
    FrontWord(s, t, 2, size);
    FrontWord(s, t, 4, size);
    FrontWord(s, t, 6, size);
    if !NoFixup(s) && BoundsOk(g, s) {
      BoundsCover(g, s);
      var bps, usa, count := g.bytesPerSector, UsaOffset(s), UsaCount(s);
      var usn := Word(s, usa);
      HeadInside(usa, LoopTouches(s, bps, usa, count, usn, 1), size);
      FrontWord(s, t, usa, size);
      LoopKeepsInside(s, t, bps, usa, count, usn, 1, size);
    }
  }

  // ---------------------------------------------------------------- an index record in the file table

  /** A table record of 1024 bytes that carries the index type and claims eight sectors of 512 bytes;
      the word saved for the third is 0x58. */
  function StrayCell(i: nat): byte {
    if i == 0 then 0x49
    else if i == 1 then 0x4E
    else if i == 2 then 0x44
    else if i == 3 then 0x58
    else if i == 4 then 40
    else if i == 6 then 9
    else if i == 46 then 0x58
    else 0
  }

  function StrayRecord(): (b: seq<byte>)
    ensures |b| == 1024
  {
    seq(1024, i requires i >= 0 => StrayCell(i))
  }

  function Blank(n: nat): (b: seq<byte>)
    ensures |b| == n
  {
    seq(n, _ => 0)
  }

  const SMALL_RECORDS := Geometry(512, 1024, 4096)

  lemma StrayWord(at: nat)
    requires at + 2 <= 4096
    ensures var s := StrayRecord() + Blank(3072);
            Word(s, at) == if at + 2 <= 1024 then StrayCell(at) + 256 * StrayCell(at + 1)
                           else if at >= 1024 then 0 else StrayCell(at)
  {
    hide StrayCell;
  }

  lemma StrayHeader()
    ensures var s := StrayRecord() + Blank(3072);
            && |s| == 4096 && DWord(s, 0) == INDX_TYPE && UsaOffset(s) == 40 && UsaCount(s) == 9
            && Word(s, 40) == 0 && Word(s, 46) == 0x58
  {
    hide StrayRecord, Blank, Word;
    StrayWord(0);
    StrayWord(2);
    StrayWord(4);
    StrayWord(6);
    StrayWord(40);
    StrayWord(46);
  }

  lemma StrayEnds()
    ensures var s := StrayRecord() + Blank(3072);
            Apart(4096, 512, 40, 9) && forall j :: 1 <= j < 9 ==> End(512, j) + 2 <= |s| && Word(s, End(512, j)) == 0
  {
    hide StrayRecord, Blank, Word;
    forall j | 1 <= j < 9
      ensures End(512, j) + 2 <= 4096 && Word(StrayRecord() + Blank(3072), End(512, j)) == 0
    {
      StrayWord(End(512, j));
    }
  }

  lemma StrayBounds()
    ensures var g, s := SMALL_RECORDS, StrayRecord() + Blank(3072);
            Fits(g, s) && !NoFixup(s) && BoundsOk(g, s)
  {
    StrayHeader();
    hide StrayRecord, Blank, Word, DWord;
  }

  lemma FixIs(g: Geometry, s: seq<byte>)
    requires Fits(g, s) && !NoFixup(s) && BoundsOk(g, s)
    ensures Covered(|s|, g.bytesPerSector, UsaOffset(s), UsaCount(s))
    ensures Fix(g, s) == FixFrom(s, g.bytesPerSector, UsaOffset(s), UsaCount(s), Word(s, UsaOffset(s)), 1)
  {
    hide FixFrom, Word, DWord;
    BoundsCover(g, s);
  }

  /** A loop over sectors that all end in the number puts back the saved word of each. */
  lemma PutBack(s: seq<byte>, bps: nat, usa: nat, count: nat, usn: word, j: nat)
    requires Apart(|s|, bps, usa, count) && 1 <= j < count
    requires forall i :: 1 <= i < count ==> End(bps, i) + 2 <= |s| && Word(s, End(bps, i)) == usn
    ensures End(bps, j) + 2 <= |s| && usa + 2 * j + 2 <= |s|
    ensures var (ok, r) := FixFrom(s, bps, usa, count, usn, 1); ok && Word(r, End(bps, j)) == Word(s, usa + 2 * j)
  {
    hide FixFrom, Word, End, OffEnds;
    FixEffect(s, bps, usa, count, usn, 1);
  }

  lemma StrayIsFixed()
    ensures var g, s := SMALL_RECORDS, StrayRecord() + Blank(3072);
            Fits(g, s) && !NoFixup(s) && BoundsOk(g, s) && Fix(g, s).0 && Word(Fix(g, s).1, 1534) == 0x58
  {
    var s := StrayRecord() + Blank(3072);
    StrayBounds();
    StrayHeader();
    StrayEnds();
    assert End(512, 3) == 1534;
    hide StrayRecord, Blank, Word, DWord, FixFrom, Fix, End, Apart, BoundsOk, Fits, NoFixup;
    FixIs(SMALL_RECORDS, s);
    PutBack(s, 512, 40, 9, 0, 3);
  }

  /** Read from the file table of a volume whose index blocks are larger than its records, such a record
      is accepted, and bytes behind the caller's buffer are changed. */
  lemma IndexInFileTable()
    ensures var g, s := SMALL_RECORDS, StrayRecord() + Blank(3072);
            && Fits(g, s) && Fix(g, s).0 && !Inside(Touches(g, s), g.bytesPerFileRecord)
            && Fix(g, s).1[g.bytesPerFileRecord..] != s[g.bytesPerFileRecord..]
  {
    var g, s := SMALL_RECORDS, StrayRecord() + Blank(3072);
    StrayHeader();
    StrayIsFixed();
    StrayWord(1534);
    hide StrayRecord, Blank, Word, DWord, Fix, Inside, Touches, Fits, BoundsOk;
    AcceptedStaysInside(g, s, 1024);
    if Fix(g, s).1[1024..] == s[1024..] {
      BackWord(Fix(g, s).1, s, 1534, 1024);
    }
  }

  lemma BackWord(s: seq<byte>, t: seq<byte>, at: nat, size: nat)
    requires |t| == |s| && size <= at && at + 2 <= |s| && s[size..] == t[size..]
    ensures Word(t, at) == Word(s, at)
  {
    assert s[at] == s[size..][at - size] && s[at + 1] == s[size..][at + 1 - size];
    assert t[at] == t[size..][at - size] && t[at + 1] == t[size..][at + 1 - size];
  }
}
