/** Update-sequence fixup of multi-sector records (src/ntfs_mft.c): while a record lies on disk
    every sector ends in the same update sequence number, and the bytes it displaces wait in the
    update sequence array.  A record put together from two generations is told by its numbers. */
module UpdateSequence {
  import opened Arith
  import opened ByteData

  const FILE_TYPE := 0x454C4946
  const INDX_TYPE := 0x58444E49
  const HEADER_SIZE := 16

  datatype Geometry = Geometry(bytesPerSector: nat, bytesPerFileRecord: nat, bytesPerIndexRecord: nat)

  /** The record type implies the size of the buffer the header lives in; 0 for an unknown type. */
  function ImpliedSize(g: Geometry, s: seq<byte>): nat
    requires |s| >= HEADER_SIZE
  {
    if DWord(s, 0) == FILE_TYPE then g.bytesPerFileRecord
    else if DWord(s, 0) == INDX_TYPE then g.bytesPerIndexRecord
    else 0
  }

  function UsaOffset(s: seq<byte>): (v: nat)
    requires |s| >= HEADER_SIZE
  {
    Word(s, 4)
  }

  function UsaCount(s: seq<byte>): (v: nat)
    requires |s| >= HEADER_SIZE
  {
    Word(s, 6)
  }

  /** What is there to work on, a buffer with the memory behind it, is as large as the record type
      implies.  FixupBounds says when the buffer alone suffices. */
  predicate Fits(g: Geometry, s: seq<byte>) {
    g.bytesPerSector >= 2 && |s| >= HEADER_SIZE && ImpliedSize(g, s) <= |s|
  }

  predicate NoFixup(s: seq<byte>)
    requires |s| >= HEADER_SIZE
  {
    UsaOffset(s) == 0 || UsaCount(s) == 0
  }

  predicate BoundsOk(g: Geometry, s: seq<byte>)
    requires |s| >= HEADER_SIZE && !NoFixup(s)
  {
    && (DWord(s, 0) == FILE_TYPE || DWord(s, 0) == INDX_TYPE)
    && UsaOffset(s) >= HEADER_SIZE
    && UsaOffset(s) + 2 * UsaCount(s) <= ImpliedSize(g, s)
    && (UsaCount(s) - 1) * g.bytesPerSector <= ImpliedSize(g, s)
  }

  /** Where the last two bytes of the i-th sector (counted from 1) begin. */
  function End(bps: nat, i: nat): nat
    requires bps >= 2 && i >= 1
  {
    FactorLess(bps, 0, i);
    i * bps - 2
  }

  lemma EndsInOrder(bps: nat, i: nat, j: nat)
    requires bps >= 2 && 1 <= i < j
    ensures End(bps, i) + bps <= End(bps, j)
  {
    FactorLess(bps, i, j);
  }

  /** All sector ends up to the last one the array covers lie in the buffer. */
  predicate Covered(size: nat, bps: nat, usa: nat, count: nat) {
    bps >= 2 && count >= 1 && usa + 2 * count <= size && (count > 1 ==> End(bps, count - 1) + 2 <= size)
  }

  lemma EndCovered(size: nat, bps: nat, usa: nat, count: nat, i: nat)
    requires Covered(size, bps, usa, count) && 1 <= i < count
    ensures End(bps, i) + 2 <= size
  {
    if i < count - 1 {
      EndsInOrder(bps, i, count - 1);
    }
  }

  // ---------------------------------------------------------------- the two loops

  /** Fixing up sectors i, i + 1, ...: stop at the first one that does not end in the number. */
  function FixFrom(s: seq<byte>, bps: nat, usa: nat, count: nat, usn: word, i: nat): (r: (bool, seq<byte>))
    requires Covered(|s|, bps, usa, count) && i >= 1
    ensures |r.1| == |s|
    decreases count - i
  {
    if i >= count then (true, s)
    else
      EndCovered(|s|, bps, usa, count, i);
      if Word(s, End(bps, i)) != usn then (false, s)
      else FixFrom(PutWord(s, End(bps, i), Word(s, usa + 2 * i)), bps, usa, count, usn, i + 1)
  }

  /** Stamping sectors i, i + 1, ...: save the end of the sector, then overwrite it. */
  function StampFrom(s: seq<byte>, bps: nat, usa: nat, count: nat, usn: word, i: nat): (r: seq<byte>)
    requires Covered(|s|, bps, usa, count) && i >= 1
    ensures |r| == |s|
    decreases count - i
  {
    if i >= count then s
    else
      EndCovered(|s|, bps, usa, count, i);
      var saved := PutWord(s, usa + 2 * i, Word(s, End(bps, i)));
      StampFrom(PutWord(saved, End(bps, i), usn), bps, usa, count, usn, i + 1)
  }

  function NextUsn(usn: word): word {
    var next := (usn + 1) % 0x1_0000;
    if next == 0 || next == 0xFFFF then 1 else next
  }

  lemma NextDiffers(usn: word)
    ensures NextUsn(usn) != usn && NextUsn(usn) != 0 && NextUsn(usn) != 0xFFFF
  {
  }

  lemma BoundsCover(g: Geometry, s: seq<byte>)
    requires Fits(g, s) && !NoFixup(s) && BoundsOk(g, s)
    ensures Covered(|s|, g.bytesPerSector, UsaOffset(s), UsaCount(s))
  {
  }

  /** What fixing up a record yields: whether it is accepted, and the buffer afterwards. */
  function Fix(g: Geometry, s: seq<byte>): (r: (bool, seq<byte>))
    requires Fits(g, s)
    ensures |r.1| == |s|
  {
    if NoFixup(s) then (true, s)
    else if !BoundsOk(g, s) then (false, s)
    else
      BoundsCover(g, s);
      FixFrom(s, g.bytesPerSector, UsaOffset(s), UsaCount(s), Word(s, UsaOffset(s)), 1)
  }

  /** What preparing a record for the disk yields. */
  function Unfix(g: Geometry, s: seq<byte>): (r: (bool, seq<byte>))
    requires Fits(g, s)
    ensures |r.1| == |s|
  {
    if NoFixup(s) then (true, s)
    else if !BoundsOk(g, s) then (false, s)
    else
      BoundsCover(g, s);
      var usa, usn := UsaOffset(s), NextUsn(Word(s, UsaOffset(s)));
      (true, StampFrom(PutWord(s, usa, usn), g.bytesPerSector, usa, UsaCount(s), usn, 1))
  }

  method StoreWord(a: array<byte>, at: nat, w: word)
    requires at + 2 <= a.Length
    modifies a
    ensures a[..] == PutWord(old(a[..]), at, w)
  {
    a[at] := w % 256;
    a[at + 1] := w / 256;
  }

  method LoadWord(a: array<byte>, at: nat) returns (w: word)
    requires at + 2 <= a.Length
    ensures w == Word(a[..], at)
  {
    var low: int, high: int := a[at], a[at + 1];
    w := low + 256 * high;
  }

  /** Check and patch sector after sector; stop at the first mismatch. */
  method FixSectors(a: array<byte>, bps: nat, usa: nat, count: nat, usn: word) returns (ok: bool)
    requires Covered(a.Length, bps, usa, count)
    modifies a
    ensures (ok, a[..]) == FixFrom(old(a[..]), bps, usa, count, usn, 1)
  {
    hide Word, PutWord, End, Covered;
    ghost var was := a[..];
    var i := 1;
    while i < count
      invariant 1 <= i
      invariant FixFrom(a[..], bps, usa, count, usn, i) == FixFrom(was, bps, usa, count, usn, 1)
    {
      CoveredParts(a.Length, bps, usa, count, i);
      var end := LoadWord(a, End(bps, i));
      if end != usn {
        return false;
      }
      var saved := LoadWord(a, usa + 2 * i);
      StoreWord(a, End(bps, i), saved);
      i := i + 1;
    }
    return true;
  }

  /** Save and stamp sector after sector. */
  method StampSectors(a: array<byte>, bps: nat, usa: nat, count: nat, usn: word)
    requires Covered(a.Length, bps, usa, count)
    modifies a
    ensures a[..] == StampFrom(old(a[..]), bps, usa, count, usn, 1)
  {
    hide Word, PutWord, End, Covered;
    ghost var was := a[..];
    var i := 1;
    while i < count
      invariant 1 <= i
      invariant StampFrom(a[..], bps, usa, count, usn, i) == StampFrom(was, bps, usa, count, usn, 1)
    {
      CoveredParts(a.Length, bps, usa, count, i);
      var end := LoadWord(a, End(bps, i));
      StoreWord(a, usa + 2 * i, end);
      StoreWord(a, End(bps, i), usn);
      i := i + 1;
    }
  }

  lemma CoveredParts(size: nat, bps: nat, usa: nat, count: nat, i: nat)
    requires Covered(size, bps, usa, count) && 1 <= i < count
    ensures bps >= 2 && usa + 2 * i + 2 <= size && End(bps, i) + 2 <= size
  {
    EndCovered(size, bps, usa, count, i);
  }

  /** Fix up a record in place.  On a mismatch the sectors before it stay patched. */
  method FixupRecord(g: Geometry, a: array<byte>) returns (ok: bool)
    requires Fits(g, a[..])
    modifies a
    ensures (ok, a[..]) == Fix(g, old(a[..]))
  {
    hide FixFrom, Word, DWord;
    ghost var was := a[..];
    if NoFixup(a[..]) {
      return true;
    }
    if !BoundsOk(g, a[..]) {
      return false;
    }
    BoundsCover(g, was);
    var bps, usa, count := g.bytesPerSector, UsaOffset(a[..]), UsaCount(a[..]);
    var usn := LoadWord(a, usa);
    ok := FixSectors(a, bps, usa, count, usn);
  }

  /** Prepare a record for the disk in place: bump the number, save the sector ends, stamp them. */
  method UnfixupRecord(g: Geometry, a: array<byte>) returns (ok: bool)
    requires Fits(g, a[..])
    modifies a
    ensures (ok, a[..]) == Unfix(g, old(a[..]))
  {
    hide StampFrom, Word, DWord, PutWord, NextUsn;
    ghost var was := a[..];
    if NoFixup(a[..]) {
      return true;
    }
    if !BoundsOk(g, a[..]) {
      return false;
    }
    BoundsCover(g, was);
    var bps, usa, count := g.bytesPerSector, UsaOffset(a[..]), UsaCount(a[..]);
    var usn := LoadWord(a, usa);
    usn := NextUsn(usn);
    StoreWord(a, usa, usn);
    StampSectors(a, bps, usa, count, usn);
    return true;
  }

  // ---------------------------------------------------------------- what the loops do

  /** No sector end lies in the header or overlaps the update sequence array. */
  ghost predicate Apart(size: nat, bps: nat, usa: nat, count: nat) {
    && Covered(size, bps, usa, count) && usa >= HEADER_SIZE
    && forall i :: 1 <= i < count ==>
         HEADER_SIZE <= End(bps, i) && (End(bps, i) + 2 <= usa || usa + 2 * count <= End(bps, i))
  }

  /** p is none of the sector-end bytes of sectors i, i + 1, ... */
  ghost predicate OffEnds(bps: nat, count: nat, i: nat, p: nat)
    requires bps >= 2 && i >= 1
  {
    forall j :: i <= j < count ==> p < End(bps, j) || End(bps, j) + 2 <= p
  }

  lemma SameWord(s: seq<byte>, t: seq<byte>, at: nat)
    requires at + 2 <= |s| && |t| == |s| && s[at] == t[at] && s[at + 1] == t[at + 1]
    ensures Word(s, at) == Word(t, at)
  {
  }

  /** A word put at one place leaves a word at a disjoint place alone. */
  lemma PutElsewhere(s: seq<byte>, at: nat, w: word, other: nat)
    requires at + 2 <= |s| && other + 2 <= |s| && (other + 2 <= at || at + 2 <= other)
    ensures Word(PutWord(s, at, w), other) == Word(s, other)
  {
  }

  lemma EndOffLater(bps: nat, count: nat, i: nat, p: nat)
    requires bps >= 2 && i >= 1 && p < End(bps, i) + 2
    ensures OffEnds(bps, count, i + 1, p)
  {
    forall j | i + 1 <= j < count ensures p < End(bps, j) {
      EndsInOrder(bps, i, j);
    }
  }

  /** A byte of the array is no sector-end byte. */
  lemma SlotOffEnds(size: nat, bps: nat, usa: nat, count: nat, i: nat, p: nat)
    requires Apart(size, bps, usa, count) && i >= 1 && usa <= p < usa + 2 * count
    ensures OffEnds(bps, count, i, p)
  {
  }

  /** Sectors i, i + 1, ... of s end in the number, and r has the saved words there instead. */
  ghost predicate AllEndIn(s: seq<byte>, bps: nat, count: nat, usn: word, i: nat)
    requires bps >= 2 && i >= 1
  {
    forall j :: i <= j < count ==> End(bps, j) + 2 <= |s| && Word(s, End(bps, j)) == usn
  }

  ghost predicate Restored(s: seq<byte>, r: seq<byte>, bps: nat, usa: nat, count: nat, i: nat)
    requires |r| == |s| && Covered(|s|, bps, usa, count) && i >= 1
  {
    && (forall j :: i <= j < count ==> End(bps, j) + 2 <= |s| && Word(r, End(bps, j)) == Word(s, usa + 2 * j))
    && (forall p :: 0 <= p < |s| && OffEnds(bps, count, i, p) ==> r[p] == s[p])
  }

  ghost predicate OneFixed(s: seq<byte>, t: seq<byte>, bps: nat, usa: nat, count: nat, i: nat)
    requires |t| == |s| && Covered(|s|, bps, usa, count) && 1 <= i < count && End(bps, i) + 2 <= |s|
  {
    var e := End(bps, i);
    && Word(t, e) == Word(s, usa + 2 * i)
    && (forall j :: i < j < count ==> End(bps, j) + 2 <= |s| && Word(t, End(bps, j)) == Word(s, End(bps, j))
                                      && Word(t, usa + 2 * j) == Word(s, usa + 2 * j))
    && forall p :: 0 <= p < |s| && !(e <= p < e + 2) ==> t[p] == s[p]
  }

  /** One turn: the sector's end is put back, the later ends and their saved words stay. */
  lemma FixOne(s: seq<byte>, bps: nat, usa: nat, count: nat, i: nat)
    requires Apart(|s|, bps, usa, count) && 1 <= i < count && End(bps, i) + 2 <= |s|
    ensures OneFixed(s, PutWord(s, End(bps, i), Word(s, usa + 2 * i)), bps, usa, count, i)
  {
    hide Word, PutWord, End;
    var e, w := End(bps, i), Word(s, usa + 2 * i);
    var t := PutWord(s, e, w);
    WordPut(s, e, w);
    forall j | i < j < count
      ensures End(bps, j) + 2 <= |s| && Word(t, End(bps, j)) == Word(s, End(bps, j))
      ensures Word(t, usa + 2 * j) == Word(s, usa + 2 * j) {
      CoveredParts(|s|, bps, usa, count, j);
      EndsInOrder(bps, i, j);
      PutElsewhere(s, e, w, End(bps, j));
      PutElsewhere(s, e, w, usa + 2 * j);
    }
  }

  lemma EndsJoin(s: seq<byte>, t: seq<byte>, bps: nat, usa: nat, count: nat, usn: word, i: nat)
    requires |t| == |s| && Apart(|s|, bps, usa, count) && 1 <= i < count && End(bps, i) + 2 <= |s|
    requires OneFixed(s, t, bps, usa, count, i) && Word(s, End(bps, i)) == usn
    ensures AllEndIn(t, bps, count, usn, i + 1) <==> AllEndIn(s, bps, count, usn, i)
  {
    hide Word, End;
    if AllEndIn(t, bps, count, usn, i + 1) {
      forall j | i <= j < count ensures End(bps, j) + 2 <= |s| && Word(s, End(bps, j)) == usn {
      }
    }
  }

  lemma FixJoins(s: seq<byte>, t: seq<byte>, r: seq<byte>, bps: nat, usa: nat, count: nat, i: nat)
    requires |t| == |s| == |r| && Apart(|s|, bps, usa, count) && 1 <= i < count && End(bps, i) + 2 <= |s|
    requires OneFixed(s, t, bps, usa, count, i) && Restored(t, r, bps, usa, count, i + 1)
    ensures Restored(s, r, bps, usa, count, i)
  {
    hide Word, End;
    var e := End(bps, i);
    EndOffLater(bps, count, i, e);
    EndOffLater(bps, count, i, e + 1);
    SameWord(r, t, e);
    forall p | 0 <= p < |s| && OffEnds(bps, count, i, p) ensures r[p] == s[p] {
      assert OffEnds(bps, count, i + 1, p);
    }
  }

  lemma {:induction false} FixEffect(s: seq<byte>, bps: nat, usa: nat, count: nat, usn: word, i: nat)
    requires Apart(|s|, bps, usa, count) && i >= 1
    ensures var (ok, r) := FixFrom(s, bps, usa, count, usn, i);
            && (ok <==> AllEndIn(s, bps, count, usn, i))
            && (ok ==> Restored(s, r, bps, usa, count, i))
    decreases count - i
  {
    hide Word, PutWord, End;
    if i < count {
      var e := End(bps, i);
      CoveredParts(|s|, bps, usa, count, i);
      if Word(s, e) == usn {
        FixOne(s, bps, usa, count, i);
        var t := PutWord(s, e, Word(s, usa + 2 * i));
        FixEffect(t, bps, usa, count, usn, i + 1);
        hide OneFixed, Restored, AllEndIn, Apart;
        EndsJoin(s, t, bps, usa, count, usn, i);
        var (ok, r) := FixFrom(t, bps, usa, count, usn, i + 1);
        if ok {
          FixJoins(s, t, r, bps, usa, count, i);
        }
      }
    }
  }

  /** What stamping sectors i, i + 1, ... makes of s. */
  ghost predicate Stamped(s: seq<byte>, r: seq<byte>, bps: nat, usa: nat, count: nat, usn: word, i: nat)
    requires |r| == |s| && Covered(|s|, bps, usa, count) && i >= 1
  {
    && AllEndIn(r, bps, count, usn, i)
    && (forall j :: i <= j < count ==> End(bps, j) + 2 <= |s| && Word(r, usa + 2 * j) == Word(s, End(bps, j)))
    && (forall p :: 0 <= p < |s| && OffEnds(bps, count, i, p) && !(usa + 2 * i <= p < usa + 2 * count) ==>
          r[p] == s[p])
  }

  ghost predicate OneStamped(s: seq<byte>, t: seq<byte>, bps: nat, usa: nat, count: nat, usn: word, i: nat)
    requires |t| == |s| && Covered(|s|, bps, usa, count) && 1 <= i < count && End(bps, i) + 2 <= |s|
  {
    var e, slot := End(bps, i), usa + 2 * i;
    && Word(t, e) == usn && Word(t, slot) == Word(s, e)
    && (forall j :: i < j < count ==> End(bps, j) + 2 <= |s| && Word(t, End(bps, j)) == Word(s, End(bps, j)))
    && forall p :: 0 <= p < |s| && !(e <= p < e + 2) && !(slot <= p < slot + 2) ==> t[p] == s[p]
  }

  lemma StampJoins(s: seq<byte>, t: seq<byte>, r: seq<byte>, bps: nat, usa: nat, count: nat, usn: word, i: nat)
    requires |t| == |s| == |r| && Apart(|s|, bps, usa, count) && 1 <= i < count && End(bps, i) + 2 <= |s|
    requires OneStamped(s, t, bps, usa, count, usn, i) && Stamped(t, r, bps, usa, count, usn, i + 1)
    ensures Stamped(s, r, bps, usa, count, usn, i)
  {
    hide Word, PutWord, End;
    var e, slot := End(bps, i), usa + 2 * i;
    EndOffLater(bps, count, i, e);
    EndOffLater(bps, count, i, e + 1);
    SameWord(r, t, e);
    SlotOffEnds(|s|, bps, usa, count, i + 1, slot);
    SlotOffEnds(|s|, bps, usa, count, i + 1, slot + 1);
    SameWord(r, t, slot);
    forall p | 0 <= p < |s| && OffEnds(bps, count, i, p) && !(slot <= p < usa + 2 * count) ensures r[p] == s[p] {
      assert OffEnds(bps, count, i + 1, p);
    }
  }

  /** One turn: the sector's own words change places, the later sector ends stay. */
  lemma StampOne(s: seq<byte>, bps: nat, usa: nat, count: nat, usn: word, i: nat)
    requires Apart(|s|, bps, usa, count) && 1 <= i < count && End(bps, i) + 2 <= |s|
    ensures var e, slot := End(bps, i), usa + 2 * i;
            OneStamped(s, PutWord(PutWord(s, slot, Word(s, e)), e, usn), bps, usa, count, usn, i)
  {
    hide Word, PutWord, End;
    var e, slot := End(bps, i), usa + 2 * i;
    var saved := PutWord(s, slot, Word(s, e));
    WordPut(s, slot, Word(s, e));
    WordPut(saved, e, usn);
    PutElsewhere(saved, e, usn, slot);
    forall j | i < j < count
      ensures End(bps, j) + 2 <= |s| && Word(PutWord(saved, e, usn), End(bps, j)) == Word(s, End(bps, j)) {
      CoveredParts(|s|, bps, usa, count, j);
      EndsInOrder(bps, i, j);
      PutElsewhere(s, slot, Word(s, e), End(bps, j));
      PutElsewhere(saved, e, usn, End(bps, j));
    }
  }

  lemma {:induction false} StampEffect(s: seq<byte>, bps: nat, usa: nat, count: nat, usn: word, i: nat)
    requires Apart(|s|, bps, usa, count) && i >= 1
    ensures Stamped(s, StampFrom(s, bps, usa, count, usn, i), bps, usa, count, usn, i)
    decreases count - i
  {
    hide Word, PutWord, End;
    if i < count {
      var e, slot := End(bps, i), usa + 2 * i;
      CoveredParts(|s|, bps, usa, count, i);
      StampOne(s, bps, usa, count, usn, i);
      var t := PutWord(PutWord(s, slot, Word(s, e)), e, usn);
      StampEffect(t, bps, usa, count, usn, i + 1);
      hide Stamped, OneStamped, Apart;
      StampJoins(s, t, StampFrom(t, bps, usa, count, usn, i + 1), bps, usa, count, usn, i);
    }
  }

  // ---------------------------------------------------------------- the round trip

  /** A record whose array the fixup uses, lying clear of the header and of all sector ends. */
  ghost predicate WellLaid(g: Geometry, s: seq<byte>) {
    && Fits(g, s) && !NoFixup(s) && BoundsOk(g, s)
    && Apart(|s|, g.bytesPerSector, UsaOffset(s), UsaCount(s))
  }

  predicate SameHeader(s: seq<byte>, t: seq<byte>) {
    |s| >= HEADER_SIZE && |t| == |s| && forall p :: 0 <= p < HEADER_SIZE ==> s[p] == t[p]
  }

  lemma HeaderDecides(g: Geometry, s: seq<byte>, t: seq<byte>)
    requires WellLaid(g, s) && SameHeader(s, t)
    ensures WellLaid(g, t) && UsaOffset(t) == UsaOffset(s) && UsaCount(t) == UsaCount(s)
  {
    SameWord(s, t, 0);
    SameWord(s, t, 2);
    SameWord(s, t, 4);
    SameWord(s, t, 6);
  }

  predicate InArray(s: seq<byte>, p: nat)
    requires |s| >= HEADER_SIZE
  {
    UsaOffset(s) <= p < UsaOffset(s) + 2 * UsaCount(s)
  }

  lemma HeaderOffEnds(size: nat, bps: nat, usa: nat, count: nat, p: nat)
    requires Apart(size, bps, usa, count) && p < HEADER_SIZE
    ensures OffEnds(bps, count, 1, p)
  {
  }

  /** The on-disk image of a record: accepted by the fixup, one number at every sector end. */
  lemma UnfixGives(g: Geometry, s: seq<byte>)
    requires WellLaid(g, s)
    ensures var (ok, t) := Unfix(g, s);
            var bps, usa, count := g.bytesPerSector, UsaOffset(s), UsaCount(s);
            var usn := NextUsn(Word(s, usa));
            && ok && SameHeader(s, t) && Word(t, usa) == usn && AllEndIn(t, bps, count, usn, 1)
            && (forall j :: 1 <= j < count ==> End(bps, j) + 2 <= |s| && Word(t, usa + 2 * j) == Word(s, End(bps, j)))
            && forall p :: 0 <= p < |s| && OffEnds(bps, count, 1, p) && !InArray(s, p) ==> t[p] == s[p]
  {
    hide Word, PutWord, End, NextUsn;
    var bps, usa, count := g.bytesPerSector, UsaOffset(s), UsaCount(s);
    var usn := NextUsn(Word(s, usa));
    var bumped := PutWord(s, usa, usn);
    WordPut(s, usa, usn);
    StampEffect(bumped, bps, usa, count, usn, 1);
    var t := StampFrom(bumped, bps, usa, count, usn, 1);
    forall j | 1 <= j < count ensures End(bps, j) + 2 <= |s| && Word(bumped, End(bps, j)) == Word(s, End(bps, j)) {
      CoveredParts(|s|, bps, usa, count, j);
      PutElsewhere(s, usa, usn, End(bps, j));
    }
    forall p | 0 <= p < HEADER_SIZE ensures t[p] == s[p] {
      HeaderOffEnds(|s|, bps, usa, count, p);
    }
    SlotOffEnds(|s|, bps, usa, count, 1, usa);
    SlotOffEnds(|s|, bps, usa, count, 1, usa + 1);
    SameWord(t, bumped, usa);
  }

  /** A record goes to disk and back: everything outside the array is what it was, the number is
      the next one, and the array holds the sector ends just saved. */
  lemma FixUndoesUnfix(g: Geometry, s: seq<byte>)
    requires WellLaid(g, s)
    ensures var t := Unfix(g, s).1;
            && Unfix(g, s).0 && WellLaid(g, t) && Fix(g, t).0
            && var r := Fix(g, t).1;
               && SameHeader(s, r) && Word(r, UsaOffset(s)) == NextUsn(Word(s, UsaOffset(s)))
               && forall p :: 0 <= p < |s| && !InArray(s, p) ==> r[p] == s[p]
  {
    hide Word, PutWord, End, NextUsn;
    var bps, usa, count := g.bytesPerSector, UsaOffset(s), UsaCount(s);
    UnfixGives(g, s);
    var t := Unfix(g, s).1;
    HeaderDecides(g, s, t);
    FixEffect(t, bps, usa, count, Word(t, usa), 1);
    var r := Fix(g, t).1;
    forall p | 0 <= p < |s| && !InArray(s, p) ensures r[p] == s[p] {
      if OffEnds(bps, count, 1, p) {
        assert t[p] == s[p];
      } else {
        var j :| 1 <= j < count && End(bps, j) <= p < End(bps, j) + 2;
        EqualWords(r, s, End(bps, j), p);
      }
    }
    forall p | 0 <= p < HEADER_SIZE ensures r[p] == s[p] {
      HeaderOffEnds(|s|, bps, usa, count, p);
    }
    SlotOffEnds(|s|, bps, usa, count, 1, usa);
    SlotOffEnds(|s|, bps, usa, count, 1, usa + 1);
    SameWord(r, t, usa);
  }

  lemma EqualWords(s: seq<byte>, t: seq<byte>, at: nat, p: nat)
    requires at + 2 <= |s| == |t| && Word(s, at) == Word(t, at) && at <= p < at + 2
    ensures s[p] == t[p]
  {
  }

  // ---------------------------------------------------------------- torn writes

  predicate InSector(bps: nat, j: nat, p: nat) {
    j * bps <= p < j * bps + bps
  }

  /** Every sector of m comes whole from the old image or whole from the new one. */
  ghost predicate IsMix(bps: nat, before: seq<byte>, after: seq<byte>, m: seq<byte>, fromNew: nat -> bool) {
    && |m| == |before| == |after|
    && forall j, p :: 0 <= j && 0 <= p < |m| && InSector(bps, j, p) ==>
         m[p] == if fromNew(j) then after[p] else before[p]
  }

  lemma EndInSector(bps: nat, i: nat)
    requires bps >= 2 && i >= 1
    ensures InSector(bps, i - 1, End(bps, i)) && InSector(bps, i - 1, End(bps, i) + 1)
  {
  }

  lemma MixedWord(bps: nat, before: seq<byte>, after: seq<byte>, m: seq<byte>, fromNew: nat -> bool, j: nat, at: nat)
    requires IsMix(bps, before, after, m, fromNew) && at + 2 <= |m|
    requires InSector(bps, j, at) && InSector(bps, j, at + 1)
    ensures Word(m, at) == if fromNew(j) then Word(after, at) else Word(before, at)
  {
  }

  /** An accepted image: its payload, and one number at all covered sector ends. */
  lemma AcceptedImage(g: Geometry, a: seq<byte>)
    requires WellLaid(g, a)
    ensures Fix(g, a).0 <==> AllEndIn(a, g.bytesPerSector, UsaCount(a), Word(a, UsaOffset(a)), 1)
    ensures Fix(g, a).0 ==> SameHeader(a, Fix(g, a).1) && Word(Fix(g, a).1, UsaOffset(a)) == Word(a, UsaOffset(a))
  {
    hide Word, PutWord, End;
    var bps, usa, count := g.bytesPerSector, UsaOffset(a), UsaCount(a);
    FixEffect(a, bps, usa, count, Word(a, usa), 1);
    var r := Fix(g, a).1;
    if Fix(g, a).0 {
      forall p | 0 <= p < HEADER_SIZE ensures r[p] == a[p] {
        HeaderOffEnds(|a|, bps, usa, count, p);
      }
      SlotOffEnds(|a|, bps, usa, count, 1, usa);
      SlotOffEnds(|a|, bps, usa, count, 1, usa + 1);
      SameWord(r, a, usa);
    }
  }

  /** `b` is the successor of the accepted image `a`: fixed up, edited anywhere but in the header
      and the sequence number, and prepared for the disk again. */
  ghost predicate Successor(g: Geometry, a: seq<byte>, edited: seq<byte>, b: seq<byte>) {
    && WellLaid(g, a) && Fix(g, a).0
    && SameHeader(Fix(g, a).1, edited) && WellLaid(g, edited)
    && Word(edited, UsaOffset(edited)) == Word(Fix(g, a).1, UsaOffset(edited))
    && b == Unfix(g, edited).1
  }

  lemma SuccessorDiffers(g: Geometry, a: seq<byte>, edited: seq<byte>, b: seq<byte>)
    requires Successor(g, a, edited, b)
    ensures |b| == |a| && SameHeader(a, b) && WellLaid(g, b)
    ensures Word(b, UsaOffset(a)) != Word(a, UsaOffset(a))
    ensures AllEndIn(b, g.bytesPerSector, UsaCount(a), Word(b, UsaOffset(a)), 1)
  {
    hide Word, PutWord, End, NextUsn;
    AcceptedImage(g, a);
    HeaderDecides(g, a, Fix(g, a).1);
    HeaderDecides(g, Fix(g, a).1, edited);
    UnfixGives(g, edited);
    NextDiffers(Word(a, UsaOffset(a)));
    HeaderDecides(g, a, b);
  }

  /** The first n sectors and sector `home` come from one generation. */
  ghost predicate OneGeneration(fromNew: nat -> bool, n: int, home: nat) {
    forall j :: 0 <= j < n ==> fromNew(j) == fromNew(home)
  }

  lemma MixedHeader(bps: nat, a: seq<byte>, b: seq<byte>, m: seq<byte>, fromNew: nat -> bool)
    requires bps >= HEADER_SIZE && SameHeader(a, b) && IsMix(bps, a, b, m, fromNew)
    ensures SameHeader(a, m)
  {
    forall p | 0 <= p < HEADER_SIZE ensures m[p] == a[p] {
      assert InSector(bps, 0, p);
    }
  }

  lemma MixedEnds(bps: nat, count: nat, a: seq<byte>, b: seq<byte>, m: seq<byte>, fromNew: nat -> bool,
                  home: nat, oldUsn: word, newUsn: word)
    requires bps >= 2 && IsMix(bps, a, b, m, fromNew) && oldUsn != newUsn
    requires AllEndIn(a, bps, count, oldUsn, 1) && AllEndIn(b, bps, count, newUsn, 1)
    ensures AllEndIn(m, bps, count, if fromNew(home) then newUsn else oldUsn, 1)
            <==> OneGeneration(fromNew, count - 1, home)
  {
    hide Word, End, InSector, IsMix;
    var usn := if fromNew(home) then newUsn else oldUsn;
    forall i | 1 <= i < count
      ensures End(bps, i) + 2 <= |m| && (Word(m, End(bps, i)) == usn <==> fromNew(i - 1) == fromNew(home)) {
      EndInSector(bps, i);
      assert |m| == |a| by { MixSize(bps, a, b, m, fromNew); }
      MixedWord(bps, a, b, m, fromNew, i - 1, End(bps, i));
    }
    if AllEndIn(m, bps, count, usn, 1) {
      forall j | 0 <= j < count - 1 ensures fromNew(j) == fromNew(home) {
        assert Word(m, End(bps, j + 1)) == usn;
      }
    }
  }

  lemma MixSize(bps: nat, a: seq<byte>, b: seq<byte>, m: seq<byte>, fromNew: nat -> bool)
    requires IsMix(bps, a, b, m, fromNew)
    ensures |m| == |a| == |b|
  {
  }

  /** A sector-by-sector mix of an image and its successor is accepted exactly when all sectors
      the array covers come from the generation whose sequence number it carries. */
  lemma TornWrite(g: Geometry, a: seq<byte>, edited: seq<byte>, b: seq<byte>, m: seq<byte>,
                  fromNew: nat -> bool, home: nat)
    requires Successor(g, a, edited, b) && IsMix(g.bytesPerSector, a, b, m, fromNew)
    requires g.bytesPerSector >= HEADER_SIZE
    requires InSector(g.bytesPerSector, home, UsaOffset(a)) && InSector(g.bytesPerSector, home, UsaOffset(a) + 1)
    ensures WellLaid(g, m)
    ensures Fix(g, m).0 <==> OneGeneration(fromNew, UsaCount(a) - 1, home)
  {
    var bps, usa, count := g.bytesPerSector, UsaOffset(a), UsaCount(a);
    SuccessorDiffers(g, a, edited, b);
    AcceptedImage(g, a);
    hide Word, PutWord, End, InSector, IsMix, Fix, AllEndIn, Apart, Unfix, OneGeneration;
    MixedHeader(bps, a, b, m, fromNew);
    HeaderDecides(g, a, m);
    AcceptedImage(g, m);
    MixedWord(bps, a, b, m, fromNew, home, usa);
    MixedEnds(bps, count, a, b, m, fromNew, home, Word(a, usa), Word(b, usa));
  }

  /** The array covers every sector of the record. */
  predicate CoversAll(g: Geometry, s: seq<byte>)
    requires |s| >= HEADER_SIZE
  {
    (UsaCount(s) - 1) * g.bytesPerSector == |s|
  }

  lemma AllOneGeneration(bps: nat, n: nat, a: seq<byte>, b: seq<byte>, m: seq<byte>, fromNew: nat -> bool, home: nat)
    requires bps >= 1 && IsMix(bps, a, b, m, fromNew) && n * bps == |a| && OneGeneration(fromNew, n, home)
    ensures m == if fromNew(home) then b else a
  {
    forall p | 0 <= p < |a| ensures m[p] == if fromNew(home) then b[p] else a[p] {
      var j := p / bps;
      assert p == bps * j + p % bps;
      CancelFactor(bps, j, n);
      assert InSector(bps, j, p);
    }
  }

  /** When the array covers the whole record, only the two pure images are accepted; the old one
      is the image the record was read from, the new one gives back the edited record. */
  lemma OnlyPureImages(g: Geometry, a: seq<byte>, edited: seq<byte>, b: seq<byte>, m: seq<byte>,
                       fromNew: nat -> bool, home: nat)
    requires Successor(g, a, edited, b) && IsMix(g.bytesPerSector, a, b, m, fromNew)
    requires g.bytesPerSector >= HEADER_SIZE && CoversAll(g, a)
    requires InSector(g.bytesPerSector, home, UsaOffset(a)) && InSector(g.bytesPerSector, home, UsaOffset(a) + 1)
    ensures WellLaid(g, m) && (Fix(g, m).0 <==> m == a || m == b)
    ensures WellLaid(g, b) && Fix(g, b).0
    ensures |edited| == |a| && forall p :: 0 <= p < |a| && !InArray(a, p) ==> Fix(g, b).1[p] == edited[p]
  {
    SuccessorDiffers(g, a, edited, b);
    PayloadBack(g, a, edited, b);
    TornWrite(g, a, edited, b, m, fromNew, home);
    if OneGeneration(fromNew, UsaCount(a) - 1, home) {
      assert UsaCount(a) >= 1;
      AllOneGeneration(g.bytesPerSector, UsaCount(a) - 1, a, b, m, fromNew, home);
    }
    hide *;  // what is left follows from the lemmas
  }

  lemma PayloadBack(g: Geometry, a: seq<byte>, edited: seq<byte>, b: seq<byte>)
    requires Successor(g, a, edited, b)
    ensures |edited| == |a| && |b| == |a| && WellLaid(g, b) && Fix(g, b).0
    ensures forall p :: 0 <= p < |a| && !InArray(a, p) ==> Fix(g, b).1[p] == edited[p]
  {
    hide Word, PutWord, End, NextUsn, Fix, Unfix, Apart;
    AcceptedImage(g, a);
    HeaderDecides(g, a, Fix(g, a).1);
    HeaderDecides(g, Fix(g, a).1, edited);
    FixUndoesUnfix(g, edited);
  }

  /** Sector j of the old image, all others of the new one. */
  function Torn(bps: nat, a: seq<byte>, b: seq<byte>, j: nat): (m: seq<byte>)
    requires bps >= 1
    ensures |m| == |a|
  {
    seq(|a|, p requires 0 <= p < |a| => if p / bps == j || p >= |b| then a[p] else b[p])
  }

  lemma SectorOf(bps: nat, j: nat, p: nat)
    requires bps >= 1
    ensures InSector(bps, j, p) <==> p / bps == j
  {
    assert p == bps * (p / bps) + p % bps;
    if InSector(bps, j, p) {
      DivisionIsUnique(p, bps, j, p - j * bps);
    }
  }

  lemma TornIsMix(bps: nat, a: seq<byte>, b: seq<byte>, j: nat)
    requires bps >= 1 && |a| == |b|
    ensures IsMix(bps, a, b, Torn(bps, a, b, j), k => k != j)
  {
    forall k: nat, p | 0 <= p < |a| && InSector(bps, k, p)
      ensures Torn(bps, a, b, j)[p] == if k != j then b[p] else a[p] {
      SectorOf(bps, k, p);
    }
  }

  /** A byte behind the covered sectors is none of their ends. */
  lemma Uncovered(bps: nat, count: nat, q: nat)
    requires bps >= 2 && count >= 1 && (count - 1) * bps <= q
    ensures OffEnds(bps, count, 1, q)
  {
    forall j | 1 <= j < count ensures End(bps, j) + 2 <= q {
      if j < count - 1 {
        EndsInOrder(bps, j, count - 1);
      }
    }
  }

  /** Byte q lies behind all sectors the array covers and is part of neither header nor array. */
  ghost predicate Exposed(g: Geometry, a: seq<byte>, q: nat) {
    WellLaid(g, a) && HEADER_SIZE <= q < |a| && !InArray(a, q) && (UsaCount(a) - 1) * g.bytesPerSector <= q
  }

  /** Changing such a byte of a record that was read is an edit like any other. */
  lemma EditIsSuccessor(g: Geometry, a: seq<byte>, q: nat, v: byte, edited: seq<byte>)
    requires Exposed(g, a, q) && Fix(g, a).0 && edited == Fix(g, a).1[q := v]
    ensures WellLaid(g, edited) && Successor(g, a, edited, Unfix(g, edited).1)
  {
    var usa, r := UsaOffset(a), Fix(g, a).1;
    AcceptedImage(g, a);
    HeaderDecides(g, a, r);
    hide Word, PutWord, End, Fix, Apart, AllEndIn;
    assert SameHeader(r, edited);
    HeaderDecides(g, r, edited);
    hide BoundsOk, Fits, NoFixup;
    SameWord(r, edited, usa);
  }

  lemma SuccessorIs(g: Geometry, a: seq<byte>, edited: seq<byte>, b: seq<byte>)
    requires Successor(g, a, edited, b)
    ensures Fits(g, a) && WellLaid(g, a) && Fix(g, a).0 && SameHeader(Fix(g, a).1, edited)
    ensures Fits(g, edited) && WellLaid(g, edited)
    ensures b == Unfix(g, edited).1
  {
    hide Fix, Unfix, SameHeader, Word, BoundsOk, NoFixup, Apart;
  }

  lemma ExposedIs(g: Geometry, a: seq<byte>, q: nat)
    requires Exposed(g, a, q)
    ensures q < |a| && g.bytesPerSector >= 2 && UsaCount(a) >= 1 && OffEnds(g.bytesPerSector, UsaCount(a), 1, q)
    ensures !InArray(a, q) && (UsaCount(a) - 1) * g.bytesPerSector <= q
  {
    hide OffEnds, InArray;
    Uncovered(g.bytesPerSector, UsaCount(a), q);
  }

  lemma SameArray(s: seq<byte>, t: seq<byte>, q: nat)
    requires |s| >= HEADER_SIZE && |t| >= HEADER_SIZE && UsaOffset(s) == UsaOffset(t) && UsaCount(s) == UsaCount(t)
    ensures InArray(s, q) <==> InArray(t, q)
  {
  }

  /** Preparing a record leaves such a byte alone. */
  lemma SuccessorKeeps(g: Geometry, a: seq<byte>, edited: seq<byte>, b: seq<byte>, q: nat)
    requires Successor(g, a, edited, b) && Exposed(g, a, q)
    ensures q < |b| == |edited| == |a| && b[q] == edited[q]
  {
    hide Word, Fix, Unfix, AllEndIn, OffEnds, WellLaid, Exposed, Successor, SameHeader, InArray, UsaOffset, UsaCount,
      End, Fits;
    SuccessorIs(g, a, edited, b);
    ExposedIs(g, a, q);
    AcceptedImage(g, a);
    HeaderDecides(g, a, Fix(g, a).1);
    HeaderDecides(g, Fix(g, a).1, edited);
    SameSize(g, a, edited, b);
    SameArray(a, edited, q);
    UnfixGives(g, edited);
  }

  lemma SameSize(g: Geometry, a: seq<byte>, edited: seq<byte>, b: seq<byte>)
    requires Successor(g, a, edited, b)
    ensures HEADER_SIZE <= |a| == |edited| == |b|
  {
    hide Fix, Unfix;
  }

  predicate Differs(s: seq<byte>, t: seq<byte>, q: nat) {
    q < |s| && q < |t| && s[q] != t[q]
  }

  /** Where the array does not reach, a torn write passes: whenever a successor changes such a byte, the
      image with that byte's sector old and all others new is accepted although it is neither of the two. */
  lemma TornWhereUncovered(g: Geometry, a: seq<byte>, edited: seq<byte>, b: seq<byte>, q: nat, j: nat, home: nat)
    requires Successor(g, a, edited, b) && Exposed(g, a, q) && Differs(edited, a, q)
    requires g.bytesPerSector >= HEADER_SIZE && InSector(g.bytesPerSector, j, q) && home != j
    requires InSector(g.bytesPerSector, home, UsaOffset(a)) && InSector(g.bytesPerSector, home, UsaOffset(a) + 1)
    ensures var m := Torn(g.bytesPerSector, a, b, j);
            WellLaid(g, m) && Fix(g, m).0 && m != a && m != b
  {
    hide Word, Fix, Unfix, AllEndIn, Successor, WellLaid, Exposed, InSector, IsMix, SameHeader, UsaCount, UsaOffset,
      Torn, OneGeneration, OffEnds, InArray, Fits;
    SuccessorIs(g, a, edited, b);
    SameSize(g, a, edited, b);
    SuccessorDiffers(g, a, edited, b);
    SuccessorKeeps(g, a, edited, b, q);
    ExposedIs(g, a, q);
    var bps, usa := g.bytesPerSector, UsaOffset(a);
    var m := Torn(bps, a, b, j);
    var fromNew: nat -> bool := k => k != j;
    TornIsMix(bps, a, b, j);
    TornWrite(g, a, edited, b, m, fromNew, home);
    CoveredAreNew(bps, UsaCount(a) - 1, j, q, home);
    ArrayInside(g, a);
    MixedWord(bps, a, b, m, fromNew, home, usa);
    TornAt(bps, a, b, j, q);
  }

  lemma ArrayInside(g: Geometry, a: seq<byte>)
    requires WellLaid(g, a)
    ensures UsaOffset(a) + 2 <= |a|
  {
  }

  lemma TornAt(bps: nat, a: seq<byte>, b: seq<byte>, j: nat, q: nat)
    requires bps >= 1 && q < |a| && InSector(bps, j, q)
    ensures Torn(bps, a, b, j)[q] == a[q]
  {
    SectorOf(bps, j, q);
    hide InSector;
  }

  lemma CoveredAreNew(bps: nat, n: nat, j: nat, q: nat, home: nat)
    requires bps >= 1 && n * bps <= q && InSector(bps, j, q) && home != j
    ensures OneGeneration(k => k != j, n, home)
  {
    if j < n {
      FactorLess(bps, j, n);
    }
  }

  /** A FILE record of two sectors whose array, behind a 48-byte header, covers the first one only. */
  function HalfCell(i: nat): byte {
    if i == 0 then 0x46
    else if i == 1 then 0x49
    else if i == 2 then 0x4C
    else if i == 3 then 0x45
    else if i == 4 then 48
    else if i == 6 then 2
    else if i == 48 then 1
    else if i == 510 then 1
    else 0
  }

  function HalfCovered(): (a: seq<byte>)
    ensures |a| == 1024
  {
    seq(1024, i requires i >= 0 => HalfCell(i))
  }

  lemma HalfWord(at: nat)
    requires at + 2 <= 1024
    ensures Word(HalfCovered(), at) == HalfCell(at) + 256 * HalfCell(at + 1)
  {
    hide HalfCell;
  }

  lemma HalfIsAccepted(g: Geometry)
    requires g == Geometry(512, 1024, 4096)
    ensures var a := HalfCovered(); Exposed(g, a, 600) && UsaOffset(a) == 48 && Fix(g, a) == (true, PutWord(a, 510, 0))
  {
    var a := HalfCovered();
    HalfWord(0);
    HalfWord(2);
    HalfWord(4);
    HalfWord(6);
    HalfWord(48);
    HalfWord(50);
    HalfWord(510);
    hide HalfCovered, Word, PutWord;
    assert End(512, 1) == 510;
    assert FixFrom(PutWord(a, 510, 0), 512, 48, 2, 1, 2) == (true, PutWord(a, 510, 0));
  }

  /** A record and a mix that is accepted although it is neither generation: byte 600 is changed, and
      the first sector reaches the disk while the second does not. */
  lemma TornRecordAccepted()
    ensures var g, a := Geometry(512, 1024, 4096), HalfCovered();
            var edited := PutWord(a, 510, 0)[600 := 1];
            && Fits(g, edited) && Successor(g, a, edited, Unfix(g, edited).1)
            && var m := Torn(512, a, Unfix(g, edited).1, 1);
               WellLaid(g, m) && Fix(g, m).0 && m != a && m != Unfix(g, edited).1
  {
    var g, a := Geometry(512, 1024, 4096), HalfCovered();
    var edited := PutWord(a, 510, 0)[600 := 1];
    HalfIsAccepted(g);
    EditIsSuccessor(g, a, 600, 1, edited);
    assert a[600] == 0;
    hide HalfCovered, Word, Fix, Unfix, PutWord, Successor, Exposed;
    TornWhereUncovered(g, a, edited, Unfix(g, edited).1, 600, 1, 0);
  }
}
