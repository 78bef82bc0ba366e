/** A protected record as bytes (NTFS_RECORD_HEADER of src/ntfs.h): what UpdateSequence does to it, said of
    the bytes themselves. */
module RecordFormat {
  import opened Arith
  import opened ByteData
  import opened UpdateSequence

  const FILE := [0x46, 0x49, 0x4C, 0x45]
  const INDX := [0x49, 0x4E, 0x44, 0x58]

  /** The record's first four bytes, where its array is, and how many words that has. */
  predicate Header(s: seq<byte>, kind: seq<byte>, u: nat, n: nat) {
    && |s| >= 16 && |kind| == 4 && Lies(s, 0, kind) && u < 0x1_0000 && n < 0x1_0000
    && Lies(s, 4, Bytes(u, 2)) && Lies(s, 6, Bytes(n, 2))
  }

  /** How large a record of the kind is. */
  function SizeOf(g: Geometry, kind: seq<byte>): nat {
    if kind == FILE then g.bytesPerFileRecord else if kind == INDX then g.bytesPerIndexRecord else 0
  }

  lemma KindIs(s: seq<byte>, kind: seq<byte>)
    requires |kind| == 4 && Lies(s, 0, kind)
    ensures |s| >= 4 && (DWord(s, 0) == FILE_TYPE <==> kind == FILE) && (DWord(s, 0) == INDX_TYPE <==> kind == INDX)
  {
    LiesAt(s, 0, kind, 0);
    LiesAt(s, 0, kind, 1);
    LiesAt(s, 0, kind, 2);
    LiesAt(s, 0, kind, 3);
    hide Lies;
    assert kind == [kind[0], kind[1], kind[2], kind[3]];
  }

  /** The fields the fixup goes by are those that were written. */
  lemma HeaderIs(g: Geometry, s: seq<byte>, kind: seq<byte>, u: nat, n: nat)
    requires Header(s, kind, u, n)
    ensures UsaOffset(s) == u && UsaCount(s) == n && ImpliedSize(g, s) == SizeOf(g, kind)
    ensures (DWord(s, 0) == FILE_TYPE || DWord(s, 0) == INDX_TYPE) <==> (kind == FILE || kind == INDX)
  {
    KindIs(s, kind);
    WordHeld(s, 4, u);
    WordHeld(s, 6, n);
    hide Bytes, Lies, Word, DWord;
  }

  /** The array begins behind the header, and it and the sectors it covers lie inside the record. */
  predicate Inside(g: Geometry, kind: seq<byte>, u: nat, n: nat) {
    && (kind == FILE || kind == INDX) && 16 <= u && u + 2 * n <= SizeOf(g, kind)
    && (n - 1) * g.bytesPerSector <= SizeOf(g, kind)
  }

  /** The two bytes at the end of a sector, and where they begin. */
  function EndOf(g: Geometry, i: nat): int {
    i * g.bytesPerSector - 2
  }

  /** No covered sector ends in the header or in the array. */
  ghost predicate Clear(g: Geometry, u: nat, n: nat) {
    forall i :: 1 <= i < n ==> 16 <= EndOf(g, i) && (EndOf(g, i) + 2 <= u || u + 2 * n <= EndOf(g, i))
  }

  /** The same two bytes at both places. */
  predicate SamePair(s: seq<byte>, x: int, t: seq<byte>, y: int) {
    0 <= x && x + 2 <= |s| && 0 <= y && y + 2 <= |t| && s[x] == t[y] && s[x + 1] == t[y + 1]
  }

  /** p is in no covered sector's last two bytes. */
  ghost predicate NoEnd(g: Geometry, n: nat, p: nat) {
    forall i :: 1 <= i < n ==> p < EndOf(g, i) || EndOf(g, i) + 2 <= p
  }

  lemma PairIs(s: seq<byte>, x: nat, t: seq<byte>, y: nat)
    requires x + 2 <= |s| && y + 2 <= |t|
    ensures Word(s, x) == Word(t, y) <==> SamePair(s, x, t, y)
  {
  }

  lemma EndIs(g: Geometry, i: nat)
    requires g.bytesPerSector >= 2 && i >= 1
    ensures End(g.bytesPerSector, i) == EndOf(g, i)
  {
  }

  lemma ClearIsApart(g: Geometry, s: seq<byte>, kind: seq<byte>, u: nat, n: nat)
    requires Fits(g, s) && Header(s, kind, u, n) && Inside(g, kind, u, n) && n >= 1 && Clear(g, u, n)
    ensures !NoFixup(s) && BoundsOk(g, s) && Apart(|s|, g.bytesPerSector, u, n)
  {
    HeaderIs(g, s, kind, u, n);
    BoundsCover(g, s);
    hide Header, Word, DWord, End, Covered;
    forall i | 1 <= i < n
      ensures 16 <= End(g.bytesPerSector, i)
              && (End(g.bytesPerSector, i) + 2 <= u || u + 2 * n <= End(g.bytesPerSector, i))
    {
      EndIs(g, i);
    }
  }

  /** Every covered sector ends in the two bytes the array begins with. */
  ghost predicate AllEnd(g: Geometry, s: seq<byte>, u: nat, n: nat) {
    forall i :: 1 <= i < n ==> SamePair(s, EndOf(g, i), s, u)
  }

  lemma AllEndIs(g: Geometry, s: seq<byte>, u: nat, n: nat)
    requires Covered(|s|, g.bytesPerSector, u, n)
    ensures AllEnd(g, s, u, n) <==> AllEndIn(s, g.bytesPerSector, n, Word(s, u), 1)
  {
    var bps := g.bytesPerSector;
    hide Word, SamePair;
    forall i | 1 <= i < n
      ensures End(bps, i) + 2 <= |s| && (Word(s, End(bps, i)) == Word(s, u) <==> SamePair(s, EndOf(g, i), s, u))
    {
      EndIs(g, i);
      CoveredParts(|s|, bps, u, n, i);
      PairIs(s, End(bps, i), s, u);
    }
  }

  /** Each covered sector ends in the pair saved for it, and nothing else has changed. */
  ghost predicate PutBack(g: Geometry, s: seq<byte>, r: seq<byte>, u: nat, n: nat) {
    && |r| == |s| && (forall i :: 1 <= i < n ==> SamePair(r, EndOf(g, i), s, u + 2 * i))
    && forall p :: 0 <= p < |s| && NoEnd(g, n, p) ==> r[p] == s[p]
  }

  lemma PutBackIs(g: Geometry, s: seq<byte>, r: seq<byte>, u: nat, n: nat)
    requires |r| == |s| && Covered(|s|, g.bytesPerSector, u, n) && Restored(s, r, g.bytesPerSector, u, n, 1)
    ensures PutBack(g, s, r, u, n)
  {
    var bps := g.bytesPerSector;
    hide Word, SamePair, End;
    forall i | 1 <= i < n ensures SamePair(r, EndOf(g, i), s, u + 2 * i) {
      EndIs(g, i);
      CoveredParts(|s|, bps, u, n, i);
      PairIs(r, End(bps, i), s, u + 2 * i);
    }
    forall p | 0 <= p < |s| && NoEnd(g, n, p) ensures r[p] == s[p] {
      forall i | 1 <= i < n ensures p < End(bps, i) || End(bps, i) + 2 <= p {
        EndIs(g, i);
      }
      assert OffEnds(bps, n, 1, p);
    }
  }

  /** What fixing up a record does, byte by byte: one without an array is left as it is; one of another
      kind, or whose array does not fit, is refused untouched; any other is accepted exactly if all
      covered sectors end in the array's first pair, and then each gets back the pair saved for it. */
  lemma FixMeans(g: Geometry, s: seq<byte>, kind: seq<byte>, u: nat, n: nat)
    requires Fits(g, s) && Header(s, kind, u, n)
    ensures u == 0 || n == 0 ==> Fix(g, s) == (true, s)
    ensures u != 0 && n != 0 && !Inside(g, kind, u, n) ==> Fix(g, s) == (false, s)
    ensures u != 0 && n != 0 && Inside(g, kind, u, n) && Clear(g, u, n) ==>
              var (ok, r) := Fix(g, s);
              (ok <==> AllEnd(g, s, u, n)) && (ok ==> PutBack(g, s, r, u, n))
  {
    HeaderIs(g, s, kind, u, n);
    hide Header, Word, DWord, FixFrom, AllEnd, PutBack, Clear, SizeOf;
    if n >= 1 && Inside(g, kind, u, n) && Clear(g, u, n) {
      ClearIsApart(g, s, kind, u, n);
      BoundsCover(g, s);
      var bps := g.bytesPerSector;
      FixEffect(s, bps, u, n, Word(s, u), 1);
      hide Restored, AllEndIn, Apart, Covered;
      ApartCovers(|s|, bps, u, n);
      AllEndIs(g, s, u, n);
      if Fix(g, s).0 {
        PutBackIs(g, s, Fix(g, s).1, u, n);
      }
    }
  }

  lemma ApartCovers(size: nat, bps: nat, usa: nat, count: nat)
    requires Apart(size, bps, usa, count)
    ensures Covered(size, bps, usa, count)
  {
  }

  /** The number after v: the last two of sixteen bits are passed over, and zero is. */
  function Next(v: nat): nat {
    if v == 0xFFFE || v == 0xFFFF then 1 else v + 1
  }

  lemma NextIs(v: word)
    ensures NextUsn(v) == Next(v)
  {
  }

  /** A prepared image: the array begins with the next number, every covered sector ends in it, each
      pair that stood there is saved, and nothing else has changed. */
  ghost predicate Prepared(g: Geometry, s: seq<byte>, t: seq<byte>, u: nat, n: nat)
    requires u + 2 <= |s|
  {
    && |t| == |s| && Lies(t, u, Bytes(Next(s[u] as nat + 256 * s[u + 1] as nat), 2)) && AllEnd(g, t, u, n)
    && (forall i :: 1 <= i < n ==> SamePair(t, u + 2 * i, s, EndOf(g, i)))
    && forall p :: 0 <= p < |s| && NoEnd(g, n, p) && !(u <= p < u + 2 * n) ==> t[p] == s[p]
  }

  lemma WordLies(t: seq<byte>, at: nat, w: nat)
    requires at + 2 <= |t| && w < 0x1_0000 && Word(t, at) == w
    ensures Lies(t, at, Bytes(w, 2))
  {
    assert Bytes(w, 2) == [w % 256] + ([w / 256 % 256] + Bytes(w / 256 / 256, 0));
    assert t[at..at + 2] == [t[at], t[at + 1]];
  }

  lemma PreparedIs(g: Geometry, s: seq<byte>, t: seq<byte>, u: nat, n: nat)
    requires |t| == |s| && Apart(|s|, g.bytesPerSector, u, n)
    requires u + 2 <= |s| && Word(t, u) == NextUsn(Word(s, u)) && AllEndIn(t, g.bytesPerSector, n, Word(t, u), 1)
    requires forall j :: 1 <= j < n ==>
               End(g.bytesPerSector, j) + 2 <= |s| && Word(t, u + 2 * j) == Word(s, End(g.bytesPerSector, j))
    requires forall p :: 0 <= p < |s| && OffEnds(g.bytesPerSector, n, 1, p) && !(u <= p < u + 2 * n) ==> t[p] == s[p]
    ensures Prepared(g, s, t, u, n)
  {
    var bps := g.bytesPerSector;
    ApartCovers(|s|, bps, u, n);
    AllEndIs(g, t, u, n);
    NextIs(Word(s, u));
    WordLies(t, u, Word(t, u));
    assert Word(s, u) == s[u] as nat + 256 * s[u + 1] as nat;
    hide Word, SamePair, End, Bytes, Lies, AllEnd, AllEndIn, NextUsn;
    forall i | 1 <= i < n ensures SamePair(t, u + 2 * i, s, EndOf(g, i)) {
      EndIs(g, i);
      CoveredParts(|s|, bps, u, n, i);
      PairIs(t, u + 2 * i, s, End(bps, i));
    }
    forall p | 0 <= p < |s| && NoEnd(g, n, p) && !(u <= p < u + 2 * n) ensures t[p] == s[p] {
      forall i | 1 <= i < n ensures p < End(bps, i) || End(bps, i) + 2 <= p {
        EndIs(g, i);
      }
      assert OffEnds(bps, n, 1, p);
    }
  }

  lemma WellLaidIs(g: Geometry, s: seq<byte>, u: nat, n: nat)
    requires Fits(g, s) && UsaOffset(s) == u && UsaCount(s) == n
    requires !NoFixup(s) && BoundsOk(g, s) && Apart(|s|, g.bytesPerSector, u, n)
    ensures WellLaid(g, s) && u + 2 <= |s|
  {
    ApartCovers(|s|, g.bytesPerSector, u, n);
    hide Word, DWord;
  }

  lemma UnfixPrepares(g: Geometry, s: seq<byte>, kind: seq<byte>, u: nat, n: nat)
    requires Fits(g, s) && Header(s, kind, u, n) && n >= 1 && Inside(g, kind, u, n) && Clear(g, u, n)
    ensures u + 2 <= |s| && Unfix(g, s).0 && Prepared(g, s, Unfix(g, s).1, u, n)
  {
    HeaderIs(g, s, kind, u, n);
    ClearIsApart(g, s, kind, u, n);
    WellLaidIs(g, s, u, n);
    UnfixGives(g, s);
    assert forall p: nat :: InArray(s, p) <==> u <= p < u + 2 * n;
    hide *;
    PreparedIs(g, s, Unfix(g, s).1, u, n);
  }

  /** What preparing a record for the disk does, byte by byte, with the same refusals. */
  lemma UnfixMeans(g: Geometry, s: seq<byte>, kind: seq<byte>, u: nat, n: nat)
    requires Fits(g, s) && Header(s, kind, u, n)
    ensures u == 0 || n == 0 ==> Unfix(g, s) == (true, s)
    ensures u != 0 && n != 0 && !Inside(g, kind, u, n) ==> Unfix(g, s) == (false, s)
    ensures u != 0 && n != 0 && Inside(g, kind, u, n) && Clear(g, u, n) ==>
              u + 2 <= |s| && Unfix(g, s).0 && Prepared(g, s, Unfix(g, s).1, u, n)
  {
    HeaderIs(g, s, kind, u, n);
    hide Header, Word, DWord, StampFrom, Prepared, Clear, SizeOf, NextUsn, PutWord;
    if n >= 1 && Inside(g, kind, u, n) && Clear(g, u, n) {
      UnfixPrepares(g, s, kind, u, n);
    }
  }
}
