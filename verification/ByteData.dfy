/** Bytes, little-endian numbers, and the 16- and 32-bit fields of on-disk structures. */
module ByteData {
  type byte = b: int | 0 <= b < 256
  type word = w: int | 0 <= w < 0x1_0000

  function Word(s: seq<byte>, at: nat): word
    requires at + 2 <= |s|
  {
    var low: int, high: int := s[at], s[at + 1];
    low + 256 * high
  }

  function DWord(s: seq<byte>, at: nat): nat
    requires at + 4 <= |s|
  {
    Word(s, at) + 0x1_0000 * Word(s, at + 2)
  }

  function PutWord(s: seq<byte>, at: nat, w: word): (t: seq<byte>)
    requires at + 2 <= |s|
    ensures |t| == |s|
  {
    s[at := w % 256][at + 1 := w / 256]
  }

  /** The n low bytes of any integer, lowest first, in two's complement. */
  function Bytes(v: int, n: nat): (s: seq<byte>)
    ensures |s| == n
    decreases n
  {
    if n == 0 then [] else [v % 256] + Bytes(v / 256, n - 1)
  }

  lemma WordPut(s: seq<byte>, at: nat, w: word)
    requires at + 2 <= |s|
    ensures var t := PutWord(s, at, w);
            && |t| == |s| && Word(t, at) == w
            && forall p :: 0 <= p < |s| && !(at <= p < at + 2) ==> t[p] == s[p]
  {
  }

  /** These bytes lie there. */
  predicate Lies(b: seq<byte>, off: nat, s: seq<byte>) {
    off + |s| <= |b| && b[off..off + |s|] == s
  }

  lemma LiesJoin(b: seq<byte>, off: nat, x: seq<byte>, y: seq<byte>)
    ensures Lies(b, off, x + y) <==> Lies(b, off, x) && Lies(b, off + |x|, y)
  {
    if off + |x + y| <= |b| {
      assert b[off..off + |x + y|] == b[off..off + |x|] + b[off + |x|..off + |x| + |y|];
      if b[off..off + |x + y|] == x + y {
        assert x == (x + y)[..|x|] && y == (x + y)[|x|..];
        assert b[off..off + |x|] == b[off..off + |x + y|][..|x|];
        assert b[off + |x|..off + |x| + |y|] == b[off..off + |x + y|][|x|..];
      }
    }
  }

  lemma LiesAt(b: seq<byte>, off: nat, s: seq<byte>, i: nat)
    requires Lies(b, off, s) && i < |s|
    ensures off + i < |b| && b[off + i] == s[i]
  {
    assert b[off..off + |s|][i] == b[off + i];
  }

  /** Two bytes and the rest of a number. */
  lemma BytesSplit(v: int, n: nat)
    requires n >= 2
    ensures Bytes(v, n) == Bytes(v % 0x1_0000, 2) + Bytes(v / 0x1_0000, n - 2)
  {
    assert Bytes(v, n) == [v % 256] + ([v / 256 % 256] + Bytes(v / 256 / 256, n - 2));
    var w := v % 0x1_0000;
    assert Bytes(w, 2) == [w % 256] + ([w / 256 % 256] + Bytes(w / 256 / 256, 0));
    assert v / 256 / 256 == v / 0x1_0000 && w % 256 == v % 256 && w / 256 == v / 256 % 256;
  }

  lemma WordHeld(b: seq<byte>, off: nat, w: nat)
    requires w < 0x1_0000 && Lies(b, off, Bytes(w, 2))
    ensures off + 2 <= |b| && Word(b, off) == w
  {
    var s := Bytes(w, 2);
    assert s == [w % 256] + ([w / 256 % 256] + Bytes(w / 256 / 256, 0));
    LiesAt(b, off, s, 0);
    LiesAt(b, off, s, 1);
  }

  lemma DWordHeld(b: seq<byte>, off: nat, v: nat)
    requires v < 0x1_0000_0000 && Lies(b, off, Bytes(v, 4))
    ensures off + 4 <= |b| && DWord(b, off) == v
  {
    hide Bytes, Word, Lies;
    BytesSplit(v, 4);
    LiesJoin(b, off, Bytes(v % 0x1_0000, 2), Bytes(v / 0x1_0000, 2));
    WordHeld(b, off, v % 0x1_0000);
    WordHeld(b, off + 2, v / 0x1_0000);
  }
}
