/** Streaming SHA-256 (ec/Checksum.c) against FIPS 180-4.  The compression function and the padding
    are written as the standard writes them; the code shifts where the standard rotates, and takes
    its data in whatever pieces the file arrives. */
module Sha256 {
  import opened Arith

  // ---------------------------------------------------------------- FIPS 180-4

  /** The eight working variables, or the eight words of a hash value. */
  datatype Hash = Hash(a: bv32, b: bv32, c: bv32, d: bv32, e: bv32, f: bv32, g: bv32, h: bv32)

  const BLOCK := 64

  /** Section 5.3.3. */
  const INITIAL := Hash(0x6a09e667, 0xbb67ae85, 0x3c6ef372, 0xa54ff53a, 0x510e527f, 0x9b05688c, 0x1f83d9ab, 0x5be0cd19)

  /** Section 4.2.2, eight to a row. */
  const K_ROWS: seq<seq<bv32>> := [
    [0x428a2f98, 0x71374491, 0xb5c0fbcf, 0xe9b5dba5, 0x3956c25b, 0x59f111f1, 0x923f82a4, 0xab1c5ed5],
    [0xd807aa98, 0x12835b01, 0x243185be, 0x550c7dc3, 0x72be5d74, 0x80deb1fe, 0x9bdc06a7, 0xc19bf174],
    [0xe49b69c1, 0xefbe4786, 0x0fc19dc6, 0x240ca1cc, 0x2de92c6f, 0x4a7484aa, 0x5cb0a9dc, 0x76f988da],
    [0x983e5152, 0xa831c66d, 0xb00327c8, 0xbf597fc7, 0xc6e00bf3, 0xd5a79147, 0x06ca6351, 0x14292967],
    [0x27b70a85, 0x2e1b2138, 0x4d2c6dfc, 0x53380d13, 0x650a7354, 0x766a0abb, 0x81c2c92e, 0x92722c85],
    [0xa2bfe8a1, 0xa81a664b, 0xc24b8b70, 0xc76c51a3, 0xd192e819, 0xd6990624, 0xf40e3585, 0x106aa070],
    [0x19a4c116, 0x1e376c08, 0x2748774c, 0x34b0bcb5, 0x391c0cb3, 0x4ed8aa4a, 0x5b9cca4f, 0x682e6ff3],
    [0x748f82ee, 0x78a5636f, 0x84c87814, 0x8cc70208, 0x90befffa, 0xa4506ceb, 0xbef9a3f7, 0xc67178f2]]

  function K(t: nat): bv32
    requires t < 64
  {
    K_ROWS[t / 8][t % 8]
  }

  // Section 4.1.2.

  function Ch(x: bv32, y: bv32, z: bv32): bv32 { (x & y) ^ (!x & z) }

  function Maj(x: bv32, y: bv32, z: bv32): bv32 { (x & y) ^ (x & z) ^ (y & z) }

  function Xor3(x: bv32, y: bv32, z: bv32): bv32 { x ^ y ^ z }

  // Addition modulo 2^32.

  function Plus(x: bv32, y: bv32): bv32 { x + y }

  function Sum4(x: bv32, y: bv32, z: bv32, u: bv32): bv32 { x + y + z + u }

  function Sum5(x: bv32, y: bv32, z: bv32, u: bv32, v: bv32): bv32 { x + y + z + u + v }

  function BigSigma0(x: bv32): bv32 { Xor3(x.RotateRight(2), x.RotateRight(13), x.RotateRight(22)) }

  function BigSigma1(x: bv32): bv32 { Xor3(x.RotateRight(6), x.RotateRight(11), x.RotateRight(25)) }

  function SmallSigma0(x: bv32): bv32 { Xor3(x.RotateRight(7), x.RotateRight(18), x >> 3) }

  function SmallSigma1(x: bv32): bv32 { Xor3(x.RotateRight(17), x.RotateRight(19), x >> 10) }

  /** Four bytes as a word, the most significant first. */
  function BigEndian(b: seq<bv8>, at: nat): bv32
    requires at + 4 <= |b|
  {
    ((b[at] as bv32) << 24) | ((b[at + 1] as bv32) << 16) | ((b[at + 2] as bv32) << 8) | (b[at + 3] as bv32)
  }

  /** Section 6.2.2, step 1: the message schedule. */
  function W(block: seq<bv8>, t: nat): bv32
    requires |block| == BLOCK && t < 64
  {
    if t < 16 then BigEndian(block, 4 * t)
    else Sum4(SmallSigma1(W(block, t - 2)), W(block, t - 7), SmallSigma0(W(block, t - 15)), W(block, t - 16))
  }

  /** Section 6.2.2, one turn of step 3. */
  function Round(v: Hash, k: bv32, w: bv32): Hash {
    var t1 := Sum5(v.h, BigSigma1(v.e), Ch(v.e, v.f, v.g), k, w);
    var t2 := Plus(BigSigma0(v.a), Maj(v.a, v.b, v.c));
    Hash(Plus(t1, t2), v.a, v.b, v.c, Plus(v.d, t1), v.e, v.f, v.g)
  }

  function Rounds(v: Hash, block: seq<bv8>, t: nat): Hash
    requires |block| == BLOCK && t <= 64
  {
    if t == 0 then v else Round(Rounds(v, block, t - 1), K(t - 1), W(block, t - 1))
  }

  function Add(x: Hash, y: Hash): Hash {
    Hash(x.a + y.a, x.b + y.b, x.c + y.c, x.d + y.d, x.e + y.e, x.f + y.f, x.g + y.g, x.h + y.h)
  }

  /** One block taken into the hash value. */
  function Compress(v: Hash, block: seq<bv8>): Hash
    requires |block| == BLOCK
  {
    Add(v, Rounds(v, block, 64))
  }

  /** Block after block. */
  function Absorb(v: Hash, data: seq<bv8>): Hash
    requires |data| % BLOCK == 0
    decreases |data|
  {
    if |data| < BLOCK then v else Absorb(Compress(v, data[..BLOCK]), data[BLOCK..])
  }

  function Zeros(n: nat): (z: seq<bv8>)
    ensures |z| == n && forall i :: 0 <= i < n ==> z[i] == 0
  {
    seq(n, _ => 0)
  }

  const TWO_64 := 0x1_0000_0000_0000_0000

  /** Eight bytes, the most significant first. */
  function LengthBytes(bits: nat): (s: seq<bv8>)
    ensures |s| == 8
  {
    seq(8, i requires 0 <= i < 8 => LengthByte(bits, i))
  }

  const PLACES: seq<nat> := [0x100_0000_0000_0000, 0x1_0000_0000_0000, 0x100_0000_0000, 0x1_0000_0000,
                             0x100_0000, 0x1_0000, 0x100, 1]

  function LengthByte(bits: nat, i: nat): bv8
    requires i < 8
  {
    (bits / PLACES[i] % 256) as bv8
  }

  /** The number that digits to the base 256 spell, the most significant first. */
  function Number(digits: seq<nat>): nat {
    if digits == [] then 0 else 256 * Number(digits[..|digits| - 1]) + digits[|digits| - 1]
  }

  predicate Digits(digits: seq<nat>) {
    |digits| == 8 && forall i :: 0 <= i < 8 ==> digits[i] < 256
  }

  lemma LastDigit(digits: seq<nat>, i: nat)
    requires Digits(digits) && i < 8
    ensures Number(digits[..i + 1]) / 256 == Number(digits[..i]) && Number(digits[..i + 1]) % 256 == digits[i]
  {
    var front := digits[..i + 1];
    assert front[..|front| - 1] == digits[..i] && front[i] == digits[i];
  }

  lemma DivideTwice(bits: nat, p: nat)
    requires p >= 1
    ensures bits / (256 * p) == bits / p / 256
  {
    var q, r := bits / p, bits % p;
    var a, b := q / 256, q % 256;
    Distribute(p, a, b);
    assert bits == p * q + r && q == 256 * a + b;
    FactorLess(p, b, 256);
    DivisionIsUnique(bits, 256 * p, a, p * b + r);
  }

  lemma Distribute(p: nat, a: nat, b: nat)
    ensures p * (256 * a + b) == 256 * p * a + p * b
  {
  }

  lemma PlacesFall(i: nat)
    requires i < 7
    ensures PLACES[i] == 256 * PLACES[i + 1] && PLACES[i + 1] >= 1 && PLACES[7] == 1
  {
  }

  lemma {:induction false} FrontIs(digits: seq<nat>, i: nat)
    requires Digits(digits) && i < 8
    ensures PLACES[i] >= 1 && Number(digits) / PLACES[i] == Number(digits[..i + 1])
    decreases 8 - i
  {
    if i == 7 {
      assert digits[..8] == digits;
    } else {
      PlacesFall(i);
      hide PLACES, Number;
      FrontIs(digits, i + 1);
      LastDigit(digits, i + 1);
      DivideTwice(Number(digits), PLACES[i + 1]);
    }
  }

  /** The eight bytes spell the length: they are its digits. */
  lemma LengthSpells(digits: seq<nat>)
    requires Digits(digits)
    ensures forall i :: 0 <= i < 8 ==> LengthBytes(Number(digits))[i] == digits[i] as bv8
  {
    hide PLACES, Number;
    forall i | 0 <= i < 8 ensures LengthBytes(Number(digits))[i] == digits[i] as bv8 {
      FrontIs(digits, i);
      LastDigit(digits, i);
    }
  }

  /** How many zero bytes section 5.1.1 puts between the 1 bit and the length. */
  function ZeroCount(n: nat): nat {
    (119 - n % BLOCK) % BLOCK
  }

  /** Section 5.1.1; the length is the number of bits, in 64 bits. */
  function Padding(n: nat): seq<bv8> {
    [0x80] + Zeros(ZeroCount(n)) + LengthBytes(8 * n % TWO_64)
  }

  /** The padding is a single 1 bit, zeros, and the eight digits of the length in bits, modulo 2^64. */
  lemma PaddingSpells(n: nat, digits: seq<nat>)
    requires Digits(digits) && Number(digits) == 8 * n % 0x1_0000_0000_0000_0000
    ensures var p := Padding(n);
            && |p| >= 9 && p[0] == 0x80 && (forall i :: 1 <= i < |p| - 8 ==> p[i] == 0)
            && forall i :: 0 <= i < 8 ==> p[|p| - 8 + i] == digits[i] as bv8
  {
    hide LengthBytes, Number, ZeroCount;
    LengthSpells(digits);
    var p, z, l := Padding(n), Zeros(ZeroCount(n)), LengthBytes(8 * n % TWO_64);
    assert forall i :: 1 <= i < |p| - 8 ==> p[i] == z[i - 1];
    assert forall i :: 0 <= i < 8 ==> p[|p| - 8 + i] == l[i];
  }

  /** With k zeros behind the 1 bit, n bytes and the length make whole blocks. */
  predicate FillsBlock(n: nat, k: nat) {
    (n + 1 + k + 8) % BLOCK == 0
  }

  lemma DropBlocks(q: nat, r: nat, m: nat)
    ensures (BLOCK * q + r + m) % BLOCK == (r + m) % BLOCK
  {
    DivisionIsUnique(BLOCK * q + r + m, BLOCK, q + (r + m) / BLOCK, (r + m) % BLOCK);
  }

  lemma Residue(r: nat, k: nat)
    requires r < BLOCK
    ensures (r + 9 + (119 - r) % BLOCK) % BLOCK == 0
    ensures (r + 9 + k) % BLOCK == 0 ==> (119 - r) % BLOCK <= k
  {
  }

  /** The padding fills the last block, and with no fewer zeros would it. */
  lemma PaddingIsLeast(n: nat, k: nat)
    ensures FillsBlock(n, ZeroCount(n)) && |Padding(n)| == 1 + ZeroCount(n) + 8
    ensures FillsBlock(n, k) ==> ZeroCount(n) <= k
  {
    PaddingSize(n);
    hide Padding, LengthBytes;
    var q, r := n / BLOCK, n % BLOCK;
    Residue(r, k);
    DropBlocks(q, r, 9 + ZeroCount(n));
    DropBlocks(q, r, 9 + k);
  }

  lemma PaddingSize(n: nat)
    ensures |Padding(n)| == 1 + ZeroCount(n) + 8
  {
    hide LengthBytes, ZeroCount;
  }

  function Final(v: Hash): (s: seq<bv8>)
    ensures |s| == 32
  {
    WordBytes(v.a) + WordBytes(v.b) + WordBytes(v.c) + WordBytes(v.d)
    + WordBytes(v.e) + WordBytes(v.f) + WordBytes(v.g) + WordBytes(v.h)
  }

  function WordBytes(w: bv32): (s: seq<bv8>)
    ensures |s| == 4
  {
    [(w >> 24) as bv8, ((w >> 16) & 0xFF) as bv8, ((w >> 8) & 0xFF) as bv8, (w & 0xFF) as bv8]
  }

  /** The hash of a message. */
  function Digest(message: seq<bv8>): (s: seq<bv8>)
    ensures |s| == 32
  {
    PaddingIsLeast(|message|, 0);
    Final(Absorb(INITIAL, message + Padding(|message|)))
  }

  lemma {:induction false} AbsorbJoin(v: Hash, a: seq<bv8>, b: seq<bv8>)
    requires |a| % BLOCK == 0 && |b| % BLOCK == 0
    ensures |a + b| % BLOCK == 0 && Absorb(v, a + b) == Absorb(Absorb(v, a), b)
    decreases |a|
  {
    hide Compress;
    assert |a + b| == |a| + |b|;
    if |a| < BLOCK {
      assert a + b == b;
    } else {
      AbsorbJoin(Compress(v, a[..BLOCK]), a[BLOCK..], b);
      assert (a + b)[..BLOCK] == a[..BLOCK] && (a + b)[BLOCK..] == a[BLOCK..] + b;
    }
  }

  lemma AbsorbOne(v: Hash, block: seq<bv8>)
    requires |block| == BLOCK
    ensures Absorb(v, block) == Compress(v, block)
  {
    hide Compress;
    assert block[..BLOCK] == block && block[BLOCK..] == [];
  }

  // ---------------------------------------------------------------- the compression function

  function Ror32(value: bv32, count: bv8): bv32
    requires 0 < count < 32
  {
    (value >> count) | (value << (32 - count))
  }

  /** What the code writes with two shifts is the standard's rotation. */
  lemma RorRotates(x: bv32)
    ensures Ror32(x, 2) == x.RotateRight(2) && Ror32(x, 13) == x.RotateRight(13) && Ror32(x, 22) == x.RotateRight(22)
    ensures Ror32(x, 6) == x.RotateRight(6) && Ror32(x, 11) == x.RotateRight(11) && Ror32(x, 25) == x.RotateRight(25)
    ensures Ror32(x, 7) == x.RotateRight(7) && Ror32(x, 18) == x.RotateRight(18)
    ensures Ror32(x, 17) == x.RotateRight(17) && Ror32(x, 19) == x.RotateRight(19)
  {
  }

  lemma CodeSigmas(x: bv32)
    ensures Xor3(Ror32(x, 2), Ror32(x, 13), Ror32(x, 22)) == BigSigma0(x)
    ensures Xor3(Ror32(x, 6), Ror32(x, 11), Ror32(x, 25)) == BigSigma1(x)
    ensures Xor3(Ror32(x, 7), Ror32(x, 18), x >> 3) == SmallSigma0(x)
    ensures Xor3(Ror32(x, 17), Ror32(x, 19), x >> 10) == SmallSigma1(x)
  {
    hide Xor3, Ror32;
    RorRotates(x);
  }

  /** The schedule's sum, in the order the code takes it. */
  lemma SumOrder(a: bv32, b: bv32, c: bv32, d: bv32)
    ensures a + b + c + d == Sum4(d, c, b, a)
  {
  }

  method Sigma0Of(x: bv32) returns (s: bv32)
    ensures s == SmallSigma0(x)
  {
    hide Ror32, SmallSigma0;
    CodeSigmas(x);
    s := Ror32(x, 7) ^ Ror32(x, 18) ^ (x >> 3);
  }

  method Sigma1Of(x: bv32) returns (s: bv32)
    ensures s == SmallSigma1(x)
  {
    hide Ror32, SmallSigma1;
    CodeSigmas(x);
    s := Ror32(x, 17) ^ Ror32(x, 19) ^ (x >> 10);
  }

  method AddWords(a: bv32, b: bv32, c: bv32, d: bv32) returns (s: bv32)
    ensures s == Sum4(d, c, b, a)
  {
    SumOrder(a, b, c, d);
    s := a + b + c + d;
  }

  /** One word of the message schedule. */
  method ScheduleWord(w: array<bv32>, i: nat, ghost block: seq<bv8>) returns (x: bv32)
    requires |block| == BLOCK && 16 <= i < 64 && w.Length == 64
    requires forall j :: 0 <= j < i ==> w[j] == W(block, j)
    ensures x == W(block, i)
  {
    hide SmallSigma0, SmallSigma1, Sum4, BigEndian;
    var s0 := Sigma0Of(w[i - 15]);
    var s1 := Sigma1Of(w[i - 2]);
    x := AddWords(w[i - 16], s0, w[i - 7], s1);
  }

  method FirstTemporary(e: bv32, f: bv32, g: bv32, h: bv32, k: bv32, w: bv32) returns (t1: bv32)
    ensures t1 == Sum5(h, BigSigma1(e), Ch(e, f, g), k, w)
  {
    var s1 := BigSigma1Of(e);
    var choose := (e & f) ^ ((!e) & g);
    assert choose == Ch(e, f, g);
    hide BigSigma1, Ch, Sum5;
    t1 := AddFive(h, s1, choose, k, w);
  }

  method AddFive(a: bv32, b: bv32, c: bv32, d: bv32, e: bv32) returns (s: bv32)
    ensures s == Sum5(a, b, c, d, e)
  {
    s := a + b + c + d + e;
  }

  method BigSigma0Of(x: bv32) returns (s: bv32)
    ensures s == BigSigma0(x)
  {
    hide Ror32, BigSigma0;
    CodeSigmas(x);
    s := Ror32(x, 2) ^ Ror32(x, 13) ^ Ror32(x, 22);
  }

  method BigSigma1Of(x: bv32) returns (s: bv32)
    ensures s == BigSigma1(x)
  {
    hide Ror32, BigSigma1;
    CodeSigmas(x);
    s := Ror32(x, 6) ^ Ror32(x, 11) ^ Ror32(x, 25);
  }

  method MajorityOf(a: bv32, b: bv32, c: bv32) returns (m: bv32)
    ensures m == Maj(a, b, c)
  {
    m := (a & b) ^ (a & c) ^ (b & c);
  }

  /** One turn of the main loop. */
  method CodeRound(v: Hash, k: bv32, w: bv32) returns (r: Hash)
    ensures r == Round(v, k, w)
  {
    hide BigSigma0, BigSigma1, Ch, Maj, Plus, Sum5;
    var Hash(a, b, c, d, e, f, g, h) := v;
    var t1 := FirstTemporary(e, f, g, h, k, w);
    var s0 := BigSigma0Of(a);
    var majority := MajorityOf(a, b, c);
    var t2 := Plus(s0, majority);
    h, g, f, e := g, f, e, Plus(d, t1);
    d, c, b, a := c, b, a, Plus(t1, t2);
    return Hash(a, b, c, d, e, f, g, h);
  }

  lemma FirstRound(v: Hash, block: seq<bv8>)
    requires |block| == BLOCK
    ensures Rounds(v, block, 0) == v
  {
  }

  lemma NextRound(v: Hash, block: seq<bv8>, t: nat)
    requires |block| == BLOCK && t < 64
    ensures Rounds(v, block, t + 1) == Round(Rounds(v, block, t), K(t), W(block, t))
  {
    hide Round, W, K;
  }

  method Transform(v: Hash, block: seq<bv8>) returns (r: Hash)
    requires |block| == BLOCK
    ensures r == Compress(v, block)
  {
    var w := Schedule(block);
    hide W, Round, Rounds, Add, K;
    FirstRound(v, block);
    r := v;
    var i := 0;
    while i < 64
      invariant i <= 64 && r == Rounds(v, block, i)
      invariant forall j :: 0 <= j < 64 ==> w[j] == W(block, j)
    {
      NextRound(v, block, i);
      r := CodeRound(r, K(i), w[i]);
      i := i + 1;
    }
    r := Add(v, r);
  }

  lemma BlockWord(block: seq<bv8>, i: nat)
    requires |block| == BLOCK && i < 16
    ensures W(block, i) == BigEndian(block, i * 4)
  {
    hide BigEndian;
  }

  method Schedule(block: seq<bv8>) returns (w: array<bv32>)
    requires |block| == BLOCK
    ensures w.Length == 64 && forall j :: 0 <= j < 64 ==> w[j] == W(block, j)
  {
    hide BigEndian, W;
    w := new bv32[64];
    var i := 0;
    while i < 16
      invariant i <= 16
      invariant forall j :: 0 <= j < i ==> w[j] == W(block, j)
    {
      BlockWord(block, i);
      w[i] := BigEndian(block, i * 4);
      i := i + 1;
    }
    while i < 64
      invariant 16 <= i <= 64
      invariant forall j :: 0 <= j < i ==> w[j] == W(block, j)
    {
      var x := ScheduleWord(w, i, block);
      w[i] := x;
      i := i + 1;
    }
  }

  // ---------------------------------------------------------------- streaming

  /** The hash value covers all whole blocks of the message, and the bytes pending are its rest. */
  ghost predicate Streamed(v: Hash, pending: seq<bv8>, message: seq<bv8>) {
    && |pending| < BLOCK && |pending| <= |message| && (|message| - |pending|) % BLOCK == 0
    && message[|message| - |pending|..] == pending
    && v == Absorb(INITIAL, message[..|message| - |pending|])
  }

  lemma MorePending(v: Hash, pending: seq<bv8>, message: seq<bv8>, piece: seq<bv8>)
    requires Streamed(v, pending, message) && |pending| + |piece| < BLOCK
    ensures Streamed(v, pending + piece, message + piece)
  {
    var whole := |message| - |pending|;
    assert (message + piece)[..whole] == message[..whole];
    assert (message + piece)[whole..] == message[whole..] + piece;
  }

  lemma BlockFull(v: Hash, pending: seq<bv8>, message: seq<bv8>, piece: seq<bv8>)
    requires Streamed(v, pending, message) && |pending| + |piece| == BLOCK
    ensures Streamed(Compress(v, pending + piece), [], message + piece)
  {
    hide Compress;
    var whole := message[..|message| - |pending|];
    assert message + piece == whole + (pending + piece);
    AbsorbJoin(INITIAL, whole, pending + piece);
    AbsorbOne(v, pending + piece);
    assert (message + piece)[..|message + piece|] == message + piece;
  }

  lemma StreamedUsed(v: Hash, pending: seq<bv8>, message: seq<bv8>)
    requires Streamed(v, pending, message)
    ensures |pending| == |message| % BLOCK
  {
  }

  /** The last block, when the length still fits behind the message. */
  lemma OneMoreBlock(v: Hash, pending: seq<bv8>, message: seq<bv8>)
    requires Streamed(v, pending, message) && |pending| < 56
    ensures Digest(message)
            == Final(Compress(v, pending + [0x80] + Zeros(55 - |pending|) + LengthBytes(8 * |message| % TWO_64)))
  {
    hide Compress, LengthBytes, Final, Streamed;
    StreamedUsed(v, pending, message);
    assert ZeroCount(|message|) == 55 - |pending|;
    PaddedStream(v, pending, message);
    AbsorbOne(v, pending + Padding(|message|));
    assert pending + Padding(|message|)
      == pending + [0x80] + Zeros(55 - |pending|) + LengthBytes(8 * |message| % TWO_64);
  }

  /** The last two, when it does not. */
  lemma TwoMoreBlocks(v: Hash, pending: seq<bv8>, message: seq<bv8>)
    requires Streamed(v, pending, message) && 56 <= |pending|
    ensures Digest(message)
            == Final(Compress(Compress(v, pending + [0x80] + Zeros(63 - |pending|)),
                              Zeros(56) + LengthBytes(8 * |message| % TWO_64)))
  {
    hide Compress, LengthBytes, Final, Streamed;
    StreamedUsed(v, pending, message);
    assert ZeroCount(|message|) == 119 - |pending|;
    PaddedStream(v, pending, message);
    var first := pending + [0x80] + Zeros(63 - |pending|);
    var last := Zeros(56) + LengthBytes(8 * |message| % TWO_64);
    assert Zeros(119 - |pending|) == Zeros(63 - |pending|) + Zeros(56);
    assert pending + Padding(|message|) == first + last;
    AbsorbJoin(v, first, last);
    AbsorbOne(v, first);
    AbsorbOne(Compress(v, first), last);
  }

  lemma StreamedParts(v: Hash, pending: seq<bv8>, message: seq<bv8>, whole: seq<bv8>)
    requires Streamed(v, pending, message) && |pending| <= |message| && whole == message[..|message| - |pending|]
    ensures |whole| % BLOCK == 0 && v == Absorb(INITIAL, whole) && message == whole + pending
  {
    hide Absorb;
  }

  lemma RestFills(whole: nat, rest: nat)
    requires whole % BLOCK == 0 && (whole + rest) % BLOCK == 0
    ensures rest % BLOCK == 0
  {
    DropBlocks(whole / BLOCK, 0, rest);
  }

  lemma DigestIs(message: seq<bv8>)
    ensures |message + Padding(|message|)| % BLOCK == 0
    ensures Digest(message) == Final(Absorb(INITIAL, message + Padding(|message|)))
  {
    PaddingIsLeast(|message|, 0);
    hide Padding, Absorb, Final, ZeroCount;
  }

  lemma Regroup(a: seq<bv8>, b: seq<bv8>, c: seq<bv8>)
    ensures (a + b) + c == a + (b + c)
  {
  }

  lemma PaddedStream(v: Hash, pending: seq<bv8>, message: seq<bv8>)
    requires Streamed(v, pending, message)
    ensures |pending + Padding(|message|)| % BLOCK == 0
    ensures Digest(message) == Final(Absorb(v, pending + Padding(|message|)))
  {
    assert |pending| <= |message|;
    hide *;
    var whole, padding := message[..|message| - |pending|], Padding(|message|);
    StreamedParts(v, pending, message, whole);
    DigestIs(message);
    Regroup(whole, pending, padding);
    RestFills(|whole|, |pending + padding|);
    AbsorbJoin(INITIAL, whole, pending + padding);
  }

  /** Overwrite a stretch of the block. */
  method PutBytes(a: array<bv8>, at: nat, piece: seq<bv8>)
    requires at + |piece| <= a.Length
    modifies a
    ensures a[..at + |piece|] == old(a[..at]) + piece
  {
    var i := 0;
    while i < |piece|
      invariant i <= |piece|
      invariant a[..at + i] == old(a[..at]) + piece[..i]
    {
      a[at + i] := piece[i];
      i := i + 1;
    }
  }

  class Context {
    var state: Hash
    var totalBytes: nat
    const block: array<bv8>
    var blockUsed: nat

    /** Everything given so far. */
    ghost var message: seq<bv8>

    ghost predicate Valid()
      reads this, block
    {
      && block.Length == BLOCK && blockUsed < BLOCK
      && Streamed(state, block[..blockUsed], message)
      && totalBytes == |message| % TWO_64
    }

    constructor ()
      ensures Valid() && message == [] && fresh(block)
    {
      state, totalBytes, blockUsed := INITIAL, 0, 0;
      block := new bv8[BLOCK];
      message := [];
    }

    /** The block and the hash value stand for the message, whatever the byte count says. */
    ghost predicate Holding()
      reads this, block
    {
      block.Length == BLOCK && blockUsed < BLOCK && Streamed(state, block[..blockUsed], message)
    }

    /** Copy a piece that fits into the block; a full block is taken into the hash value. */
    method TakeIn(piece: seq<bv8>)
      requires Holding() && 1 <= |piece| <= BLOCK - blockUsed
      modifies this`state, this`blockUsed, this`message, block
      ensures Holding() && message == old(message) + piece
    {
      hide Streamed, Compress;
      ghost var pending := block[..blockUsed];
      PutBytes(block, blockUsed, piece);
      blockUsed := blockUsed + |piece|;
      if blockUsed == BLOCK {
        BlockFull(state, pending, message, piece);
        assert block[..] == block[..BLOCK];
        state := Transform(state, block[..]);
        blockUsed := 0;
        assert block[..0] == [];
      } else {
        MorePending(state, pending, message, piece);
      }
      message := message + piece;
    }

    /** Take in data a block at a time. */
    method TakeAll(data: seq<bv8>)
      requires Holding()
      modifies this`state, this`blockUsed, this`message, block
      ensures Holding() && message == old(message) + data
    {
      hide Holding, Streamed;
      var at := 0;
      while at < |data|
        invariant at <= |data| && Holding() && message == old(message) + data[..at]
      {
        BlockRoom();
        var room := BLOCK - blockUsed;
        var take := if |data| - at < room then |data| - at else room;
        TakeIn(data[at..at + take]);
        assert data[..at + take] == data[..at] + data[at..at + take];
        at := at + take;
      }
      assert data[..at] == data;
    }

    /** Count the data and take it in. */
    method Update(data: seq<bv8>)
      requires Valid()
      modifies this, block
      ensures Valid() && message == old(message) + data
    {
      hide Streamed;
      TotalWraps(|message|, |data|);
      totalBytes := (totalBytes + |data|) % TWO_64;
      TakeAll(data);
    }

    lemma BlockRoom()
      requires Holding()
      ensures block.Length == BLOCK && blockUsed < BLOCK && Streamed(state, block[..blockUsed], message)
    {
    }

    /** Fill the block up and take it in. */
    method TakeLast(at: nat, piece: seq<bv8>)
      requires block.Length == BLOCK && at + |piece| == BLOCK
      modifies this`state, block
      ensures state == Compress(old(state), old(block[..at]) + piece)
    {
      hide Compress;
      PutBytes(block, at, piece);
      assert block[..] == block[..BLOCK];
      state := Transform(state, block[..]);
    }

    /** Put the 1 bit behind what is pending, and zeros up to the length; a block that has no room for
        the length is taken in first. */
    method Pad(ghost pending: seq<bv8>)
      requires block.Length == BLOCK && blockUsed < BLOCK && pending == block[..blockUsed]
      modifies this`state, this`blockUsed, block
      ensures |pending| < 56 ==> state == old(state) && block[..56] == pending + [0x80] + Zeros(55 - |pending|)
      ensures |pending| >= 56 ==> state == Compress(old(state), pending + [0x80] + Zeros(63 - |pending|))
                                  && block[..56] == Zeros(56)
    {
      hide Compress;
      PutBytes(block, blockUsed, [0x80]);
      blockUsed := blockUsed + 1;
      if blockUsed > 56 {
        TakeLast(blockUsed, Zeros(BLOCK - blockUsed));
        blockUsed := 0;
        PutBytes(block, 0, Zeros(56));
        assert block[..56] == Zeros(56);
      } else {
        PutBytes(block, blockUsed, Zeros(56 - blockUsed));
      }
      blockUsed := 56;
    }

    /** Pad, add the length, and give the hash value of everything taken in. */
    method Finish() returns (digest: seq<bv8>)
      requires Valid()
      modifies this, block
      ensures digest == Digest(message) && message == old(message)
    {
      hide Streamed, Compress, LengthBytes, Final, Digest, Zeros;
      ghost var v, pending := state, block[..blockUsed];
      var bitLength := totalBytes * 8 % TWO_64;
      BitLengthWraps(|message|);
      if blockUsed < 56 {
        OneMoreBlock(v, pending, message);
      } else {
        TwoMoreBlocks(v, pending, message);
      }
      Pad(pending);
      TakeLast(56, LengthBytes(bitLength));
      digest := Final(state);
    }
  }

  lemma TotalWraps(n: nat, m: nat)
    ensures (n % TWO_64 + m) % TWO_64 == (n + m) % TWO_64
  {
  }

  lemma BitLengthWraps(n: nat)
    ensures n % TWO_64 * 8 % TWO_64 == 8 * n % TWO_64
  {
    var q, x := n / TWO_64, 8 * (n % TWO_64);
    DivisionIsUnique(8 * n, TWO_64, 8 * q + x / TWO_64, x % TWO_64);
  }

  function Flatten(pieces: seq<seq<bv8>>): seq<bv8> {
    if pieces == [] then [] else Flatten(pieces[..|pieces| - 1]) + pieces[|pieces| - 1]
  }

  /** Hash a file as it is read: whatever the pieces the reads deliver, the result is the hash of the
      content, taken at once. */
  method ChecksumFile(pieces: seq<seq<bv8>>) returns (digest: seq<bv8>, size: nat)
    requires forall p :: p in pieces ==> 1 <= |p| <= 64 * 1024
    ensures digest == Digest(Flatten(pieces)) && size == |Flatten(pieces)|
  {
    hide Digest, Streamed;
    var context := new Context();
    size := 0;
    var i := 0;
    while i < |pieces|
      invariant i <= |pieces| && context.Valid() && fresh(context) && fresh(context.block)
      invariant context.message == Flatten(pieces[..i]) && size == |Flatten(pieces[..i])|
    {
      context.Update(pieces[i]);
      assert pieces[..i + 1][..i] == pieces[..i];
      size := size + |pieces[i]|;
      i := i + 1;
    }
    assert pieces[..i] == pieces;
    digest := context.Finish();
  }
}
