/** The LZNT1 decoder (src/ntfs_lznt1.c; section 2.5 of [MS-XCA]).  A chunk is a stream of literals
    and copy tokens in groups of eight behind a flag byte; a buffer is a row of chunks. */
module Lznt1 {
  import opened ByteData

  const CHUNK := 4096
  const FORMATS := 9

  /** How far back a token of each format reaches, and how many lengths it can name. */
  const MAX_DISPLACEMENT: seq<nat> := [16, 32, 64, 128, 256, 512, 1024, 2048, 4096]
  const LENGTHS: seq<nat> := [4096, 2048, 1024, 512, 256, 128, 64, 32, 16]

  // ---------------------------------------------------------------- copy tokens

  /** The format in use at an output position: the first whose reach covers it. */
  function Format(pos: nat): (f: nat)
    requires pos <= CHUNK
    ensures f < FORMATS && pos <= MAX_DISPLACEMENT[f]
    ensures forall g :: 0 <= g < f ==> MAX_DISPLACEMENT[g] < pos
  {
    if pos <= 16 then 0 else if pos <= 32 then 1 else if pos <= 64 then 2 else if pos <= 128 then 3
    else if pos <= 256 then 4 else if pos <= 512 then 5 else if pos <= 1024 then 6
    else if pos <= 2048 then 7 else 8
  }

  /** The low bits of the token. */
  function TokenLength(f: nat, w: word): nat
    requires f < FORMATS
  {
    w % LENGTHS[f] + 3
  }

  /** The high bits of the token. */
  function TokenDisplacement(f: nat, w: word): nat
    requires f < FORMATS
  {
    w / LENGTHS[f] + 1
  }

  /** The reach begins at 16 and doubles from format to format, up to a whole chunk. */
  lemma ReachDoubles(f: nat)
    requires f < FORMATS
    ensures MAX_DISPLACEMENT[0] == 16 && MAX_DISPLACEMENT[FORMATS - 1] == CHUNK
    ensures f > 0 ==> MAX_DISPLACEMENT[f] == 2 * MAX_DISPLACEMENT[f - 1]
  {
  }

  /** A token has sixteen bits.  A format that reaches D back has 65536 / D lengths; the displacement
      less one is the token's high part, the length less three its low part. */
  lemma TokenSpells(f: nat, w: word)
    requires f < FORMATS
    ensures var reach, lengths := MAX_DISPLACEMENT[f], 0x1_0000 / MAX_DISPLACEMENT[f];
            var d, n := TokenDisplacement(f, w), TokenLength(f, w);
            && 1 <= d <= reach && 3 <= n <= lengths + 2 && reach * lengths == 0x1_0000
            && w == (d - 1) * lengths + (n - 3)
  {
    if f == 0 {} else if f == 1 {} else if f == 2 {} else if f == 3 {} else if f == 4 {}
    else if f == 5 {} else if f == 6 {} else if f == 7 {} else {}
  }

  /** Every displacement the format reaches and every length it has are those of a token, and of one. */
  lemma TokenForEach(f: nat, d: nat, n: nat)
    requires f < FORMATS && 1 <= d <= MAX_DISPLACEMENT[f] && 3 <= n <= 0x1_0000 / MAX_DISPLACEMENT[f] + 2
    ensures exists w: word :: TokenDisplacement(f, w) == d && TokenLength(f, w) == n
  {
    SplitToken(f, d - 1, n - 3);
    var w: word := (d - 1) * LENGTHS[f] + (n - 3);
    assert TokenDisplacement(f, w) == d && TokenLength(f, w) == n;
  }

  lemma TokenIsOne(f: nat, v: word, w: word)
    requires f < FORMATS && TokenDisplacement(f, v) == TokenDisplacement(f, w) && TokenLength(f, v) == TokenLength(f, w)
    ensures v == w
  {
    TokenSpells(f, v);
    TokenSpells(f, w);
    hide TokenDisplacement, TokenLength;
  }

  predicate Flagged(flag: nat, bit: nat) {
    if bit == 0 then flag % 2 == 1 else Flagged(flag / 2, bit - 1)
  }

  function Min(a: nat, b: nat): nat {
    if a < b then a else b
  }

  /** Append n bytes, each a copy of the one d back, one at a time: the copy may overlap itself. */
  function CopyOut(out: seq<byte>, d: nat, n: nat): (r: seq<byte>)
    requires 1 <= d <= |out|
    ensures |r| == |out| + n && out <= r
    decreases n
  {
    if n == 0 then out else CopyOut(out + [out[|out| - d]], d, n - 1)
  }

  /** Every byte of the copy equals the one d before it. */
  lemma {:induction false} CopyRepeats(out: seq<byte>, d: nat, n: nat, i: nat)
    requires 1 <= d <= |out| && |out| <= i < |out| + n
    ensures CopyOut(out, d, n)[i] == CopyOut(out, d, n)[i - d]
    decreases n
  {
    var longer := out + [out[|out| - d]];
    if i > |out| {
      CopyRepeats(longer, d, n - 1, i);
    } else {
      assert longer <= CopyOut(longer, d, n - 1);
    }
  }

  lemma {:induction false} CopyPrefix(out: seq<byte>, d: nat, n: nat, m: nat)
    requires 1 <= d <= |out| && m <= n
    ensures CopyOut(out, d, m) <= CopyOut(out, d, n)
    decreases n
  {
    if m > 0 {
      CopyPrefix(out + [out[|out| - d]], d, n - 1, m - 1);
    }
  }

  // ---------------------------------------------------------------- one chunk

  /** The rest of a chunk, the flag byte of its current group already taken. */
  function Items(rest: seq<byte>, flag: byte, bit: nat, out: seq<byte>, limit: nat): (r: (bool, seq<byte>))
    requires bit < 8 && |out| <= limit <= CHUNK
    ensures out <= r.1 && |r.1| <= limit
    decreases |rest|, 0
  {
    if |out| >= limit || rest == [] then (true, out)
    else if !Flagged(flag, bit) then Next(rest[1..], flag, bit, out + [rest[0]], limit)
    else if |rest| < 2 then (false, out)
    else
      var w, f := Word(rest, 0), Format(|out|);
      if TokenDisplacement(f, w) > |out| then (false, out)
      else Next(rest[2..], flag, bit,
                CopyOut(out, TokenDisplacement(f, w), Min(TokenLength(f, w), limit - |out|)), limit)
  }

  /** After an item: the next bit, or the flag byte of the next group. */
  function Next(rest: seq<byte>, flag: byte, bit: nat, out: seq<byte>, limit: nat): (r: (bool, seq<byte>))
    requires bit < 8 && |out| <= limit <= CHUNK
    ensures out <= r.1 && |r.1| <= limit
    decreases |rest|, 1
  {
    if bit < 7 then Items(rest, flag, bit + 1, out, limit)
    else if rest == [] then (true, out)
    else Items(rest[1..], rest[0], 0, out, limit)
  }

  function DecodeChunk(payload: seq<byte>, limit: nat): (r: (bool, seq<byte>))
    requires limit <= CHUNK
    ensures |r.1| <= limit
  {
    if payload == [] then (true, []) else Items(payload[1..], payload[0], 0, [], limit)
  }

  // ---------------------------------------------------------------- what a chunk means

  datatype Token = Literal(b: byte) | Copy(d: nat, n: nat)

  function TokenSize(t: Token): nat {
    if t.Literal? then 1 else t.n
  }

  /** A token that can be written at a position: it reaches back no further than the output and the
      format allow, and its length is one the format can name. */
  predicate Sayable(t: Token, pos: nat) {
    pos < CHUNK
    && (t.Copy? ==> 1 <= t.d <= pos && 3 <= t.n < LENGTHS[Format(pos)] + 3)
  }

  predicate Valid(tokens: seq<Token>, pos: nat) {
    tokens == [] || (Sayable(tokens[0], pos) && Valid(tokens[1..], pos + TokenSize(tokens[0])))
  }

  function Apply(t: Token, out: seq<byte>): (r: seq<byte>)
    requires t.Copy? ==> 1 <= t.d <= |out|
    ensures |r| == |out| + TokenSize(t) && out <= r
  {
    if t.Literal? then out + [t.b] else CopyOut(out, t.d, t.n)
  }

  /** The expansion of a token sequence. */
  function Expand(tokens: seq<Token>, out: seq<byte>): (r: seq<byte>)
    requires Valid(tokens, |out|)
    ensures out <= r
  {
    if tokens == [] then out else Expand(tokens[1..], Apply(tokens[0], out))
  }

  /** Little-endian displacement and length, split as the format says. */
  function TokenWord(t: Token, pos: nat): (w: word)
    requires t.Copy? && Sayable(t, pos)
    ensures TokenDisplacement(Format(pos), w) == t.d && TokenLength(Format(pos), w) == t.n
  {
    var f := Format(pos);
    SplitToken(f, t.d - 1, t.n - 3);
    (t.d - 1) * LENGTHS[f] + (t.n - 3)
  }

  lemma SplitToken(f: nat, high: nat, low: nat)
    requires f < FORMATS && high < MAX_DISPLACEMENT[f] && low < LENGTHS[f]
    ensures var w := high * LENGTHS[f] + low; w < 0x1_0000 && w / LENGTHS[f] == high && w % LENGTHS[f] == low
  {
    if f == 0 {} else if f == 1 {} else if f == 2 {} else if f == 3 {} else if f == 4 {}
    else if f == 5 {} else if f == 6 {} else if f == 7 {} else {}
  }

  function TokenBytes(t: Token, pos: nat): (s: seq<byte>)
    requires Sayable(t, pos)
    ensures |s| == if t.Literal? then 1 else 2
  {
    if t.Literal? then [t.b] else [TokenWord(t, pos) % 256, TokenWord(t, pos) / 256]
  }

  /** One bit for each of the next n tokens, the first lowest. */
  function Flags(tokens: seq<Token>, n: nat): nat {
    if n == 0 || tokens == [] then 0
    else (if tokens[0].Copy? then 1 else 0) + 2 * Flags(tokens[1..], n - 1)
  }

  lemma {:induction false} FlagsFit(tokens: seq<Token>, n: nat)
    requires n <= 8
    ensures Flags(tokens, n) < if n == 0 then 1 else if n == 1 then 2 else if n == 2 then 4 else if n == 3 then 8
                               else if n == 4 then 16 else if n == 5 then 32 else if n == 6 then 64
                               else if n == 7 then 128 else 256
  {
    if n > 0 && tokens != [] {
      FlagsFit(tokens[1..], n - 1);
    }
  }

  /** The items from here on, their group's flag byte already written. */
  function Body(tokens: seq<Token>, bit: nat, pos: nat): seq<byte>
    requires bit < 8 && Valid(tokens, pos)
    decreases |tokens|, 0
  {
    if tokens == [] then []
    else
      var pos' := pos + TokenSize(tokens[0]);
      TokenBytes(tokens[0], pos) + if bit < 7 then Body(tokens[1..], bit + 1, pos') else Serialize(tokens[1..], pos')
  }

  /** Whole groups, each behind its flag byte. */
  function Serialize(tokens: seq<Token>, pos: nat): (s: seq<byte>)
    requires Valid(tokens, pos)
    ensures s == [] <==> tokens == []
    decreases |tokens|, 1
  {
    if tokens == [] then []
    else
      FlagsFit(tokens, 8);
      [Flags(tokens, 8)] + Body(tokens, 0, pos)
  }

  // ---------------------------------------------------------------- decoding undoes writing

  predicate FlagsSay(flag: nat, bit: nat, tokens: seq<Token>) {
    forall j: nat :: j < |tokens| && bit + j < 8 ==> (Flagged(flag, bit + j) <==> tokens[j].Copy?)
  }

  lemma {:induction false} FlagsAre(tokens: seq<Token>, n: nat, j: nat)
    requires j < n && j < |tokens|
    ensures Flagged(Flags(tokens, n), j) <==> tokens[j].Copy?
  {
    if j > 0 {
      FlagsAre(tokens[1..], n - 1, j - 1);
      assert Flags(tokens, n) / 2 == Flags(tokens[1..], n - 1);
    }
  }

  lemma FlagsOfGroup(tokens: seq<Token>)
    ensures FlagsSay(Flags(tokens, 8), 0, tokens)
  {
    forall j: nat | j < |tokens| && j < 8 ensures Flagged(Flags(tokens, 8), 0 + j) <==> tokens[j].Copy? {
      FlagsAre(tokens, 8, j);
    }
  }

  lemma FlagsShift(flag: nat, bit: nat, tokens: seq<Token>)
    requires bit < 7 && tokens != [] && FlagsSay(flag, bit, tokens)
    ensures FlagsSay(flag, bit + 1, tokens[1..])
  {
    forall j: nat | j < |tokens| - 1 && bit + 1 + j < 8 ensures Flagged(flag, bit + 1 + j) <==> tokens[1..][j].Copy? {
      assert Flagged(flag, bit + (j + 1)) <==> tokens[j + 1].Copy?;
    }
  }

  /** The expansion as far as the output has room. */
  function Cut(s: seq<byte>, limit: nat): (r: seq<byte>)
    ensures |r| == Min(|s|, limit)
    ensures |s| <= limit ==> r == s
  {
    s[..Min(|s|, limit)]
  }

  /** Once the output is full nothing more is decoded. */
  lemma FullStops(rest: seq<byte>, flag: byte, bit: nat, out: seq<byte>, limit: nat)
    requires bit < 8 && |out| == limit <= CHUNK
    ensures Next(rest, flag, bit, out, limit) == (true, out)
  {
  }

  lemma CutExpand(tokens: seq<Token>, out: seq<byte>, limit: nat)
    requires Valid(tokens, |out|) && |out| >= limit
    ensures Cut(Expand(tokens, out), limit) == Cut(out, limit)
  {
    var all := Expand(tokens, out);
    assert all[..limit] == all[..|out|][..limit];
  }

  /** One item: the first token's bytes are read and the token applied, as far as there is room. */
  lemma ItemRead(t: Token, tail: seq<byte>, flag: byte, bit: nat, out: seq<byte>, limit: nat)
    requires bit < 8 && |out| < limit <= CHUNK && Sayable(t, |out|)
    requires Flagged(flag, bit) <==> t.Copy?
    ensures var next := Cut(Apply(t, out), limit);
            Items(TokenBytes(t, |out|) + tail, flag, bit, out, limit) == Next(tail, flag, bit, next, limit)
  {
    var rest := TokenBytes(t, |out|) + tail;
    assert rest[|TokenBytes(t, |out|)|..] == tail;
    if t.Literal? {
      assert Cut(Apply(t, out), limit) == out + [rest[0]];
    } else {
      var w := TokenWord(t, |out|);
      assert Word(rest, 0) == w;
      CopyPrefix(out, t.d, t.n, Min(t.n, limit - |out|));
      assert Cut(Apply(t, out), limit) == CopyOut(out, t.d, Min(t.n, limit - |out|));
    }
  }

  /** The bytes behind the current item. */
  function Tail(tokens: seq<Token>, bit: nat, pos: nat): seq<byte>
    requires bit < 8 && Valid(tokens, pos)
  {
    if bit < 7 then Body(tokens, bit + 1, pos) else Serialize(tokens, pos)
  }

  lemma FirstOf(tokens: seq<Token>, flag: byte, bit: nat, out: seq<byte>)
    requires bit < 8 && tokens != [] && Valid(tokens, |out|) && FlagsSay(flag, bit, tokens)
    ensures Sayable(tokens[0], |out|) && (Flagged(flag, bit) <==> tokens[0].Copy?)
    ensures var next := Apply(tokens[0], out);
            && Valid(tokens[1..], |next|)
            && Body(tokens, bit, |out|) == TokenBytes(tokens[0], |out|) + Tail(tokens[1..], bit, |next|)
            && Expand(tokens, out) == Expand(tokens[1..], next)
            && (bit < 7 ==> FlagsSay(flag, bit + 1, tokens[1..]))
  {
    hide Flagged, Sayable, CopyOut, TokenBytes;
    assert Flagged(flag, bit + 0) <==> tokens[0].Copy?;
    if bit < 7 {
      FlagsShift(flag, bit, tokens);
    }
  }

  lemma {:induction false} ItemsOfBody(tokens: seq<Token>, flag: byte, bit: nat, out: seq<byte>, limit: nat)
    requires bit < 8 && |out| <= limit <= CHUNK && Valid(tokens, |out|) && FlagsSay(flag, bit, tokens)
    ensures Items(Body(tokens, bit, |out|), flag, bit, out, limit) == (true, Cut(Expand(tokens, out), limit))
    decreases |tokens|, 0
  {
    if |out| == limit {
      CutExpand(tokens, out, limit);
    } else if tokens != [] {
      hide *;
      FirstOf(tokens, flag, bit, out);
      var t, more := tokens[0], tokens[1..];
      var next := Apply(t, out);
      var tail := Tail(more, bit, |next|);
      ItemRead(t, tail, flag, bit, out, limit);
      if |next| > limit {
        CutExpand(more, next, limit);
        FullStops(tail, flag, bit, Cut(next, limit), limit);
      } else {
        NextOfTokens(more, flag, bit, next, limit);
      }
    }
  }

  lemma {:induction false} NextOfTokens(tokens: seq<Token>, flag: byte, bit: nat, out: seq<byte>, limit: nat)
    requires bit < 8 && |out| <= limit <= CHUNK && Valid(tokens, |out|)
    requires bit < 7 ==> FlagsSay(flag, bit + 1, tokens)
    ensures Next(Tail(tokens, bit, |out|), flag, bit, out, limit) == (true, Cut(Expand(tokens, out), limit))
    decreases |tokens|, 1
  {
    if bit < 7 {
      ItemsOfBody(tokens, flag, bit + 1, out, limit);
    } else if tokens != [] {
      FlagsFit(tokens, 8);
      FlagsOfGroup(tokens);
      ItemsOfBody(tokens, Flags(tokens, 8), 0, out, limit);
      assert Serialize(tokens, |out|)[1..] == Body(tokens, 0, |out|);
    }
  }

  /** Decoding a serialised token sequence gives its expansion, cut to the room there is. */
  lemma DecodeOfSerialize(tokens: seq<Token>, limit: nat)
    requires Valid(tokens, 0) && limit <= CHUNK
    ensures DecodeChunk(Serialize(tokens, 0), limit) == (true, Cut(Expand(tokens, []), limit))
  {
    if tokens != [] {
      FlagsFit(tokens, 8);
      FlagsOfGroup(tokens);
      ItemsOfBody(tokens, Flags(tokens, 8), 0, [], limit);
      assert Serialize(tokens, 0)[1..] == Body(tokens, 0, 0);
    }
  }

  // ---------------------------------------------------------------- nothing else is accepted

  /** The token the decoder reads when it takes a copy. */
  function TokenRead(w: word, pos: nat): Token
    requires pos <= CHUNK
  {
    Copy(TokenDisplacement(Format(pos), w), TokenLength(Format(pos), w))
  }

  lemma ReadIsSayable(w: word, pos: nat)
    requires pos < CHUNK && TokenDisplacement(Format(pos), w) <= pos
    ensures Sayable(TokenRead(w, pos), pos)
  {
  }

  lemma ValidCons(t: Token, more: seq<Token>, out: seq<byte>)
    requires Sayable(t, |out|) && Valid(more, |Apply(t, out)|)
    ensures Valid([t] + more, |out|) && Expand([t] + more, out) == Expand(more, Apply(t, out))
  {
    hide Sayable, CopyOut;
    assert ([t] + more)[1..] == more;
  }

  /** Whatever the rest of a chunk is, if it is accepted there are tokens whose expansion it is. */
  lemma {:induction false} AcceptedItems(rest: seq<byte>, flag: byte, bit: nat, out: seq<byte>, limit: nat)
    returns (tokens: seq<Token>)
    requires bit < 8 && |out| <= limit <= CHUNK && Items(rest, flag, bit, out, limit).0
    ensures Valid(tokens, |out|) && Cut(Expand(tokens, out), limit) == Items(rest, flag, bit, out, limit).1
    decreases |rest|, 0
  {
    tokens := [];
    if |out| < limit && rest != [] {
      var t := if Flagged(flag, bit) then TokenRead(Word(rest, 0), |out|) else Literal(rest[0]);
      var size := if Flagged(flag, bit) then 2 else 1;
      if Flagged(flag, bit) {
        ReadIsSayable(Word(rest, 0), |out|);
      }
      ItemTaken(rest, flag, bit, out, limit, t, size);
      var next := Cut(Apply(t, out), limit);
      hide Items, Next, Expand, Valid, Sayable, Apply, Cut, Flagged, Format;
      var more := AcceptedNext(rest[size..], flag, bit, next, limit);
      if |Apply(t, out)| <= limit {
        FitsWhole(Apply(t, out), limit);
        ValidCons(t, more, out);
        return [t] + more;
      }
      ValidCons(t, [], out);
      OverIsFull(rest[size..], flag, bit, Apply(t, out), limit);
      return [t];
    }
  }

  lemma FitsWhole(s: seq<byte>, limit: nat)
    requires |s| <= limit
    ensures Cut(s, limit) == s
  {
  }

  lemma OverIsFull(rest: seq<byte>, flag: byte, bit: nat, next: seq<byte>, limit: nat)
    requires bit < 8 && |next| > limit && limit <= CHUNK
    ensures Valid([], |next|) && Cut(Expand([], next), limit) == Next(rest, flag, bit, Cut(next, limit), limit).1
  {
    FullStops(rest, flag, bit, Cut(next, limit), limit);
  }

  /** An item that is not refused is the token read, applied as far as there is room. */
  lemma ItemTaken(rest: seq<byte>, flag: byte, bit: nat, out: seq<byte>, limit: nat, t: Token, size: nat)
    requires bit < 8 && |out| < limit <= CHUNK && rest != [] && Items(rest, flag, bit, out, limit).0
    requires size == if Flagged(flag, bit) then 2 else 1
    requires t == if Flagged(flag, bit) && |rest| >= 2 then TokenRead(Word(rest, 0), |out|) else Literal(rest[0])
    ensures size <= |rest| && Sayable(t, |out|)
    ensures Items(rest, flag, bit, out, limit) == Next(rest[size..], flag, bit, Cut(Apply(t, out), limit), limit)
  {
    hide Flagged, Next, TokenLength, TokenDisplacement, Format, CopyOut;
    if Flagged(flag, bit) {
      var w := Word(rest, 0);
      TokenBounds(w, |out|);
      CopyPrefix(out, t.d, t.n, Min(t.n, limit - |out|));
      assert Cut(Apply(t, out), limit) == CopyOut(out, t.d, Min(t.n, limit - |out|));
    } else {
      assert Cut(Apply(t, out), limit) == out + [rest[0]];
    }
  }

  lemma TokenBounds(w: word, pos: nat)
    requires pos <= CHUNK
    ensures TokenDisplacement(Format(pos), w) >= 1 && 3 <= TokenLength(Format(pos), w) < LENGTHS[Format(pos)] + 3
  {
  }

  lemma {:induction false} AcceptedNext(rest: seq<byte>, flag: byte, bit: nat, out: seq<byte>, limit: nat)
    returns (tokens: seq<Token>)
    requires bit < 8 && |out| <= limit <= CHUNK && Next(rest, flag, bit, out, limit).0
    ensures Valid(tokens, |out|) && Cut(Expand(tokens, out), limit) == Next(rest, flag, bit, out, limit).1
    decreases |rest|, 1
  {
    hide Items;
    if bit < 7 {
      tokens := AcceptedItems(rest, flag, bit + 1, out, limit);
    } else if rest == [] {
      tokens := [];
    } else {
      tokens := AcceptedItems(rest[1..], rest[0], 0, out, limit);
    }
  }

  /** Every chunk that is accepted decodes to the expansion of some valid token sequence. */
  lemma AcceptedIsExpansion(payload: seq<byte>, limit: nat) returns (tokens: seq<Token>)
    requires limit <= CHUNK && DecodeChunk(payload, limit).0
    ensures Valid(tokens, 0) && DecodeChunk(payload, limit).1 == Cut(Expand(tokens, []), limit)
  {
    hide Items;
    if payload == [] {
      tokens := [];
    } else {
      tokens := AcceptedItems(payload[1..], payload[0], 0, [], limit);
    }
  }

  // ---------------------------------------------------------------- the chunk decoder

  ghost predicate Holds(a: array<byte>, from: nat, w: seq<byte>)
    reads a
  {
    from + |w| <= a.Length && forall i :: 0 <= i < |w| ==> a[from + i] == w[i]
  }

  ghost predicate KeptOutside(a: array<byte>, before: seq<byte>, from: nat, n: nat)
    reads a
  {
    a.Length == |before| && forall i :: 0 <= i < a.Length && !(from <= i < from + n) ==> a[i] == before[i]
  }

  method PutByte(a: array<byte>, from: nat, pos: nat, b: byte, ghost w: seq<byte>)
    requires Holds(a, from, w) && pos == |w| && from + pos < a.Length
    modifies a
    ensures Holds(a, from, w + [b]) && KeptOutside(a, old(a[..]), from + pos, 1)
  {
    var at := from + pos;
    a[at] := b;
  }

  method CopyRun(a: array<byte>, from: nat, pos: nat, d: nat, n: nat, ghost w: seq<byte>)
    requires Holds(a, from, w) && pos == |w| && 1 <= d <= pos && from + pos + n <= a.Length
    modifies a
    ensures Holds(a, from, CopyOut(w, d, n))
    ensures KeptOutside(a, old(a[..]), from + pos, n)
  {
    ghost var before, copied := a[..], w;
    var at: nat, left: nat := pos, n;
    while left > 0
      invariant left <= n && d <= at && at == pos + (n - left) == |copied| && from + at + left <= a.Length
      invariant Holds(a, from, copied) && KeptOutside(a, before, from + pos, n - left)
      invariant CopyOut(copied, d, left) == CopyOut(w, d, n)
    {
      var b := a[from + (at - d)];
      PutByte(a, from, at, b, copied);
      copied := copied + [b];
      at, left := at + 1, left - 1;
    }
  }

  /** What the loop knows: decoding the rest from here gives what decoding the chunk gives. */
  ghost predicate Decoding(payload: seq<byte>, at: nat, flag: byte, bit: nat, w: seq<byte>, limit: nat) {
    at <= |payload| && bit < 8 && |w| <= limit <= CHUNK
    && Items(payload[at..], flag, bit, w, limit) == DecodeChunk(payload, limit)
  }

  ghost predicate ItemDone(payload: seq<byte>, at: nat, flag: byte, bit: nat, w: seq<byte>, limit: nat) {
    at <= |payload| && bit < 8 && |w| <= limit <= CHUNK
    && Next(payload[at..], flag, bit, w, limit) == DecodeChunk(payload, limit)
  }

  lemma StartDecoding(payload: seq<byte>, limit: nat)
    requires payload != [] && limit <= CHUNK
    ensures Decoding(payload, 1, payload[0], 0, [], limit)
  {
  }

  lemma LiteralStep(payload: seq<byte>, at: nat, flag: byte, bit: nat, w: seq<byte>, limit: nat)
    requires Decoding(payload, at, flag, bit, w, limit) && |w| < limit && at < |payload| && !Flagged(flag, bit)
    ensures ItemDone(payload, at + 1, flag, bit, w + [payload[at]], limit)
  {
    assert payload[at..][1..] == payload[at + 1..];
  }

  lemma CopyStep(payload: seq<byte>, at: nat, flag: byte, bit: nat, w: seq<byte>, limit: nat, token: word, d: nat,
                 n: nat)
    requires Decoding(payload, at, flag, bit, w, limit) && |w| < limit && at + 2 <= |payload| && Flagged(flag, bit)
    requires token == Word(payload, at)
    requires d == TokenDisplacement(Format(|w|), token) && n == TokenLength(Format(|w|), token)
    ensures d > |w| ==> DecodeChunk(payload, limit) == (false, w)
    ensures 1 <= d <= |w| ==> ItemDone(payload, at + 2, flag, bit, CopyOut(w, d, Min(n, limit - |w|)), limit)
  {
    hide Flagged, TokenDisplacement, TokenLength, Next, DecodeChunk, CopyOut;
    assert payload[at..][2..] == payload[at + 2..];
    assert Word(payload[at..], 0) == token;
  }

  lemma HalfToken(payload: seq<byte>, at: nat, flag: byte, bit: nat, w: seq<byte>, limit: nat)
    requires Decoding(payload, at, flag, bit, w, limit) && |w| < limit && at + 1 == |payload| && Flagged(flag, bit)
    ensures DecodeChunk(payload, limit) == (false, w)
  {
  }

  lemma NextBit(payload: seq<byte>, at: nat, flag: byte, bit: nat, w: seq<byte>, limit: nat)
    requires ItemDone(payload, at, flag, bit, w, limit)
    ensures bit < 7 ==> Decoding(payload, at, flag, bit + 1, w, limit)
    ensures bit == 7 && at == |payload| ==> DecodeChunk(payload, limit) == (true, w)
    ensures bit == 7 && at < |payload| ==> Decoding(payload, at + 1, payload[at], 0, w, limit)
  {
    if at < |payload| {
      assert payload[at..][1..] == payload[at + 1..];
    }
  }

  lemma EndDecoding(payload: seq<byte>, at: nat, flag: byte, bit: nat, w: seq<byte>, limit: nat)
    requires Decoding(payload, at, flag, bit, w, limit) && (|w| == limit || at == |payload|)
    ensures DecodeChunk(payload, limit) == (true, w)
  {
  }

  /** Advance to the format in use; it never passes the ninth. */
  method NextFormat(from: nat, pos: nat) returns (f: nat)
    requires pos <= CHUNK && from <= Format(pos)
    ensures f == Format(pos)
  {
    f := from;
    while MAX_DISPLACEMENT[f] < pos
      invariant f <= Format(pos)
      decreases FORMATS - f
    {
      f := f + 1;
    }
  }

  lemma FormatGrows(p: nat, q: nat)
    requires p <= q <= CHUNK
    ensures Format(p) <= Format(q)
  {
  }

  /** One item written in place: a literal, a copy, or a report that the chunk is damaged. */
  method DecodeItem(out: array<byte>, start: nat, limit: nat, payload: seq<byte>, at: nat, pos: nat, f: nat,
                    flag: byte, bit: nat, ghost w: seq<byte>)
    returns (ok: bool, at': nat, pos': nat, ghost w': seq<byte>)
    requires start + limit <= out.Length && Decoding(payload, at, flag, bit, w, limit)
    requires at < |payload| && pos == |w| < limit && f == Format(pos) && Holds(out, start, w)
    modifies out
    ensures pos <= pos' == |w'| <= limit && Holds(out, start, w')
    ensures KeptOutside(out, old(out[..]), start + pos, pos' - pos)
    ensures ok ==> at < at' && ItemDone(payload, at', flag, bit, w', limit)
    ensures !ok ==> DecodeChunk(payload, limit) == (false, w')
  {
    hide Decoding, ItemDone, Flagged, CopyOut, TokenLength, TokenDisplacement, Holds, KeptOutside, DecodeChunk, Format;
    ghost var before := out[..];
    DecodingBounds(payload, at, flag, bit, w, limit);
    NothingKept(out, start + pos);
    ok, at', pos', w' := false, at, pos, w;
    if !Flagged(flag, bit) {
      LiteralStep(payload, at, flag, bit, w, limit);
      PutByte(out, start, pos, payload[at], w);
      return true, at + 1, pos + 1, w + [payload[at]];
    }
    if at + 1 >= |payload| {
      HalfToken(payload, at, flag, bit, w, limit);
      return;
    }
    var token := Word(payload, at);
    var d, length := TokenDisplacement(f, token), TokenLength(f, token);
    CopyStep(payload, at, flag, bit, w, limit, token, d, length);
    if d > pos {
      return;
    }
    if pos + length >= limit {
      length := limit - pos;
    }
    DisplacementIsPositive(f, token);
    CopyRun(out, start, pos, d, length, w);
    return true, at + 2, pos + length, CopyOut(w, d, length);
  }

  lemma DecodingBounds(payload: seq<byte>, at: nat, flag: byte, bit: nat, w: seq<byte>, limit: nat)
    requires Decoding(payload, at, flag, bit, w, limit)
    ensures at <= |payload| && bit < 8 && |w| <= limit <= CHUNK
  {
  }

  lemma DisplacementIsPositive(f: nat, token: word)
    requires f < FORMATS
    ensures TokenDisplacement(f, token) >= 1
  {
  }

  lemma NothingKept(out: array<byte>, from: nat)
    ensures KeptOutside(out, out[..], from, 0)
  {
  }

  lemma KeptJoins(a: array<byte>, first: seq<byte>, second: seq<byte>, from: nat, n: nat, m: nat)
    requires |first| == |second| && KeptOutside(a, second, from + n, m)
    requires forall i :: 0 <= i < |first| && !(from <= i < from + n) ==> second[i] == first[i]
    ensures KeptOutside(a, first, from, n + m)
  {
  }

  /** Decode one chunk in place; the bytes written are those of the specification. */
  method DecompressChunk(out: array<byte>, start: nat, limit: nat, payload: seq<byte>)
    returns (ok: bool, size: nat, ghost data: seq<byte>)
    requires start + limit <= out.Length && limit <= CHUNK
    modifies out
    ensures (ok, data) == DecodeChunk(payload, limit) && size == |data|
    ensures Holds(out, start, data) && KeptOutside(out, old(out[..]), start, size)
  {
    hide Decoding, ItemDone, Flagged, Holds, KeptOutside, Format;
    ghost var before := out[..];
    NothingKept(out, start);
    NothingHeld(out, start);
    if payload == [] {
      return true, 0, [];
    }
    hide DecodeChunk;
    StartDecoding(payload, limit);
    var at: nat, flag: byte, bit: nat, format: nat, pos: nat := 1, payload[0], 0, 0, 0;
    ghost var w: seq<byte> := [];
    while pos < limit && at < |payload|
      invariant Decoding(payload, at, flag, bit, w, limit) && bit < 8
      invariant pos == |w| <= limit && at <= |payload| && format <= Format(pos)
      invariant Holds(out, start, w) && KeptOutside(out, before, start, pos)
      decreases |payload| - at
    {
      format := NextFormat(format, pos);
      ghost var here := out[..];
      KeptSoFar(out, before, here, start, pos);
      var at', pos';
      ghost var w';
      ok, at', pos', w' := DecodeItem(out, start, limit, payload, at, pos, format, flag, bit, w);
      KeptJoins(out, before, here, start, pos, pos' - pos);
      if !ok {
        return false, pos', w';
      }
      FormatGrows(pos, pos');
      NextBit(payload, at', flag, bit, w', limit);
      ItemBounds(payload, at', flag, bit, w', limit);
      at, pos, w := at', pos', w';
      if bit == 7 {
        if at >= |payload| {
          return true, pos, w;
        }
        flag, at := payload[at], at + 1;
      }
      bit := (bit + 1) % 8;
    }
    EndDecoding(payload, at, flag, bit, w, limit);
    return true, pos, w;
  }

  lemma ItemBounds(payload: seq<byte>, at: nat, flag: byte, bit: nat, w: seq<byte>, limit: nat)
    requires ItemDone(payload, at, flag, bit, w, limit)
    ensures at <= |payload|
  {
  }

  lemma NothingHeld(out: array<byte>, start: nat)
    requires start <= out.Length
    ensures Holds(out, start, [])
  {
  }

  lemma KeptSoFar(a: array<byte>, before: seq<byte>, here: seq<byte>, from: nat, n: nat)
    requires KeptOutside(a, before, from, n) && here == a[..]
    ensures |before| == |here|
    ensures forall i :: 0 <= i < |before| && !(from <= i < from + n) ==> here[i] == before[i]
  {
  }

  // ---------------------------------------------------------------- a row of chunks

  /** What a decode of a buffer gives: success, the size it reports (an offset into the compressed
      data when a chunk is cut off), the bytes written, and where in them each chunk began. */
  datatype Outcome = Outcome(ok: bool, size: nat, data: seq<byte>, starts: seq<nat>)

  datatype ChunkResult = Decoded(data: seq<byte>) | Damaged(data: seq<byte>) | CutOff

  function ChunkSize(header: word): nat {
    header % 4096 + 3
  }

  /** Bit 15; the three signature bits are not looked at. */
  predicate Compressed(header: word) {
    header / 0x8000 == 1
  }

  /** Twelve bits of size, three that are not looked at, and one that says whether the chunk is packed. */
  lemma HeaderMeans(size: nat, signature: nat, packed: bool)
    requires size < 4096 && signature < 8
    ensures var header := size + 4096 * signature + (if packed then 0x8000 else 0);
            header < 0x1_0000 && ChunkSize(header) == size + 3 && (Compressed(header) <==> packed)
  {
  }

  function ReadChunk(comp: seq<byte>, at: nat, room: nat): (r: ChunkResult)
    requires at + 2 <= |comp| && room <= CHUNK
    ensures !r.CutOff? ==> |r.data| <= room
    ensures !r.CutOff? ==> at + ChunkSize(Word(comp, at)) <= |comp|
  {
    var header := Word(comp, at);
    var end := at + ChunkSize(header);
    if end > |comp| then CutOff
    else if Compressed(header) then
      var (ok, data) := DecodeChunk(comp[at + 2..end], room);
      if ok then Decoded(data) else Damaged(data)
    else if at + 2 + room > |comp| then CutOff
    else Decoded(comp[at + 2..at + 2 + room])
  }

  function Zeros(n: nat): (z: seq<byte>)
    ensures |z| == n && forall i :: 0 <= i < n ==> z[i] == 0
  {
    seq(n, _ => 0)
  }

  /** No chunk follows: the output is full, the input used up, or a zero header stands there. */
  predicate LastChunk(comp: seq<byte>, at: nat, size: nat, usize: nat) {
    size == usize || at + 2 > |comp| || Word(comp, at) == 0
  }

  function Chunks(comp: seq<byte>, at: nat, out: seq<byte>, usize: nat): (r: Outcome)
    requires at + 2 <= |comp| && |out| <= usize
    ensures out <= r.data && |r.data| <= usize
    decreases |comp| - at
  {
    match ReadChunk(comp, at, Min(CHUNK, usize - |out|))
    case CutOff => Outcome(false, at, out, [|out|])
    case Damaged(data) => Outcome(false, |out| + |data|, out + data, [|out|])
    case Decoded(data) =>
      var at', out' := at + ChunkSize(Word(comp, at)), out + data;
      var gap := CHUNK - |data|;
      if LastChunk(comp, at', |out'|, usize) || (gap > 0 && |out'| + gap >= usize)
      then Outcome(true, |out'|, out', [|out|])
      else
        var r := Chunks(comp, at', out' + Zeros(gap), usize);
        r.(starts := [|out|] + r.starts)
  }

  function DecodeBuffer(comp: seq<byte>, usize: nat): (r: Outcome)
    ensures |r.data| <= usize
  {
    if |comp| < 2 then Outcome(true, 0, [], []) else Chunks(comp, 0, [], usize)
  }

  /** However long the chunks before it turn out, chunk k begins at output offset 4096 k. */
  lemma {:induction false} ChunksBeginAligned(comp: seq<byte>, at: nat, out: seq<byte>, usize: nat, k: nat)
    requires at + 2 <= |comp| && |out| <= usize && |out| == CHUNK * k
    ensures forall i :: 0 <= i < |Chunks(comp, at, out, usize).starts| ==>
              Chunks(comp, at, out, usize).starts[i] == CHUNK * (k + i)
    decreases |comp| - at
  {
    hide ReadChunk, Compressed;
    match ReadChunk(comp, at, Min(CHUNK, usize - |out|))
    case CutOff =>
    case Damaged(_) =>
    case Decoded(data) =>
      var at', out', gap := at + ChunkSize(Word(comp, at)), out + data, CHUNK - |data|;
      if !LastChunk(comp, at', |out'|, usize) && !(gap > 0 && |out'| + gap >= usize) {
        ChunksBeginAligned(comp, at', out' + Zeros(gap), usize, k + 1);
      }
  }

  // ---------------------------------------------------------------- a buffer of valid chunks

  datatype Block = Packed(tokens: seq<Token>) | Raw(bytes: seq<byte>)

  /** A block as a compressor writes it: at most 4096 bytes of content and, packed, no more than
      4096 bytes of payload. */
  predicate ValidBlock(b: Block) {
    match b
    case Packed(tokens) =>
      tokens != [] && Valid(tokens, 0) && |Expand(tokens, [])| <= CHUNK && |Serialize(tokens, 0)| <= CHUNK
    case Raw(bytes) => |bytes| == CHUNK
  }

  function Content(b: Block): (s: seq<byte>)
    requires ValidBlock(b)
    ensures 1 <= |s| <= CHUNK
  {
    match b
    case Packed(tokens) =>
      var first := Apply(tokens[0], []);
      assert first <= Expand(tokens, []);
      Expand(tokens, [])
    case Raw(bytes) => bytes
  }

  function Payload(b: Block): (s: seq<byte>)
    requires ValidBlock(b)
    ensures 1 <= |s| <= CHUNK
  {
    match b
    case Packed(tokens) => Serialize(tokens, 0)
    case Raw(bytes) => bytes
  }

  /** Size less 3 in the low 12 bits, the signature 3 above, the compressed flag on top. */
  function Header(b: Block): (w: word)
    requires ValidBlock(b)
    ensures w != 0 && ChunkSize(w) == |Payload(b)| + 2 && (Compressed(w) <==> b.Packed?)
  {
    (|Payload(b)| - 1) + 3 * 4096 + if b.Packed? then 0x8000 else 0
  }

  function Chunk(b: Block): (s: seq<byte>)
    requires ValidBlock(b)
    ensures |s| == |Payload(b)| + 2 && Word(s, 0) == Header(b)
  {
    [Header(b) % 256, Header(b) / 256] + Payload(b)
  }

  predicate AllValid(blocks: seq<Block>) {
    forall b :: b in blocks ==> ValidBlock(b)
  }

  function Written(blocks: seq<Block>): (s: seq<byte>)
    requires AllValid(blocks)
    ensures blocks != [] ==> |s| >= 2 && Word(s, 0) == Header(blocks[0])
  {
    if blocks == [] then [] else Chunk(blocks[0]) + Written(blocks[1..])
  }

  /** Every block but the last is filled up with zeros to 4096 bytes. */
  function Joined(blocks: seq<Block>): (s: seq<byte>)
    requires AllValid(blocks)
    ensures blocks != [] ==> |s| >= 1
  {
    if blocks == [] then []
    else if |blocks| == 1 then Content(blocks[0])
    else Content(blocks[0]) + Zeros(CHUNK - |Content(blocks[0])|) + Joined(blocks[1..])
  }

  /** Nothing the decoder takes for a chunk. */
  predicate Ends(tail: seq<byte>) {
    |tail| < 2 || Word(tail, 0) == 0
  }

  lemma ChunkParts(comp: seq<byte>, at: nat, b: Block, end: nat)
    requires ValidBlock(b) && end == at + |Chunk(b)| <= |comp| && comp[at..end] == Chunk(b)
    ensures Word(comp, at) == Header(b) && comp[at + 2..end] == Payload(b)
  {
    hide Header, Payload, ValidBlock;
    assert comp[at] == comp[at..end][0] && comp[at + 1] == comp[at..end][1];
    assert comp[at + 2..end] == comp[at..end][2..];
  }

  lemma PayloadMeans(b: Block, room: nat)
    requires ValidBlock(b) && |Content(b)| <= room <= CHUNK
    ensures b.Packed? ==> DecodeChunk(Payload(b), room) == (true, Content(b))
    ensures b.Raw? ==> Payload(b) == Content(b) && |Payload(b)| == room
  {
    hide DecodeChunk, Serialize, Valid;
    if b.Packed? {
      DecodeOfSerialize(b.tokens, room);
    }
  }

  lemma ReadOfChunk(comp: seq<byte>, at: nat, b: Block, room: nat)
    requires ValidBlock(b) && |Content(b)| <= room <= CHUNK
    requires at + |Chunk(b)| <= |comp| && comp[at..at + |Chunk(b)|] == Chunk(b)
    ensures Word(comp, at) == Header(b) && ReadChunk(comp, at, room) == Decoded(Content(b))
  {
    hide Header, Payload, Content, ValidBlock, Compressed, ChunkSize, DecodeChunk, Chunk;
    ChunkParts(comp, at, b, at + |Chunk(b)|);
    PayloadMeans(b, room);
  }

  lemma SliceAfter(comp: seq<byte>, at: nat, first: seq<byte>, rest: seq<byte>)
    requires at <= |comp| && comp[at..] == first + rest
    ensures at + |first| <= |comp| && comp[at..at + |first|] == first && comp[at + |first|..] == rest
  {
    assert comp[at..][..|first|] == first && comp[at..][|first|..] == rest;
    assert comp[at..at + |first|] == comp[at..][..|first|];
    assert comp[at + |first|..] == comp[at..][|first|..];
  }

  lemma NextWord(comp: seq<byte>, at: nat, rest: seq<byte>)
    requires at <= |comp| && comp[at..] == rest
    ensures |rest| >= 2 ==> at + 2 <= |comp| && Word(comp, at) == Word(rest, 0)
    ensures |rest| < 2 ==> at + 2 > |comp|
  {
    if |rest| >= 2 {
      assert comp[at] == rest[0] && comp[at + 1] == rest[1];
    }
  }

  lemma LastDecoded(comp: seq<byte>, at: nat, out: seq<byte>, usize: nat, data: seq<byte>, next: nat)
    requires at + 2 <= |comp| && |out| <= usize && ReadChunk(comp, at, Min(CHUNK, usize - |out|)) == Decoded(data)
    requires next == at + ChunkSize(Word(comp, at)) && LastChunk(comp, next, |out + data|, usize)
    ensures Chunks(comp, at, out, usize) == Outcome(true, |out + data|, out + data, [|out|])
  {
    hide ReadChunk, LastChunk, ChunkSize;
  }

  lemma MoreDecoded(comp: seq<byte>, at: nat, out: seq<byte>, usize: nat, data: seq<byte>, next: nat, gap: nat)
    requires at + 2 <= |comp| && |out| <= usize && ReadChunk(comp, at, Min(CHUNK, usize - |out|)) == Decoded(data)
    requires next == at + ChunkSize(Word(comp, at)) && gap == CHUNK - |data|
    requires !LastChunk(comp, next, |out + data|, usize) && |out + data| + gap < usize
    ensures next + 2 <= |comp|
    ensures var (r, rest) := (Chunks(comp, at, out, usize), Chunks(comp, next, out + data + Zeros(gap), usize));
            r.ok == rest.ok && r.size == rest.size && r.data == rest.data
  {
    hide ReadChunk, ChunkSize, Zeros;
  }

  lemma NotLast(comp: seq<byte>, next: nat, size: nat, usize: nat)
    requires next + 2 <= |comp| && Word(comp, next) != 0 && size < usize
    ensures !LastChunk(comp, next, size, usize)
  {
  }

  lemma WrittenStep(blocks: seq<Block>, tail: seq<byte>)
    requires AllValid(blocks) && blocks != []
    ensures ValidBlock(blocks[0]) && AllValid(blocks[1..])
    ensures Written(blocks) + tail == Chunk(blocks[0]) + (Written(blocks[1..]) + tail)
    ensures |blocks| == 1 ==> Joined(blocks) == Content(blocks[0]) && Written(blocks[1..]) + tail == tail
    ensures |blocks| > 1 ==> |Joined(blocks)| > CHUNK
    ensures |blocks| > 1
            ==> Joined(blocks) == Content(blocks[0]) + Zeros(CHUNK - |Content(blocks[0])|) + Joined(blocks[1..])
  {
    hide Content, Chunk, Header, ValidBlock;
  }

  /** A row of written blocks decodes to their contents, each in its own 4096 bytes. */
  lemma {:induction false} ChunksOfWritten(comp: seq<byte>, at: nat, blocks: seq<Block>, tail: seq<byte>,
                                           out: seq<byte>, usize: nat)
    requires AllValid(blocks) && blocks != [] && Ends(tail)
    requires at + 2 <= |comp| && comp[at..] == Written(blocks) + tail
    requires |out| + |Joined(blocks)| <= usize
    ensures Chunks(comp, at, out, usize).ok
    ensures Chunks(comp, at, out, usize).data == out + Joined(blocks)
    ensures Chunks(comp, at, out, usize).size == |out| + |Joined(blocks)|
    decreases |blocks|
  {
    hide *;
    WrittenStep(blocks, tail);
    var b, more := blocks[0], blocks[1..];
    var content, chunk, rest := Content(b), Chunk(b), Written(more) + tail;
    SliceAfter(comp, at, chunk, rest);
    RoomForOne(blocks, |out|, usize);
    ReadOfChunk(comp, at, b, Min(CHUNK, usize - |out|));
    var next := at + |chunk|;
    NextWord(comp, next, rest);
    if more == [] {
      EndsHere(comp, next, tail, |out + content|, usize);
      LastDecoded(comp, at, out, usize, content, next);
    } else {
      FollowingHeader(more, tail);
      var gap: nat := CHUNK - |content|;
      NotLast(comp, next, |out + content|, usize);
      MoreDecoded(comp, at, out, usize, content, next, gap);
      var out' := out + content + Zeros(gap);
      ChunksOfWritten(comp, next, more, tail, out', usize);
      assert out' + Joined(more) == out + (content + Zeros(gap) + Joined(more));
    }
  }

  lemma RoomForOne(blocks: seq<Block>, size: nat, usize: nat)
    requires AllValid(blocks) && blocks != [] && size + |Joined(blocks)| <= usize
    ensures |Content(blocks[0])| <= Min(CHUNK, usize - size) <= CHUNK
  {
    hide Content, ValidBlock;
  }

  lemma EndsHere(comp: seq<byte>, at: nat, tail: seq<byte>, size: nat, usize: nat)
    requires at <= |comp| && comp[at..] == tail && Ends(tail)
    ensures LastChunk(comp, at, size, usize)
  {
    NextWord(comp, at, tail);
  }

  lemma FollowingHeader(blocks: seq<Block>, tail: seq<byte>)
    requires AllValid(blocks) && blocks != []
    ensures |Written(blocks) + tail| >= 2 && Word(Written(blocks) + tail, 0) == Header(blocks[0])
  {
  }

  lemma DecodeOfWritten(blocks: seq<Block>, tail: seq<byte>, usize: nat)
    requires AllValid(blocks) && blocks != [] && Ends(tail) && |Joined(blocks)| <= usize
    ensures var r := DecodeBuffer(Written(blocks) + tail, usize);
            r.ok && r.data == Joined(blocks) && r.size == |Joined(blocks)|
  {
    hide Chunks, Joined, Written, Ends;
    var comp := Written(blocks) + tail;
    assert comp[0..] == comp;
    ChunksOfWritten(comp, 0, blocks, tail, [], usize);
    assert [] + Joined(blocks) == Joined(blocks);
  }

  // ---------------------------------------------------------------- the buffer decoder

  ghost predicate SameEnd(r: Outcome, ok: bool, size: nat, data: seq<byte>) {
    r.ok == ok && r.size == size && r.data == data
  }

  /** What the loop knows at a chunk header: the chunks from here on end as the whole buffer does. */
  ghost predicate Row(comp: seq<byte>, at: nat, done: seq<byte>, usize: nat) {
    at + 2 <= |comp| && |done| <= usize
    && var r := Chunks(comp, at, done, usize); SameEnd(DecodeBuffer(comp, usize), r.ok, r.size, r.data)
  }

  lemma RowDamaged(comp: seq<byte>, at: nat, done: seq<byte>, usize: nat)
    requires Row(comp, at, done, usize)
    ensures var c := ReadChunk(comp, at, Min(CHUNK, usize - |done|));
            && (c.CutOff? ==> SameEnd(DecodeBuffer(comp, usize), false, at, done))
            && (c.Damaged? ==> SameEnd(DecodeBuffer(comp, usize), false, |done| + |c.data|, done + c.data))
  {
    hide ReadChunk, DecodeBuffer;
  }

  lemma RowEnds(comp: seq<byte>, at: nat, done: seq<byte>, usize: nat, data: seq<byte>, next: nat)
    requires Row(comp, at, done, usize) && ReadChunk(comp, at, Min(CHUNK, usize - |done|)) == Decoded(data)
    requires next == at + ChunkSize(Word(comp, at))
    requires LastChunk(comp, next, |done + data|, usize) || (|data| < CHUNK && |done| + CHUNK >= usize)
    ensures SameEnd(DecodeBuffer(comp, usize), true, |done + data|, done + data)
  {
    hide ReadChunk, DecodeBuffer, ChunkSize, LastChunk;
  }

  lemma RowGoesOn(comp: seq<byte>, at: nat, done: seq<byte>, usize: nat, data: seq<byte>, next: nat, gap: nat)
    requires Row(comp, at, done, usize) && ReadChunk(comp, at, Min(CHUNK, usize - |done|)) == Decoded(data)
    requires next == at + ChunkSize(Word(comp, at)) && gap == CHUNK - |data|
    requires !LastChunk(comp, next, |done + data|, usize) && (gap > 0 ==> |done + data| + gap < usize)
    ensures |data| <= CHUNK && Row(comp, next, done + data + Zeros(gap), usize)
  {
    hide ReadChunk, DecodeBuffer, ChunkSize, Zeros;
  }

  method WriteBytes(a: array<byte>, at: nat, data: seq<byte>)
    requires at + |data| <= a.Length
    modifies a
    ensures Holds(a, at, data) && KeptOutside(a, old(a[..]), at, |data|)
  {
    ghost var before := a[..];
    var i := 0;
    while i < |data|
      invariant i <= |data|
      invariant forall j :: 0 <= j < i ==> a[at + j] == data[j]
      invariant KeptOutside(a, before, at, i)
    {
      a[at + i] := data[i];
      i := i + 1;
    }
  }

  ghost predicate HeldBefore(mid: seq<byte>, first: seq<byte>, done: seq<byte>) {
    |mid| == |first| && |done| <= |mid|
    && (forall i :: 0 <= i < |done| ==> mid[i] == done[i])
    && forall i :: |done| <= i < |mid| ==> mid[i] == first[i]
  }

  lemma Snapshot(a: array<byte>, first: seq<byte>, done: seq<byte>)
    requires Holds(a, 0, done) && KeptOutside(a, first, 0, |done|)
    ensures HeldBefore(a[..], first, done)
  {
  }

  /** Append to what the buffer already holds. */
  lemma Appended(a: array<byte>, mid: seq<byte>, first: seq<byte>, done: seq<byte>, data: seq<byte>)
    requires HeldBefore(mid, first, done)
    requires Holds(a, |done|, data) && KeptOutside(a, mid, |done|, |data|)
    ensures Holds(a, 0, done + data) && KeptOutside(a, first, 0, |done + data|)
  {
  }

  /** The chunk under the header, written behind what is there. */
  method DecodeOne(out: array<byte>, comp: seq<byte>, at: nat, pos: nat, room: nat)
    returns (status: Status, size: nat, ghost data: seq<byte>)
    requires at + 2 <= |comp| && room <= CHUNK && pos + room <= out.Length
    modifies out
    ensures ReadChunk(comp, at, room)
            == match status case Success => Decoded(data) case Bad => Damaged(data) case Short => CutOff
    ensures size == |data| <= room && (status == Short ==> data == [])
    ensures Holds(out, pos, data) && KeptOutside(out, old(out[..]), pos, size)
  {
    hide DecodeChunk, Holds, KeptOutside;
    NothingKept(out, pos);
    NothingHeld(out, pos);
    var header := Word(comp, at);
    var end := at + ChunkSize(header);
    if end > |comp| {
      return Short, 0, [];
    }
    if Compressed(header) {
      var ok;
      ok, size, data := DecompressChunk(out, pos, room, comp[at + 2..end]);
      return if ok then Success else Bad, size, data;
    }
    if at + 2 + room > |comp| {
      return Short, 0, [];
    }
    data := comp[at + 2..at + 2 + room];
    WriteBytes(out, pos, comp[at + 2..at + 2 + room]);
    return Success, room, data;
  }

  datatype Status = Success | Bad | Short

  /** The buffer holds these bytes at its beginning and behind them what it held before. */
  ghost predicate Filled(out: array<byte>, before: seq<byte>, done: seq<byte>)
    reads out
  {
    Holds(out, 0, done) && KeptOutside(out, before, 0, |done|)
  }

  /** The next chunk, behind what is there. */
  method AppendChunk(out: array<byte>, comp: seq<byte>, at: nat, pos: nat, room: nat, ghost before: seq<byte>,
                     ghost done: seq<byte>)
    returns (status: Status, size: nat, ghost data: seq<byte>)
    requires at + 2 <= |comp| && room <= CHUNK && pos + room <= out.Length && pos == |done| && Filled(out, before, done)
    modifies out
    ensures ReadChunk(comp, at, room)
            == match status case Success => Decoded(data) case Bad => Damaged(data) case Short => CutOff
    ensures size == |data| <= room && (status == Short ==> data == [])
    ensures Filled(out, before, done + data)
  {
    hide Holds, KeptOutside, ReadChunk, HeldBefore;
    Snapshot(out, before, done);
    ghost var mid := out[..];
    status, size, data := DecodeOne(out, comp, at, pos, room);
    Appended(out, mid, before, done, data);
  }

  /** Zeros behind what is there. */
  method AppendZeros(out: array<byte>, pos: nat, gap: nat, ghost before: seq<byte>, ghost done: seq<byte>)
    requires pos + gap <= out.Length && pos == |done| && Filled(out, before, done)
    modifies out
    ensures Filled(out, before, done + Zeros(gap))
  {
    hide Holds, KeptOutside, HeldBefore, Zeros;
    Snapshot(out, before, done);
    ghost var mid := out[..];
    WriteBytes(out, pos, Zeros(gap));
    Appended(out, mid, before, done, Zeros(gap));
  }

  lemma NothingFilled(out: array<byte>)
    ensures Filled(out, out[..], [])
  {
  }

  lemma FirstRow(comp: seq<byte>, usize: nat)
    ensures |comp| >= 2 ==> Row(comp, 0, [], usize)
    ensures |comp| < 2 ==> SameEnd(DecodeBuffer(comp, usize), true, 0, [])
  {
    hide Chunks;
  }

  /** Decode a whole buffer of chunks in place. */
  method DecompressBuffer(out: array<byte>, usize: nat, comp: seq<byte>)
    returns (ok: bool, size: nat, ghost data: seq<byte>)
    requires usize <= out.Length
    modifies out
    ensures SameEnd(DecodeBuffer(comp, usize), ok, size, data)
    ensures Filled(out, old(out[..]), data)
  {
    ghost var before := out[..];
    NothingFilled(out);
    FirstRow(comp, usize);
    hide Row, SameEnd, Filled, ReadChunk, DecodeBuffer, ChunkSize, LastChunk, Zeros;
    if |comp| < 2 {
      return true, 0, [];
    }
    var at: nat, pos: nat := 0, 0;
    ghost var done: seq<byte>, k: nat := [], 0;
    while true
      invariant Row(comp, at, done, usize) && at + 2 <= |comp| && pos == |done| <= usize && pos == CHUNK * k
      invariant Filled(out, before, done)
      decreases |comp| - at
    {
      var room := Min(CHUNK, usize - pos);
      var status, n;
      status, n, data := AppendChunk(out, comp, at, pos, room, before, done);
      RowDamaged(comp, at, done, usize);
      if status == Short {
        assert done + data == done;
        return false, at, done;
      }
      if status == Bad {
        return false, pos + n, done + data;
      }
      var next := at + ChunkSize(Word(comp, at));
      ghost var longer := done + data;
      if pos + n == usize || next + 2 > |comp| || Word(comp, next) == 0 || (n < CHUNK && pos + CHUNK >= usize) {
        IsLast(comp, next, pos + n, usize);
        RowEnds(comp, at, done, usize, data, next);
        return true, pos + n, longer;
      }
      var gap: nat := CHUNK - n;
      NotLast(comp, next, pos + n, usize);
      RowGoesOn(comp, at, done, usize, data, next, gap);
      NextRow(comp, next, longer + Zeros(gap), usize);
      AppendZeros(out, pos + n, gap, before, longer);
      ChunkIsLonger(Word(comp, at));
      done := longer + Zeros(gap);
      at, pos, k := next, pos + n + gap, k + 1;
    }
  }

  lemma IsLast(comp: seq<byte>, next: nat, size: nat, usize: nat)
    ensures size == usize || next + 2 > |comp| || Word(comp, next) == 0 ==> LastChunk(comp, next, size, usize)
  {
  }

  lemma NextRow(comp: seq<byte>, at: nat, done: seq<byte>, usize: nat)
    requires Row(comp, at, done, usize)
    ensures at + 2 <= |comp| && |done| <= usize
  {
  }

  lemma ChunkIsLonger(header: word)
    ensures ChunkSize(header) >= 3
  {
  }
}
