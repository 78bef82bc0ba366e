/** Searching file contents: the one-buffer matcher of the viewer (ec/Viewer.c) and the chunked
    scan built on it (ec/Search.c), which must not miss a match that straddles two reads. */
module ContentSearch {
  import opened ByteData
  import opened Letters

  const SEARCH_CHUNK := 65536

  function Upper(ch: byte): byte {
    if 'a' as int <= ch <= 'z' as int then ch - ('a' as int - 'A' as int) else ch
  }

  /** The needle stands at offset i, ASCII case ignored. */
  predicate MatchAt(data: seq<byte>, needle: seq<byte>, i: nat) {
    i + |needle| <= |data| && forall j :: 0 <= j < |needle| ==> Upper(data[i + j]) == Upper(needle[j])
  }

  /** Two bytes match exactly if they are the same byte or the two cases of one letter. */
  lemma MatchesLetter(x: byte, y: byte)
    ensures Upper(x) == Upper(y) <==> x == y || Cases(x, y) || Cases(y, x)
  {
    CasesAre(x, y);
    CasesAre(y, x);
    hide Cases;
  }

  /** What a match is, byte by byte. */
  lemma MatchMeans(data: seq<byte>, needle: seq<byte>, i: nat)
    ensures MatchAt(data, needle, i) <==>
            && i + |needle| <= |data|
            && forall j :: 0 <= j < |needle| ==>
                 data[i + j] == needle[j] || Cases(data[i + j], needle[j]) || Cases(needle[j], data[i + j])
  {
    hide Upper, Cases;
    if i + |needle| <= |data| {
      forall j | 0 <= j < |needle|
        ensures Upper(data[i + j]) == Upper(needle[j]) <==>
                data[i + j] == needle[j] || Cases(data[i + j], needle[j]) || Cases(needle[j], data[i + j])
      {
        MatchesLetter(data[i + j], needle[j]);
      }
    }
  }

  predicate Occurs(data: seq<byte>, needle: seq<byte>) {
    exists i :: 0 <= i < |data| && MatchAt(data, needle, i)
  }

  /** No match lies within the first `end` bytes. */
  predicate NoneWithin(data: seq<byte>, needle: seq<byte>, end: nat) {
    forall i :: 0 <= i && i + |needle| <= end ==> !MatchAt(data, needle, i)
  }

  /** No match starts at or after `from`. */
  predicate NoneFrom(data: seq<byte>, needle: seq<byte>, from: nat) {
    forall i :: from <= i <= |data| ==> !MatchAt(data, needle, i)
  }

  /** The viewer's matcher: the first match at or after `from`. */
  method ViewerFindBytes(data: seq<byte>, needle: seq<byte>, from: nat) returns (found: bool, at: nat)
    ensures found ==> from <= at && MatchAt(data, needle, at)
    ensures found ==> forall i :: from <= i < at ==> !MatchAt(data, needle, i)
    ensures needle != [] ==> (found <==> !NoneFrom(data, needle, from))
    ensures needle == [] ==> !found
  {
    at := 0;
    if |needle| == 0 || |needle| > |data| {
      return false, 0;
    }
    var i := from;
    while i + |needle| <= |data|
      invariant from <= i
      invariant forall k :: from <= k < i ==> !MatchAt(data, needle, k)
    {
      var j := 0;
      while j < |needle| && Upper(data[i + j]) == Upper(needle[j])
        invariant 0 <= j <= |needle|
        invariant forall k :: 0 <= k < j ==> Upper(data[i + k]) == Upper(needle[k])
      {
        j := j + 1;
      }
      if j == |needle| {
        return true, i;
      }
      i := i + 1;
    }
    return false, 0;
  }

  /** An open file.  `plan` says how many bytes each read is willing to deliver; any plan is
      allowed, so a proof about every plan covers every pattern of short reads. */
  class OpenFile {
    const content: seq<byte>
    var pos: nat
    var plan: seq<nat>

    ghost predicate Valid()
      reads this
    {
      pos <= |content|
    }

    constructor (content: seq<byte>, plan: seq<nat>)
      ensures Valid() && pos == 0 && this.content == content
    {
      this.content := content;
      this.pos := 0;
      this.plan := plan;
    }

    method Read(buffer: array<byte>, start: nat, room: nat) returns (n: nat)
      requires Valid() && start + room <= buffer.Length
      modifies this, buffer
      ensures Valid() && n <= room && pos == old(pos) + n
      ensures n == 0 <==> room == 0 || old(pos) == |content|
      ensures buffer[start..start + n] == content[old(pos)..pos]
      ensures forall k :: 0 <= k < buffer.Length && !(start <= k < start + n) ==> buffer[k] == old(buffer[k])
    {
      var left := |content| - pos;
      n := if room < left then room else left;
      if plan != [] {
        if 1 <= plan[0] < n {
          n := plan[0];
        }
        plan := plan[1..];
      }
      forall k | 0 <= k < n {
        buffer[start + k] := content[pos + k];
      }
      ghost var got, wanted := buffer[start..start + n], content[pos..pos + n];
      forall k | 0 <= k < n ensures got[k] == wanted[k] {
        assert buffer[start + k] == content[pos + k];
      }
      assert got == wanted;
      pos := pos + n;
    }
  }

  /** A match inside a window of the content is a match of the content, and the other way round. */
  lemma MatchInWindow(content: seq<byte>, needle: seq<byte>, base: nat, end: nat, i: nat)
    requires base <= end <= |content| && base <= i && i + |needle| <= end
    ensures MatchAt(content[base..end], needle, i - base) <==> MatchAt(content, needle, i)
  {
    if MatchAt(content[base..end], needle, i - base) {
      forall j | 0 <= j < |needle| ensures Upper(content[i + j]) == Upper(needle[j]) {
        assert Upper(content[base..end][i - base + j]) == Upper(needle[j]);
      }
    }
  }

  /** No match in the new window and none before it: none in everything read so far, since the
      window starts early enough to hold whatever ends in it. */
  lemma NoMatchYet(content: seq<byte>, needle: seq<byte>, before: nat, base: nat, end: nat)
    requires needle != [] && base <= before <= end <= |content|
    requires base == 0 || base + |needle| - 1 <= before
    requires NoneWithin(content, needle, before)
    requires NoneFrom(content[base..end], needle, 0)
    ensures NoneWithin(content, needle, end)
  {
    forall i | 0 <= i && i + |needle| <= end ensures !MatchAt(content, needle, i) {
      if i + |needle| > before {
        MatchInWindow(content, needle, base, end, i);
      }
    }
  }

  /** The first n bytes of the buffer are the n bytes of the content at `base`. */
  ghost predicate Window(buffer: array<byte>, n: nat, content: seq<byte>, base: nat)
    reads buffer
  {
    && n <= buffer.Length && base + n <= |content|
    && forall k :: 0 <= k < n ==> buffer[k] == content[base + k]
  }

  lemma WindowIsSlice(buffer: array<byte>, n: nat, content: seq<byte>, base: nat)
    requires Window(buffer, n, content, base)
    ensures buffer[..n] == content[base..base + n]
  {
  }

  /** Move the last `carry` of the `filled` bytes to the front; the two stretches may overlap. */
  method CarryTail(buffer: array<byte>, filled: nat, carry: nat, ghost content: seq<byte>, ghost base: nat)
    requires carry <= filled && Window(buffer, filled, content, base)
    modifies buffer
    ensures Window(buffer, carry, content, base + filled - carry)
  {
    forall k | 0 <= k < carry {
      buffer[k] := buffer[filled - carry + k];
    }
  }

  /** Top up the buffer behind the carried bytes: afterwards it is a window of the content that
      ends at the file position and starts where the carried bytes started. */
  method Refill(file: OpenFile, buffer: array<byte>, carry: nat, ghost base: nat) returns (filled: nat)
    requires file.Valid() && carry < buffer.Length && base + carry == file.pos
    requires Window(buffer, carry, file.content, base)
    modifies file, buffer
    ensures file.Valid() && carry <= filled <= buffer.Length && file.pos == base + filled
    ensures filled == carry <==> base + carry == |file.content|
    ensures Window(buffer, filled, file.content, base)
  {
    var readSize := file.Read(buffer, carry, buffer.Length - carry);
    filled := carry + readSize;
    forall k | carry <= k < filled ensures buffer[k] == file.content[base + k] {
      assert buffer[k] == buffer[carry..carry + readSize][k - carry];
    }
  }

  lemma FoundInWindow(content: seq<byte>, needle: seq<byte>, base: nat, end: nat, at: nat)
    requires base <= end <= |content| && needle != [] && MatchAt(content[base..end], needle, at)
    ensures Occurs(content, needle)
  {
    MatchInWindow(content, needle, base, end, base + at);
    assert MatchAt(content, needle, base + at);
  }

  lemma NothingFound(content: seq<byte>, needle: seq<byte>)
    requires NoneWithin(content, needle, |content|)
    ensures !Occurs(content, needle)
  {
  }

  /** The chunked scan finds the needle exactly when the whole content holds it, whatever the
      file's reads deliver. */
  method SearchFileContains(file: OpenFile, needle: seq<byte>, buffer: array<byte>) returns (found: bool)
    requires file.Valid() && file.pos == 0 && needle != []
    requires buffer.Length == SEARCH_CHUNK + |needle| - 1
    modifies file, buffer
    ensures found <==> Occurs(file.content, needle)
  {
    var carry: nat := 0;
    ghost var base: nat := 0;
    while true
      invariant file.Valid() && file.pos == base + carry
      invariant carry <= |needle| - 1 && (base == 0 || carry == |needle| - 1)
      invariant Window(buffer, carry, file.content, base)
      invariant NoneWithin(file.content, needle, base + carry)
      decreases |file.content| - file.pos
    {
      var filled := Refill(file, buffer, carry, base);
      if filled == carry {
        NothingFound(file.content, needle);
        return false;
      }
      WindowIsSlice(buffer, filled, file.content, base);
      var hit;
      found, hit := ViewerFindBytes(buffer[..filled], needle, 0);
      if found {
        FoundInWindow(file.content, needle, base, base + filled, hit);
        return true;
      }
      NoMatchYet(file.content, needle, base + carry, base, base + filled);

      carry := |needle| - 1;
      if carry > filled {
        carry := filled;
      }
      CarryTail(buffer, filled, carry, file.content, base);
      base := base + filled - carry;
    }
  }

  /** The same answer as the viewer's matcher on the whole content held in one buffer. */
  method SearchAgreesWithViewer(file: OpenFile, needle: seq<byte>, buffer: array<byte>)
    returns (chunked: bool, direct: bool)
    requires file.Valid() && file.pos == 0 && needle != []
    requires buffer.Length == SEARCH_CHUNK + |needle| - 1
    modifies file, buffer
    ensures chunked == direct
  {
    var at;
    direct, at := ViewerFindBytes(file.content, needle, 0);
    assert direct ==> MatchAt(file.content, needle, at);
    chunked := SearchFileContains(file, needle, buffer);
  }
}
