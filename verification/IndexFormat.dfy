/** Directory entries as bytes (INDEX_ENTRY_ATTRIBUTE and FILENAME_ATTRIBUTE of src/ntfs.h), written down
    field after field: what IndexTree reads from a node is what was written there. */
module IndexFormat {
  import opened Arith
  import opened ByteData
  import opened IndexListing
  import opened IndexTree
  import opened UpdateSequence

  const TWO_48 := 0x1_0000_0000_0000

  // ---------------------------------------------------------------- numbers of two, four and eight bytes

  lemma WordBack(b: seq<byte>, off: nat, w: nat)
    requires w < 0x1_0000 && Lies(b, off, Bytes(w, 2))
    ensures At(b, off) == w
  {
    WordHeld(b, off, w);
    hide Bytes, Word;
  }

  lemma FirstWord(b: seq<byte>, off: nat, v: nat, n: nat)
    requires n >= 2 && Lies(b, off, Bytes(v, n))
    ensures At(b, off) == v % 0x1_0000 && Lies(b, off + 2, Bytes(v / 0x1_0000, n - 2))
  {
    hide Lies, Bytes, At;
    BytesSplit(v, n);
    LiesJoin(b, off, Bytes(v % 0x1_0000, 2), Bytes(v / 0x1_0000, n - 2));
    WordBack(b, off, v % 0x1_0000);
  }

  lemma FourWords(b: seq<byte>, off: nat, v: nat)
    requires Lies(b, off, Bytes(v, 8))
    ensures At(b, off) == v % 0x1_0000 && At(b, off + 2) == v / 0x1_0000 % 0x1_0000
    ensures At(b, off + 4) == v / 0x1_0000 / 0x1_0000 % 0x1_0000
    ensures At(b, off + 6) == v / 0x1_0000 / 0x1_0000 / 0x1_0000 % 0x1_0000
  {
    hide Lies, Bytes, At;
    FirstWord(b, off, v, 8);
    FirstWord(b, off + 2, v / 0x1_0000, 6);
    FirstWord(b, off + 4, v / 0x1_0000 / 0x1_0000, 4);
    FirstWord(b, off + 6, v / 0x1_0000 / 0x1_0000 / 0x1_0000, 2);
  }

  lemma ThreeJoin(v: nat)
    ensures v % 0x1_0000 + 0x1_0000 * (v / 0x1_0000 % 0x1_0000)
            + 0x1_0000_0000 * (v / 0x1_0000 / 0x1_0000 % 0x1_0000) == v % TWO_48
    ensures v < TWO_48 * 0x1_0000 ==> v / 0x1_0000 / 0x1_0000 / 0x1_0000 % 0x1_0000 == v / TWO_48
  {
    var v1 := v / 0x1_0000;
    var v2 := v1 / 0x1_0000;
    assert v2 / 0x1_0000 == v / TWO_48;
  }

  // ---------------------------------------------------------------- an entry

  /** What an entry is written from: the file's number and the sequence number of its record, whether
      and where it leads on, the name, and the bytes of the key and behind it that no walk looks at. */
  datatype Key = Key(file: nat, sequence: nat, node: bool, sub: nat, name: seq<word>, nameType: byte,
                     times: seq<byte>, slack: seq<byte>)

  function KeyLength(k: Key): nat {
    66 + 2 * |k.name|
  }

  function EntryLength(k: Key): nat {
    16 + KeyLength(k) + |k.slack| + (if k.node then 8 else 0)
  }

  predicate Writable(k: Key) {
    && k.file < TWO_48 && k.sequence < 0x1_0000 && k.sub < TWO_48 * 0x1_0000
    && |k.name| < 256 && |k.times| == 64 && ENTRY_SIZE <= EntryLength(k) < 0x1_0000
  }

  /** File reference, two lengths, flags; the same head is that of an end entry. */
  function Head(reference: nat, length: nat, keyLength: nat, flags: nat): (s: seq<byte>)
    ensures |s| == 16
  {
    Bytes(reference, 8) + Bytes(length, 2) + Bytes(keyLength, 2) + Bytes(flags, 2) + Bytes(0, 2)
  }

  function NameBytes(name: seq<word>): (s: seq<byte>)
    ensures |s| == 2 * |name|
  {
    if name == [] then [] else Bytes(name[0], 2) + NameBytes(name[1..])
  }

  function Pointer(node: bool, sub: nat): (s: seq<byte>)
    ensures |s| == if node then 8 else 0
  {
    if node then Bytes(sub, 8) else []
  }

  function EntryBytes(k: Key): (s: seq<byte>)
    requires Writable(k)
    ensures |s| == EntryLength(k)
  {
    Head(k.file + k.sequence * TWO_48, EntryLength(k), KeyLength(k), if k.node then 1 else 0)
    + k.times + [|k.name|, k.nameType] + NameBytes(k.name) + k.slack + Pointer(k.node, k.sub)
  }

  /** The entry that closes a node. */
  function EndBytes(node: bool, sub: nat): (s: seq<byte>)
    ensures |s| == if node then 24 else 16
  {
    Head(0, if node then 24 else 16, 0, if node then 3 else 2) + Pointer(node, sub)
  }

  lemma HeadBack(b: seq<byte>, off: nat, reference: nat, length: nat, keyLength: nat, flags: nat)
    requires Lies(b, off, Head(reference, length, keyLength, flags)) && length < 0x1_0000 && flags < 4
    ensures At(b, off + 8) == length && At(b, off + 12) == flags
    ensures At(b, off) + 0x1_0000 * At(b, off + 2) + 0x1_0000_0000 * At(b, off + 4) == reference % TWO_48
  {
    hide Lies, Bytes, At;
    var r, l, kl, f := Bytes(reference, 8), Bytes(length, 2), Bytes(keyLength, 2), Bytes(flags, 2);
    LiesJoin(b, off, r + l + kl + f, Bytes(0, 2));
    LiesJoin(b, off, r + l + kl, f);
    LiesJoin(b, off, r + l, kl);
    LiesJoin(b, off, r, l);
    FourWords(b, off, reference);
    ThreeJoin(reference);
    WordBack(b, off + 8, length);
    WordBack(b, off + 12, flags);
  }

  lemma PointerBack(b: seq<byte>, off: nat, sub: nat)
    requires Lies(b, off, Bytes(sub, 8)) && sub < TWO_48 * 0x1_0000
    ensures At(b, off) + 0x1_0000 * At(b, off + 2) + 0x1_0000_0000 * At(b, off + 4)
            + TWO_48 * At(b, off + 6) == sub
  {
    hide Lies, Bytes, At;
    FourWords(b, off, sub);
    ThreeJoin(sub);
  }

  lemma {:induction false} NameBack(b: seq<byte>, off: nat, name: seq<word>, i: nat)
    requires Lies(b, off, NameBytes(name)) && i < |name|
    ensures At(b, off + 2 * i) == name[i]
    decreases i
  {
    hide Lies, Bytes, At;
    LiesJoin(b, off, Bytes(name[0], 2), NameBytes(name[1..]));
    if i == 0 {
      WordBack(b, off, name[0]);
    } else {
      NameBack(b, off + 2, name[1..], i - 1);
    }
  }

  lemma LiesThree(b: seq<byte>, off: nat, x: seq<byte>, y: seq<byte>, z: seq<byte>)
    requires Lies(b, off, x + y + z)
    ensures Lies(b, off, x) && Lies(b, off + |x|, y) && Lies(b, off + |x| + |y|, z)
  {
    hide Lies;
    LiesJoin(b, off, x + y, z);
    LiesJoin(b, off, x, y);
  }

  /** An entry in three parts: head and times, the name with its count, and what is behind it. */
  function Front(k: Key): (s: seq<byte>)
    requires Writable(k)
    ensures |s| == 80
  {
    Head(k.file + k.sequence * TWO_48, EntryLength(k), KeyLength(k), if k.node then 1 else 0) + k.times
  }

  lemma EntrySpelled(k: Key)
    requires Writable(k)
    ensures EntryBytes(k)
            == Front(k) + ([|k.name|, k.nameType] + NameBytes(k.name)) + (k.slack + Pointer(k.node, k.sub))
  {
    hide Head, NameBytes, Pointer;
  }

  /** The parts of an entry, each where it lies. */
  lemma EntryParts(b: seq<byte>, off: nat, k: Key)
    requires Writable(k) && Lies(b, off, EntryBytes(k))
    ensures Lies(b, off, Head(k.file + k.sequence * TWO_48, EntryLength(k), KeyLength(k), if k.node then 1 else 0))
    ensures Lies(b, off + 80, [|k.name|, k.nameType]) && Lies(b, off + 82, NameBytes(k.name))
    ensures k.node ==> EntryLength(k) >= 8 && Lies(b, off + EntryLength(k) - 8, Bytes(k.sub, 8))
  {
    hide Lies, Bytes, Head, NameBytes, EntryBytes, Front;
    EntrySpelled(k);
    var count, name := [|k.name|, k.nameType], NameBytes(k.name);
    LiesThree(b, off, Front(k), count + name, k.slack + Pointer(k.node, k.sub));
    FrontIs(b, off, k);
    LiesJoin(b, off + 80, count, name);
    LiesJoin(b, off + 82 + |name|, k.slack, Pointer(k.node, k.sub));
  }

  lemma FrontIs(b: seq<byte>, off: nat, k: Key)
    requires Writable(k) && Lies(b, off, Front(k))
    ensures Lies(b, off, Head(k.file + k.sequence * TWO_48, EntryLength(k), KeyLength(k), if k.node then 1 else 0))
  {
    hide Lies, Head;
    LiesJoin(b, off, Head(k.file + k.sequence * TWO_48, EntryLength(k), KeyLength(k), if k.node then 1 else 0),
             k.times);
  }

  /** What is read of an entry is what was written. */
  predicate Reads(e: Entry, k: Key) {
    && e.file == k.file && e.length == EntryLength(k) && e.node == k.node && !e.end
    && e.name == k.name && e.nameType == k.nameType && (k.node ==> e.sub == k.sub)
  }

  /** What an entry's fields are read from. */
  lemma EntryIs(b: seq<byte>, off: nat)
    ensures var e := EntryAt(b, off);
            && e.file == At(b, off) + 0x1_0000 * At(b, off + 2) + 0x1_0000_0000 * At(b, off + 4)
            && e.length == At(b, off + 8) && e.node == (At(b, off + 12) % 2 == 1)
            && e.end == (At(b, off + 12) / 2 % 2 == 1)
            && |e.name| == At(b, off + 80) % 256 && e.nameType == At(b, off + 80) / 256
            && (forall i :: 0 <= i < |e.name| ==> e.name[i] == At(b, off + 82 + 2 * i))
  {
    hide At;
  }

  lemma SubIs(b: seq<byte>, off: nat, p: nat)
    requires At(b, off + 8) >= 8 && p == off + At(b, off + 8) - 8
    ensures EntryAt(b, off).sub == At(b, p) + 0x1_0000 * At(b, p + 2) + 0x1_0000_0000 * At(b, p + 4)
                                   + TWO_48 * At(b, p + 6)
  {
    hide At;
  }

  lemma ReferenceBack(k: Key)
    requires Writable(k)
    ensures (k.file + k.sequence * TWO_48) % TWO_48 == k.file && EntryLength(k) < 0x1_0000
    ensures |k.name| < 256 && k.sub < TWO_48 * 0x1_0000
  {
  }

  lemma ReadsIs(e: Entry, k: Key)
    requires e.file == k.file && e.length == EntryLength(k) && e.node == k.node && !e.end
    requires e.name == k.name && e.nameType == k.nameType && (k.node ==> e.sub == k.sub)
    ensures Reads(e, k)
  {
  }

  /** Reading inverts writing: for every file number below 2^48, sequence number, name, kind of name and
      64-bit pointer the entry that lies there is the entry that was written. */
  lemma EntryBack(b: seq<byte>, off: nat, k: Key)
    requires Writable(k) && Lies(b, off, EntryBytes(k))
    ensures Reads(EntryAt(b, off), k)
  {
    hide *;
    EntryParts(b, off, k);
    ReferenceBack(k);
    HeadBack(b, off, k.file + k.sequence * TWO_48, EntryLength(k), KeyLength(k), if k.node then 1 else 0);
    CountBack(b, off + 80, |k.name|, k.nameType);
    EntryIs(b, off);
    if k.node {
      PointerBack(b, off + EntryLength(k) - 8, k.sub);
      SubIs(b, off, off + EntryLength(k) - 8);
    }
    var e := EntryAt(b, off);
    forall i | 0 <= i < |k.name| ensures e.name[i] == k.name[i] {
      NameBack(b, off + 82, k.name, i);
    }
    assert e.name == k.name;
    ReadsIs(e, k);
  }

  lemma CountBack(b: seq<byte>, off: nat, count: nat, kind: byte)
    requires count < 256 && Lies(b, off, [count, kind])
    ensures At(b, off) % 256 == count && At(b, off) / 256 == kind
  {
    LiesAt(b, off, [count, kind], 0);
    LiesAt(b, off, [count, kind], 1);
  }

  lemma EndSpelled(node: bool, sub: nat)
    ensures EndBytes(node, sub)
            == Head(0, if node then 24 else 16, 0, if node then 3 else 2) + (if node then Bytes(sub, 8) else [])
  {
    hide Head, Bytes;
  }

  lemma EndBack(b: seq<byte>, off: nat, node: bool, sub: nat)
    requires Lies(b, off, EndBytes(node, sub)) && sub < TWO_48 * 0x1_0000
    ensures var e := EntryAt(b, off);
            e.end && e.node == node && e.length == (if node then 24 else 16) && (node ==> e.sub == sub)
  {
    hide Lies, Bytes, Head, At, EndBytes, EntryAt;
    var head := Head(0, if node then 24 else 16, 0, if node then 3 else 2);
    EndSpelled(node, sub);
    LiesJoin(b, off, head, if node then Bytes(sub, 8) else []);
    HeadBack(b, off, 0, if node then 24 else 16, 0, if node then 3 else 2);
    EntryIs(b, off);
    if node {
      PointerBack(b, off + 16, sub);
      SubIs(b, off, off + 16);
    }
  }

  // ---------------------------------------------------------------- a node of entries

  /** Entries that can be written and lead nowhere. */
  predicate Plain(keys: seq<Key>) {
    forall k :: k in keys ==> Writable(k) && !k.node
  }

  function KeysBytes(keys: seq<Key>): seq<byte>
    requires Plain(keys)
  {
    if keys == [] then [] else EntryBytes(keys[0]) + KeysBytes(keys[1..])
  }

  /** The entries of a node that has nothing below it, and the one that closes it. */
  function LeafBytes(keys: seq<Key>): seq<byte>
    requires Plain(keys)
  {
    KeysBytes(keys) + EndBytes(false, 0)
  }

  /** Entry by entry, what is read is what was written. */
  ghost predicate Match(s: seq<Entry>, keys: seq<Key>) {
    |s| == |keys| && forall i :: 0 <= i < |s| ==> Reads(s[i], keys[i])
  }

  lemma MatchStep(e: Entry, s: seq<Entry>, keys: seq<Key>)
    requires keys != [] && Reads(e, keys[0]) && Match(s, keys[1..])
    ensures Match([e] + s, keys)
  {
    hide Reads;
  }

  lemma LeafParts(b: seq<byte>, off: nat, keys: seq<Key>)
    requires Plain(keys) && Lies(b, off, LeafBytes(keys))
    ensures keys == [] ==> Lies(b, off, EndBytes(false, 0)) && |LeafBytes(keys)| == 16
    ensures keys != [] ==> Plain(keys[1..]) && Lies(b, off, EntryBytes(keys[0]))
                           && Lies(b, off + EntryLength(keys[0]), LeafBytes(keys[1..]))
                           && |LeafBytes(keys)| == EntryLength(keys[0]) + |LeafBytes(keys[1..])|
  {
    hide Lies, EntryBytes, EndBytes;
    if keys == [] {
      assert LeafBytes(keys) == EndBytes(false, 0);
    } else {
      assert LeafBytes(keys) == EntryBytes(keys[0]) + LeafBytes(keys[1..]);
      LiesJoin(b, off, EntryBytes(keys[0]), LeafBytes(keys[1..]));
    }
  }

  /** One entry of a node that leads nowhere, and the rest. */
  lemma EntryStep(d: Directory, n: Node, off: nat, depth: nat, k: Key)
    requires Shape(d) && depth <= MAX_DEPTH && Writable(k) && !k.node && Reads(EntryAt(n.bytes, off), k)
    requires off + EntryLength(k) < n.last && WellFormed(d, n, off + EntryLength(k), depth)
    ensures WellFormed(d, n, off, depth)
    ensures InOrder(d, n, off, depth) == [EntryAt(n.bytes, off)] + InOrder(d, n, off + EntryLength(k), depth)
  {
    hide EntryAt, Load, InUse, Shape;
  }

  lemma EndStep(d: Directory, n: Node, off: nat, depth: nat)
    requires Shape(d) && depth <= MAX_DEPTH && off + 16 == n.last
    requires var e := EntryAt(n.bytes, off); e.end && !e.node && e.length == 16
    ensures WellFormed(d, n, off, depth) && InOrder(d, n, off, depth) == []
  {
    hide EntryAt, Load, InUse, Shape;
  }

  /** A node with nothing below it is laid out as it should be and holds what was written. */
  lemma {:induction false} LeafBack(d: Directory, n: Node, off: nat, keys: seq<Key>, depth: nat)
    requires Shape(d) && depth <= MAX_DEPTH && Plain(keys)
    requires Lies(n.bytes, off, LeafBytes(keys)) && n.last == off + |LeafBytes(keys)|
    ensures WellFormed(d, n, off, depth) && Match(InOrder(d, n, off, depth), keys)
    decreases |keys|
  {
    hide Lies, EntryBytes, EndBytes, EntryAt, LeafBytes, WellFormed, InOrder, Writable, Shape, Reads, EntryLength;
    LeafParts(n.bytes, off, keys);
    if keys == [] {
      EndBack(n.bytes, off, false, 0);
      EndStep(d, n, off, depth);
    } else {
      var k := keys[0];
      EntryBack(n.bytes, off, k);
      LeafBack(d, n, off + EntryLength(k), keys[1..], depth);
      LeafNotEmpty(keys[1..]);
      EntryStep(d, n, off, depth, k);
      MatchStep(EntryAt(n.bytes, off), InOrder(d, n, off + EntryLength(k), depth), keys);
    }
  }

  lemma LeafNotEmpty(keys: seq<Key>)
    requires Plain(keys)
    ensures |LeafBytes(keys)| >= 16
  {
  }

  // ---------------------------------------------------------------- a root without blocks

  /** Where the entries begin and end, counted from the header, how much room there is, and flags. */
  function HeaderBytes(first: nat, total: nat, space: nat, flags: byte): (s: seq<byte>)
    ensures |s| == 16
  {
    Bytes(first, 4) + Bytes(total, 4) + Bytes(space, 4) + [flags, 0, 0, 0]
  }

  /** An $INDEX_ROOT value: four fields that no walk looks at, the header, and the entries. */
  function RootBytes(fields: seq<byte>, space: nat, flags: byte, keys: seq<Key>): seq<byte>
    requires Plain(keys)
  {
    fields + HeaderBytes(16, 16 + |LeafBytes(keys)|, space, flags) + LeafBytes(keys)
  }

  lemma HeaderBack(b: seq<byte>, off: nat, first: nat, total: nat, space: nat, flags: byte)
    requires Lies(b, off, HeaderBytes(first, total, space, flags))
    requires first < 0x1_0000_0000 && total < 0x1_0000_0000 && space < 0x1_0000_0000
    ensures off + 16 <= |b| && DWord(b, off) == first && DWord(b, off + 4) == total && DWord(b, off + 8) == space
    ensures b[off + 12] == flags
  {
    LiesAt(b, off, HeaderBytes(first, total, space, flags), 12);
    hide Lies, Bytes, DWord;
    var f, t, a, x := Bytes(first, 4), Bytes(total, 4), Bytes(space, 4), [flags, 0, 0, 0];
    LiesJoin(b, off, f + t + a, x);
    LiesThree(b, off, f, t, a);
    DWordHeld(b, off, first);
    DWordHeld(b, off + 4, total);
    DWordHeld(b, off + 8, space);
  }

  lemma LiesIn(b: seq<byte>, behind: seq<byte>, off: nat, s: seq<byte>)
    requires Lies(b, off, s)
    ensures Lies(b + behind, off, s)
  {
    assert (b + behind)[off..off + |s|] == b[off..off + |s|];
  }

  lemma RootBack(d: Directory, fields: seq<byte>, space: nat, flags: byte, keys: seq<Key>)
    requires Plain(keys) && |fields| == 16 && space < 0x1_0000_0000
    requires d.root == RootBytes(fields, space, flags, keys)
    requires |d.root| <= d.g.bytesPerIndexRecord && |d.root| < 0x1_0000_0000
    ensures RootNode(d) == Some(Node(d.root + d.behindRoot, |d.root|, 32, |d.root|, true))
    ensures Lies(d.root + d.behindRoot, 32, LeafBytes(keys)) && |d.root| == 32 + |LeafBytes(keys)|
  {
    hide Bytes, DWord, LeafBytes;
    LeafNotEmpty(keys);
    var h := HeaderBytes(16, 16 + |LeafBytes(keys)|, space, flags);
    assert Lies(d.root, 0, fields + h + LeafBytes(keys)) by {
      assert d.root[0..|d.root|] == d.root;
    }
    hide HeaderBytes, Lies;
    LiesThree(d.root, 0, fields, h, LeafBytes(keys));
    HeaderBack(d.root, 16, 16, 16 + |LeafBytes(keys)|, space, flags);
    LiesIn(d.root, d.behindRoot, 32, LeafBytes(keys));
  }

  /** A root is accepted exactly if its entries begin behind the header and end behind their beginning and
      inside the value. */
  lemma RootAcceptedIff(d: Directory, first: nat, total: nat, space: nat, flags: byte)
    requires |d.root| <= d.g.bytesPerIndexRecord && |d.root| < 0x1_0000_0000
    requires Lies(d.root, 16, HeaderBytes(first, total, space, flags))
    requires first < 0x1_0000_0000 && total < 0x1_0000_0000 && space < 0x1_0000_0000
    ensures |d.root| >= 32
    ensures RootNode(d) == if 16 <= first <= total <= |d.root| - 16
                           then Some(Node(d.root + d.behindRoot, |d.root|, 16 + first, 16 + total, true)) else None
  {
    hide *;
    HeaderBack(d.root, 16, first, total, space, flags);
    HeaderIs(d.root, 16, |d.root| - 16, first, total);
    RootIs(d, first, total);
  }

  lemma RootIs(d: Directory, first: nat, total: nat)
    requires 32 <= |d.root| <= d.g.bytesPerIndexRecord && DWord(d.root, 16) == first && DWord(d.root, 20) == total
    ensures HeaderOk(d.root, 16, |d.root| - 16) ==> first <= total <= |d.root| - 16
    ensures RootNode(d) == if HeaderOk(d.root, 16, |d.root| - 16)
                           then Some(Node(d.root + d.behindRoot, |d.root|, 16 + first, 16 + total, true)) else None
  {
    hide DWord;
  }

  lemma HeaderIs(b: seq<byte>, at: nat, avail: nat, first: nat, total: nat)
    requires at + avail <= |b| && avail >= 16 && DWord(b, at) == first && DWord(b, at + 4) == total
    ensures HeaderOk(b, at, avail) <==> 16 <= first <= total <= avail
  {
    hide DWord;
  }

  /** The names agree character by character under the volume's table. */
  predicate SameFolded(d: Directory, x: seq<word>, y: seq<word>)
    requires Shape(d)
  {
    |x| == |y| && forall i :: 0 <= i < |x| ==> d.upcase[x[i]] == d.upcase[y[i]]
  }

  /** Up to character k they agree, and there the first has the lesser capital or has ended. */
  predicate Precedes(d: Directory, x: seq<word>, y: seq<word>, k: nat)
    requires Shape(d)
  {
    && k <= |x| && k <= |y| && (forall i :: 0 <= i < k ==> d.upcase[x[i]] == d.upcase[y[i]])
    && if k < |x| && k < |y| then d.upcase[x[k]] < d.upcase[y[k]] else k == |x| < |y|
  }

  lemma FoldIs(d: Directory, x: seq<word>, y: seq<word>)
    requires Shape(d)
    ensures Fold(d, x) == Fold(d, y) <==> SameFolded(d, x, y)
  {
    if Fold(d, x) == Fold(d, y) {
      forall i | 0 <= i < |x| ensures d.upcase[x[i]] == d.upcase[y[i]] {
        assert Fold(d, x)[i] == Fold(d, y)[i];
      }
    }
  }

  lemma PrecedesIs(d: Directory, x: seq<word>, y: seq<word>, k: nat)
    requires Shape(d) && k <= |x| && k <= |y|
    ensures Precedes(d, x, y, k) <==> PartsAt(Fold(d, x), Fold(d, y), k)
  {
    FoldIs(d, x[..k], y[..k]);
    assert Fold(d, x)[..k] == Fold(d, x[..k]) && Fold(d, y)[..k] == Fold(d, y[..k]);
  }

  lemma OrderMeans(d: Directory, x: seq<word>, y: seq<word>, k: nat)
    requires Shape(d) && k <= |x| && Precedes(d, x, y, k)
    ensures Order(d, x, y) < 0
  {
    PrecedesIs(d, x, y, k);
    hide Fold, Collate, PartsAt;
    CollateMeans(Fold(d, x), Fold(d, y));
  }

  /** Each name stands before all that follow. */
  ghost predicate Sorted(d: Directory, keys: seq<Key>)
    requires Shape(d)
  {
    forall i, j :: 0 <= i < j < |keys| ==>
      exists k :: 0 <= k <= |keys[i].name| && Precedes(d, keys[i].name, keys[j].name, k)
  }

  lemma SortedMatch(d: Directory, s: seq<Entry>, keys: seq<Key>)
    requires Shape(d) && Sorted(d, keys) && Match(s, keys)
    ensures Ascending(d, s)
  {
    hide Order, EntryLength, Precedes;
    forall i, j | 0 <= i < j < |s| ensures Order(d, s[i].name, s[j].name) < 0 {
      assert Reads(s[i], keys[i]) && Reads(s[j], keys[j]);
      var k :| 0 <= k <= |keys[i].name| && Precedes(d, keys[i].name, keys[j].name, k);
      OrderMeans(d, keys[i].name, keys[j].name, k);
    }
  }

  /** A key of that name, up to case folding, that belongs to a user. */
  ghost predicate Names(d: Directory, k: Key, name: seq<word>)
    requires Shape(d)
  {
    k.file >= 16 && SameFolded(d, k.name, name)
  }

  /** A root written from keys in order is a sound index; a lookup finds the file number of the key of
      that name, and nothing where there is none. */
  lemma WrittenIsFound(d: Directory, fields: seq<byte>, space: nat, flags: byte, keys: seq<Key>, name: seq<word>)
    requires Shape(d) && Plain(keys) && Sorted(d, keys) && |fields| == 16 && space < 0x1_0000_0000
    requires d.root == RootBytes(fields, space, flags, keys)
    requires |d.root| <= d.g.bytesPerIndexRecord && |d.root| < 0x1_0000_0000
    ensures Sound(d) && Match(Entries(d), keys)
    ensures forall k :: k in keys && Names(d, k, name) ==> Find(d, name) == k.file
    ensures (forall k :: k in keys ==> !Names(d, k, name)) ==> Find(d, name) == NOT_FOUND
  {
    assert 0 <= MAX_DEPTH;
    hide *;
    RootBack(d, fields, space, flags, keys);
    var n := RootNode(d).value;
    LeafBack(d, n, 32, keys, 0);
    EntriesAre(d, n);
    SortedMatch(d, Entries(d), keys);
    SoundIs(d, n);
    LookupIsMembership(d, name);
    MatchedNames(d, Entries(d), keys, name);
  }

  lemma EntriesAre(d: Directory, n: Node)
    requires Shape(d) && RootNode(d) == Some(n)
    ensures Entries(d) == InOrder(d, n, n.first, 0)
  {
    hide RootNode, InOrder, Shape;
  }

  lemma SoundIs(d: Directory, n: Node)
    requires Shape(d) && RootNode(d) == Some(n) && WellFormed(d, n, n.first, 0) && Ascending(d, Entries(d))
    ensures Sound(d)
  {
    hide RootNode, WellFormed, Ascending, Shape, Entries;
  }

  lemma MatchedNames(d: Directory, s: seq<Entry>, keys: seq<Key>, name: seq<word>)
    requires Shape(d) && Match(s, keys)
    ensures forall k :: k in keys && Names(d, k, name) ==>
              exists e :: e in s && IsReal(e) && SameName(d, e, name) && e.file == k.file
    ensures forall e :: e in s && IsReal(e) && SameName(d, e, name) ==> exists k :: k in keys && Names(d, k, name)
  {
    hide Fold, Shape, EntryLength, SameFolded;
    forall k: Key ensures Fold(d, k.name) == Fold(d, name) <==> SameFolded(d, k.name, name) {
      FoldIs(d, k.name, name);
    }
    forall k | k in keys && Names(d, k, name)
      ensures exists e :: e in s && IsReal(e) && SameName(d, e, name) && e.file == k.file
    {
      var i :| 0 <= i < |keys| && keys[i] == k;
      assert Reads(s[i], k) && s[i] in s;
    }
    forall e | e in s && IsReal(e) && SameName(d, e, name) ensures exists k :: k in keys && Names(d, k, name) {
      var i :| 0 <= i < |s| && s[i] == e;
      assert Reads(e, keys[i]) && keys[i] in keys;
    }
  }

  /** The files a listing shows: a user's, and under no 8.3 alias. */
  function Shown(keys: seq<Key>): seq<nat> {
    if keys == [] then []
    else (if keys[0].file >= 16 && keys[0].nameType != 2 then [keys[0].file] else []) + Shown(keys[1..])
  }

  lemma {:induction false} ShownAre(s: seq<Entry>, keys: seq<Key>)
    requires Match(s, keys)
    ensures Files(s) == Shown(keys)
  {
    hide EntryLength;
    if keys != [] {
      assert Reads(s[0], keys[0]);
      MatchTail(s, keys);
      ShownAre(s[1..], keys[1..]);
    }
  }

  lemma MatchTail(s: seq<Entry>, keys: seq<Key>)
    requires Match(s, keys) && keys != []
    ensures Match(s[1..], keys[1..])
  {
    hide Reads;
  }

  /** What is collected from such a root are the files to be shown, in the order they were written, as far
      as there is room. */
  lemma WrittenIsListed(d: Directory, fields: seq<byte>, space: nat, flags: byte, keys: seq<Key>, max: nat)
    requires Shape(d) && Plain(keys) && |fields| == 16 && space < 0x1_0000_0000
    requires d.root == RootBytes(fields, space, flags, keys)
    requires |d.root| <= d.g.bytesPerIndexRecord && |d.root| < 0x1_0000_0000
    ensures CollectDir(d, max) == if |Shown(keys)| <= max then Shown(keys) else Shown(keys)[..max]
  {
    assert 0 <= MAX_DEPTH;
    hide *;
    RootBack(d, fields, space, flags, keys);
    var n := RootNode(d).value;
    LeafBack(d, n, 32, keys, 0);
    EntriesAre(d, n);
    CollectDirIsInOrder(d, max);
    ShownAre(Entries(d), keys);
    CapIs(Shown(keys), max);
  }

  lemma CapIs(s: seq<nat>, max: nat)
    ensures Cap(s, max) == if |s| <= max then s else s[..max]
  {
  }

  // ---------------------------------------------------------------- a block

  /** Block number k of an allocation begins k blocks into it; its VCN counts clusters. */
  predicate BlockAt(d: Directory, k: nat, vcn: nat, raw: seq<byte>)
    requires Shape(d)
  {
    var size, per := d.g.bytesPerIndexRecord, d.g.bytesPerIndexRecord / d.bytesPerCluster;
    && d.alloc.Allocation? && vcn == k * per && size == per * d.bytesPerCluster
    && 0 <= k * size && k * size + size <= |d.alloc.stream| < 0x1_0000_0000_0000_0000
    && raw == d.alloc.stream[k * size..k * size + size]
  }

  lemma BlockPlace(d: Directory, k: nat, vcn: nat, raw: seq<byte>)
    requires Shape(d) && BlockAt(d, k, vcn, raw)
    ensures var pos := vcn * d.bytesPerCluster % 0x1_0000_0000_0000_0000;
            && pos == k * d.g.bytesPerIndexRecord && pos + d.g.bytesPerIndexRecord <= |d.alloc.stream|
            && raw == d.alloc.stream[pos..pos + d.g.bytesPerIndexRecord]
  {
    var size, per := d.g.bytesPerIndexRecord, d.g.bytesPerIndexRecord / d.bytesPerCluster;
    assert (k * per) * d.bytesPerCluster == k * (per * d.bytesPerCluster);
    assert k * size < 0x1_0000_0000_0000_0000;
    DivisionIsUnique(k * size, 0x1_0000_0000_0000_0000, 0, k * size);
  }

  lemma LoadOf(d: Directory, vcn: nat, pos: nat, raw: seq<byte>, b: seq<byte>)
    requires Shape(d) && d.alloc.Allocation? && pos == vcn * d.bytesPerCluster % 0x1_0000_0000_0000_0000
    requires pos + d.g.bytesPerIndexRecord <= |d.alloc.stream|
    requires raw == d.alloc.stream[pos..pos + d.g.bytesPerIndexRecord]
    requires DWord(raw, 0) == INDX_TYPE && Fix(d.g, raw) == (true, b) && |b| >= 40
    ensures Load(d, vcn)
            == if BlockOk(b)
               then Some(Node(b + d.behindBlock(vcn), |b|, 24 + DWord(b, 24), 24 + DWord(b, 28), b[36] % 2 == 1))
               else None
  {
    hide Fix, BlockOk, DWord;
  }

  lemma TypeSpells(raw: seq<byte>)
    requires Lies(raw, 0, [0x49, 0x4E, 0x44, 0x58])
    ensures |raw| >= 4 && DWord(raw, 0) == INDX_TYPE
  {
    var s := [0x49, 0x4E, 0x44, 0x58];
    LiesAt(raw, 0, s, 0);
    LiesAt(raw, 0, s, 1);
    LiesAt(raw, 0, s, 2);
    LiesAt(raw, 0, s, 3);
  }

  lemma BlockIsOk(b: seq<byte>, first: nat, total: nat, space: nat, flags: byte)
    requires Lies(b, 24, HeaderBytes(first, total, space, flags)) && |b| < 0x1_0000_0000
    requires first < 0x1_0000_0000 && total < 0x1_0000_0000 && space < 0x1_0000_0000
    ensures |b| >= 40 && DWord(b, 24) == first && DWord(b, 28) == total && b[36] == flags
    ensures BlockOk(b) <==> 16 <= first <= total <= space <= |b| - 24
  {
    HeaderBack(b, 24, first, total, space, flags);
    hide Lies, HeaderBytes, DWord;
  }

  /** Fixing up the block succeeds and gives that. */
  predicate FixesTo(d: Directory, raw: seq<byte>, b: seq<byte>) {
    Fits(d.g, raw) && Fix(d.g, raw) == (true, b) && |b| < 0x1_0000_0000
  }

  /** A block of a written allocation is read as the node that was written there, at the VCN that counts
      its clusters and with its entries where its header says, exactly if that is in order: the entries
      begin behind the header, end behind their beginning, inside the room there is, and that inside the
      block. */
  lemma BlockBack(d: Directory, k: nat, vcn: nat, raw: seq<byte>, b: seq<byte>, first: nat, total: nat, space: nat,
                  flags: byte)
    requires Shape(d) && BlockAt(d, k, vcn, raw) && Lies(raw, 0, [0x49, 0x4E, 0x44, 0x58])
    requires FixesTo(d, raw, b)
    requires Lies(b, 24, HeaderBytes(first, total, space, flags))
    requires first < 0x1_0000_0000 && total < 0x1_0000_0000 && space < 0x1_0000_0000
    ensures Load(d, vcn) == if 16 <= first <= total <= space <= |b| - 24
                            then Some(Node(b + d.behindBlock(vcn), |b|, 24 + first, 24 + total, flags % 2 == 1))
                            else None
  {
    hide Lies, HeaderBytes, DWord, Fix, Load, BlockOk, Fits;
    BlockPlace(d, k, vcn, raw);
    TypeSpells(raw);
    BlockIsOk(b, first, total, space, flags);
    LoadOf(d, vcn, k * d.g.bytesPerIndexRecord, raw, b);
  }

  /** Bit j of a byte. */
  predicate Bit(v: nat, j: nat)
    requires j < 8
  {
    v / [1, 2, 4, 8, 16, 32, 64, 128][j] % 2 == 1
  }

  lemma {:induction false} BitIs(v: nat, j: nat)
    requires j < 8
    ensures BitSet(v, j) <==> Bit(v, j)
    decreases j
  {
    if j > 0 {
      BitIs(v / 2, j - 1);
      HalfBit(v, j);
    }
  }

  lemma HalfBit(v: nat, j: nat)
    requires 0 < j < 8
    ensures Bit(v, j) <==> Bit(v / 2, j - 1)
  {
    if j == 1 {} else if j == 2 {} else if j == 3 {} else if j == 4 {} else if j == 5 {} else if j == 6 {} else {}
  }

  lemma InUseOf(d: Directory, vcn: nat, per: nat, k: nat)
    requires Shape(d) && per == d.g.bytesPerIndexRecord / d.bytesPerCluster
    requires per * d.bytesPerCluster == d.g.bytesPerIndexRecord
    requires d.bitmap.Bitmap? && k / 8 < |d.bitmap.bits| && d.alloc.Allocation? && vcn / per == k
    requires k < d.alloc.dataLength / d.g.bytesPerIndexRecord < 0x1_0000_0000
    ensures InUse(d, vcn) <==> BitSet(d.bitmap.bits[k / 8], k % 8)
  {
    hide BitSet;
  }

  lemma BlockNumber(k: nat, per: nat)
    requires per >= 1
    ensures k * per / per == k
  {
    DivisionIsUnique(k * per, per, k, 0);
  }

  /** A block whose bit the directory's bitmap holds is in use exactly if that bit is set. */
  lemma InUseBack(d: Directory, k: nat, vcn: nat, raw: seq<byte>)
    requires Shape(d) && BlockAt(d, k, vcn, raw) && d.bitmap.Bitmap? && k / 8 < |d.bitmap.bits|
    requires k < d.alloc.dataLength / d.g.bytesPerIndexRecord < 0x1_0000_0000
    ensures InUse(d, vcn) <==> Bit(d.bitmap.bits[k / 8], k % 8)
  {
    hide BitSet, Bit, InUse;
    BitIs(d.bitmap.bits[k / 8], k % 8);
    var per := d.g.bytesPerIndexRecord / d.bytesPerCluster;
    BlockNumber(k, per);
    InUseOf(d, vcn, per, k);
  }

  // ---------------------------------------------------------------- a large file number

  /** A directory with one file, number 70000, whose record is in use for the second time. */
  function Far(name: seq<word>): Key {
    Key(70000, 2, false, 0, name, 1, seq(64, _ => 0), seq(4, _ => 0))
  }

  lemma NextByte(v: nat, n: nat)
    requires n > 0
    ensures Bytes(v, n) == [v % 256] + Bytes(v / 256, n - 1)
  {
  }

  lemma FarReference()
    ensures Bytes(70000 + 2 * TWO_48, 8) == [0x70, 0x11, 0x01, 0, 0, 0, 0x02, 0]
  {
    hide Bytes;
    NextByte(0x2_0000_0001_1170, 8);
    NextByte(0x2_0000_0001_11, 7);
    NextByte(0x2_0000_0001, 6);
    NextByte(0x2_0000_00, 5);
    NextByte(0x2_0000, 4);
    NextByte(0x2_00, 3);
    NextByte(2, 2);
    NextByte(0, 1);
  }

  lemma FarSize(c: word)
    ensures Plain([Far([c])]) && |LeafBytes([Far([c])])| == 104 && Writable(Far([c]))
    ensures Head(70000 + 2 * TWO_48, 88, 68, 0)
            == Bytes(70000 + 2 * TWO_48, 8) + (Bytes(88, 2) + Bytes(68, 2) + Bytes(0, 2) + Bytes(0, 2))
  {
    var keys := [Far([c])];
    assert KeysBytes(keys) == EntryBytes(keys[0]) + KeysBytes([]);
    hide Bytes;
  }

  lemma FarRoot(d: Directory, fields: seq<byte>, c: word)
    requires |fields| == 16 && Plain([Far([c])]) && d.root == RootBytes(fields, 136, 0, [Far([c])])
    ensures |d.root| == 136
  {
    FarSize(c);
    hide LeafBytes, Plain, HeaderBytes, Far;
  }

  lemma FarHead(b: seq<byte>, off: nat, c: word)
    requires Plain([Far([c])]) && Lies(b, off, LeafBytes([Far([c])]))
    ensures Lies(b, off, Bytes(70000 + 2 * TWO_48, 8))
  {
    FarSize(c);
    var k := Far([c]);
    assert EntryLength(k) == 88 && KeyLength(k) == 68 && k.file + k.sequence * TWO_48 == 70000 + 2 * TWO_48 && !k.node;
    assert [k] != [] && [k][0] == k;
    hide *;
    LeafParts(b, off, [k]);
    EntryParts(b, off, k);
    LiesJoin(b, off, Bytes(70000 + 2 * TWO_48, 8), Bytes(88, 2) + Bytes(68, 2) + Bytes(0, 2) + Bytes(0, 2));
  }

  lemma FarBytes(d: Directory, fields: seq<byte>, c: word)
    requires |fields| == 16 && Plain([Far([c])])
    requires d.root == RootBytes(fields, 136, 0, [Far([c])]) && d.g.bytesPerIndexRecord >= 136
    ensures |d.root| == 136 && d.root[32..40] == [0x70, 0x11, 0x01, 0, 0, 0, 0x02, 0]
  {
    hide *;
    FarRoot(d, fields, c);
    RootBack(d, fields, 136, 0, [Far([c])]);
    FarHead(d.root + d.behindRoot, 32, c);
    FarReference();
    EightBytes(d.root, d.behindRoot, 32, Bytes(70000 + 2 * TWO_48, 8));
  }

  lemma EightBytes(b: seq<byte>, behind: seq<byte>, off: nat, s: seq<byte>)
    requires Lies(b + behind, off, s) && |s| == 8 && off + 8 <= |b|
    ensures b[off..off + 8] == s
  {
    assert (b + behind)[off..off + 8] == b[off..off + 8];
  }

  lemma FarNames(d: Directory, c: word)
    requires Shape(d)
    ensures Plain([Far([c])]) && Sorted(d, [Far([c])]) && Names(d, Far([c]), [c]) && Far([c]) in [Far([c])]
    ensures Far([c]).file == 70000
  {
    hide Fold, Shape;
  }

  /** A lookup on such a directory finds 70000. */
  lemma FarIsFound(d: Directory, fields: seq<byte>, c: word)
    requires Shape(d) && |fields| == 16 && d.g.bytesPerIndexRecord >= 136 && Plain([Far([c])])
    requires d.root == RootBytes(fields, 136, 0, [Far([c])])
    ensures |d.root| == 136 && d.root[32..40] == [0x70, 0x11, 0x01, 0, 0, 0, 0x02, 0]
    ensures Sound(d) && Find(d, [c]) == 70000
  {
    FarBytes(d, fields, c);
    hide *;
    FarNames(d, c);
    WrittenIsFound(d, fields, 136, 0, [Far([c])], [c]);
  }
}
