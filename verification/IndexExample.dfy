/** Sound indexes exist: a root with one file, and a root with two blocks below it, whatever lies in
    memory behind them. */
module IndexExample {
  import opened ByteData
  import opened IndexTree
  import opened IndexListing
  import opened IndexBounds
  import opened IndexOpen
  import opened UpdateSequence

  function Table(): (t: seq<word>)
    ensures |t| == 0x1_0000
  {
    seq(0x1_0000, i requires 0 <= i < 0x1_0000 => i as word)
  }

  lemma OrderOf(d: Directory, x: word, y: word)
    requires Shape(d) && d.upcase == Table()
    ensures Order(d, [x], [y]) == if x == y then 0 else x as int - y as int
  {
    assert Fold(d, [x]) == [x] && Fold(d, [y]) == [y];
    CollateOne(x, y);
  }

  lemma CollateOne(x: word, y: word)
    ensures Collate([x], [y]) == if x == y then 0 else x as int - y as int
  {
    assert [x][1..] == [] && [y][1..] == [];
  }

  lemma AtCells(b: seq<byte>, behind: seq<byte>, off: nat)
    requires off + 2 <= |b|
    ensures At(b + behind, off) == Word(b, off)
  {
  }

  /** An entry from the words it is made of. */
  lemma EntryParts(b: seq<byte>, off: nat)
    ensures var e := EntryAt(b, off);
            && e.length == At(b, off + 8) && e.node == (At(b, off + 12) % 2 == 1)
            && e.end == (At(b, off + 12) / 2 % 2 == 1)
            && (At(b, off + 2) == 0 && At(b, off + 4) == 0 ==> e.file == At(b, off))
            && (At(b, off + 80) == 257 ==> e.name == [At(b, off + NAME_AT)])
  {
    hide At;
  }

  lemma EntryPointer(b: seq<byte>, off: nat)
    ensures var e := EntryAt(b, off);
            e.length >= 8
            && At(b, off + e.length - 6) == 0 && At(b, off + e.length - 4) == 0 && At(b, off + e.length - 2) == 0
            ==> e.sub == At(b, off + e.length - 8)
  {
    hide At;
  }

  // ---------------------------------------------------------------- a node with one file and nothing below

  /** The entry of one file with a name of one character, and the end entry behind it. */
  predicate Leaf(n: Node, off: nat, file: nat, letter: word) {
    var e, end := EntryAt(n.bytes, off), EntryAt(n.bytes, off + 88);
    && off + 104 == n.last
    && e.length == 88 && !e.node && !e.end && e.name == [letter] && e.file == file >= FIRST_USER_FILE
    && end.length == 16 && !end.node && end.end
  }

  lemma LeafLayout(d: Directory, n: Node, off: nat, file: nat, letter: word, depth: nat)
    requires Shape(d) && depth <= MAX_DEPTH && Leaf(n, off, file, letter)
    ensures WellFormed(d, n, off, depth) && InOrder(d, n, off, depth) == [EntryAt(n.bytes, off)]
  {
    hide EntryAt, Load, InUse, Shape;
    assert WellFormed(d, n, off + 88, depth);
    assert InOrder(d, n, off + 88, depth) == [];
  }

  lemma LeafLookup(d: Directory, n: Node, off: nat, file: nat, letter: word, key: word, depth: nat)
    requires Shape(d) && d.upcase == Table() && depth <= MAX_DEPTH && Leaf(n, off, file, letter)
    ensures Search(d, n, off, [key], depth) == if key == letter then file else NOT_FOUND
  {
    OrderOf(d, key, letter);
    hide EntryAt, Load, InUse, Order, Shape;
    assert Search(d, n, off + 88, [key], depth) == NOT_FOUND;
  }

  // ---------------------------------------------------------------- one file in the root

  /** The bytes of an $INDEX_ROOT value with one file, number 20, named "A", and the end entry. */
  function Cell(i: nat): byte {
    if i == 16 then 16
    else if i == 20 then 120
    else if i == 32 then 20
    else if i == 40 then 88
    else if i == 112 then 1
    else if i == 113 then 1
    else if i == 114 then 0x41
    else if i == 128 then 16
    else if i == 132 then 2
    else 0
  }

  function OneFile(behindRoot: seq<byte>, behindBlock: nat -> seq<byte>): Directory {
    Directory(seq(136, i requires i >= 0 => Cell(i)), NoAllocation, NoBitmap, Geometry(512, 1024, 4096), 4096,
              Table(), behindRoot, behindBlock)
  }

  lemma RootOf(d: Directory)
    requires d == OneFile(d.behindRoot, d.behindBlock)
    ensures Shape(d) && RootNode(d) == Some(Node(d.root + d.behindRoot, 136, 32, 136, true))
  {
    hide Table;
  }

  lemma OneFileWord(d: Directory, off: nat)
    requires d == OneFile(d.behindRoot, d.behindBlock) && off + 2 <= 136
    ensures At(d.root + d.behindRoot, off) == Cell(off) + 256 * Cell(off + 1)
  {
    hide Cell, Table;
  }

  lemma OneFileWords(d: Directory, b: seq<byte>)
    requires d == OneFile(d.behindRoot, d.behindBlock) && b == d.root + d.behindRoot
    ensures At(b, 32) == 20 && At(b, 34) == 0 && At(b, 36) == 0 && At(b, 40) == 88 && At(b, 44) == 0
    ensures At(b, 112) == 257 && At(b, 114) == 0x41 && At(b, 128) == 16 && At(b, 132) == 2
  {
    hide OneFile, At;
    OneFileWord(d, 32);
    OneFileWord(d, 34);
    OneFileWord(d, 36);
    OneFileWord(d, 40);
    OneFileWord(d, 44);
    OneFileWord(d, 112);
    OneFileWord(d, 114);
    OneFileWord(d, 128);
    OneFileWord(d, 132);
  }

  lemma OneFileEntries(d: Directory, n: Node)
    requires d == OneFile(d.behindRoot, d.behindBlock) && n == Node(d.root + d.behindRoot, 136, 32, 136, true)
    ensures Leaf(n, 32, 20, 0x41)
  {
    hide At, EntryAt, OneFile, Cell;
    OneFileWords(d, n.bytes);
    EntryParts(n.bytes, 32);
    EntryParts(n.bytes, 120);
  }

  /** Well-formed indexes exist, and lookup finds what is there and nothing else. */
  lemma OneFileIsSound(behindRoot: seq<byte>, behindBlock: nat -> seq<byte>)
    ensures var d := OneFile(behindRoot, behindBlock);
            Sound(d) && Find(d, [0x41]) == 20 && Find(d, [0x42]) == NOT_FOUND
  {
    var d := OneFile(behindRoot, behindBlock);
    var n := Node(d.root + behindRoot, 136, 32, 136, true);
    RootOf(d);
    OneFileEntries(d, n);
    hide EntryAt, RootNode, Order, Shape, InOrder, WellFormed, Search, Leaf, Table;
    LeafLayout(d, n, 32, 20, 0x41, 0);
    LeafLookup(d, n, 32, 20, 0x41, 0x41, 0);
    LeafLookup(d, n, 32, 20, 0x41, 0x42, 0);
  }

  // ---------------------------------------------------------------- two blocks below the root

  /** An $INDEX_ROOT value with file 20 named "M", pointing to block 0, and an end entry pointing to 1. */
  function RootCell(i: nat): byte {
    if i == 16 then 16
    else if i == 20 then 136
    else if i == 32 then 20
    else if i == 40 then 96
    else if i == 44 then 1
    else if i == 112 then 1
    else if i == 113 then 1
    else if i == 114 then 0x4D
    else if i == 136 then 24
    else if i == 140 then 3
    else if i == 144 then 1
    else 0
  }

  /** An index block on a disk with sectors of 4096 bytes: one file, update sequence number 7. */
  function BlockCell(file: byte, letter: byte, i: nat): byte {
    if i == 0 then 0x49
    else if i == 1 then 0x4E
    else if i == 2 then 0x44
    else if i == 3 then 0x58
    else if i == 4 then 40
    else if i == 6 then 2
    else if i == 24 then 40
    else if i == 28 then 144
    else if i == 32 then 144
    else if i == 40 then 7
    else if i == 64 then file
    else if i == 72 then 88
    else if i == 144 then 1
    else if i == 145 then 1
    else if i == 146 then letter
    else if i == 160 then 16
    else if i == 164 then 2
    else if i == 4094 then 7
    else 0
  }

  function Block(file: byte, letter: byte): (b: seq<byte>)
    ensures |b| == 4096
  {
    seq(4096, i requires i >= 0 => BlockCell(file, letter, i))
  }

  /** The root above, block 0 with file 21 named "A" and block 1 with file 22 named "Z", both in use. */
  function TwoLevels(behindRoot: seq<byte>, behindBlock: nat -> seq<byte>): Directory {
    Directory(seq(152, i requires i >= 0 => RootCell(i)), Allocation(Block(21, 0x41) + Block(22, 0x5A), 8192),
              Bitmap([3]), Geometry(4096, 1024, 4096), 4096, Table(), behindRoot, behindBlock)
  }

  lemma RootOfTwo(d: Directory)
    requires d == TwoLevels(d.behindRoot, d.behindBlock)
    ensures Shape(d) && RootNode(d) == Some(Node(d.root + d.behindRoot, 152, 32, 152, true))
  {
    hide Table, Block;
  }

  lemma RootWord(d: Directory, off: nat)
    requires d == TwoLevels(d.behindRoot, d.behindBlock) && off + 2 <= 152
    ensures At(d.root + d.behindRoot, off) == RootCell(off) + 256 * RootCell(off + 1)
  {
    hide RootCell, Table, Block;
  }

  lemma RootFirst(d: Directory, b: seq<byte>)
    requires d == TwoLevels(d.behindRoot, d.behindBlock) && b == d.root + d.behindRoot
    ensures At(b, 32) == 20 && At(b, 34) == 0 && At(b, 36) == 0 && At(b, 40) == 96 && At(b, 44) == 1
    ensures At(b, 112) == 257 && At(b, 114) == 0x4D
    ensures At(b, 120) == 0 && At(b, 122) == 0 && At(b, 124) == 0 && At(b, 126) == 0
  {
    hide TwoLevels, At;
    RootWord(d, 32);
    RootWord(d, 34);
    RootWord(d, 36);
    RootWord(d, 40);
    RootWord(d, 44);
    RootWord(d, 112);
    RootWord(d, 114);
    RootWord(d, 120);
    RootWord(d, 122);
    RootWord(d, 124);
    RootWord(d, 126);
  }

  lemma RootLast(d: Directory, b: seq<byte>)
    requires d == TwoLevels(d.behindRoot, d.behindBlock) && b == d.root + d.behindRoot
    ensures At(b, 136) == 24 && At(b, 140) == 3
    ensures At(b, 144) == 1 && At(b, 146) == 0 && At(b, 148) == 0 && At(b, 150) == 0
  {
    hide TwoLevels, At;
    RootWord(d, 136);
    RootWord(d, 140);
    RootWord(d, 144);
    RootWord(d, 146);
    RootWord(d, 148);
    RootWord(d, 150);
  }

  lemma RootEntries(d: Directory, b: seq<byte>)
    requires d == TwoLevels(d.behindRoot, d.behindBlock) && b == d.root + d.behindRoot
    ensures var e := EntryAt(b, 32);
            e.length == 96 && e.node && !e.end && e.name == [0x4D] && e.file == 20 && e.sub == 0
    ensures var e := EntryAt(b, 128); e.length == 24 && e.node && e.end && e.sub == 1
  {
    hide At, EntryAt, RootCell, TwoLevels;
    RootFirst(d, b);
    RootLast(d, b);
    EntryParts(b, 32);
    EntryPointer(b, 32);
    EntryParts(b, 128);
    EntryPointer(b, 128);
  }

  lemma BlockIsFixed(g: Geometry, file: byte, letter: byte)
    requires g == Geometry(4096, 1024, 4096)
    ensures var b := Block(file, letter);
            Fits(g, b) && DWord(b, 0) == INDX_TYPE && Fix(g, b) == (true, PutWord(b, 4094, 0))
  {
    var b := Block(file, letter);
    assert DWord(b, 0) == INDX_TYPE && Word(b, 4) == 40 && Word(b, 6) == 2;
    assert Word(b, 40) == 7 && Word(b, 42) == 0 && Word(b, 4094) == 7 && End(4096, 1) == 4094;
    assert FixFrom(PutWord(b, 4094, 0), 4096, 40, 2, 7, 2) == (true, PutWord(b, 4094, 0));
  }

  lemma FixedWord(file: byte, letter: byte, off: nat)
    requires off + 2 <= 4094
    ensures Word(PutWord(Block(file, letter), 4094, 0), off)
            == BlockCell(file, letter, off) + 256 * BlockCell(file, letter, off + 1)
  {
    hide BlockCell;
  }

  lemma FixedDWord(file: byte, letter: byte, off: nat)
    requires off + 4 <= 4094 && BlockCell(file, letter, off + 1) == 0
    requires BlockCell(file, letter, off + 2) == 0 && BlockCell(file, letter, off + 3) == 0
    ensures DWord(PutWord(Block(file, letter), 4094, 0), off) == BlockCell(file, letter, off)
  {
    hide BlockCell, PutWord, Block;
    FixedWord(file, letter, off);
    FixedWord(file, letter, off + 2);
  }

  lemma FixedFlags(file: byte, letter: byte)
    ensures PutWord(Block(file, letter), 4094, 0)[36] == 0
  {
  }

  lemma FixedHeader(file: byte, letter: byte)
    ensures var b := PutWord(Block(file, letter), 4094, 0);
            BlockOk(b) && DWord(b, 24) == 40 && DWord(b, 28) == 144 && b[36] == 0
  {
    FixedFlags(file, letter);
    hide PutWord, Block, DWord;
    FixedDWord(file, letter, 24);
    FixedDWord(file, letter, 28);
    FixedDWord(file, letter, 32);
  }

  lemma BlockWord(file: byte, letter: byte, behind: seq<byte>, off: nat)
    requires off + 2 <= 4094
    ensures At(PutWord(Block(file, letter), 4094, 0) + behind, off)
            == BlockCell(file, letter, off) + 256 * BlockCell(file, letter, off + 1)
  {
    hide BlockCell, At, Block, PutWord, Word;
    FixedWord(file, letter, off);
    AtCells(PutWord(Block(file, letter), 4094, 0), behind, off);
  }

  lemma BlockWords(b: seq<byte>, file: byte, letter: byte, behind: seq<byte>)
    requires b == PutWord(Block(file, letter), 4094, 0) + behind
    ensures At(b, 64) == file && At(b, 66) == 0 && At(b, 68) == 0 && At(b, 72) == 88 && At(b, 76) == 0
    ensures At(b, 144) == 257 && At(b, 146) == letter && At(b, 160) == 16 && At(b, 164) == 2
  {
    hide At, Block, PutWord;
    BlockWord(file, letter, behind, 64);
    BlockWord(file, letter, behind, 66);
    BlockWord(file, letter, behind, 68);
    BlockWord(file, letter, behind, 72);
    BlockWord(file, letter, behind, 76);
    BlockWord(file, letter, behind, 144);
    BlockWord(file, letter, behind, 146);
    BlockWord(file, letter, behind, 160);
    BlockWord(file, letter, behind, 164);
  }

  lemma BlockEntries(n: Node, file: byte, letter: byte, behind: seq<byte>)
    requires n == Node(PutWord(Block(file, letter), 4094, 0) + behind, 4096, 64, 168, false) && file >= FIRST_USER_FILE
    ensures Leaf(n, 64, file, letter)
  {
    hide At, EntryAt, Block, PutWord;
    BlockWords(n.bytes, file, letter, behind);
    EntryParts(n.bytes, 64);
    EntryParts(n.bytes, 152);
  }

  predicate LeafLoads(d: Directory, vcn: nat, file: nat, letter: word)
    requires Shape(d)
  {
    && InUse(d, vcn) && Load(d, vcn).Some?
    && Load(d, vcn).value.first == 64 && Leaf(Load(d, vcn).value, 64, file, letter)
  }

  lemma LoadIs(d: Directory, vcn: nat, pos: nat, raw: seq<byte>, b: seq<byte>)
    requires Shape(d) && d.alloc.Allocation? && pos == vcn * d.bytesPerCluster % 0x1_0000_0000_0000_0000
    requires pos + d.g.bytesPerIndexRecord <= |d.alloc.stream|
    requires raw == d.alloc.stream[pos..pos + d.g.bytesPerIndexRecord]
    requires DWord(raw, 0) == INDX_TYPE && Fix(d.g, raw) == (true, b) && BlockOk(b)
    ensures Load(d, vcn)
            == Some(Node(b + d.behindBlock(vcn), |b|, 24 + DWord(b, 24), 24 + DWord(b, 28), b[36] % 2 == 1))
  {
    hide Fix, BlockOk, DWord;
  }

  lemma BlockLoads(d: Directory, vcn: nat, pos: nat, file: byte, letter: byte)
    requires Shape(d) && d.g == Geometry(4096, 1024, 4096) && d.alloc.Allocation? && file >= FIRST_USER_FILE
    requires pos == vcn * d.bytesPerCluster % 0x1_0000_0000_0000_0000 && pos + 4096 <= |d.alloc.stream|
    requires d.alloc.stream[pos..pos + 4096] == Block(file, letter)
    ensures Load(d, vcn).Some? && Load(d, vcn).value.first == 64 && Leaf(Load(d, vcn).value, 64, file, letter)
  {
    BlockIsFixed(d.g, file, letter);
    FixedHeader(file, letter);
    hide Block, Fix, PutWord, BlockOk, DWord, Load, Leaf, Shape, Fits;
    var raw, b := Block(file, letter), PutWord(Block(file, letter), 4094, 0);
    LoadIs(d, vcn, pos, raw, b);
    BlockEntries(Node(b + d.behindBlock(vcn), 4096, 64, 168, false), file, letter, d.behindBlock(vcn));
  }

  lemma BothInUse(d: Directory)
    requires Shape(d) && d.bitmap == Bitmap([3]) && d.g == Geometry(4096, 1024, 4096) && d.bytesPerCluster == 4096
    ensures InUse(d, 0) && InUse(d, 1)
  {
    assert BitSet(3, 0) && BitSet(3, 1);
  }

  lemma Halves(a: seq<byte>, z: seq<byte>)
    requires |a| == |z| == 4096
    ensures (a + z)[0..4096] == a && (a + z)[4096..8192] == z
  {
  }

  lemma BlocksLoad(d: Directory)
    requires d == TwoLevels(d.behindRoot, d.behindBlock) && Shape(d)
    ensures LeafLoads(d, 0, 21, 0x41) && LeafLoads(d, 1, 22, 0x5A)
  {
    hide Block, Table, Load, Leaf, InUse, Shape, RootCell;
    BothInUse(d);
    Halves(Block(21, 0x41), Block(22, 0x5A));
    BlockLoads(d, 0, 0, 21, 0x41);
    BlockLoads(d, 1, 4096, 22, 0x5A);
  }

  /** The tree of the root and its two blocks. */
  lemma TreeLayout(d: Directory, n: Node)
    requires Shape(d) && d.alloc.Allocation? && n.large && n.last == 152
    requires LeafLoads(d, 0, 21, 0x41) && LeafLoads(d, 1, 22, 0x5A)
    requires var e := EntryAt(n.bytes, 32);
             e.length == 96 && e.node && !e.end && e.name == [0x4D] && e.file == 20 && e.sub == 0
    requires var e := EntryAt(n.bytes, 128); e.length == 24 && e.node && e.end && e.sub == 1
    ensures WellFormed(d, n, 32, 0)
    ensures InOrder(d, n, 32, 0) == [EntryAt(Load(d, 0).value.bytes, 64), EntryAt(n.bytes, 32),
                                     EntryAt(Load(d, 1).value.bytes, 64)]
  {
    hide EntryAt, Load, InUse, Leaf, Shape;
    LeafLayout(d, Load(d, 0).value, 64, 21, 0x41, 1);
    LeafLayout(d, Load(d, 1).value, 64, 22, 0x5A, 1);
    assert WellFormed(d, n, 128, 0);
    assert InOrder(d, n, 128, 0) == [EntryAt(Load(d, 1).value.bytes, 64)];
  }

  lemma ThreeAscend(d: Directory, a: Entry, m: Entry, z: Entry)
    requires Shape(d) && d.upcase == Table() && a.name == [0x41] && m.name == [0x4D] && z.name == [0x5A]
    ensures Ascending(d, [a, m, z])
  {
    OrderOf(d, 0x41, 0x4D);
    OrderOf(d, 0x4D, 0x5A);
    OrderOf(d, 0x41, 0x5A);
    hide Order, Shape, Table;
  }

  lemma SameLetter(d: Directory, e: Entry, x: word, y: word)
    requires Shape(d) && d.upcase == Table() && e.name == [x]
    ensures SameName(d, e, [y]) <==> x == y
  {
    assert Fold(d, [x]) == [x] && Fold(d, [y]) == [y];
  }

  lemma Found(d: Directory, s: seq<Entry>, e: Entry, x: word)
    requires Sound(d) && d.upcase == Table() && s == Entries(d) && e in s && IsReal(e) && e.name == [x]
    ensures Find(d, [x]) == e.file
  {
    SameLetter(d, e, x, x);
    hide Sound, Table, SameName, Find, IsReal;
    LookupIsMembership(d, [x]);
  }

  lemma Missed(d: Directory, a: Entry, m: Entry, z: Entry)
    requires Sound(d) && d.upcase == Table() && Entries(d) == [a, m, z]
    requires a.name == [0x41] && m.name == [0x4D] && z.name == [0x5A]
    ensures Find(d, [0x42]) == NOT_FOUND
  {
    SameLetter(d, a, 0x41, 0x42);
    SameLetter(d, m, 0x4D, 0x42);
    SameLetter(d, z, 0x5A, 0x42);
    hide Sound, Table, SameName, Find, IsReal;
    LookupIsMembership(d, [0x42]);
  }

  /** A sound index with blocks: a file left of the root's entry, the root's own, one right of it, and
      a name that is not there. */
  lemma TwoLevelsAreSound(behindRoot: seq<byte>, behindBlock: nat -> seq<byte>)
    ensures var d := TwoLevels(behindRoot, behindBlock);
            && Sound(d) && |Entries(d)| == 3
            && Find(d, [0x41]) == 21 && Find(d, [0x4D]) == 20 && Find(d, [0x5A]) == 22 && Find(d, [0x42]) == NOT_FOUND
  {
    var d := TwoLevels(behindRoot, behindBlock);
    RootOfTwo(d);
    var n := RootNode(d).value;
    RootEntries(d, n.bytes);
    BlocksLoad(d);
    hide TwoLevels, EntryAt, RootNode, Order, Shape, InOrder, WellFormed, Find, Load, InUse, Table, Ascending;
    TreeLayout(d, n);
    var a, m, z := EntryAt(Load(d, 0).value.bytes, 64), EntryAt(n.bytes, 32), EntryAt(Load(d, 1).value.bytes, 64);
    var s := [a, m, z];
    ThreeAscend(d, a, m, z);
    Found(d, s, a, 0x41);
    Found(d, s, m, 0x4D);
    Found(d, s, z, 0x5A);
    Missed(d, a, m, z);
  }

  // ---------------------------------------------------------------- a header that sticks out

  function ShortCell(i: nat): byte {
    if i == 16 then 16 else if i == 20 then 24 else if i == 32 then 20 else 0
  }

  /** An $INDEX_ROOT value that ends in the middle of its first entry's header: file 20, length unknown. */
  function Overhang(behindRoot: seq<byte>, behindBlock: nat -> seq<byte>): Directory {
    Directory(seq(40, i requires i >= 0 => ShortCell(i)), NoAllocation, NoBitmap, Geometry(512, 1024, 4096), 4096,
              Table(), behindRoot, behindBlock)
  }

  lemma OverhangRoot(d: Directory)
    requires d == Overhang(d.behindRoot, d.behindBlock)
    ensures Shape(d) && RootNode(d) == Some(Node(d.root + d.behindRoot, 40, 32, 40, true))
  {
    hide Table;
  }

  lemma OverhangWords(d: Directory, b: seq<byte>)
    requires d == Overhang(d.behindRoot, d.behindBlock) && b == d.root + d.behindRoot
    ensures At(b, 32) == 20 && At(b, 34) == 0 && At(b, 36) == 0
    ensures d.behindRoot == [] ==> At(b, 40) == 0
    ensures d.behindRoot == [88, 0] ==> At(b, 40) == 88 && At(b, 44) == 0 && At(b, 112) == 0
  {
    hide Table;
  }

  lemma OverhangEntry(b: seq<byte>)
    requires At(b, 32) == 20 && At(b, 34) == 0 && At(b, 36) == 0
    ensures At(b, 40) == 0 ==> EntryAt(b, 32).length == 0
    ensures At(b, 40) == 88 && At(b, 44) == 0 && At(b, 112) == 0 ==>
              var e := EntryAt(b, 32); e.length == 88 && !e.node && !e.end && e.file == 20 && Listed(e)
  {
    hide At;
  }

  lemma CollectOne(d: Directory, n: Node, e: Entry)
    requires Shape(d) && d.alloc.NoAllocation? && RootNode(d) == Some(n) && n.first == 32 && n.last == 40
    requires e == EntryAt(n.bytes, 32)
    ensures e.length == 0 ==> CollectDir(d, 1) == []
    ensures e.length == 88 && !e.end && Listed(e) ==> CollectDir(d, 1) == [e.file]
  {
    hide EntryAt, RootNode, Listed, Shape;
    assert [] + [e.file] == [e.file];
    assert Collect(d, n, 120, [e.file], 1, 0) == [e.file];
  }

  /** What collecting such an index gives depends on the memory behind the root. */
  lemma MemoryCanMatter(behindBlock: nat -> seq<byte>)
    ensures var d, d' := Overhang([], behindBlock), Overhang([88, 0], behindBlock);
            SameImage(d, d') && Shape(d) && RootNode(d).Some? && CollectDir(d, 1) == [] && CollectDir(d', 1) == [20]
  {
    var d, d' := Overhang([], behindBlock), Overhang([88, 0], behindBlock);
    OverhangRoot(d);
    OverhangRoot(d');
    OverhangWords(d, d.root + []);
    OverhangWords(d', d'.root + [88, 0]);
    OverhangEntry(d.root + []);
    OverhangEntry(d'.root + [88, 0]);
    hide Table, EntryAt, At, RootNode, Listed, Shape, CollectDir;
    CollectOne(d, RootNode(d).value, EntryAt(d.root + [], 32));
    CollectOne(d', RootNode(d').value, EntryAt(d'.root + [88, 0], 32));
  }

  // ---------------------------------------------------------------- an exact name that is missed

  /** An $INDEX_ROOT value with file 20 named "a", file 21 named "B", and the end entry. */
  function PairCell(i: nat): byte {
    if i == 16 then 16
    else if i == 20 then 208
    else if i == 32 then 20
    else if i == 40 then 88
    else if i == 112 then 1
    else if i == 113 then 1
    else if i == 114 then 0x61
    else if i == 120 then 21
    else if i == 128 then 88
    else if i == 200 then 1
    else if i == 201 then 1
    else if i == 202 then 0x42
    else if i == 216 then 16
    else if i == 220 then 2
    else 0
  }

  function Upper(c: nat): nat {
    if 0x61 <= c <= 0x7A then c - 32 else c
  }

  function Capitals(): (t: seq<word>)
    ensures |t| == 0x1_0000 && forall c: word :: t[c] == Upper(c)
  {
    seq(0x1_0000, i requires 0 <= i < 0x1_0000 => Upper(i) as word)
  }

  function Pair(behindRoot: seq<byte>, behindBlock: nat -> seq<byte>): Directory {
    Directory(seq(224, i requires i >= 0 => PairCell(i)), NoAllocation, NoBitmap, Geometry(512, 1024, 4096), 4096,
              Capitals(), behindRoot, behindBlock)
  }

  lemma PairRoot(d: Directory)
    requires d == Pair(d.behindRoot, d.behindBlock)
    ensures Shape(d) && RootNode(d) == Some(Node(d.root + d.behindRoot, 224, 32, 224, true))
  {
    hide Capitals;
  }

  lemma PairWord(d: Directory, off: nat)
    requires d == Pair(d.behindRoot, d.behindBlock) && off + 2 <= 224
    ensures At(d.root + d.behindRoot, off) == PairCell(off) + 256 * PairCell(off + 1)
  {
    hide PairCell, Capitals;
  }

  lemma PairWords(d: Directory, b: seq<byte>)
    requires d == Pair(d.behindRoot, d.behindBlock) && b == d.root + d.behindRoot
    ensures At(b, 32) == 20 && At(b, 34) == 0 && At(b, 36) == 0 && At(b, 40) == 88 && At(b, 44) == 0
    ensures At(b, 112) == 257 && At(b, 114) == 0x61
    ensures At(b, 120) == 21 && At(b, 122) == 0 && At(b, 124) == 0 && At(b, 128) == 88 && At(b, 132) == 0
    ensures At(b, 200) == 257 && At(b, 202) == 0x42 && At(b, 216) == 16 && At(b, 220) == 2
  {
    hide Pair, At;
    PairWord(d, 32);
    PairWord(d, 34);
    PairWord(d, 36);
    PairWord(d, 40);
    PairWord(d, 44);
    PairWord(d, 112);
    PairWord(d, 114);
    PairWord(d, 120);
    PairWord(d, 122);
    PairWord(d, 124);
    PairWord(d, 128);
    PairWord(d, 132);
    PairWord(d, 200);
    PairWord(d, 202);
    PairWord(d, 216);
    PairWord(d, 220);
  }

  predicate PairEntries(n: Node) {
    var e := EntryAt(n.bytes, 32);
    && n.last == 224 && e.length == 88 && !e.node && !e.end && e.name == [0x61] && e.file == 20
    && Leaf(n, 120, 21, 0x42)
  }

  lemma PairLayout(d: Directory, n: Node)
    requires d == Pair(d.behindRoot, d.behindBlock) && n == Node(d.root + d.behindRoot, 224, 32, 224, true)
    ensures PairEntries(n)
  {
    hide At, EntryAt, Pair, PairCell;
    PairWords(d, n.bytes);
    EntryParts(n.bytes, 32);
    EntryParts(n.bytes, 120);
    EntryParts(n.bytes, 208);
  }

  lemma PairOrder(d: Directory)
    requires Shape(d) && d.upcase == Capitals()
    ensures Order(d, [0x61], [0x42]) < 0 && Order(d, [0x42], [0x42]) == 0 && Order(d, [0x42], [0x61]) > 0
    ensures Order(As(d, true), [0x42], [0x61]) < 0
  {
    assert Fold(d, [0x61]) == [0x41] && Fold(d, [0x42]) == [0x42];
    assert Fold(As(d, true), [0x61]) == [0x61] && Fold(As(d, true), [0x42]) == [0x42];
    CollateOne(0x41, 0x42);
    CollateOne(0x42, 0x42);
    CollateOne(0x42, 0x41);
    CollateOne(0x42, 0x61);
  }

  lemma PairTree(d: Directory, n: Node)
    requires Shape(d) && PairEntries(n) && Order(d, [0x61], [0x42]) < 0
    ensures WellFormed(d, n, 32, 0) && Ascending(d, InOrder(d, n, 32, 0))
    ensures exists e :: e in InOrder(d, n, 32, 0) && IsReal(e) && e.name == [0x42]
  {
    hide EntryAt, Load, InUse, Shape, Order;
    LeafLayout(d, n, 120, 21, 0x42, 0);
    assert InOrder(d, n, 32, 0) == [EntryAt(n.bytes, 32), EntryAt(n.bytes, 120)];
    assert EntryAt(n.bytes, 120) in InOrder(d, n, 32, 0);
  }

  lemma PairLookup(d: Directory, n: Node)
    requires Shape(d) && PairEntries(n)
    ensures Order(d, [0x42], [0x61]) > 0 && Order(d, [0x42], [0x42]) == 0 ==> Search(d, n, 32, [0x42], 0) == 21
    ensures Order(d, [0x42], [0x61]) < 0 ==> Search(d, n, 32, [0x42], 0) == NOT_FOUND
  {
    hide EntryAt, Load, InUse, Shape, Order;
  }

  /** The index is sorted as "a", "B": the exact descent for "B" turns left at "a" and misses it; the
      second lookup finds it. */
  lemma ExactCanMiss(behindRoot: seq<byte>, behindBlock: nat -> seq<byte>)
    ensures var d := Pair(behindRoot, behindBlock);
            && Sound(d) && Open(d, [0x42], true) == NOT_FOUND && Open(d, [0x42], false) == 21
            && (exists e :: e in Entries(d) && IsReal(e) && e.name == [0x42]) && !Turns(d, [0x42])
  {
    var d := Pair(behindRoot, behindBlock);
    var n := Node(d.root + behindRoot, 224, 32, 224, true);
    PairRoot(d);
    PairLayout(d, n);
    PairOrder(d);
    SameReads(d, true);
    hide EntryAt, RootNode, Order, Shape, InOrder, WellFormed, Search, Leaf, Capitals, Ascending, As, PairEntries,
      IsReal, Turns;
    PairTree(d, n);
    PairLookup(d, n);
    PairLookup(As(d, true), n);
    ExactFindsIff(d, [0x42]);
  }

  // ---------------------------------------------------------------- several case variants of a name

  /** An $INDEX_ROOT value with file 20 named "ba", file 21 "BB", file 22 "bB", and the end entry. */
  function TrioCell(i: nat): byte {
    if i == 16 then 16
    else if i == 20 then 40
    else if i == 21 then 1
    else if i == 32 then 20
    else if i == 40 then 88
    else if i == 112 then 2
    else if i == 113 then 1
    else if i == 114 then 0x62
    else if i == 116 then 0x61
    else if i == 120 then 21
    else if i == 128 then 88
    else if i == 200 then 2
    else if i == 201 then 1
    else if i == 202 then 0x42
    else if i == 204 then 0x42
    else if i == 208 then 22
    else if i == 216 then 88
    else if i == 288 then 2
    else if i == 289 then 1
    else if i == 290 then 0x62
    else if i == 292 then 0x42
    else if i == 304 then 16
    else if i == 308 then 2
    else 0
  }

  function Trio(behindRoot: seq<byte>, behindBlock: nat -> seq<byte>): Directory {
    Directory(seq(312, i requires i >= 0 => TrioCell(i)), NoAllocation, NoBitmap, Geometry(512, 1024, 4096), 4096,
              Capitals(), behindRoot, behindBlock)
  }

  lemma TrioRoot(d: Directory)
    requires d == Trio(d.behindRoot, d.behindBlock)
    ensures Shape(d) && RootNode(d) == Some(Node(d.root + d.behindRoot, 312, 32, 312, true))
  {
    hide Capitals;
  }

  lemma TrioWord(d: Directory, off: nat)
    requires d == Trio(d.behindRoot, d.behindBlock) && off + 2 <= 312
    ensures At(d.root + d.behindRoot, off) == TrioCell(off) + 256 * TrioCell(off + 1)
  {
    hide TrioCell, Capitals;
  }

  /** The words of one of the three entries. */
  predicate Spells(b: seq<byte>, off: nat, file: word, first: word, second: word) {
    && At(b, off) == file && At(b, off + 2) == 0 && At(b, off + 4) == 0 && At(b, off + 8) == 88 && At(b, off + 12) == 0
    && At(b, off + 80) == 258 && At(b, off + 82) == first && At(b, off + 84) == second
  }

  lemma TrioSpells(d: Directory, b: seq<byte>, off: nat, file: word, first: word, second: word)
    requires d == Trio(d.behindRoot, d.behindBlock) && b == d.root + d.behindRoot
    requires (off == 32 && file == 20 && first == 0x62 && second == 0x61)
             || (off == 120 && file == 21 && first == 0x42 && second == 0x42)
             || (off == 208 && file == 22 && first == 0x62 && second == 0x42)
    ensures Spells(b, off, file, first, second)
  {
    hide Trio, At;
    TrioWord(d, off);
    TrioWord(d, off + 2);
    TrioWord(d, off + 4);
    TrioWord(d, off + 8);
    TrioWord(d, off + 12);
    TrioWord(d, off + 80);
    TrioWord(d, off + 82);
    TrioWord(d, off + 84);
  }

  predicate Names(e: Entry, file: nat, name: seq<word>) {
    e.length == 88 && !e.node && !e.end && e.name == name && e.file == file
  }

  lemma SpellsName(b: seq<byte>, off: nat, file: word, first: word, second: word)
    requires Spells(b, off, file, first, second)
    ensures Names(EntryAt(b, off), file, [first, second])
  {
    hide At;
  }

  predicate TrioEntries(n: Node) {
    var end := EntryAt(n.bytes, 296);
    && n.last == 312
    && Names(EntryAt(n.bytes, 32), 20, [0x62, 0x61])
    && Names(EntryAt(n.bytes, 120), 21, [0x42, 0x42])
    && Names(EntryAt(n.bytes, 208), 22, [0x62, 0x42])
    && end.length == 16 && !end.node && end.end
  }

  lemma TrioLayout(d: Directory, n: Node)
    requires d == Trio(d.behindRoot, d.behindBlock) && n == Node(d.root + d.behindRoot, 312, 32, 312, true)
    ensures TrioEntries(n)
  {
    hide At, EntryAt, Trio, TrioCell, Spells, Names;
    TrioSpells(d, n.bytes, 32, 20, 0x62, 0x61);
    TrioSpells(d, n.bytes, 120, 21, 0x42, 0x42);
    TrioSpells(d, n.bytes, 208, 22, 0x62, 0x42);
    SpellsName(n.bytes, 32, 20, 0x62, 0x61);
    SpellsName(n.bytes, 120, 21, 0x42, 0x42);
    SpellsName(n.bytes, 208, 22, 0x62, 0x42);
    TrioEnd(d, n.bytes);
  }

  lemma TrioEnd(d: Directory, b: seq<byte>)
    requires d == Trio(d.behindRoot, d.behindBlock) && b == d.root + d.behindRoot
    ensures var end := EntryAt(b, 296); end.length == 16 && !end.node && end.end
  {
    hide Trio, At, EntryAt;
    TrioWord(d, 304);
    TrioWord(d, 308);
    EntryParts(b, 296);
  }

  lemma CollateTwo(a: word, b: word, x: word, y: word)
    ensures Collate([a, b], [x, y]) == if a != x then a as int - x as int else if b != y then b as int - y as int else 0
  {
    assert [a, b][1..] == [b] && [x, y][1..] == [y];
    CollateOne(b, y);
  }

  lemma OrderTwo(d: Directory, a: word, b: word, x: word, y: word)
    requires Shape(d) && d.upcase == Capitals()
    ensures Order(d, [a, b], [x, y]) == Collate([Upper(a), Upper(b)], [Upper(x), Upper(y)])
    ensures Shape(As(d, true)) && Order(As(d, true), [a, b], [x, y]) == Collate([a, b], [x, y])
  {
    hide Collate;
    assert Fold(d, [a, b]) == [Upper(a), Upper(b)] && Fold(d, [x, y]) == [Upper(x), Upper(y)];
    assert Fold(As(d, true), [a, b]) == [a, b] && Fold(As(d, true), [x, y]) == [x, y];
  }

  lemma TrioOrder(d: Directory)
    requires Shape(d) && d.upcase == Capitals()
    ensures Order(d, [0x62, 0x61], [0x42, 0x42]) < 0 && Order(d, [0x62, 0x61], [0x62, 0x42]) < 0
    ensures Order(d, [0x42, 0x42], [0x62, 0x42]) == 0 && Collate([0x42, 0x42], [0x62, 0x42]) < 0
    ensures Order(d, [0x62, 0x42], [0x62, 0x61]) > 0 && Order(d, [0x62, 0x42], [0x42, 0x42]) == 0
    ensures Shape(As(d, true)) && Order(As(d, true), [0x62, 0x42], [0x62, 0x61]) < 0
  {
    hide Order, Collate, Capitals, Shape, As;
    OrderTwo(d, 0x62, 0x61, 0x42, 0x42);
    OrderTwo(d, 0x62, 0x61, 0x62, 0x42);
    OrderTwo(d, 0x42, 0x42, 0x62, 0x42);
    OrderTwo(d, 0x62, 0x42, 0x62, 0x61);
    OrderTwo(d, 0x62, 0x42, 0x42, 0x42);
    CollateTwo(0x42, 0x41, 0x42, 0x42);
    CollateTwo(0x42, 0x42, 0x42, 0x42);
    CollateTwo(0x42, 0x42, 0x62, 0x42);
    CollateTwo(0x42, 0x42, 0x42, 0x41);
    CollateTwo(0x62, 0x42, 0x62, 0x61);
  }

  /** The order of a directory that tells case variants apart: names that differ only in case are
      sorted by their characters. */
  ghost predicate VariantsAscend(d: Directory, s: seq<Entry>)
    requires Shape(d)
  {
    forall i, j :: 0 <= i < j < |s| ==>
      Order(d, s[i].name, s[j].name) < 0
      || (Order(d, s[i].name, s[j].name) == 0 && Collate(s[i].name, s[j].name) < 0)
  }

  lemma TrioTree(d: Directory, n: Node)
    requires Shape(d) && TrioEntries(n)
    ensures WellFormed(d, n, 32, 0)
    ensures InOrder(d, n, 32, 0) == [EntryAt(n.bytes, 32), EntryAt(n.bytes, 120), EntryAt(n.bytes, 208)]
  {
    hide EntryAt, Load, InUse, Shape;
    assert WellFormed(d, n, 296, 0) && InOrder(d, n, 296, 0) == [];
    assert WellFormed(d, n, 208, 0) && InOrder(d, n, 208, 0) == [EntryAt(n.bytes, 208)];
    assert WellFormed(d, n, 120, 0) && InOrder(d, n, 120, 0) == [EntryAt(n.bytes, 120), EntryAt(n.bytes, 208)];
  }

  lemma TrioLookup(d: Directory, n: Node)
    requires Shape(d) && TrioEntries(n)
    ensures Order(d, [0x62, 0x42], [0x62, 0x61]) > 0 && Order(d, [0x62, 0x42], [0x42, 0x42]) == 0
            ==> Search(d, n, 32, [0x62, 0x42], 0) == 21
    ensures Order(d, [0x62, 0x42], [0x62, 0x61]) < 0 ==> Search(d, n, 32, [0x62, 0x42], 0) == NOT_FOUND
  {
    hide EntryAt, Load, InUse, Shape, Order;
  }

  /** In a directory with case variants, sorted as "ba", "BB", "bB", the exact descent for "bB" turns
      left at "ba"; the second lookup then answers with "BB", although "bB" is there. */
  lemma VariantsConfuse(behindRoot: seq<byte>, behindBlock: nat -> seq<byte>)
    ensures var d := Trio(behindRoot, behindBlock);
            && Shape(d) && RootNode(d).Some? && WellFormed(d, RootNode(d).value, RootNode(d).value.first, 0)
            && VariantsAscend(d, Entries(d)) && |Entries(d)| == 3
            && Entries(d)[1].name == [0x42, 0x42] && Entries(d)[1].file == 21
            && Entries(d)[2].name == [0x62, 0x42] && Entries(d)[2].file == 22
            && Open(d, [0x62, 0x42], false) == 21
  {
    var d := Trio(behindRoot, behindBlock);
    var n := Node(d.root + behindRoot, 312, 32, 312, true);
    TrioRoot(d);
    TrioLayout(d, n);
    TrioOrder(d);
    SameReads(d, true);
    hide EntryAt, RootNode, Order, Shape, InOrder, WellFormed, Search, Capitals, As, TrioEntries, Collate;
    TrioTree(d, n);
    TrioLookup(d, n);
    TrioLookup(As(d, true), n);
    TrioNames(d, n);
  }

  lemma TrioNames(d: Directory, n: Node)
    requires Shape(d) && TrioEntries(n)
    requires Order(d, [0x62, 0x61], [0x42, 0x42]) < 0 && Order(d, [0x62, 0x61], [0x62, 0x42]) < 0
    requires Order(d, [0x42, 0x42], [0x62, 0x42]) == 0 && Collate([0x42, 0x42], [0x62, 0x42]) < 0
    ensures var s := [EntryAt(n.bytes, 32), EntryAt(n.bytes, 120), EntryAt(n.bytes, 208)];
            && VariantsAscend(d, s)
            && s[1].name == [0x42, 0x42] && s[1].file == 21 && s[2].name == [0x62, 0x42] && s[2].file == 22
  {
    hide EntryAt, Shape, Order, Collate;
  }
}
