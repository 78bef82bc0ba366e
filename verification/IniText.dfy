/** EC.ini (ec/Config.c): the text the settings menu saves and the parser that reads it back.  Bytes
    and UCS-2 characters are both `char` here. */
module IniText {
  import opened Letters

  const MAX_PATH_LEN := 512
  const MAX_FILTER_LEN := 128
  const MAX_HOTDIRS := 9
  const SAVE_CAPACITY := 32768

  datatype Settings = Settings(
    confirmDelete: bool, confirmOverwrite: bool, showSuccessMessages: bool, showOperationSummary: bool,
    verifyAfterCopy: bool,
    defaultLeft: string, defaultRight: string, filterLeft: string, filterRight: string, ntfsDriver: string,
    hotDirs: seq<string>, hotDirCount: nat)

  /** Every string fits its field with the terminator. */
  predicate Fits(c: Settings) {
    && |c.defaultLeft| < MAX_PATH_LEN && |c.defaultRight| < MAX_PATH_LEN && |c.ntfsDriver| < MAX_PATH_LEN
    && |c.filterLeft| < MAX_FILTER_LEN && |c.filterRight| < MAX_FILTER_LEN
    && |c.hotDirs| == MAX_HOTDIRS && forall i :: 0 <= i < MAX_HOTDIRS ==> |c.hotDirs[i]| < MAX_PATH_LEN
  }

  const DEFAULTS := Settings(false, false, false, false, false, "", "", "*", "*", "",
                             ["", "", "", "", "", "", "", "", ""], 0)

  datatype Option<T> = None | Some(value: T)

  // ---------------------------------------------------------------- parsing one line

  predicate Blank(c: char) {
    c == ' ' || c == '\t'
  }

  function TrimLeft(s: string): (t: string)
    ensures |t| <= |s|
  {
    if s != "" && Blank(s[0]) then TrimLeft(s[1..]) else s
  }

  /** Blanks at the end, and carriage returns where they count as such. */
  function TrimRight(s: string, crToo: bool): string {
    if s != "" && (Blank(s[|s| - 1]) || (crToo && s[|s| - 1] == '\r')) then TrimRight(s[..|s| - 1], crToo) else s
  }

  function Trim(s: string, crToo: bool): string {
    TrimRight(TrimLeft(s), crToo)
  }

  function Up(c: char): char {
    if 'a' <= c <= 'z' then ((c as int) - 32) as char else c
  }

  /** Equal but for the case of ASCII letters. */
  predicate Is(a: string, b: string) {
    |a| == |b| && forall i :: 0 <= i < |a| ==> Up(a[i]) == Up(b[i])
  }

  lemma UpMatches(x: char, y: char)
    ensures Up(x) == Up(y) <==> x == y || Cases(x as int, y as int) || Cases(y as int, x as int)
  {
    CasesAre(x as int, y as int);
    CasesAre(y as int, x as int);
    hide Cases;
  }

  /** Character by character the same, or the two cases of one letter. */
  lemma IsMeans(a: string, b: string)
    ensures Is(a, b) <==>
            && |a| == |b|
            && forall i :: 0 <= i < |a| ==>
                 a[i] == b[i] || Cases(a[i] as int, b[i] as int) || Cases(b[i] as int, a[i] as int)
  {
    hide Up, Cases;
    if |a| == |b| {
      forall i | 0 <= i < |a|
        ensures Up(a[i]) == Up(b[i]) <==>
                a[i] == b[i] || Cases(a[i] as int, b[i] as int) || Cases(b[i] as int, a[i] as int)
      {
        UpMatches(a[i], b[i]);
      }
    }
  }

  function ParseBool(value: string, fallback: bool): bool {
    var v := Trim(value, true);
    if Is(v, "1") || Is(v, "Y") then true
    else if Is(v, "0") || Is(v, "N") then false
    else if Is(v, "TRUE") then true
    else if Is(v, "FALSE") then false
    else if Is(v, "YES") then true
    else if Is(v, "NO") then false
    else if Is(v, "ON") then true
    else if Is(v, "OFF") then false
    else fallback
  }

  /** Up to a NUL, as much as the field holds. */
  function Field(value: string, capacity: nat): (f: string)
    requires capacity >= 1
    ensures |f| < capacity
  {
    if value == "" || capacity == 1 || value[0] == '\0' then "" else [value[0]] + Field(value[1..], capacity - 1)
  }

  datatype Setting =
    | ConfirmDelete | ConfirmOverwrite | ShowSuccessMessages | ShowOperationSummary | VerifyAfterCopy
    | DefaultLeft | DefaultRight | FilterLeft | FilterRight | NtfsDriver | HotDir(index: nat)

  /** The setting a key names. */
  function Which(key: string): Option<Setting> {
    if Is(key, "ConfirmDelete") then Some(ConfirmDelete)
    else if Is(key, "ConfirmOverwrite") then Some(ConfirmOverwrite)
    else if Is(key, "ShowSuccessMessages") then Some(ShowSuccessMessages)
    else if Is(key, "ShowOperationSummary") then Some(ShowOperationSummary)
    else if Is(key, "VerifyAfterCopy") then Some(VerifyAfterCopy)
    else if Is(key, "DefaultLeft") then Some(DefaultLeft)
    else if Is(key, "DefaultRight") then Some(DefaultRight)
    else if Is(key, "FilterLeft") then Some(FilterLeft)
    else if Is(key, "FilterRight") then Some(FilterRight)
    else if Is(key, "NtfsDriverPath") then Some(NtfsDriver)
    else if Is(key, "NtfsDriver") then Some(NtfsDriver)
    else if |key| == 7 && Is(key[..6], "HotDir") && '1' <= key[6] <= '9' then Some(HotDir(key[6] as int - '1' as int))
    else None
  }

  /** A hot directory that is not empty raises the count to cover it. */
  function SetHotDir(c: Settings, i: nat, dir: string): Settings
    requires i < |c.hotDirs|
  {
    c.(hotDirs := c.hotDirs[i := dir],
       hotDirCount := if dir != "" && i + 1 > c.hotDirCount then i + 1 else c.hotDirCount)
  }

  function Set(s: Setting, value: string, c: Settings): (r: Settings)
    ensures |r.hotDirs| == |c.hotDirs|
  {
    match s
    case ConfirmDelete => c.(confirmDelete := ParseBool(value, c.confirmDelete))
    case ConfirmOverwrite => c.(confirmOverwrite := ParseBool(value, c.confirmOverwrite))
    case ShowSuccessMessages => c.(showSuccessMessages := ParseBool(value, c.showSuccessMessages))
    case ShowOperationSummary => c.(showOperationSummary := ParseBool(value, c.showOperationSummary))
    case VerifyAfterCopy => c.(verifyAfterCopy := ParseBool(value, c.verifyAfterCopy))
    case DefaultLeft => c.(defaultLeft := Field(value, MAX_PATH_LEN))
    case DefaultRight => c.(defaultRight := Field(value, MAX_PATH_LEN))
    case FilterLeft => c.(filterLeft := Field(value, MAX_FILTER_LEN))
    case FilterRight => c.(filterRight := Field(value, MAX_FILTER_LEN))
    case NtfsDriver => c.(ntfsDriver := Field(value, MAX_PATH_LEN))
    case HotDir(i) => if i < |c.hotDirs| then SetHotDir(c, i, Field(value, MAX_PATH_LEN)) else c
  }

  function Apply(key: string, value: string, c: Settings): Settings {
    match Which(Trim(key, false))
    case None => c
    case Some(s) => Set(s, Trim(value, true), c)
  }

  /** Where a character first stands, or the length. */
  function Index(s: string, x: char): (k: nat)
    ensures k <= |s| && (k < |s| ==> s[k] == x) && forall i :: 0 <= i < k ==> s[i] != x
  {
    if s == "" || s[0] == x then 0 else 1 + Index(s[1..], x)
  }

  predicate Comment(line: string) {
    line == "" || line[0] == '#' || line[0] == ';' || line[0] == '['
  }

  function ParseLine(line: string, c: Settings): Settings {
    var text := TrimLeft(line);
    var eq := Index(text, '=');
    if Comment(text) || eq >= |text| then c else Apply(text[..eq], text[eq + 1..], c)
  }

  function Parse(text: string, c: Settings): Settings
    decreases |text|
  {
    if text == "" then c
    else
      var end := Index(text, '\n');
      var next := if end < |text| then end + 1 else end;
      Parse(text[next..], ParseLine(text[..end], c))
  }

  // ---------------------------------------------------------------- the saved text

  datatype Line = Note(text: string) | Pair(s: Setting, value: string)

  function KeyOf(s: Setting): string {
    match s
    case ConfirmDelete => "ConfirmDelete"
    case ConfirmOverwrite => "ConfirmOverwrite"
    case ShowSuccessMessages => "ShowSuccessMessages"
    case ShowOperationSummary => "ShowOperationSummary"
    case VerifyAfterCopy => "VerifyAfterCopy"
    case DefaultLeft => "DefaultLeft"
    case DefaultRight => "DefaultRight"
    case FilterLeft => "FilterLeft"
    case FilterRight => "FilterRight"
    case NtfsDriver => "NtfsDriverPath"
    case HotDir(i) => "HotDir" + [HotDirDigit(i)]
  }

  function HotDirDigit(i: nat): char {
    if i < MAX_HOTDIRS then ('1' as int + i) as char else '?'
  }

  /** Characters outside ASCII are saved as question marks. */
  function Ascii(s: string): (r: string)
    ensures |r| == |s|
  {
    seq(|s|, i requires 0 <= i < |s| => if s[i] as int <= 0x7F then s[i] else '?')
  }

  function Digit(b: bool): string {
    if b then "1" else "0"
  }

  const NOTE1 := "; EC.ini - saved by the " + "EC F9 settings menu."
  const NOTE2 := "; Values: 0/1. Paths use UEFI " + "volume names such as fs0:\\"

  function SwitchLines(c: Settings): seq<Line> {
    [Note(NOTE1), Note(NOTE2), Note(""),
     Pair(ConfirmDelete, Digit(c.confirmDelete)), Pair(ConfirmOverwrite, Digit(c.confirmOverwrite)),
     Pair(ShowSuccessMessages, Digit(c.showSuccessMessages)), Pair(ShowOperationSummary, Digit(c.showOperationSummary)),
     Pair(VerifyAfterCopy, Digit(c.verifyAfterCopy)), Note("")]
  }

  function PathLines(c: Settings): seq<Line> {
    [Pair(NtfsDriver, Ascii(c.ntfsDriver)), Note(""),
     Pair(DefaultLeft, Ascii(c.defaultLeft)), Pair(DefaultRight, Ascii(c.defaultRight)), Note(""),
     Pair(FilterLeft, Ascii(c.filterLeft)), Pair(FilterRight, Ascii(c.filterRight)), Note("")]
  }

  function HotDirLines(dirs: seq<string>, n: nat): (ls: seq<Line>)
    requires n <= |dirs|
    ensures |ls| == n
  {
    if n == 0 then [] else HotDirLines(dirs, n - 1) + [Pair(HotDir(n - 1), Ascii(dirs[n - 1]))]
  }

  function LineText(l: Line): string {
    match l
    case Note(text) => text + "\r\n"
    case Pair(s, value) => KeyOf(s) + "=" + value + "\r\n"
  }

  function Text(ls: seq<Line>): string {
    if ls == [] then "" else LineText(ls[0]) + Text(ls[1..])
  }

  function Saved(c: Settings): string
    requires |c.hotDirs| == MAX_HOTDIRS
  {
    Text(SwitchLines(c)) + Text(PathLines(c)) + Text(HotDirLines(c.hotDirs, MAX_HOTDIRS))
  }

  lemma Associates(a: string, b: string, c: string)
    ensures a + b + c == a + (b + c)
  {
  }

  lemma {:induction false} TextJoin(a: seq<Line>, b: seq<Line>)
    ensures Text(a + b) == Text(a) + Text(b)
  {
    hide LineText;
    if a == [] {
      assert a + b == b;
    } else {
      TextJoin(a[1..], b);
      assert (a + b)[1..] == a[1..] + b && (a + b)[0] == a[0];
      Associates(LineText(a[0]), Text(a[1..]), Text(b));
    }
  }

  // ---------------------------------------------------------------- it always fits

  const LONGEST_LINE := 560

  predicate ShortLine(l: Line) {
    match l
    case Note(text) => |text| <= 60
    case Pair(s, value) => |value| < MAX_PATH_LEN
  }

  lemma LineFits(l: Line)
    requires ShortLine(l)
    ensures |LineText(l)| <= LONGEST_LINE
  {
  }

  lemma {:induction false} TextFits(ls: seq<Line>)
    requires forall l :: l in ls ==> ShortLine(l)
    ensures |Text(ls)| <= LONGEST_LINE * |ls|
  {
    hide LineText;
    if ls != [] {
      LineFits(ls[0]);
      TextFits(ls[1..]);
    }
  }

  lemma {:induction false} HotDirLinesShort(dirs: seq<string>, n: nat)
    requires n <= |dirs| && forall i :: 0 <= i < |dirs| ==> |dirs[i]| < MAX_PATH_LEN
    ensures forall l :: l in HotDirLines(dirs, n) ==> ShortLine(l)
  {
    if n > 0 {
      HotDirLinesShort(dirs, n - 1);
    }
  }

  /** Whatever the settings, the text fits the buffer. */
  lemma SavedFits(c: Settings)
    requires Fits(c)
    ensures |Saved(c)| < SAVE_CAPACITY
  {
    hide Text;
    TextFits(SwitchLines(c));
    TextFits(PathLines(c));
    HotDirLinesShort(c.hotDirs, MAX_HOTDIRS);
    TextFits(HotDirLines(c.hotDirs, MAX_HOTDIRS));
  }

  // ---------------------------------------------------------------- reading it back

  /** Printable ASCII, with no blank at either end. */
  predicate Plain(s: string) {
    (forall i :: 0 <= i < |s| ==> ' ' <= s[i] <= '~') && (s != "" ==> s[0] != ' ' && s[|s| - 1] != ' ')
  }

  predicate AllPlain(c: Settings) {
    && Plain(c.defaultLeft) && Plain(c.defaultRight) && Plain(c.filterLeft) && Plain(c.filterRight)
    && Plain(c.ntfsDriver)
    && forall i :: 0 <= i < |c.hotDirs| ==> Plain(c.hotDirs[i])
  }

  lemma AsciiOfPlain(s: string)
    requires Plain(s)
    ensures Ascii(s) == s
  {
  }

  lemma {:induction false} FieldOfPlain(s: string, capacity: nat)
    requires |s| < capacity && forall i :: 0 <= i < |s| ==> ' ' <= s[i] <= '~'
    ensures Field(s, capacity) == s
  {
    if s != "" {
      FieldOfPlain(s[1..], capacity - 1);
    }
  }

  /** A plain value comes out of the trimming as it went in, its carriage return gone. */
  lemma TrimPlain(s: string)
    requires Plain(s)
    ensures Trim(s + "\r", true) == s && Trim(s, true) == s && Trim(s, false) == s
  {
    var t := s + "\r";
    assert t[0] == if s == "" then '\r' else s[0];
    assert t[|t| - 1] == '\r' && t[..|t| - 1] == s;
    assert TrimLeft(t) == t && TrimLeft(s) == s;
    assert TrimRight(t, true) == TrimRight(s, true);
  }

  /** A word that can stand before the equals sign. */
  predicate KeyWord(key: string) {
    key != "" && Plain(key) && key[0] != '#' && key[0] != ';' && key[0] != '['
    && forall i :: 0 <= i < |key| ==> key[i] != '='
  }

  lemma IndexIs(s: string, x: char, k: nat)
    requires k <= |s| && (forall i :: 0 <= i < k ==> s[i] != x) && (k < |s| ==> s[k] == x)
    ensures Index(s, x) == k
  {
    var j := Index(s, x);
    assert k == |s| || s[k] == x;
  }

  lemma ParsePair(key: string, value: string, c: Settings)
    requires KeyWord(key) && Plain(value)
    ensures ParseLine(key + "=" + value + "\r", c) == (match Which(key) case None => c case Some(s) => Set(s, value, c))
  {
    hide Which, Set, Trim;
    var line := key + "=" + value + "\r";
    assert line[0] == key[0];
    assert TrimLeft(line) == line;
    IndexIs(line, '=', |key|);
    assert line[..|key|] == key && line[|key| + 1..] == value + "\r";
    TrimPlain(key);
    TrimPlain(value);
  }

  lemma ParseNote(text: string, c: Settings)
    requires text == "" || text[0] == ';'
    ensures ParseLine(text + "\r", c) == c
  {
    hide Apply;
    var line := text + "\r";
    if text != "" {
      assert line[0] == ';';
    } else {
      assert line == "\r" && TrimLeft(line) == line;
      IndexIs(line, '=', 1);
    }
  }

  lemma Differs(a: string, b: string)
    requires |a| != |b| || (a != "" && Up(a[0]) != Up(b[0]))
    ensures !Is(a, b)
  {
  }

  lemma IsItself(a: string)
    ensures Is(a, a)
  {
  }

  predicate Known(s: Setting) {
    s.HotDir? ==> s.index < MAX_HOTDIRS
  }

  lemma WhichSwitch(s: Setting)
    requires s.ConfirmDelete? || s.ConfirmOverwrite? || s.ShowSuccessMessages? || s.ShowOperationSummary?
             || s.VerifyAfterCopy?
    ensures Which(KeyOf(s)) == Some(s)
  {
    hide Up;
    IsItself(KeyOf(s));
  }

  lemma WhichPath(s: Setting)
    requires s.DefaultLeft? || s.DefaultRight? || s.NtfsDriver?
    ensures Which(KeyOf(s)) == Some(s)
  {
    hide Up;
    IsItself(KeyOf(s));
  }

  lemma WhichFilter(s: Setting)
    requires s.FilterLeft? || s.FilterRight?
    ensures Which(KeyOf(s)) == Some(s)
  {
    hide Up;
    IsItself(KeyOf(s));
    FirstLettersDiffer();
  }

  lemma WhichHotDir(i: nat)
    requires i < MAX_HOTDIRS
    ensures Which(KeyOf(HotDir(i))) == Some(HotDir(i))
  {
    hide Up;
    var key := KeyOf(HotDir(i));
    assert key[..6] == "HotDir" && key[6] == HotDirDigit(i);
    IsItself("HotDir");
  }

  lemma SwitchIsWord(s: Setting)
    requires s.ConfirmDelete? || s.ConfirmOverwrite? || s.VerifyAfterCopy?
    ensures KeyWord(KeyOf(s))
  {
  }

  lemma ShowIsWord(s: Setting)
    requires s.ShowSuccessMessages? || s.ShowOperationSummary?
    ensures KeyWord(KeyOf(s))
  {
  }

  lemma PathIsWord(s: Setting)
    requires s.DefaultLeft? || s.DefaultRight? || s.NtfsDriver?
    ensures KeyWord(KeyOf(s))
  {
  }

  lemma FilterIsWord(s: Setting)
    requires s.FilterLeft? || s.FilterRight?
    ensures KeyWord(KeyOf(s))
  {
  }

  lemma HotDirIsWord(i: nat)
    requires i < MAX_HOTDIRS
    ensures KeyWord(KeyOf(HotDir(i)))
  {
    var key := KeyOf(HotDir(i));
    assert key[..6] == "HotDir" && key[6] == HotDirDigit(i);
  }

  /** Every key that is saved is read as the setting it was saved for. */
  lemma WhichKey(s: Setting)
    requires Known(s)
    ensures Which(KeyOf(s)) == Some(s) && KeyWord(KeyOf(s))
  {
    hide Which, KeyOf, KeyWord;
    if s.HotDir? {
      WhichHotDir(s.index);
      HotDirIsWord(s.index);
    } else if s.FilterLeft? || s.FilterRight? {
      WhichFilter(s);
      FilterIsWord(s);
    } else if s.DefaultLeft? || s.DefaultRight? || s.NtfsDriver? {
      WhichPath(s);
      PathIsWord(s);
    } else {
      WhichSwitch(s);
      if s.ShowSuccessMessages? || s.ShowOperationSummary? {
        ShowIsWord(s);
      } else {
        SwitchIsWord(s);
      }
    }
  }

  lemma FirstLettersDiffer()
    ensures !Is("FilterRight", "DefaultLeft")
  {
    Differs("FilterRight", "DefaultLeft");
  }

  // ---------------------------------------------------------------- line by line

  function ReadOne(l: Line, c: Settings): (r: Settings)
    ensures |r.hotDirs| == |c.hotDirs|
  {
    match l
    case Note(_) => c
    case Pair(s, value) => Set(s, value, c)
  }

  /** The first n lines read, each as what it says. */
  function Read(ls: seq<Line>, n: nat, c: Settings): (r: Settings)
    requires n <= |ls|
    ensures |r.hotDirs| == |c.hotDirs|
  {
    if n == 0 then c else ReadOne(ls[n - 1], Read(ls, n - 1, c))
  }

  lemma {:induction false} ReadFront(ls: seq<Line>, n: nat, c: Settings)
    requires 1 <= n <= |ls|
    ensures Read(ls, n, c) == Read(ls[1..], n - 1, ReadOne(ls[0], c))
  {
    hide ReadOne;
    if n > 1 {
      ReadFront(ls, n - 1, c);
    }
  }

  lemma {:induction false} ReadJoin(a: seq<Line>, b: seq<Line>, n: nat, c: Settings)
    requires n <= |b|
    ensures Read(a + b, |a| + n, c) == Read(b, n, Read(a, |a|, c))
  {
    hide ReadOne;
    if n == 0 {
      ReadPrefix(a, b, |a|, c);
    } else {
      ReadJoin(a, b, n - 1, c);
      assert (a + b)[|a| + n - 1] == b[n - 1];
    }
  }

  lemma {:induction false} ReadPrefix(a: seq<Line>, b: seq<Line>, n: nat, c: Settings)
    requires n <= |a|
    ensures Read(a + b, n, c) == Read(a, n, c)
  {
    hide ReadOne;
    if n > 0 {
      ReadPrefix(a, b, n - 1, c);
    }
  }

  /** A line the parser takes for what it is. */
  predicate SafeLine(l: Line) {
    match l
    case Note(text) => (text == "" || text[0] == ';') && '\n' !in text
    case Pair(s, value) => Known(s) && Plain(value)
  }

  /** A line without its line feed. */
  function Core(l: Line): string {
    match l
    case Note(text) => text + "\r"
    case Pair(s, value) => KeyOf(s) + "=" + value + "\r"
  }

  lemma ParseSafeLine(l: Line, c: Settings)
    requires SafeLine(l)
    ensures ParseLine(Core(l), c) == ReadOne(l, c)
  {
    hide ParseLine, Set, KeyOf, Which, Plain, KeyWord;
    match l
    case Note(text) => ParseNote(text, c);
    case Pair(s, value) =>
      WhichKey(s);
      ParsePair(KeyOf(s), value, c);
  }

  lemma CoreIsLine(l: Line)
    requires SafeLine(l)
    ensures LineText(l) == Core(l) + "\n" && '\n' !in Core(l)
  {
    hide KeyOf;
    match l
    case Note(text) => assert text + "\r" + "\n" == text + "\r\n";
    case Pair(s, value) =>
      WhichKey(s);
      assert KeyOf(s) + "=" + value + "\r" + "\n" == KeyOf(s) + "=" + value + "\r\n";
  }

  lemma ParseFirst(core: string, rest: string, c: Settings)
    requires '\n' !in core
    ensures Parse(core + "\n" + rest, c) == Parse(rest, ParseLine(core, c))
  {
    hide ParseLine;
    var text := core + "\n" + rest;
    IndexIs(text, '\n', |core|);
    assert text[..|core|] == core && text[|core| + 1..] == rest;
  }

  /** Parsing a text of safe lines reads them one by one. */
  lemma {:induction false} ParseText(ls: seq<Line>, c: Settings)
    requires forall l :: l in ls ==> SafeLine(l)
    ensures Parse(Text(ls), c) == Read(ls, |ls|, c)
  {
    hide Parse, ParseLine, LineText, Core, SafeLine, ReadOne;
    if ls == [] {
      ParseEmpty(c);
    } else {
      var l, rest := ls[0], ls[1..];
      CoreIsLine(l);
      ParseFirst(Core(l), Text(rest), c);
      ParseSafeLine(l, c);
      ParseText(rest, ReadOne(l, c));
      ReadFront(ls, |ls|, c);
    }
  }

  lemma ParseEmpty(c: Settings)
    ensures Parse("", c) == c
  {
  }

  // ---------------------------------------------------------------- the round trip

  lemma DigitParses(b: bool, fallback: bool)
    ensures ParseBool(Digit(b), fallback) == b && Plain(Digit(b))
  {
    var v := Digit(b);
    TrimPlain(v);
    IsItself(v);
    assert !b ==> v[0] == '0';
    Differs("0", "1");
    Differs("0", "Y");
  }

  lemma Note1IsSafe()
    ensures SafeLine(Note(NOTE1))
  {
    assert '\n' !in "; EC.ini - saved by the " && '\n' !in "EC F9 settings menu.";
  }

  lemma Note2IsSafe()
    ensures SafeLine(Note(NOTE2))
  {
    assert '\n' !in "; Values: 0/1. Paths use UEFI " && '\n' !in "volume names such as fs0:\\";
  }

  lemma ReadPair(ls: seq<Line>, n: nat, d: Settings, s: Setting, value: string)
    requires 1 <= n <= |ls| && ls[n - 1] == Pair(s, value)
    ensures Read(ls, n, d) == Set(s, value, Read(ls, n - 1, d))
  {
    hide Set;
  }

  lemma ReadNote(ls: seq<Line>, n: nat, d: Settings)
    requires 1 <= n <= |ls| && ls[n - 1].Note?
    ensures Read(ls, n, d) == Read(ls, n - 1, d)
  {
  }

  lemma SetSwitch(b: bool, d: Settings)
    ensures Set(ConfirmDelete, Digit(b), d) == d.(confirmDelete := b)
    ensures Set(ConfirmOverwrite, Digit(b), d) == d.(confirmOverwrite := b)
    ensures Set(ShowSuccessMessages, Digit(b), d) == d.(showSuccessMessages := b)
    ensures Set(ShowOperationSummary, Digit(b), d) == d.(showOperationSummary := b)
    ensures Set(VerifyAfterCopy, Digit(b), d) == d.(verifyAfterCopy := b)
  {
    DigitParses(b, d.confirmDelete);
    DigitParses(b, d.confirmOverwrite);
    DigitParses(b, d.showSuccessMessages);
    DigitParses(b, d.showOperationSummary);
    DigitParses(b, d.verifyAfterCopy);
    hide ParseBool, Digit;
  }

  function SetSwitches(c: Settings, d: Settings): Settings {
    Set(VerifyAfterCopy, Digit(c.verifyAfterCopy), Set(ShowOperationSummary, Digit(c.showOperationSummary),
      Set(ShowSuccessMessages, Digit(c.showSuccessMessages), Set(ConfirmOverwrite, Digit(c.confirmOverwrite),
        Set(ConfirmDelete, Digit(c.confirmDelete), d)))))
  }

  lemma SwitchLinesAre(c: Settings, ls: seq<Line>)
    requires ls == SwitchLines(c)
    ensures |ls| == 9 && ls[0] == Note(NOTE1) && ls[1] == Note(NOTE2) && ls[2] == Note("") && ls[8] == Note("")
    ensures ls[3] == Pair(ConfirmDelete, Digit(c.confirmDelete))
            && ls[4] == Pair(ConfirmOverwrite, Digit(c.confirmOverwrite))
    ensures ls[5] == Pair(ShowSuccessMessages, Digit(c.showSuccessMessages))
    ensures ls[6] == Pair(ShowOperationSummary, Digit(c.showOperationSummary))
    ensures ls[7] == Pair(VerifyAfterCopy, Digit(c.verifyAfterCopy))
  {
    hide Digit, NOTE1, NOTE2;
  }

  lemma ReadSwitches(c: Settings, d: Settings)
    ensures Read(SwitchLines(c), 9, d) == SetSwitches(c, d)
  {
    hide Digit, Read, Set, NOTE1, NOTE2, SwitchLines;
    var ls := SwitchLines(c);
    SwitchLinesAre(c, ls);
    ReadNothing(ls, d);
    ReadNote(ls, 1, d);
    ReadNote(ls, 2, d);
    ReadNote(ls, 3, d);
    ReadPair(ls, 4, d, ConfirmDelete, Digit(c.confirmDelete));
    ReadPair(ls, 5, d, ConfirmOverwrite, Digit(c.confirmOverwrite));
    ReadPair(ls, 6, d, ShowSuccessMessages, Digit(c.showSuccessMessages));
    ReadPair(ls, 7, d, ShowOperationSummary, Digit(c.showOperationSummary));
    ReadPair(ls, 8, d, VerifyAfterCopy, Digit(c.verifyAfterCopy));
    ReadNote(ls, 9, d);
  }

  lemma SwitchesBack(c: Settings, d: Settings)
    ensures SetSwitches(c, d) == d.(confirmDelete := c.confirmDelete, confirmOverwrite := c.confirmOverwrite,
              showSuccessMessages := c.showSuccessMessages, showOperationSummary := c.showOperationSummary,
              verifyAfterCopy := c.verifyAfterCopy)
  {
    hide Digit, Set;
    var d1 := d.(confirmDelete := c.confirmDelete);
    SetSwitch(c.confirmDelete, d);
    var d2 := d1.(confirmOverwrite := c.confirmOverwrite);
    SetSwitch(c.confirmOverwrite, d1);
    var d3 := d2.(showSuccessMessages := c.showSuccessMessages);
    SetSwitch(c.showSuccessMessages, d2);
    var d4 := d3.(showOperationSummary := c.showOperationSummary);
    SetSwitch(c.showOperationSummary, d3);
    SetSwitch(c.verifyAfterCopy, d4);
  }

  lemma ReadNothing(ls: seq<Line>, d: Settings)
    ensures Read(ls, 0, d) == d
  {
  }

  lemma DigitIsSafe(s: Setting, b: bool)
    requires Known(s)
    ensures SafeLine(Pair(s, Digit(b)))
  {
    DigitParses(b, b);
    hide Plain, Digit, Known;
  }

  lemma EmptyIsSafe()
    ensures SafeLine(Note(""))
  {
  }

  lemma SwitchesAreSafe(c: Settings)
    ensures forall l :: l in SwitchLines(c) ==> SafeLine(l)
  {
    hide Digit, NOTE1, NOTE2, SwitchLines, SafeLine;
    var ls := SwitchLines(c);
    SwitchLinesAre(c, ls);
    Note1IsSafe();
    Note2IsSafe();
    EmptyIsSafe();
    DigitIsSafe(ConfirmDelete, c.confirmDelete);
    DigitIsSafe(ConfirmOverwrite, c.confirmOverwrite);
    DigitIsSafe(ShowSuccessMessages, c.showSuccessMessages);
    DigitIsSafe(ShowOperationSummary, c.showOperationSummary);
    DigitIsSafe(VerifyAfterCopy, c.verifyAfterCopy);
  }

  /** A plain string that fits its field goes through saving and reading unchanged. */
  lemma FieldBack(s: string, capacity: nat)
    requires Plain(s) && |s| < capacity
    ensures Field(Ascii(s), capacity) == s && Plain(Ascii(s))
  {
    AsciiOfPlain(s);
    FieldOfPlain(s, capacity);
  }

  lemma SetPath(v: string, d: Settings)
    requires Plain(v) && |v| < MAX_PATH_LEN
    ensures Set(NtfsDriver, Ascii(v), d) == d.(ntfsDriver := v)
    ensures Set(DefaultLeft, Ascii(v), d) == d.(defaultLeft := v)
    ensures Set(DefaultRight, Ascii(v), d) == d.(defaultRight := v)
    ensures |v| < MAX_FILTER_LEN ==> Set(FilterLeft, Ascii(v), d) == d.(filterLeft := v)
    ensures |v| < MAX_FILTER_LEN ==> Set(FilterRight, Ascii(v), d) == d.(filterRight := v)
  {
    FieldBack(v, MAX_PATH_LEN);
    if |v| < MAX_FILTER_LEN {
      FieldBack(v, MAX_FILTER_LEN);
    }
    hide Field, Ascii, Plain;
  }

  function SetPaths(c: Settings, d: Settings): Settings {
    Set(FilterRight, Ascii(c.filterRight), Set(FilterLeft, Ascii(c.filterLeft),
      Set(DefaultRight, Ascii(c.defaultRight), Set(DefaultLeft, Ascii(c.defaultLeft),
        Set(NtfsDriver, Ascii(c.ntfsDriver), d)))))
  }

  lemma PathLinesAre(c: Settings, ls: seq<Line>)
    requires ls == PathLines(c)
    ensures |ls| == 8 && ls[1] == Note("") && ls[4] == Note("") && ls[7] == Note("")
    ensures ls[0] == Pair(NtfsDriver, Ascii(c.ntfsDriver)) && ls[2] == Pair(DefaultLeft, Ascii(c.defaultLeft))
    ensures ls[3] == Pair(DefaultRight, Ascii(c.defaultRight))
    ensures ls[5] == Pair(FilterLeft, Ascii(c.filterLeft)) && ls[6] == Pair(FilterRight, Ascii(c.filterRight))
  {
    hide Ascii;
  }

  lemma ReadPaths(c: Settings, d: Settings)
    ensures Read(PathLines(c), 8, d) == SetPaths(c, d)
  {
    hide Ascii, Read, Set, PathLines;
    var ls := PathLines(c);
    PathLinesAre(c, ls);
    ReadNothing(ls, d);
    ReadPair(ls, 1, d, NtfsDriver, Ascii(c.ntfsDriver));
    ReadNote(ls, 2, d);
    ReadPair(ls, 3, d, DefaultLeft, Ascii(c.defaultLeft));
    ReadPair(ls, 4, d, DefaultRight, Ascii(c.defaultRight));
    ReadNote(ls, 5, d);
    ReadPair(ls, 6, d, FilterLeft, Ascii(c.filterLeft));
    ReadPair(ls, 7, d, FilterRight, Ascii(c.filterRight));
    ReadNote(ls, 8, d);
  }

  lemma PathsBack(c: Settings, d: Settings)
    requires Fits(c) && AllPlain(c)
    ensures SetPaths(c, d) == d.(ntfsDriver := c.ntfsDriver, defaultLeft := c.defaultLeft,
              defaultRight := c.defaultRight, filterLeft := c.filterLeft, filterRight := c.filterRight)
  {
    hide Ascii, Plain, Set;
    var d1 := d.(ntfsDriver := c.ntfsDriver);
    SetPath(c.ntfsDriver, d);
    var d2 := d1.(defaultLeft := c.defaultLeft);
    SetPath(c.defaultLeft, d1);
    var d3 := d2.(defaultRight := c.defaultRight);
    SetPath(c.defaultRight, d2);
    var d4 := d3.(filterLeft := c.filterLeft);
    SetPath(c.filterLeft, d3);
    SetPath(c.filterRight, d4);
  }

  lemma PathsAreSafe(c: Settings)
    requires AllPlain(c)
    ensures forall l :: l in PathLines(c) ==> SafeLine(l)
  {
    AsciiOfPlain(c.ntfsDriver);
    AsciiOfPlain(c.defaultLeft);
    AsciiOfPlain(c.defaultRight);
    AsciiOfPlain(c.filterLeft);
    AsciiOfPlain(c.filterRight);
    hide Plain, Ascii;
  }

  /** One more than the last hot directory that is not empty. */
  function LastUsed(dirs: seq<string>, n: nat): (k: nat)
    requires n <= |dirs|
    ensures k <= n && (k > 0 ==> dirs[k - 1] != "") && forall i :: k <= i < n ==> dirs[i] == ""
  {
    if n == 0 then 0 else if dirs[n - 1] != "" then n else LastUsed(dirs, n - 1)
  }

  predicate DirsRead(dirs: seq<string>, n: nat, d: Settings, r: Settings)
    requires n <= |dirs| == |d.hotDirs|
  {
    && |r.hotDirs| == |dirs| && (forall i :: 0 <= i < n ==> r.hotDirs[i] == dirs[i])
    && r == d.(hotDirs := r.hotDirs, hotDirCount := LastUsed(dirs, n))
  }

  /** One more directory is read. */
  lemma DirReads(dirs: seq<string>, n: nat, d: Settings, r: Settings)
    requires 1 <= n <= |dirs| == |d.hotDirs| && DirsRead(dirs, n - 1, d, r)
    ensures DirsRead(dirs, n, d, SetHotDir(r, n - 1, dirs[n - 1]))
  {
  }

  lemma DirLine(i: nat, dir: string, r: Settings)
    requires i < |r.hotDirs| == MAX_HOTDIRS && Plain(dir) && |dir| < MAX_PATH_LEN
    ensures ReadOne(Pair(HotDir(i), Ascii(dir)), r) == SetHotDir(r, i, dir)
    ensures SafeLine(Pair(HotDir(i), Ascii(dir)))
  {
    FieldBack(dir, MAX_PATH_LEN);
    hide Field, Ascii, Plain, SetHotDir;
  }

  lemma ReadLast(before: seq<Line>, l: Line, d: Settings)
    ensures Read(before + [l], |before| + 1, d) == ReadOne(l, Read(before, |before|, d))
    ensures (forall x :: x in before ==> SafeLine(x)) && SafeLine(l) ==> forall x :: x in before + [l] ==> SafeLine(x)
  {
    hide ReadOne, SafeLine;
    ReadPrefix(before, [l], |before|, d);
  }

  lemma LinesOf(dirs: seq<string>, n: nat)
    requires n <= |dirs|
    ensures n == 0 ==> HotDirLines(dirs, n) == []
    ensures n > 0 ==> HotDirLines(dirs, n) == HotDirLines(dirs, n - 1) + [Pair(HotDir(n - 1), Ascii(dirs[n - 1]))]
  {
    hide Ascii;
  }

  lemma NoDirsRead(dirs: seq<string>, d: Settings)
    requires |dirs| == |d.hotDirs| && d.hotDirCount == 0
    ensures DirsRead(dirs, 0, d, d)
  {
  }

  lemma {:induction false} ReadHotDirs(dirs: seq<string>, n: nat, d: Settings)
    requires n <= |dirs| == |d.hotDirs| && |dirs| == MAX_HOTDIRS && d.hotDirCount == 0
    requires forall i :: 0 <= i < |dirs| ==> Plain(dirs[i]) && |dirs[i]| < MAX_PATH_LEN
    ensures DirsRead(dirs, n, d, Read(HotDirLines(dirs, n), n, d))
    ensures forall l :: l in HotDirLines(dirs, n) ==> SafeLine(l)
  {
    hide Field, Ascii, Plain, DirsRead, HotDirLines, Read, ReadOne, SafeLine, SetHotDir;
    LinesOf(dirs, n);
    if n == 0 {
      ReadNothing([], d);
      NoDirsRead(dirs, d);
    } else {
      ReadHotDirs(dirs, n - 1, d);
      var before, l := HotDirLines(dirs, n - 1), Pair(HotDir(n - 1), Ascii(dirs[n - 1]));
      var r := Read(before, n - 1, d);
      ReadLast(before, l, d);
      DirLine(n - 1, dirs[n - 1], r);
      DirReads(dirs, n, d, r);
    }
  }

  /** The settings as they come back: all fields as saved, the hot directories counted anew. */
  lemma SavedReadsBack(c: Settings)
    requires Fits(c) && AllPlain(c)
    ensures Parse(Saved(c), DEFAULTS) == c.(hotDirCount := LastUsed(c.hotDirs, MAX_HOTDIRS))
  {
    hide Parse, Text, SwitchLines, PathLines, HotDirLines, Read, SafeLine, LastUsed, Plain, DirsRead, SetSwitches,
      SetPaths;
    var s, p, h := SwitchLines(c), PathLines(c), HotDirLines(c.hotDirs, MAX_HOTDIRS);
    LineCounts(c);
    SwitchesAreSafe(c);
    PathsAreSafe(c);
    ReadSwitches(c, DEFAULTS);
    SwitchesBack(c, DEFAULTS);
    var d1 := Read(s, 9, DEFAULTS);
    ReadPaths(c, d1);
    PathsBack(c, d1);
    var d2 := Read(p, 8, d1);
    ReadHotDirs(c.hotDirs, MAX_HOTDIRS, d2);
    TextJoin(s, p);
    TextJoin(s + p, h);
    ReadJoin(s, p, 8, DEFAULTS);
    ReadJoin(s + p, h, 9, DEFAULTS);
    ParseText(s + p + h, DEFAULTS);
    AllRead(c, d2, Read(h, 9, d2));
  }

  lemma LineCounts(c: Settings)
    ensures |SwitchLines(c)| == 9 && |PathLines(c)| == 8
  {
  }

  lemma AllRead(c: Settings, d: Settings, r: Settings)
    requires |c.hotDirs| == |d.hotDirs| == MAX_HOTDIRS && DirsRead(c.hotDirs, MAX_HOTDIRS, d, r)
    requires d == c.(hotDirs := d.hotDirs, hotDirCount := d.hotDirCount)
    ensures r == c.(hotDirCount := LastUsed(c.hotDirs, MAX_HOTDIRS))
  {
    assert r.hotDirs == c.hotDirs;
  }

  /** Nothing at all is lost exactly when the count was that of the last directory in use. */
  lemma RestoredIffCounted(c: Settings)
    requires Fits(c) && AllPlain(c)
    ensures Parse(Saved(c), DEFAULTS) == c <==> c.hotDirCount == LastUsed(c.hotDirs, MAX_HOTDIRS)
  {
    hide Parse, Saved, LastUsed;
    SavedReadsBack(c);
  }

  /** And it can be lost: a count of one over directories that are all empty is saved, and read back as
      zero. */
  lemma CountNotRestored()
    ensures var c := DEFAULTS.(hotDirCount := 1); Fits(c) && AllPlain(c) && Parse(Saved(c), DEFAULTS) == DEFAULTS != c
  {
    var c := DEFAULTS.(hotDirCount := 1);
    hide Parse, Saved;
    SavedReadsBack(c);
  }
}
