/** EC.ini as a user sees it (ec/Config.c): the exact text that is saved, and which lines set what. */
module IniFormat {
  import opened IniText

  // ---------------------------------------------------------------- the text

  function Joined(lines: seq<string>): string {
    if lines == [] then "" else lines[0] + "\r\n" + Joined(lines[1..])
  }

  lemma {:induction false} TextIsJoined(ls: seq<Line>, lines: seq<string>)
    requires |ls| == |lines| && forall i :: 0 <= i < |ls| ==> LineText(ls[i]) == lines[i] + "\r\n"
    ensures Text(ls) == Joined(lines)
  {
    hide LineText;
    if ls != [] {
      TextIsJoined(ls[1..], lines[1..]);
    }
  }

  /** Characters outside ASCII stand as question marks. */
  predicate Printed(s: string, t: string) {
    |t| == |s| && forall i :: 0 <= i < |s| ==> t[i] == if s[i] as int < 128 then s[i] else '?'
  }

  function OnOff(b: bool): string {
    if b then "1" else "0"
  }

  function SwitchText(c: Settings): seq<string> {
    ["; EC.ini - saved by the " + "EC F9 settings menu.",
     "; Values: 0/1. Paths use UEFI " + "volume names such as fs0:\\",
     "",
     "ConfirmDelete" + "=" + OnOff(c.confirmDelete), "ConfirmOverwrite" + "=" + OnOff(c.confirmOverwrite),
     "ShowSuccessMessages" + "=" + OnOff(c.showSuccessMessages),
     "ShowOperationSummary" + "=" + OnOff(c.showOperationSummary),
     "VerifyAfterCopy" + "=" + OnOff(c.verifyAfterCopy),
     ""]
  }

  function PathText(driver: string, left: string, right: string, filterLeft: string, filterRight: string): seq<string> {
    ["NtfsDriverPath" + "=" + driver, "", "DefaultLeft" + "=" + left, "DefaultRight" + "=" + right, "",
     "FilterLeft" + "=" + filterLeft, "FilterRight" + "=" + filterRight, ""]
  }

  function DirText(dirs: seq<string>): seq<string>
    requires |dirs| == 9
  {
    ["HotDir1" + "=" + dirs[0], "HotDir2" + "=" + dirs[1], "HotDir3" + "=" + dirs[2], "HotDir4" + "=" + dirs[3],
     "HotDir5" + "=" + dirs[4], "HotDir6" + "=" + dirs[5], "HotDir7" + "=" + dirs[6], "HotDir8" + "=" + dirs[7],
     "HotDir9" + "=" + dirs[8]]
  }

  lemma PairText(s: Setting, value: string, key: string)
    requires KeyOf(s) == key
    ensures LineText(Pair(s, value)) == key + "=" + value + "\r\n"
  {
    hide KeyOf;
  }

  lemma NoteText(text: string)
    ensures LineText(Note(text)) == text + "\r\n"
  {
  }

  lemma PrintedIs(s: string, t: string)
    requires Printed(s, t)
    ensures Ascii(s) == t
  {
  }

  lemma SwitchTextIs(c: Settings)
    ensures Text(SwitchLines(c)) == Joined(SwitchText(c))
  {
    var ls, lines := SwitchLines(c), SwitchText(c);
    SwitchLinesAre(c, ls);
    NoteText(NOTE1);
    NoteText(NOTE2);
    NoteText("");
    PairText(ConfirmDelete, Digit(c.confirmDelete), "ConfirmDelete");
    PairText(ConfirmOverwrite, Digit(c.confirmOverwrite), "ConfirmOverwrite");
    PairText(ShowSuccessMessages, Digit(c.showSuccessMessages), "ShowSuccessMessages");
    PairText(ShowOperationSummary, Digit(c.showOperationSummary), "ShowOperationSummary");
    PairText(VerifyAfterCopy, Digit(c.verifyAfterCopy), "VerifyAfterCopy");
    hide LineText, Text, Joined, SwitchLines, KeyOf;
    TextIsJoined(ls, lines);
  }

  lemma PrintedPair(s: Setting, v: string, t: string, key: string)
    requires Printed(v, t) && KeyOf(s) == key
    ensures LineText(Pair(s, Ascii(v))) == key + "=" + t + "\r\n"
  {
    PrintedIs(v, t);
    hide KeyOf, Ascii, Printed;
  }

  lemma PathTextIs(c: Settings, driver: string, left: string, right: string, filterLeft: string, filterRight: string)
    requires Printed(c.ntfsDriver, driver) && Printed(c.defaultLeft, left) && Printed(c.defaultRight, right)
    requires Printed(c.filterLeft, filterLeft) && Printed(c.filterRight, filterRight)
    ensures Text(PathLines(c)) == Joined(PathText(driver, left, right, filterLeft, filterRight))
  {
    hide LineText, Text, Joined, PathLines, Printed, Ascii;
    var ls, lines := PathLines(c), PathText(driver, left, right, filterLeft, filterRight);
    PathLinesAre(c, ls);
    NoteText("");
    PrintedPair(NtfsDriver, c.ntfsDriver, driver, "NtfsDriverPath");
    PrintedPair(DefaultLeft, c.defaultLeft, left, "DefaultLeft");
    PrintedPair(DefaultRight, c.defaultRight, right, "DefaultRight");
    PrintedPair(FilterLeft, c.filterLeft, filterLeft, "FilterLeft");
    PrintedPair(FilterRight, c.filterRight, filterRight, "FilterRight");
    hide KeyOf;
    TextIsJoined(ls, lines);
  }

  /** The directories as they are printed, in order. */
  predicate AllPrinted(dirs: seq<string>, texts: seq<string>) {
    |dirs| == |texts| == 9 && forall i :: 0 <= i < 9 ==> Printed(dirs[i], texts[i])
  }

  lemma HotDirKeys()
    ensures KeyOf(HotDir(0)) == "HotDir1" && KeyOf(HotDir(1)) == "HotDir2" && KeyOf(HotDir(2)) == "HotDir3"
    ensures KeyOf(HotDir(3)) == "HotDir4" && KeyOf(HotDir(4)) == "HotDir5" && KeyOf(HotDir(5)) == "HotDir6"
    ensures KeyOf(HotDir(6)) == "HotDir7" && KeyOf(HotDir(7)) == "HotDir8" && KeyOf(HotDir(8)) == "HotDir9"
  {
  }

  lemma {:induction false} HotDirLine(dirs: seq<string>, n: nat, i: nat)
    requires i < n <= |dirs|
    ensures HotDirLines(dirs, n)[i] == Pair(HotDir(i), Ascii(dirs[i]))
  {
    hide Ascii;
    if i < n - 1 {
      HotDirLine(dirs, n - 1, i);
    }
  }

  lemma DirTextIs(dirs: seq<string>, texts: seq<string>)
    requires AllPrinted(dirs, texts)
    ensures Text(HotDirLines(dirs, 9)) == Joined(DirText(texts))
  {
    hide LineText, Text, Joined, HotDirLines, Printed, Ascii, KeyOf;
    var ls, lines := HotDirLines(dirs, 9), DirText(texts);
    HotDirKeys();
    forall i | 0 <= i < 9 ensures LineText(ls[i]) == lines[i] + "\r\n" {
      HotDirLine(dirs, 9, i);
      PrintedPair(HotDir(i), dirs[i], texts[i], KeyOf(HotDir(i)));
      DirTextAt(texts, i);
    }
    TextIsJoined(ls, lines);
  }

  lemma DirTextAt(texts: seq<string>, i: nat)
    requires |texts| == 9 && i < 9
    ensures DirText(texts)[i] == KeyOf(HotDir(i)) + "=" + texts[i]
  {
    HotDirKeys();
    hide KeyOf;
  }

  /** The whole file, word for word. */
  lemma SavedTextIs(c: Settings, driver: string, left: string, right: string, filterLeft: string, filterRight: string,
                    dirs: seq<string>)
    requires Printed(c.ntfsDriver, driver) && Printed(c.defaultLeft, left) && Printed(c.defaultRight, right)
    requires Printed(c.filterLeft, filterLeft) && Printed(c.filterRight, filterRight) && AllPrinted(c.hotDirs, dirs)
    ensures Saved(c) == Joined(SwitchText(c)) + Joined(PathText(driver, left, right, filterLeft, filterRight))
                        + Joined(DirText(dirs))
  {
    hide Text, Joined, Printed, SwitchText, PathText, DirText, SwitchLines, PathLines, HotDirLines;
    SwitchTextIs(c);
    PathTextIs(c, driver, left, right, filterLeft, filterRight);
    DirTextIs(c.hotDirs, dirs);
  }

  // ---------------------------------------------------------------- what a line sets

  lemma IsSame(a: string, b: string, l: string)
    requires Is(a, b)
    ensures Is(a, l) <==> Is(b, l)
  {
    hide Up;
    if Is(a, l) {
      forall i | 0 <= i < |b| ensures Up(b[i]) == Up(l[i]) {
        assert Up(a[i]) == Up(b[i]);
      }
    }
    if Is(b, l) {
      forall i | 0 <= i < |a| ensures Up(a[i]) == Up(l[i]) {
        assert Up(a[i]) == Up(b[i]);
      }
    }
  }

  lemma IsFront(a: string, b: string, n: nat)
    requires Is(a, b) && n <= |a|
    ensures Is(a[..n], b[..n])
  {
    hide Up;
  }

  /** Keys that differ in case only name the same setting. */
  lemma SameWhich(a: string, b: string)
    requires Is(a, b)
    ensures Which(a) == Which(b)
  {
    IsSame(a, b, "ConfirmDelete");
    IsSame(a, b, "ConfirmOverwrite");
    IsSame(a, b, "ShowSuccessMessages");
    IsSame(a, b, "ShowOperationSummary");
    IsSame(a, b, "VerifyAfterCopy");
    IsSame(a, b, "DefaultLeft");
    IsSame(a, b, "DefaultRight");
    IsSame(a, b, "FilterLeft");
    IsSame(a, b, "FilterRight");
    IsSame(a, b, "NtfsDriverPath");
    IsSame(a, b, "NtfsDriver");
    if |a| == 7 {
      assert Up(a[6]) == Up(b[6]);
      assert '1' <= a[6] <= '9' || '1' <= b[6] <= '9' ==> a[6] == b[6];
      IsFront(a, b, 6);
      IsSame(a[..6], b[..6], "HotDir");
    }
    hide Is, Up;
  }

  /** What a switch is set to: on and off each have five spellings, and anything else changes nothing. */
  predicate Spells(v: string, words: seq<string>) {
    exists i :: 0 <= i < |words| && Is(v, words[i])
  }

  const ON := ["1", "Y", "YES", "TRUE", "ON"]
  const OFF := ["0", "N", "NO", "FALSE", "OFF"]

  lemma SpellsIs(v: string)
    ensures Spells(v, ON) <==> Is(v, "1") || Is(v, "Y") || Is(v, "YES") || Is(v, "TRUE") || Is(v, "ON")
    ensures Spells(v, OFF) <==> Is(v, "0") || Is(v, "N") || Is(v, "NO") || Is(v, "FALSE") || Is(v, "OFF")
  {
    hide Is;
    assert ON[0] == "1" && ON[1] == "Y" && ON[2] == "YES" && ON[3] == "TRUE" && ON[4] == "ON";
    assert OFF[0] == "0" && OFF[1] == "N" && OFF[2] == "NO" && OFF[3] == "FALSE" && OFF[4] == "OFF";
  }

  lemma OnIsNotOff(v: string)
    ensures !(Spells(v, ON) && Spells(v, OFF))
  {
    SpellsIs(v);
    hide Spells;
    Apart(v, "1", "0");
    Apart(v, "1", "N");
    Apart(v, "Y", "0");
    Apart(v, "Y", "N");
    Apart(v, "YES", "OFF");
    Apart(v, "ON", "NO");
  }

  lemma Apart(v: string, a: string, b: string)
    requires a != "" && b != "" && Up(a[0]) != Up(b[0])
    ensures !(Is(v, a) && Is(v, b))
  {
    hide Up;
    if Is(v, a) {
      assert Up(v[0]) == Up(a[0]);
    }
  }

  predicate Switched(v: string, was: bool) {
    (was || Spells(v, ON)) && !Spells(v, OFF)
  }

  lemma BoolMeans(v: string, was: bool)
    requires Plain(v)
    ensures ParseBool(v, was) == Switched(v, was)
  {
    TrimPlain(v);
    SpellsIs(v);
    OnIsNotOff(v);
    hide Is, Spells, Plain, Trim;
  }

  function Cut(v: string, n: nat): string {
    if |v| <= n then v else v[..n]
  }

  lemma {:induction false} FieldIsCut(v: string, capacity: nat)
    requires capacity >= 1 && forall i :: 0 <= i < |v| ==> ' ' <= v[i] <= '~'
    ensures Field(v, capacity) == Cut(v, capacity - 1)
  {
    if v != "" && capacity > 1 {
      FieldIsCut(v[1..], capacity - 1);
    }
  }

  /** Of any value: the longest beginning without a NUL for which the field has room. */
  lemma {:induction false} FieldMeans(v: string, capacity: nat)
    requires capacity >= 1
    ensures var f := Field(v, capacity);
            && |f| <= |v| && f == v[..|f|] && '\0' !in f && |f| < capacity
            && (|f| == capacity - 1 || |f| == |v| || v[|f|] == '\0')
  {
    if v != "" && capacity > 1 && v[0] != '\0' {
      FieldMeans(v[1..], capacity - 1);
      var f := Field(v[1..], capacity - 1);
      assert Field(v, capacity) == [v[0]] + f;
      assert v[..|f| + 1] == [v[0]] + v[1..][..|f|];
    }
  }

  lemma LineSets(key: string, name: string, value: string, c: Settings, s: Setting)
    requires KeyWord(key) && Plain(value) && Is(key, name) && Which(name) == Some(s)
    ensures ParseLine(key + "=" + value + "\r", c) == Set(s, value, c)
  {
    hide Which, Set, ParseLine, Is, KeyWord, Plain;
    SameWhich(key, name);
    ParsePair(key, value, c);
  }

  // The switches, one by one.

  lemma ConfirmDeleteMeans(key: string, value: string, c: Settings)
    requires KeyWord(key) && Plain(value) && Is(key, "ConfirmDelete")
    ensures ParseLine(key + "=" + value + "\r", c)
            == c.(confirmDelete := Switched(value, c.confirmDelete))
  {
    BoolMeans(value, c.confirmDelete);
    WhichKey(ConfirmDelete);
    hide Is, Which, ParseBool, Switched, ParseLine, KeyWord, Plain;
    LineSets(key, "ConfirmDelete", value, c, ConfirmDelete);
  }

  lemma ConfirmOverwriteMeans(key: string, value: string, c: Settings)
    requires KeyWord(key) && Plain(value) && Is(key, "ConfirmOverwrite")
    ensures ParseLine(key + "=" + value + "\r", c)
            == c.(confirmOverwrite := Switched(value, c.confirmOverwrite))
  {
    BoolMeans(value, c.confirmOverwrite);
    WhichKey(ConfirmOverwrite);
    hide Is, Which, ParseBool, Switched, ParseLine, KeyWord, Plain;
    LineSets(key, "ConfirmOverwrite", value, c, ConfirmOverwrite);
  }

  lemma ShowSuccessMessagesMeans(key: string, value: string, c: Settings)
    requires KeyWord(key) && Plain(value) && Is(key, "ShowSuccessMessages")
    ensures ParseLine(key + "=" + value + "\r", c)
            == c.(showSuccessMessages := Switched(value, c.showSuccessMessages))
  {
    BoolMeans(value, c.showSuccessMessages);
    WhichKey(ShowSuccessMessages);
    hide Is, Which, ParseBool, Switched, ParseLine, KeyWord, Plain;
    LineSets(key, "ShowSuccessMessages", value, c, ShowSuccessMessages);
  }

  lemma ShowOperationSummaryMeans(key: string, value: string, c: Settings)
    requires KeyWord(key) && Plain(value) && Is(key, "ShowOperationSummary")
    ensures ParseLine(key + "=" + value + "\r", c)
            == c.(showOperationSummary := Switched(value, c.showOperationSummary))
  {
    BoolMeans(value, c.showOperationSummary);
    WhichKey(ShowOperationSummary);
    hide Is, Which, ParseBool, Switched, ParseLine, KeyWord, Plain;
    LineSets(key, "ShowOperationSummary", value, c, ShowOperationSummary);
  }

  lemma VerifyAfterCopyMeans(key: string, value: string, c: Settings)
    requires KeyWord(key) && Plain(value) && Is(key, "VerifyAfterCopy")
    ensures ParseLine(key + "=" + value + "\r", c)
            == c.(verifyAfterCopy := Switched(value, c.verifyAfterCopy))
  {
    BoolMeans(value, c.verifyAfterCopy);
    WhichKey(VerifyAfterCopy);
    hide Is, Which, ParseBool, Switched, ParseLine, KeyWord, Plain;
    LineSets(key, "VerifyAfterCopy", value, c, VerifyAfterCopy);
  }

  lemma DriverKeys()
    ensures Which("NtfsDriver") == Some(NtfsDriver) && Which("NtfsDriverPath") == Some(NtfsDriver)
  {
    WhichKey(NtfsDriver);
    IsItself("NtfsDriver");
    Differs("NtfsDriver", "FilterLeft");
    hide Up;
  }

  /** The paths and filters, cut where their fields end. */
  lemma PathsMean(key: string, value: string, c: Settings)
    requires KeyWord(key) && Plain(value)
    ensures var r := ParseLine(key + "=" + value + "\r", c);
            && (Is(key, "DefaultLeft") ==> r == c.(defaultLeft := Cut(value, 511)))
            && (Is(key, "DefaultRight") ==> r == c.(defaultRight := Cut(value, 511)))
            && (Is(key, "FilterLeft") ==> r == c.(filterLeft := Cut(value, 127)))
            && (Is(key, "FilterRight") ==> r == c.(filterRight := Cut(value, 127)))
            && (Is(key, "NtfsDriverPath") || Is(key, "NtfsDriver") ==> r == c.(ntfsDriver := Cut(value, 511)))
  {
    FieldIsCut(value, 512);
    FieldIsCut(value, 128);
    WhichKey(DefaultLeft);
    WhichKey(DefaultRight);
    WhichKey(FilterLeft);
    WhichKey(FilterRight);
    DriverKeys();
    hide Is, Which, Field, ParseLine, KeyWord, Plain, Cut;
    if Is(key, "DefaultLeft") {
      LineSets(key, "DefaultLeft", value, c, DefaultLeft);
    }
    if Is(key, "DefaultRight") {
      LineSets(key, "DefaultRight", value, c, DefaultRight);
    }
    if Is(key, "FilterLeft") {
      LineSets(key, "FilterLeft", value, c, FilterLeft);
    }
    if Is(key, "FilterRight") {
      LineSets(key, "FilterRight", value, c, FilterRight);
    }
    if Is(key, "NtfsDriverPath") {
      LineSets(key, "NtfsDriverPath", value, c, NtfsDriver);
    }
    if Is(key, "NtfsDriver") {
      LineSets(key, "NtfsDriver", value, c, NtfsDriver);
    }
  }

  /** HotDir1 to HotDir9, which raise the count when they are not empty. */
  lemma HotDirsMean(key: string, i: nat, value: string, c: Settings)
    requires KeyWord(key) && Plain(value) && i < 9 && |c.hotDirs| == 9
    requires |key| == 7 && Is(key[..6], "HotDir") && key[6] as int == '1' as int + i
    ensures ParseLine(key + "=" + value + "\r", c)
            == c.(hotDirs := c.hotDirs[i := Cut(value, 511)],
                  hotDirCount := if value == "" || i < c.hotDirCount then c.hotDirCount else i + 1)
  {
    FieldIsCut(value, 512);
    WhichKey(HotDir(i));
    var name := KeyOf(HotDir(i));
    assert name[..6] == "HotDir" && name[6] == key[6];
    JoinIs(key, name);
    hide Is, Which, Field, ParseLine, KeyWord, Plain;
    LineSets(key, name, value, c, HotDir(i));
  }

  lemma JoinIs(key: string, name: string)
    requires |key| == |name| == 7 && Is(key[..6], name[..6]) && key[6] == name[6]
    ensures Is(key, name)
  {
    hide Up;
    forall i | 0 <= i < 7 ensures Up(key[i]) == Up(name[i]) {
      if i < 6 {
        assert Up(key[..6][i]) == Up(name[..6][i]);
      }
    }
  }

  // ---------------------------------------------------------------- blanks, comments and ends of lines

  predicate Blanks(s: string) {
    forall i :: 0 <= i < |s| ==> s[i] == ' ' || s[i] == '\t'
  }

  lemma {:induction false} LeftBlanks(a: string, s: string)
    requires Blanks(a)
    ensures TrimLeft(a + s) == TrimLeft(s)
  {
    if a == "" {
      assert a + s == s;
    } else {
      LeftBlanks(a[1..], s);
      assert (a + s)[1..] == a[1..] + s;
    }
  }

  lemma {:induction false} RightBlanks(s: string, a: string, crToo: bool)
    requires Blanks(a)
    ensures TrimRight(s + a, crToo) == TrimRight(s, crToo)
  {
    if a == "" {
      assert s + a == s;
    } else {
      var n := |a| - 1;
      RightBlanks(s, a[..n], crToo);
      assert (s + a)[..|s + a| - 1] == s + a[..n];
    }
  }

  lemma CrTrimmed(s: string)
    ensures TrimRight(s + "\r", true) == TrimRight(s, true)
  {
    assert (s + "\r")[..|s + "\r"| - 1] == s;
  }

  lemma TrimmedKey(key: string, b: string)
    requires KeyWord(key) && Blanks(b)
    ensures Trim(key + b, false) == key
  {
    assert (key + b)[0] == key[0];
    assert TrimLeft(key + b) == key + b;
    RightBlanks(key, b, false);
  }

  lemma BehindValue(value: string, e: string)
    requires Plain(value) && Blanks(e)
    ensures TrimRight(value + e + "\r", true) == value
  {
    CrTrimmed(value + e);
    RightBlanks(value, e, true);
    hide Blanks;
  }

  lemma TrimmedValue(c: string, value: string, e: string)
    requires Plain(value) && Blanks(c) && Blanks(e)
    ensures Trim(c + value + e + "\r", true) == value
  {
    assert c + value + e + "\r" == c + (value + e + "\r");
    LeftBlanks(c, value + e + "\r");
    if value == "" {
      assert value + e + "\r" == e + "\r";
      LeftBlanks(e, "\r");
    } else {
      BehindValue(value, e);
      assert (value + e + "\r")[0] == value[0];
      hide TrimRight, Blanks;
    }
  }

  /** Blanks and tabs at the beginning of the line, around the equals sign and at the end do not count. */
  lemma BlanksDoNotCount(a: string, key: string, b: string, c: string, value: string, e: string, s: Settings)
    requires KeyWord(key) && Plain(value) && Blanks(a) && Blanks(b) && Blanks(c) && Blanks(e)
    ensures ParseLine(a + (key + b) + "=" + (c + value + e + "\r"), s) == ParseLine(key + "=" + value + "\r", s)
  {
    hide Apply, Which, Set, Trim;
    var rest := c + value + e + "\r";
    var text := key + b + "=" + rest;
    assert a + (key + b) + "=" + rest == a + text;
    LeftBlanks(a, text);
    assert text[0] == key[0] && TrimLeft(text) == text;
    assert forall i :: 0 <= i < |key + b| ==> text[i] == (key + b)[i];
    IndexIs(text, '=', |key + b|);
    assert text[..|key + b|] == key + b && text[|key + b| + 1..] == rest;
    ApplyTrimmed(key + b, key, rest, value, s);
    ParsePair(key, value, s);
  }

  lemma ApplyTrimmed(k: string, key: string, v: string, value: string, s: Settings)
    requires KeyWord(key) && Plain(value)
    requires exists b :: Blanks(b) && k == key + b
    requires exists c, e :: Blanks(c) && Blanks(e) && v == c + value + e + "\r"
    ensures Apply(k, v, s) == (match Which(key) case None => s case Some(x) => Set(x, value, s))
  {
    var b :| Blanks(b) && k == key + b;
    TrimmedKey(key, b);
    var c, e :| Blanks(c) && Blanks(e) && v == c + value + e + "\r";
    TrimmedValue(c, value, e);
    hide Trim, Which, Set;
  }

  /** A line that is a comment or a section, or has no equals sign, sets nothing. */
  lemma OthersSetNothing(a: string, text: string, s: Settings)
    requires Blanks(a) && (text != "" ==> text[0] != ' ' && text[0] != '\t')
    requires text == "" || text[0] in "#;[" || '=' !in text
    ensures ParseLine(a + text, s) == s
  {
    LeftBlanks(a, text);
    assert TrimLeft(text) == text;
    hide Apply;
  }

  /** A text is read line by line, the last one with or without an end. */
  lemma LinesAreRead(line: string, rest: string, s: Settings)
    requires '\n' !in line
    ensures Parse(line + "\n" + rest, s) == Parse(rest, ParseLine(line, s))
    ensures line != "" ==> Parse(line, s) == ParseLine(line, s)
  {
    ParseFirst(line, rest, s);
    hide ParseLine;
    if line != "" {
      IndexIs(line, '\n', |line|);
      assert line[..|line|] == line;
    }
  }
}
