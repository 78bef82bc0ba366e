/** The settings in memory (ec/Config.c): the parser that assigns its fields one by one, and the save
    that appends to a buffer line by line. */
module IniFile {
  import opened IniText

  // ---------------------------------------------------------------- reading

  method TrimBlanks(s: string, crToo: bool) returns (t: string)
    ensures t == Trim(s, crToo)
  {
    t := s;
    while |t| > 0 && Blank(t[0])
      invariant TrimLeft(t) == TrimLeft(s)
      decreases |t|
    {
      t := t[1..];
    }
    ghost var left := t;
    while |t| > 0 && (Blank(t[|t| - 1]) || (crToo && t[|t| - 1] == '\r'))
      invariant TrimRight(t, crToo) == TrimRight(left, crToo)
      decreases |t|
    {
      t := t[..|t| - 1];
    }
  }

  method AsciiEqNoCase(a: string, b: string) returns (same: bool)
    requires |a| == |b|
    ensures same == Is(a, b)
  {
    hide Up;
    var i := 0;
    while i < |a|
      invariant i <= |a| && forall j :: 0 <= j < i ==> Up(a[j]) == Up(b[j])
    {
      if Up(a[i]) != Up(b[i]) {
        return false;
      }
      i := i + 1;
    }
    return true;
  }

  method IsKey(a: string, b: string) returns (same: bool)
    ensures same == Is(a, b)
  {
    if |a| != |b| {
      return false;
    }
    same := AsciiEqNoCase(a, b);
  }

  method ParseBoolean(value: string, fallback: bool) returns (b: bool)
    ensures b == ParseBool(value, fallback)
  {
    hide Is, Trim;
    var v := TrimBlanks(value, true);
    var yes := IsKey(v, "1");
    if yes { return true; }
    yes := IsKey(v, "Y");
    if yes { return true; }
    yes := IsKey(v, "0");
    if yes { return false; }
    yes := IsKey(v, "N");
    if yes { return false; }
    yes := IsKey(v, "TRUE");
    if yes { return true; }
    yes := IsKey(v, "FALSE");
    if yes { return false; }
    yes := IsKey(v, "YES");
    if yes { return true; }
    yes := IsKey(v, "NO");
    if yes { return false; }
    yes := IsKey(v, "ON");
    if yes { return true; }
    yes := IsKey(v, "OFF");
    if yes { return false; }
    return fallback;
  }

  /** Copy into a field, up to a NUL and as much as there is room for. */
  method AsciiToUnicode(value: string, capacity: nat) returns (field: string)
    requires capacity >= 1
    ensures field == Field(value, capacity)
  {
    hide Field;
    field := "";
    FieldFromStart(value, capacity);
    while |field| + 1 < capacity && |field| < |value| && value[|field|] != '\0'
      invariant |field| < capacity && |field| <= |value|
      invariant Field(value, capacity) == field + Field(value[|field|..], capacity - |field|)
      decreases |value| - |field|
    {
      FieldStep(value, |field|, capacity);
      Joins(field, [value[|field|]], Field(value[|field| + 1..], capacity - |field| - 1));
      field := field + [value[|field|]];
    }
    FieldEnds(value, |field|, capacity);
    assert field + "" == field;
  }

  lemma FieldFromStart(value: string, capacity: nat)
    requires capacity >= 1
    ensures Field(value, capacity) == "" + Field(value[0..], capacity)
  {
    hide Field;
    assert value[0..] == value;
  }

  lemma FieldStep(value: string, k: nat, capacity: nat)
    requires k + 1 < capacity && k < |value| && value[k] != '\0'
    ensures Field(value[k..], capacity - k) == [value[k]] + Field(value[k + 1..], capacity - k - 1)
  {
    assert value[k..][1..] == value[k + 1..];
  }

  lemma FieldEnds(value: string, k: nat, capacity: nat)
    requires k < capacity && k <= |value| && (k + 1 == capacity || k == |value| || value[k] == '\0')
    ensures Field(value[k..], capacity - k) == ""
  {
  }

  /** The chain of comparisons that finds what a key names. */
  method FindSetting(key: string) returns (s: Option<Setting>)
    ensures s == Which(key)
  {
    hide Is;
    var yes := IsKey(key, "ConfirmDelete");
    if yes { return Some(ConfirmDelete); }
    yes := IsKey(key, "ConfirmOverwrite");
    if yes { return Some(ConfirmOverwrite); }
    yes := IsKey(key, "ShowSuccessMessages");
    if yes { return Some(ShowSuccessMessages); }
    yes := IsKey(key, "ShowOperationSummary");
    if yes { return Some(ShowOperationSummary); }
    yes := IsKey(key, "VerifyAfterCopy");
    if yes { return Some(VerifyAfterCopy); }
    yes := IsKey(key, "DefaultLeft");
    if yes { return Some(DefaultLeft); }
    yes := IsKey(key, "DefaultRight");
    if yes { return Some(DefaultRight); }
    yes := IsKey(key, "FilterLeft");
    if yes { return Some(FilterLeft); }
    yes := IsKey(key, "FilterRight");
    if yes { return Some(FilterRight); }
    yes := IsKey(key, "NtfsDriverPath");
    if yes { return Some(NtfsDriver); }
    yes := IsKey(key, "NtfsDriver");
    if yes { return Some(NtfsDriver); }
    if |key| == 7 {
      yes := IsKey(key[..6], "HotDir");
      if yes && '1' <= key[6] <= '9' {
        return Some(HotDir(key[6] as int - '1' as int));
      }
    }
    return None;
  }

  /** The first n characters behind a position, and what follows them. */
  lemma SliceAt(data: string, pos: nat, n: nat)
    requires pos + n <= |data|
    ensures data[pos..][..n] == data[pos..pos + n] && data[pos..][n..] == data[pos + n..]
  {
  }

  lemma ParseStep(text: string, n: nat, next: nat, c: Settings)
    requires text != "" && n <= |text| && (forall i :: 0 <= i < n ==> text[i] != '\n')
             && (n < |text| ==> text[n] == '\n')
    requires next == if n < |text| then n + 1 else n
    ensures Parse(text, c) == Parse(text[next..], ParseLine(text[..n], c))
  {
    hide ParseLine, Index;
    IndexIs(text, '\n', n);
  }

  lemma ParseNext(data: string, pos: nat, end: nat, c: Settings)
    requires pos < |data| && pos <= end <= |data| && (forall i :: pos <= i < end ==> data[i] != '\n')
    requires end < |data| ==> data[end] == '\n'
    ensures var next := if end < |data| then end + 1 else end;
            Parse(data[pos..], c) == Parse(data[next..], ParseLine(data[pos..end], c))
  {
    hide *;
    var n, next := end - pos, if end < |data| then end + 1 else end;
    SliceAt(data, pos, n);
    SliceAt(data, pos, next - pos);
    ParseStep(data[pos..], n, next - pos, c);
  }

  class Config {
    var confirmDelete: bool
    var confirmOverwrite: bool
    var showSuccessMessages: bool
    var showOperationSummary: bool
    var verifyAfterCopy: bool
    var defaultLeft: string
    var defaultRight: string
    var filterLeft: string
    var filterRight: string
    var ntfsDriver: string
    var hotDirs: seq<string>
    var hotDirCount: nat

    function View(): Settings
      reads this
    {
      Settings(confirmDelete, confirmOverwrite, showSuccessMessages, showOperationSummary, verifyAfterCopy,
                        defaultLeft, defaultRight, filterLeft, filterRight, ntfsDriver, hotDirs, hotDirCount)
    }

    constructor ()
      ensures View() == DEFAULTS
    {
      confirmDelete, confirmOverwrite, showSuccessMessages := false, false, false;
      showOperationSummary, verifyAfterCopy := false, false;
      defaultLeft, defaultRight, filterLeft, filterRight, ntfsDriver := "", "", "*", "*", "";
      hotDirs, hotDirCount := ["", "", "", "", "", "", "", "", ""], 0;
    }

    method AssignSwitch(s: Setting, value: string)
      requires s.ConfirmDelete? || s.ConfirmOverwrite? || s.ShowSuccessMessages? || s.ShowOperationSummary?
               || s.VerifyAfterCopy?
      modifies this
      ensures View() == Set(s, value, old(View()))
    {
      hide ParseBool;
      match s
      case ConfirmDelete => confirmDelete := ParseBoolean(value, confirmDelete);
      case ConfirmOverwrite => confirmOverwrite := ParseBoolean(value, confirmOverwrite);
      case ShowSuccessMessages => showSuccessMessages := ParseBoolean(value, showSuccessMessages);
      case ShowOperationSummary => showOperationSummary := ParseBoolean(value, showOperationSummary);
      case VerifyAfterCopy => verifyAfterCopy := ParseBoolean(value, verifyAfterCopy);
    }

    method AssignPath(s: Setting, value: string)
      requires s.DefaultLeft? || s.DefaultRight? || s.NtfsDriver?
      modifies this
      ensures View() == Set(s, value, old(View()))
    {
      hide Field;
      match s
      case DefaultLeft => defaultLeft := AsciiToUnicode(value, MAX_PATH_LEN);
      case DefaultRight => defaultRight := AsciiToUnicode(value, MAX_PATH_LEN);
      case NtfsDriver => ntfsDriver := AsciiToUnicode(value, MAX_PATH_LEN);
    }

    method AssignFilter(s: Setting, value: string)
      requires s.FilterLeft? || s.FilterRight?
      modifies this
      ensures View() == Set(s, value, old(View()))
    {
      hide Field;
      match s
      case FilterLeft => filterLeft := AsciiToUnicode(value, MAX_FILTER_LEN);
      case FilterRight => filterRight := AsciiToUnicode(value, MAX_FILTER_LEN);
    }

    method AssignHotDir(i: nat, value: string)
      modifies this
      ensures View() == Set(HotDir(i), value, old(View()))
    {
      hide Field;
      if i < |hotDirs| {
        var dir := AsciiToUnicode(value, MAX_PATH_LEN);
        hotDirs := hotDirs[i := dir];
        if dir != "" && i + 1 > hotDirCount {
          hotDirCount := i + 1;
        }
      }
    }

    method ApplyKeyValue(key: string, value: string)
      requires |hotDirs| == MAX_HOTDIRS
      modifies this
      ensures View() == Apply(key, value, old(View()))
    {
      hide Which, Set, Trim;
      var k := TrimBlanks(key, false);
      var v := TrimBlanks(value, true);
      var s := FindSetting(k);
      if s.Some? {
        if s.value.HotDir? {
          AssignHotDir(s.value.index, v);
        } else if s.value.DefaultLeft? || s.value.DefaultRight? || s.value.NtfsDriver? {
          AssignPath(s.value, v);
        } else if s.value.FilterLeft? || s.value.FilterRight? {
          AssignFilter(s.value, v);
        } else {
          AssignSwitch(s.value, v);
        }
      }
    }

    /** One line: a comment, a pair, or neither. */
    method ReadLine(line: string)
      requires |hotDirs| == MAX_HOTDIRS
      modifies this
      ensures View() == ParseLine(line, old(View()))
    {
      hide Apply;
      var text := line;
      while |text| > 0 && Blank(text[0])
        invariant TrimLeft(text) == TrimLeft(line)
        invariant View() == old(View())
        decreases |text|
      {
        text := text[1..];
      }
      if |text| == 0 || text[0] == '#' || text[0] == ';' || text[0] == '[' {
        return;
      }
      var eq := 0;
      while eq < |text| && text[eq] != '='
        invariant eq <= |text| && forall i :: 0 <= i < eq ==> text[i] != '='
        invariant View() == old(View())
      {
        eq := eq + 1;
      }
      IndexIs(text, '=', eq);
      if eq < |text| {
        ApplyKeyValue(text[..eq], text[eq + 1..]);
      }
    }

    method ParseIni(data: string)
      requires |hotDirs| == MAX_HOTDIRS
      modifies this
      ensures View() == Parse(data, old(View()))
    {
      hide Parse, ParseLine;
      var pos := 0;
      assert data[0..] == data;
      while pos < |data|
        invariant pos <= |data| && |hotDirs| == MAX_HOTDIRS
        invariant Parse(data[pos..], View()) == Parse(data, old(View()))
        decreases |data| - pos
      {
        var end := pos;
        while end < |data| && data[end] != '\n'
          invariant pos <= end <= |data| && forall i :: pos <= i < end ==> data[i] != '\n'
          invariant Parse(data[pos..], View()) == Parse(data, old(View())) && |hotDirs| == MAX_HOTDIRS
        {
          end := end + 1;
        }
        ParseNext(data, pos, end, View());
        LineKeepsDirs(data[pos..end], View());
        ReadLine(data[pos..end]);
        pos := if end < |data| then end + 1 else end;
      }
      ParseEmpty(View());
      assert data[pos..] == "";
    }
  }

  lemma LineKeepsDirs(line: string, c: Settings)
    ensures |ParseLine(line, c).hotDirs| == |c.hotDirs|
  {
    hide Which, Trim, Set;
  }

  // ---------------------------------------------------------------- appending

  ghost predicate Holds(buffer: array<char>, w: string)
    reads buffer
  {
    |w| < buffer.Length && forall i :: 0 <= i < |w| ==> buffer[i] == w[i]
  }

  /** Append a text and its terminator, if there is room. */
  method AppendAscii(buffer: array<char>, pos0: nat, text: string, ghost w: string) returns (ok: bool, pos: nat)
    requires Holds(buffer, w) && pos0 == |w|
    modifies buffer
    ensures ok <==> pos0 + |text| < buffer.Length
    ensures ok ==> pos == pos0 + |text| && Holds(buffer, w + text)
  {
    pos := pos0;
    var i := 0;
    while i < |text|
      invariant i <= |text| && pos == pos0 + i < buffer.Length
      invariant Holds(buffer, w + text[..i])
    {
      if pos + 1 >= buffer.Length {
        return false, pos0;
      }
      buffer[pos] := text[i];
      pos, i := pos + 1, i + 1;
    }
    assert text[..i] == text;
    buffer[pos] := '\0';
    return true, pos;
  }

  /** The same for a string of the settings, in ASCII. */
  method AppendUnicode(buffer: array<char>, pos0: nat, text: string, ghost w: string) returns (ok: bool, pos: nat)
    requires Holds(buffer, w) && pos0 == |w|
    modifies buffer
    ensures ok <==> pos0 + |text| < buffer.Length
    ensures ok ==> pos == pos0 + |text| && Holds(buffer, w + Ascii(text))
  {
    pos := pos0;
    var i := 0;
    while i < |text|
      invariant i <= |text| && pos == pos0 + i < buffer.Length
      invariant Holds(buffer, w + Ascii(text)[..i])
    {
      if pos + 1 >= buffer.Length {
        return false, pos0;
      }
      buffer[pos] := if text[i] as int <= 0x7F then text[i] else '?';
      pos, i := pos + 1, i + 1;
    }
    assert Ascii(text)[..i] == Ascii(text);
    buffer[pos] := '\0';
    return true, pos;
  }

  lemma Joins(a: string, b: string, c: string)
    ensures a + b + c == a + (b + c) && |a + b + c| == |a| + |b| + |c|
  {
  }

  /** A key, an equals sign, a value, and the end of the line. */
  method AppendValue(buffer: array<char>, pos0: nat, key: string, value: string, ghost w: string)
    returns (ok: bool, pos: nat)
    requires Holds(buffer, w) && pos0 == |w|
    modifies buffer
    ensures ok <==> pos0 + |key| + |value| + 3 < buffer.Length
    ensures ok ==> pos == pos0 + |key| + |value| + 3 && Holds(buffer, w + (key + "=" + Ascii(value) + "\r\n"))
  {
    hide Holds, Ascii;
    ok, pos := AppendAscii(buffer, pos0, key, w);
    if ok {
      ok, pos := AppendAscii(buffer, pos, "=", w + key);
    }
    if ok {
      ok, pos := AppendUnicode(buffer, pos, value, w + key + "=");
    }
    if ok {
      ok, pos := AppendAscii(buffer, pos, "\r\n", w + key + "=" + Ascii(value));
      assert w + key + "=" + Ascii(value) + "\r\n" == w + (key + "=" + Ascii(value) + "\r\n");
    }
  }

  // ---------------------------------------------------------------- saving

  /** The first k of these lines are in the buffer behind what was there. */
  ghost predicate Appended(buffer: array<char>, pos: nat, w: string, ls: seq<Line>, k: nat)
    reads buffer
  {
    k <= |ls| && pos == |w| + |Text(ls[..k])| && Holds(buffer, w + Text(ls[..k]))
  }

  /** There is room for the first k. */
  ghost predicate Room(buffer: array<char>, w: string, ls: seq<Line>, k: nat) {
    k <= |ls| && |w| + |Text(ls[..k])| < buffer.Length
  }

  lemma OneLine(l: Line)
    ensures Text([l]) == LineText(l)
  {
    assert Text([]) == "" && [l][1..] == [];
  }

  lemma LineBehind(ls: seq<Line>, k: nat)
    requires k < |ls|
    ensures Text(ls[..k + 1]) == Text(ls[..k]) + LineText(ls[k]) && |Text(ls[..k + 1])| <= |Text(ls)|
  {
    hide Text, LineText;
    assert ls[..k + 1] == ls[..k] + [ls[k]] && ls == ls[..k + 1] + ls[k + 1..];
    TextJoin(ls[..k], [ls[k]]);
    OneLine(ls[k]);
    TextJoin(ls[..k + 1], ls[k + 1..]);
  }

  lemma NoneYet(buffer: array<char>, pos: nat, w: string, ls: seq<Line>)
    requires Holds(buffer, w) && pos == |w|
    ensures Appended(buffer, pos, w, ls, 0)
  {
    assert Text(ls[..0]) == "" && w + "" == w;
  }

  /** Running out of room at a line is running out of room for all of them. */
  lemma NoRoom(buffer: array<char>, w: string, ls: seq<Line>, k: nat)
    requires k < |ls| && !Room(buffer, w, ls, k + 1)
    ensures !Room(buffer, w, ls, |ls|)
  {
    hide Text, LineText;
    LineBehind(ls, k);
    assert ls[..|ls|] == ls;
  }

  method AppendNote(buffer: array<char>, pos0: nat, text: string, ghost w: string, ghost ls: seq<Line>, ghost k: nat)
    returns (ok: bool, pos: nat)
    requires Appended(buffer, pos0, w, ls, k) && k < |ls| && ls[k] == Note(text)
    modifies buffer
    ensures ok <==> Room(buffer, w, ls, k + 1)
    ensures ok ==> Appended(buffer, pos, w, ls, k + 1)
    ensures !ok ==> !Room(buffer, w, ls, |ls|)
  {
    hide Text, Holds;
    LineBehind(ls, k);
    ok, pos := AppendAscii(buffer, pos0, text + "\r\n", w + Text(ls[..k]));
    Joins(w, Text(ls[..k]), text + "\r\n");
    if !ok {
      NoRoom(buffer, w, ls, k);
    }
  }

  /** A switch is one piece of text: its key, the equals sign, and 0 or 1. */
  method AppendSwitch(buffer: array<char>, pos0: nat, s: Setting, b: bool, ghost w: string, ghost ls: seq<Line>,
                      ghost k: nat)
    returns (ok: bool, pos: nat)
    requires Appended(buffer, pos0, w, ls, k) && k < |ls| && ls[k] == Pair(s, Digit(b))
    modifies buffer
    ensures ok <==> Room(buffer, w, ls, k + 1)
    ensures ok ==> Appended(buffer, pos, w, ls, k + 1)
    ensures !ok ==> !Room(buffer, w, ls, |ls|)
  {
    hide Text, Holds, KeyOf, Digit;
    LineBehind(ls, k);
    ok, pos := AppendAscii(buffer, pos0, KeyOf(s) + "=" + Digit(b) + "\r\n", w + Text(ls[..k]));
    Joins(w, Text(ls[..k]), KeyOf(s) + "=" + Digit(b) + "\r\n");
    if !ok {
      NoRoom(buffer, w, ls, k);
    }
  }

  method AppendPath(buffer: array<char>, pos0: nat, s: Setting, value: string, ghost w: string, ghost ls: seq<Line>,
                    ghost k: nat)
    returns (ok: bool, pos: nat)
    requires Appended(buffer, pos0, w, ls, k) && k < |ls| && ls[k] == Pair(s, Ascii(value))
    modifies buffer
    ensures ok <==> Room(buffer, w, ls, k + 1)
    ensures ok ==> Appended(buffer, pos, w, ls, k + 1)
    ensures !ok ==> !Room(buffer, w, ls, |ls|)
  {
    hide Text, Holds, KeyOf, Ascii;
    LineBehind(ls, k);
    ok, pos := AppendValue(buffer, pos0, KeyOf(s), value, w + Text(ls[..k]));
    Joins(w, Text(ls[..k]), KeyOf(s) + "=" + Ascii(value) + "\r\n");
    if !ok {
      NoRoom(buffer, w, ls, k);
    }
  }

  /** The comment lines. */
  method SaveHead(buffer: array<char>, ghost ls: seq<Line>) returns (ok: bool, pos: nat)
    requires Appended(buffer, 0, "", ls, 0)
    requires |ls| >= 3 && ls[0] == Note(NOTE1) && ls[1] == Note(NOTE2) && ls[2] == Note("")
    modifies buffer
    ensures ok ==> Appended(buffer, pos, "", ls, 3)
    ensures !ok ==> !Room(buffer, "", ls, |ls|)
  {
    hide *;
    ok, pos := AppendNote(buffer, 0, NOTE1, "", ls, 0);
    if !ok { return; }
    ok, pos := AppendNote(buffer, pos, NOTE2, "", ls, 1);
    if !ok { return; }
    ok, pos := AppendNote(buffer, pos, "", "", ls, 2);
  }

  ghost predicate HasSwitches(c: Config, ls: seq<Line>)
    reads c
  {
    && |ls| == 9
    && ls[3] == Pair(ConfirmDelete, Digit(c.confirmDelete))
    && ls[4] == Pair(ConfirmOverwrite, Digit(c.confirmOverwrite))
    && ls[5] == Pair(ShowSuccessMessages, Digit(c.showSuccessMessages))
    && ls[6] == Pair(ShowOperationSummary, Digit(c.showOperationSummary))
    && ls[7] == Pair(VerifyAfterCopy, Digit(c.verifyAfterCopy)) && ls[8] == Note("")
  }

  lemma ConfigSwitches(c: Config, ls: seq<Line>)
    requires ls == SwitchLines(c.View())
    ensures HasSwitches(c, ls) && ls[0] == Note(NOTE1) && ls[1] == Note(NOTE2) && ls[2] == Note("")
  {
    hide Digit, NOTE1, NOTE2, SwitchLines;
    SwitchLinesAre(c.View(), ls);
  }

  /** The comment lines and the switches. */
  method SaveSwitches(c: Config, buffer: array<char>, ghost ls: seq<Line>) returns (ok: bool, pos: nat)
    requires Appended(buffer, 0, "", ls, 0) && ls == SwitchLines(c.View())
    modifies buffer
    ensures ok <==> Room(buffer, "", ls, |ls|)
    ensures ok ==> Appended(buffer, pos, "", ls, |ls|)
  {
    hide Appended, Room, Digit, NOTE1, NOTE2, SwitchLines;
    ConfigSwitches(c, ls);
    ok, pos := SaveHead(buffer, ls);
    if !ok { return; }
    ok, pos := AppendSwitch(buffer, pos, ConfirmDelete, c.confirmDelete, "", ls, 3);
    if !ok { return; }
    ok, pos := AppendSwitch(buffer, pos, ConfirmOverwrite, c.confirmOverwrite, "", ls, 4);
    if !ok { return; }
    ok, pos := AppendSwitch(buffer, pos, ShowSuccessMessages, c.showSuccessMessages, "", ls, 5);
    if !ok { return; }
    ok, pos := AppendSwitch(buffer, pos, ShowOperationSummary, c.showOperationSummary, "", ls, 6);
    if !ok { return; }
    ok, pos := AppendSwitch(buffer, pos, VerifyAfterCopy, c.verifyAfterCopy, "", ls, 7);
    if !ok { return; }
    ok, pos := AppendNote(buffer, pos, "", "", ls, 8);
  }

  ghost predicate HasPaths(c: Config, ls: seq<Line>)
    reads c
  {
    && |ls| == 8
    && ls[0] == Pair(NtfsDriver, Ascii(c.ntfsDriver)) && ls[1] == Note("")
    && ls[2] == Pair(DefaultLeft, Ascii(c.defaultLeft)) && ls[3] == Pair(DefaultRight, Ascii(c.defaultRight))
    && ls[4] == Note("")
    && ls[5] == Pair(FilterLeft, Ascii(c.filterLeft)) && ls[6] == Pair(FilterRight, Ascii(c.filterRight))
    && ls[7] == Note("")
  }

  lemma ConfigPaths(c: Config, ls: seq<Line>)
    requires ls == PathLines(c.View())
    ensures HasPaths(c, ls)
  {
    hide Ascii, PathLines;
    PathLinesAre(c.View(), ls);
  }

  /** The driver, the start directories and the filters. */
  method SavePaths(c: Config, buffer: array<char>, pos0: nat, ghost w: string, ghost ls: seq<Line>)
    returns (ok: bool, pos: nat)
    requires Appended(buffer, pos0, w, ls, 0) && ls == PathLines(c.View())
    modifies buffer
    ensures ok <==> Room(buffer, w, ls, |ls|)
    ensures ok ==> Appended(buffer, pos, w, ls, |ls|)
  {
    hide Appended, Room, Ascii, PathLines;
    ConfigPaths(c, ls);
    ok, pos := AppendPath(buffer, pos0, NtfsDriver, c.ntfsDriver, w, ls, 0);
    if !ok { return; }
    ok, pos := AppendNote(buffer, pos, "", w, ls, 1);
    if !ok { return; }
    ok, pos := AppendPath(buffer, pos, DefaultLeft, c.defaultLeft, w, ls, 2);
    if !ok { return; }
    ok, pos := AppendPath(buffer, pos, DefaultRight, c.defaultRight, w, ls, 3);
    if !ok { return; }
    ok, pos := AppendNote(buffer, pos, "", w, ls, 4);
    if !ok { return; }
    ok, pos := AppendPath(buffer, pos, FilterLeft, c.filterLeft, w, ls, 5);
    if !ok { return; }
    ok, pos := AppendPath(buffer, pos, FilterRight, c.filterRight, w, ls, 6);
    if !ok { return; }
    ok, pos := AppendNote(buffer, pos, "", w, ls, 7);
  }

  lemma {:induction false} HotDirLineAt(dirs: seq<string>, n: nat, i: nat)
    requires i < n <= |dirs|
    ensures HotDirLines(dirs, n)[i] == Pair(HotDir(i), Ascii(dirs[i]))
  {
    hide Ascii;
    if i < n - 1 {
      HotDirLineAt(dirs, n - 1, i);
    }
  }

  method SaveHotDirs(c: Config, buffer: array<char>, pos0: nat, ghost w: string, ghost ls: seq<Line>)
    returns (ok: bool, pos: nat)
    requires |c.hotDirs| == MAX_HOTDIRS && Appended(buffer, pos0, w, ls, 0) && ls == HotDirLines(c.hotDirs, MAX_HOTDIRS)
    modifies buffer
    ensures ok <==> Room(buffer, w, ls, |ls|)
    ensures ok ==> Appended(buffer, pos, w, ls, |ls|)
  {
    hide Appended, Room, Ascii, HotDirLines;
    ok, pos := true, pos0;
    var i := 0;
    while i < MAX_HOTDIRS
      invariant i <= MAX_HOTDIRS && Appended(buffer, pos, w, ls, i)
    {
      HotDirLineAt(c.hotDirs, MAX_HOTDIRS, i);
      ok, pos := AppendPath(buffer, pos, HotDir(i), c.hotDirs[i], w, ls, i);
      if !ok {
        return;
      }
      i := i + 1;
    }
    AppendedHasRoom(buffer, pos, w, ls);
  }

  lemma AppendedHasRoom(buffer: array<char>, pos: nat, w: string, ls: seq<Line>)
    requires Appended(buffer, pos, w, ls, |ls|)
    ensures Room(buffer, w, ls, |ls|)
  {
  }

  lemma AllAppended(buffer: array<char>, pos: nat, w: string, ls: seq<Line>)
    requires Appended(buffer, pos, w, ls, |ls|)
    ensures pos == |w + Text(ls)| && Holds(buffer, w + Text(ls))
  {
    assert ls[..|ls|] == ls;
  }

  lemma RoomForAll(buffer: array<char>, w: string, ls: seq<Line>)
    ensures Room(buffer, w, ls, |ls|) <==> |w| + |Text(ls)| < buffer.Length
  {
    assert ls[..|ls|] == ls;
  }

  /** Build the text to be saved.  It is refused exactly when it does not fit the buffer, which for
      settings that fit their fields never happens (IniText.SavedFits). */
  method BuildText(c: Config, buffer: array<char>) returns (ok: bool, length: nat)
    requires |c.hotDirs| == MAX_HOTDIRS && buffer.Length > 0
    modifies buffer
    ensures ok <==> |Saved(c.View())| < buffer.Length
    ensures ok ==> length == |Saved(c.View())| && Holds(buffer, Saved(c.View()))
  {
    hide *;
    ghost var s, p, h := SwitchLines(c.View()), PathLines(c.View()), HotDirLines(c.hotDirs, MAX_HOTDIRS);
    Empty(buffer);
    SavedIs(c, s, p, h);
    RoomForAll(buffer, "", s);
    RoomForAll(buffer, Text(s), p);
    RoomForAll(buffer, Text(s) + Text(p), h);
    NoneYet(buffer, 0, "", s);
    ok, length := SaveSwitches(c, buffer, s);
    if !ok { return; }
    AllAppended(buffer, length, "", s);
    assert "" + Text(s) == Text(s);
    NoneYet(buffer, length, Text(s), p);
    ok, length := SavePaths(c, buffer, length, Text(s), p);
    if !ok { return; }
    AllAppended(buffer, length, Text(s), p);
    NoneYet(buffer, length, Text(s) + Text(p), h);
    ok, length := SaveHotDirs(c, buffer, length, Text(s) + Text(p), h);
    if !ok { return; }
    AllAppended(buffer, length, Text(s) + Text(p), h);
  }

  lemma SavedIs(c: Config, s: seq<Line>, p: seq<Line>, h: seq<Line>)
    requires |c.hotDirs| == MAX_HOTDIRS
    requires s == SwitchLines(c.View()) && p == PathLines(c.View()) && h == HotDirLines(c.hotDirs, MAX_HOTDIRS)
    ensures Saved(c.View()) == Text(s) + Text(p) + Text(h)
  {
    hide SwitchLines, PathLines, HotDirLines, Text;
  }

  lemma Empty(buffer: array<char>)
    requires buffer.Length > 0
    ensures Holds(buffer, "")
  {
  }
}
