/** Lines, white space, and the three line patterns of the configuration file. */
module ConfigText {
  import opened Options

  predicate IsWord(c: char) {
    'a' <= c <= 'z' || 'A' <= c <= 'Z' || '0' <= c <= '9' || c == '_'
  }

  /** White space for the patterns. */
  predicate IsSpace(c: char) {
    c in " \t\n\r\U{0B}\U{0C}"
  }

  /** White space for trimming. */
  predicate IsTrimmed(c: char) {
    c in " \t\r\n"
  }

  // --- Lines ----------------------------------------------------------------------------------

  /** The lines of a text; each ends with a newline, the last one may lack it. */
  function SplitLines(text: string, line: string): seq<string> {
    if text == "" then if line == "" then [] else [line]
    else if text[0] == '\n' then [line] + SplitLines(text[1..], "")
    else SplitLines(text[1..], line + [text[0]])
  }

  function JoinLines(lines: seq<string>): string {
    if lines == [] then "" else lines[0] + "\n" + JoinLines(lines[1..])
  }

  lemma {:induction false} SplitOneLine(line: string, got: string, rest: string)
    requires '\n' !in line
    ensures SplitLines(line + "\n" + rest, got) == [got + line] + SplitLines(rest, "")
    decreases |line|
  {
    var text := line + "\n" + rest;
    if line == "" {
      assert text[0] == '\n' && text[1..] == rest && got + line == got;
    } else {
      SplitOneLine(line[1..], got + [line[0]], rest);
      assert text[1..] == line[1..] + "\n" + rest && text[0] == line[0];
      assert got + [line[0]] + line[1..] == got + line;
    }
  }

  lemma {:induction false} SplitLast(line: string, got: string)
    requires '\n' !in line
    ensures SplitLines(line, got) == if got + line == "" then [] else [got + line]
    decreases |line|
  {
    if line == "" {
      assert got + line == got;
    } else {
      SplitLast(line[1..], got + [line[0]]);
      assert got + [line[0]] + line[1..] == got + line;
    }
  }

  /** The lines of any text: those that end with a newline, and a last one that lacks it. */
  lemma {:induction false} SplitText(lines: seq<string>, last: string)
    requires '\n' !in last && forall i :: 0 <= i < |lines| ==> '\n' !in lines[i]
    ensures SplitLines(JoinLines(lines) + last, "") == lines + if last == "" then [] else [last]
  {
    if lines == [] {
      assert JoinLines(lines) + last == last && "" + last == last;
      SplitLast(last, "");
    } else {
      SplitText(lines[1..], last);
      var rest := JoinLines(lines[1..]) + last;
      assert JoinLines(lines) + last == lines[0] + "\n" + rest;
      SplitOneLine(lines[0], "", rest);
      assert "" + lines[0] == lines[0];
    }
  }

  lemma SplitAfterJoin(lines: seq<string>)
    requires forall i :: 0 <= i < |lines| ==> '\n' !in lines[i]
    ensures SplitLines(JoinLines(lines), "") == lines
  {
    SplitText(lines, "");
    assert JoinLines(lines) + "" == JoinLines(lines);
  }

  // --- Trimming -------------------------------------------------------------------------------

  function TrimLeft(s: string): string {
    if s != "" && IsTrimmed(s[0]) then TrimLeft(s[1..]) else s
  }

  function TrimRight(s: string): string {
    if s != "" && IsTrimmed(s[|s| - 1]) then TrimRight(s[..|s| - 1]) else s
  }

  function Trim(s: string): string {
    TrimRight(TrimLeft(s))
  }

  // --- C strings ------------------------------------------------------------------------------

  /** What a C string holds of `s`: everything in front of the first terminator. */
  function CString(s: string): (r: string)
    ensures r <= s
  {
    if s == "" || s[0] == '\0' then "" else [s[0]] + CString(s[1..])
  }

  lemma {:induction false} CStringAll(s: string)
    requires '\0' !in s
    ensures CString(s) == s
  {
    if s != "" {
      CStringAll(s[1..]);
    }
  }

  // --- Patterns -------------------------------------------------------------------------------

  /** Position of `c` in `s` from `i` on, before any line terminator; or none. */
  function Find(s: string, c: char, i: nat): Option<nat>
    requires i <= |s|
    decreases |s| - i
  {
    if i == |s| || s[i] in "\n\r" then None
    else if s[i] == c then Some(i)
    else Find(s, c, i + 1)
  }

  /** The section pattern: the first bracketed part, up to the first closing bracket. */
  function SectionName(s: string): Option<string> {
    if s == "" then None
    else if s[0] == '[' && Find(s, ']', 1).Some? then FindIsInside(s, ']', 1); Some(s[1..Find(s, ']', 1).value])
    else SectionName(s[1..])
  }

  lemma {:induction false} FindIsInside(s: string, c: char, i: nat)
    requires i <= |s|
    ensures var f := Find(s, c, i); f.Some? ==> i <= f.value < |s| && s[f.value] == c
    decreases |s| - i
  {
    if i < |s| && s[i] !in "\n\r" && s[i] != c {
      FindIsInside(s, c, i + 1);
    }
  }

  /** Length of the word, or the white space, at the start of `s`. */
  function WordLength(s: string): (n: nat)
    ensures n <= |s|
  {
    if s != "" && IsWord(s[0]) then 1 + WordLength(s[1..]) else 0
  }

  function SpaceLength(s: string): (n: nat)
    ensures n <= |s|
  {
    if s != "" && IsSpace(s[0]) then 1 + SpaceLength(s[1..]) else 0
  }

  /** A key at the start of `s`: a word, white space, an equals sign. The rest is what follows. */
  function KeyAt(s: string): Option<(string, string)> {
    var w := WordLength(s);
    var n := w + SpaceLength(s[w..]);
    if w > 0 && n < |s| && s[n] == '=' then Some((s[..w], s[n + 1..])) else None
  }

  /** What the value pattern captures behind the equals sign: all but the white space in front, but
      at least one character. */
  function ValueIn(rest: string): Option<string> {
    var n := SpaceLength(rest);
    if rest == "" then None
    else if n < |rest| then Some(rest[n..])
    else Some(rest[n - 1..])
  }

  /** The value pattern, at the first place where it matches. */
  function KeyValue(s: string): Option<(string, string)>
    decreases |s|
  {
    if s == "" then None
    else if KeyAt(s).Some? && ValueIn(KeyAt(s).value.1).Some? then
      Some((KeyAt(s).value.0, ValueIn(KeyAt(s).value.1).value))
    else KeyValue(s[1..])
  }

  /** The pattern of a key without a value. */
  function KeyOnly(s: string): Option<string> {
    if s == "" then None
    else if KeyAt(s).Some? then Some(KeyAt(s).value.0)
    else KeyOnly(s[1..])
  }

  datatype Line = Nothing | Header(name: string) | Assign(key: string, value: string) | Odd

  predicate StartsWith(s: string, prefix: string) {
    prefix <= s
  }

  /** What the reader makes of a line. */
  function Classify(raw: string): Line {
    var line := Trim(raw);
    if line == "" || StartsWith(line, ";") || StartsWith(line, "#") || StartsWith(line, "//") then Nothing
    else
      var text := CString(line);
      if SectionName(text).Some? then Header(SectionName(text).value)
      else if KeyValue(text).Some? then Assign(KeyValue(text).value.0, KeyValue(text).value.1)
      else if KeyOnly(text).Some? then Assign(KeyOnly(text).value, "")
      else Odd
  }

  // --- Printed lines --------------------------------------------------------------------------

  predicate IsKey(s: string) {
    s != "" && forall i :: 0 <= i < |s| ==> IsWord(s[i])
  }

  /** A name that can stand in brackets. */
  predicate IsName(s: string) {
    forall i :: 0 <= i < |s| ==> s[i] !in "]\n\r\0"
  }

  /** A value that survives: one line, nothing in brackets, no white space at its ends. */
  predicate IsValue(s: string) {
    && '\n' !in s && '\0' !in s && SectionName(s) == None
    && (s != "" ==> !IsSpace(s[0]) && !IsTrimmed(s[|s| - 1]))
  }

  lemma {:induction false} FindFirst(s: string, c: char, i: nat, j: nat)
    requires i <= j < |s| && s[j] == c
    requires forall k :: i <= k < j ==> s[k] != c && s[k] !in "\n\r"
    requires c !in "\n\r"
    ensures Find(s, c, i) == Some(j)
    decreases j - i
  {
    if i < j {
      FindFirst(s, c, i + 1, j);
    }
  }

  lemma HeaderLine(name: string)
    requires IsName(name)
    ensures Classify("[" + name + "]") == Header(name)
  {
    hide SectionName, KeyValue, KeyOnly, TrimLeft, TrimRight, CString;
    var line := "[" + name + "]";
    AlreadyTrimmed(line);
    CStringAll(line);
    BracketsFound(name);
  }

  lemma AlreadyTrimmed(s: string)
    requires s != "" && !IsTrimmed(s[0]) && !IsTrimmed(s[|s| - 1])
    ensures Trim(s) == s
  {
  }

  lemma BracketsFound(name: string)
    requires IsName(name)
    ensures SectionName("[" + name + "]") == Some(name)
  {
    var line := "[" + name + "]";
    FindFirst(line, ']', 1, |line| - 1);
    assert line[1..|line| - 1] == name;
  }

  lemma CommentLine(text: string)
    ensures Classify("; " + text) == Nothing
  {
    var line := "; " + text;
    assert TrimLeft(line) == line;
    TrimRightKeeps(line, ';');
  }

  lemma {:induction false} TrimRightKeeps(s: string, c: char)
    requires s != "" && s[0] == c && !IsTrimmed(c)
    ensures TrimRight(s) != "" && TrimRight(s)[0] == c
  {
    if IsTrimmed(s[|s| - 1]) {
      TrimRightKeeps(s[..|s| - 1], c);
    }
  }

  lemma {:induction false} WordAll(key: string, rest: string)
    requires IsKey(key) && rest != "" && !IsWord(rest[0])
    ensures WordLength(key + rest) == |key|
    decreases |key|
  {
    assert (key + rest)[1..] == key[1..] + rest;
    if |key| == 1 {
      assert key[1..] + rest == rest;
    } else {
      WordAll(key[1..], rest);
    }
  }

  /** No key character opens a bracket. */
  lemma {:induction false} NoSectionBefore(key: string, rest: string)
    requires forall i :: 0 <= i < |key| ==> key[i] != '['
    ensures SectionName(key + rest) == SectionName(rest)
  {
    if key == "" {
      assert key + rest == rest;
    } else {
      assert (key + rest)[1..] == key[1..] + rest;
      NoSectionBefore(key[1..], rest);
    }
  }

  lemma KeyOfLine(key: string, rest: string)
    requires IsKey(key)
    ensures KeyAt(key + " =" + rest) == Some((key, rest))
  {
    var line := key + " =" + rest;
    assert line == key + (" =" + rest);
    WordAll(key, " =" + rest);
    assert line[|key|..] == " =" + rest;
    assert (" =" + rest)[1..] == "=" + rest;
    assert SpaceLength(" =" + rest) == 1;
    assert line[|key| + 2..] == rest && line[..|key|] == key;
  }

  lemma AssignLine(key: string, value: string)
    requires IsKey(key) && IsValue(value)
    ensures Classify(key + " = " + value) == Assign(key, value)
  {
    hide Classify, SectionName, KeyValue, KeyOnly;
    if value == "" {
      AssignNothing(key);
      assert key + " = " + value == key + " = ";
    } else {
      AssignSomething(key, value);
    }
  }

  lemma AssignNothing(key: string)
    requires IsKey(key)
    ensures Classify(key + " = ") == Assign(key, "")
  {
    var raw, line := key + " = ", key + " =";
    assert raw[..|raw| - 1] == line;
    assert Trim(raw) == TrimRight(raw) == TrimRight(line) == line;
    NotComment(key, line);
    CStringAll(line);
    NoSectionBefore(line, "");
    assert line + "" == line;
    KeyOfLine(key, "");
    NoValueLater(line, |key| + 1);
  }

  lemma AssignSomething(key: string, value: string)
    requires IsKey(key) && IsValue(value) && value != ""
    ensures Classify(key + " = " + value) == Assign(key, value)
  {
    hide SectionName, KeyOnly, KeyAt, ValueIn, TrimLeft, TrimRight, CString;
    var raw := key + " = " + value;
    AlreadyTrimmed(raw);
    NotComment(key, raw);
    CStringAll(raw);
    NoSectionBefore(key + " = ", value);
    assert raw == key + " =" + (" " + value);
    KeyOfLine(key, " " + value);
    ValueAfterSpace(value);
  }

  lemma ValueAfterSpace(value: string)
    requires value != "" && !IsSpace(value[0])
    ensures ValueIn(" " + value) == Some(value)
  {
    assert (" " + value)[1..] == value;
    assert SpaceLength(" " + value) == 1;
  }

  lemma NotComment(key: string, line: string)
    requires IsKey(key) && key <= line
    ensures line != "" && !StartsWith(line, ";") && !StartsWith(line, "#") && !StartsWith(line, "//")
  {
    assert line[0] == key[0];
  }

  /** With its only equals sign at the end, a line has no value. */
  lemma {:induction false} NoValueLater(line: string, eq: nat)
    requires eq + 1 == |line| && line[eq] == '=' && forall i :: 0 <= i < eq ==> line[i] != '='
    ensures KeyValue(line) == None
    decreases |line|
  {
    if KeyAt(line).Some? {
      assert KeyAt(line).value.1 == "";
    }
    if eq > 0 {
      NoValueLater(line[1..], eq - 1);
    } else {
      assert line[1..] == "";
    }
  }

  // --- Lines as they are written by hand ----------------------------------------------------------

  predicate Blank(ws: string) {
    forall i :: 0 <= i < |ws| ==> ws[i] in " \t\r\n"
  }

  predicate Spaces(ws: string) {
    forall i :: 0 <= i < |ws| ==> ws[i] in " \t\r\n\U{0B}\U{0C}"
  }

  lemma {:induction false} TrimLeftSkips(ws: string, s: string)
    requires Blank(ws)
    ensures TrimLeft(ws + s) == TrimLeft(s)
  {
    if ws == "" {
      assert ws + s == s;
    } else {
      assert (ws + s)[1..] == ws[1..] + s;
      TrimLeftSkips(ws[1..], s);
    }
  }

  lemma {:induction false} TrimRightSkips(s: string, ws: string)
    requires Blank(ws)
    ensures TrimRight(s + ws) == TrimRight(s)
  {
    if ws == "" {
      assert s + ws == s;
    } else {
      var less := ws[..|ws| - 1];
      assert (s + ws)[..|s + ws| - 1] == s + less;
      TrimRightSkips(s, less);
    }
  }

  /** Trimming takes the white space on both sides, and nothing else. */
  lemma TrimCore(before: string, core: string, after: string)
    requires Blank(before) && Blank(after)
    requires core != "" ==> core[0] !in " \t\r\n" && core[|core| - 1] !in " \t\r\n"
    ensures Trim(before + core + after) == core
  {
    assert before + core + after == before + (core + after);
    TrimLeftSkips(before, core + after);
    if core == "" {
      assert core + after == after && after + "" == after;
      TrimLeftSkips(after, "");
    } else {
      assert TrimLeft(core + after) == core + after;
      TrimRightSkips(core, after);
    }
  }

  lemma {:induction false} TrimRightPrefix(s: string, p: string)
    requires p != "" && p <= s && !IsTrimmed(p[|p| - 1])
    ensures p <= TrimRight(s)
    decreases |s|
  {
    if IsTrimmed(s[|s| - 1]) {
      TrimRightPrefix(s[..|s| - 1], p);
    }
  }

  /** Comments and blank lines, with any white space around, are nothing to the reader. */
  lemma IgnoredLine(ws: string, sign: string, rest: string)
    requires Blank(ws) && (sign == ";" || sign == "#" || sign == "//")
    ensures Classify(ws + sign + rest) == Nothing && Classify(ws) == Nothing
  {
    hide TrimLeft, TrimRight;
    TrimCore(ws, "", "");
    assert ws + "" + "" == ws;
    assert ws + sign + rest == ws + (sign + rest);
    TrimLeftSkips(ws, sign + rest);
    NotTrimmed(sign + rest);
    TrimRightPrefix(sign + rest, sign);
  }

  lemma NotTrimmed(s: string)
    requires s != "" && !IsTrimmed(s[0])
    ensures TrimLeft(s) == s
  {
  }

  lemma {:induction false} SpacesAll(ws: string, rest: string)
    requires Spaces(ws) && (rest == "" || !IsSpace(rest[0]))
    ensures SpaceLength(ws + rest) == |ws|
  {
    if ws == "" {
      assert ws + rest == rest;
    } else {
      assert (ws + rest)[1..] == ws[1..] + rest;
      SpacesAll(ws[1..], rest);
    }
  }

  lemma KeyBefore(key: string, ws: string, rest: string)
    requires IsKey(key) && Spaces(ws)
    ensures KeyAt(key + ws + "=" + rest) == Some((key, rest))
  {
    var line := key + ws + "=" + rest;
    assert line == key + (ws + "=" + rest) && ws + "=" + rest == ws + ("=" + rest);
    WordAll(key, ws + "=" + rest);
    assert line[|key|..] == ws + ("=" + rest);
    SpacesAll(ws, "=" + rest);
    assert line[..|key|] == key && line[|key| + |ws| + 1..] == rest;
  }

  /** A key, an equals sign and a value, with any white space in front, around and behind. */
  lemma AssignedLine(before: string, key: string, left: string, right: string, value: string, after: string)
    requires Blank(before) && IsKey(key) && Spaces(left) && Spaces(right) && Blank(after)
    requires IsValue(value) && value != ""
    ensures Classify(before + (key + left + "=" + right + value) + after) == Assign(key, value)
  {
    hide SectionName, KeyOnly, KeyAt, TrimLeft, TrimRight, CString, Trim;
    var core, front := key + left + "=" + right + value, key + left + "=" + right;
    TrimCore(before, core, after);
    NotComment(key, core);
    CStringAll(core);
    NoSectionBefore(front, value);
    assert core == key + left + "=" + (right + value);
    KeyBefore(key, left, right + value);
    SpacesAll(right, value);
    assert (right + value)[|right|..] == value;
  }

  /** A key and an equals sign alone: the value is empty. */
  lemma AssignedEmpty(before: string, key: string, left: string, after: string)
    requires Blank(before) && IsKey(key) && Spaces(left) && Blank(after)
    ensures Classify(before + (key + left + "=") + after) == Assign(key, "")
  {
    hide SectionName, KeyAt, TrimLeft, TrimRight, CString, Trim, KeyValue;
    var core := key + left + "=";
    TrimCore(before, core, after);
    NotComment(key, core);
    CStringAll(core);
    NoSectionBefore(core, "");
    assert core + "" == core;
    NoSection();
    KeyBefore(key, left, "");
    NoValueLater(core, |key| + |left|);
  }

  lemma NoSection()
    ensures SectionName("") == None
  {
  }

  /** A value of nothing but white space that trimming leaves: its last character. */
  lemma AssignedSpace(before: string, key: string, left: string, right: string, last: char, after: string)
    requires Blank(before) && IsKey(key) && Spaces(left) && Spaces(right) && Blank(after)
    requires last == '\U{0B}' || last == '\U{0C}'
    ensures Classify(before + (key + left + "=" + right + [last]) + after) == Assign(key, [last])
  {
    hide SectionName, KeyOnly, KeyAt, TrimLeft, TrimRight, CString, Trim;
    var core, value := key + left + "=" + right + [last], right + [last];
    TrimCore(before, core, after);
    NotComment(key, core);
    CStringAll(core);
    NoSectionBefore(core, "");
    assert core + "" == core;
    NoSection();
    assert core == key + left + "=" + value;
    KeyBefore(key, left, value);
    SpacesAll(value, "");
    assert value + "" == value;
    assert value[|value| - 1..] == [last];
  }

  lemma {:induction false} WordStops(s: string, rest: string)
    requires s != "" && !IsWord(s[|s| - 1])
    ensures WordLength(s + rest) < |s|
  {
    if IsWord(s[0]) {
      assert (s + rest)[1..] == s[1..] + rest;
      WordStops(s[1..], rest);
    }
  }

  lemma {:induction false} SpaceStops(s: string, rest: string)
    requires rest != "" && !IsSpace(rest[0])
    ensures SpaceLength(s + rest) <= |s|
  {
    if s == "" {
      assert s + rest == rest;
    } else if IsSpace(s[0]) {
      assert (s + rest)[1..] == s[1..] + rest;
      SpaceStops(s[1..], rest);
    }
  }

  /** In front of the word at an equals sign there is no key. */
  lemma NoKeyInFront(front: string, rest: string)
    requires front != "" && '=' !in front && !IsWord(front[|front| - 1]) && rest != "" && IsWord(rest[0])
    ensures KeyAt(front + rest) == None
  {
    var line := front + rest;
    var w := WordLength(line);
    WordStops(front, rest);
    assert line[w..] == front[w..] + rest;
    SpaceStops(front[w..], rest);
    var n := w + SpaceLength(line[w..]);
    assert n < |line| ==> line[n] == if n < |front| then front[n] else rest[n - |front|];
  }

  lemma {:induction false} KeySkipsFront(front: string, rest: string)
    requires '=' !in front && (front != "" ==> !IsWord(front[|front| - 1])) && rest != "" && IsWord(rest[0])
    ensures KeyValue(front + rest) == KeyValue(rest)
    decreases |front|
  {
    hide KeyAt;
    if front == "" {
      assert front + rest == rest;
    } else {
      NoKeyInFront(front, rest);
      assert (front + rest)[1..] == front[1..] + rest;
      KeySkipsFront(front[1..], rest);
    }
  }

  /** Other words in front of the key are passed over. */
  lemma AssignedLater(front: string, key: string, left: string, right: string, value: string)
    requires front != "" && front[0] !in " \t\r\n;#/" && !IsWord(front[|front| - 1])
    requires '=' !in front && '[' !in front && '\0' !in front
    requires IsKey(key) && Spaces(left) && Spaces(right) && IsValue(value) && value != ""
    ensures Classify(front + (key + left + "=" + right + value)) == Assign(key, value)
  {
    hide SectionName, KeyOnly, KeyAt, TrimLeft, TrimRight, CString, Trim;
    var core := key + left + "=" + right + value;
    var line := front + core;
    TrimCore("", line, "");
    assert "" + line + "" == line;
    CStringAll(line);
    NoSectionBefore(front, core);
    NoSectionBefore(key + left + "=" + right, value);
    KeySkipsFront(front, core);
    assert core == key + left + "=" + (right + value);
    KeyBefore(key, left, right + value);
    SpacesAll(right, value);
    assert (right + value)[|right|..] == value;
  }

  /** Behind a terminator nothing is seen. */
  lemma {:induction false} CStringCut(a: string, b: string)
    requires '\0' !in a
    ensures CString(a + "\0" + b) == a
  {
    if a == "" {
      assert (a + "\0" + b)[0] == '\0';
    } else {
      assert (a + "\0" + b)[1..] == a[1..] + "\0" + b;
      CStringCut(a[1..], b);
    }
  }

  // --- Sections -----------------------------------------------------------------------------------

  /** A bracketed part, up to the first closing bracket, on one line. */
  predicate Bracketed(s: string, i: nat, j: nat) {
    && i < j < |s| && s[i] == '[' && s[j] == ']'
    && forall k :: i < k < j ==> s[k] !in "]\n\r"
  }

  lemma {:induction false} FindMeans(s: string, c: char, i: nat)
    requires i <= |s| && c !in "\n\r"
    ensures var f := Find(s, c, i);
      f.Some? ==> i <= f.value < |s| && s[f.value] == c && forall k :: i <= k < f.value ==> s[k] != c && s[k] !in "\n\r"
    decreases |s| - i
  {
    if i < |s| && s[i] !in "\n\r" && s[i] != c {
      FindMeans(s, c, i + 1);
    }
  }

  /** The section is the part in the first brackets, wherever on the line they are. */
  lemma {:induction false} FirstBrackets(s: string, i: nat, j: nat)
    requires Bracketed(s, i, j) && forall a: nat, b: nat :: a < i ==> !Bracketed(s, a, b)
    ensures SectionName(s) == Some(s[i + 1..j])
    decreases |s|
  {
    if i == 0 {
      FindFirst(s, ']', 1, j);
    } else {
      FindMeans(s, ']', 1);
      if s[0] == '[' && Find(s, ']', 1).Some? {
        assert Bracketed(s, 0, Find(s, ']', 1).value);
      }
      var rest := s[1..];
      assert Bracketed(rest, i - 1, j - 1);
      forall a: nat, b: nat | a < i - 1 ensures !Bracketed(rest, a, b) {
        if Bracketed(rest, a, b) {
          BracketsShift(s, a, b);
        }
      }
      FirstBrackets(rest, i - 1, j - 1);
      assert rest[i..j - 1] == s[i + 1..j];
    }
  }

  lemma BracketsShift(s: string, a: nat, b: nat)
    requires s != "" && Bracketed(s[1..], a, b)
    ensures Bracketed(s, a + 1, b + 1)
  {
    forall k | a + 1 < k < b + 1 ensures s[k] !in "]\n\r" {
      assert s[k] == s[1..][k - 1];
    }
  }

  lemma {:induction false} NoBrackets(s: string)
    requires forall a: nat, b: nat :: !Bracketed(s, a, b)
    ensures SectionName(s) == None
  {
    if s != "" {
      FindMeans(s, ']', 1);
      if s[0] == '[' && Find(s, ']', 1).Some? {
        assert Bracketed(s, 0, Find(s, ']', 1).value);
      }
      forall a: nat, b: nat ensures !Bracketed(s[1..], a, b) {
        if Bracketed(s[1..], a, b) {
          BracketsShift(s, a, b);
        }
      }
      NoBrackets(s[1..]);
    }
  }

  /** A line with brackets names a section, whatever else is on it, unless it is a comment. */
  lemma HeaderAnywhere(before: string, front: string, name: string, back: string, after: string)
    requires Blank(before) && Blank(after) && IsName(name)
    requires '[' !in front && '\0' !in front && '\0' !in back
    requires front != "" ==> front[0] !in " \t\r\n;#/"
    requires back != "" ==> back[|back| - 1] !in " \t\r\n"
    ensures Classify(before + (front + "[" + name + "]" + back) + after) == Header(name)
  {
    hide SectionName, KeyValue, KeyOnly, TrimLeft, TrimRight, CString, Trim;
    var core, part := front + "[" + name + "]" + back, "[" + name + "]" + back;
    TrimCore(before, core, after);
    CStringAll(core);
    assert core == front + part;
    assert core[0] == if front == "" then '[' else front[0];
    NoSectionBefore(front, part);
    assert Bracketed(part, 0, |name| + 1);
    FirstBrackets(part, 0, |name| + 1);
    assert part[1..|name| + 1] == name;
  }

  lemma {:induction false} TrimOnly(s: string, c: char)
    requires c !in s
    ensures c !in TrimLeft(s) && c !in TrimRight(s)
  {
    if s != "" {
      TrimOnly(s[1..], c);
      TrimOnly(s[..|s| - 1], c);
    }
  }

  lemma {:induction false} NoKey(s: string)
    requires '=' !in s
    ensures KeyValue(s) == None && KeyOnly(s) == None
  {
    if s != "" {
      NoKey(s[1..]);
    }
  }

  /** A line with neither brackets nor an equals sign does nothing. */
  lemma OddLine(raw: string)
    requires '=' !in raw && '[' !in raw
    ensures Classify(raw) == Nothing || Classify(raw) == Odd
  {
    hide SectionName, KeyValue, KeyOnly, TrimLeft, TrimRight, CString;
    TrimOnly(raw, '=');
    TrimOnly(raw, '[');
    TrimOnly(TrimLeft(raw), '=');
    TrimOnly(TrimLeft(raw), '[');
    NoKey(CString(Trim(raw)));
    NoBrackets(CString(Trim(raw)));
  }
}
