/**
 The configuration: built from definitions, printed as text with comments, read back line by line.
 Sections and keys are looked up without regard to case, and are printed as they were first spelled.
 */
module ConfigParsing {
  import opened ConfigText
  import opened Options

  datatype ValueType = Boolean | Float | Integer | String

  datatype ItemDef = ItemDef(section: string, key: string, kind: ValueType, value: string, description: string)

  datatype Entry = Entry(name: string, def: ItemDef, value: string)

  datatype Section = Section(name: string, items: map<string, Entry>)

  type Config = map<string, Section>

  function Lower(c: char): char {
    if 'A' <= c <= 'Z' then ((c as int) + 32) as char else c
  }

  /** The form under which names are looked up. */
  function Fold(s: string): (r: string)
    ensures |r| == |s|
  {
    seq(|s|, i requires 0 <= i < |s| => Lower(s[i]))
  }

  /** Every section and entry is filed under the folded form of its name. */
  ghost predicate Filed(c: Config) {
    && (forall s :: s in c ==> Fold(c[s].name) == s)
    && (forall s, k :: s in c && k in c[s].items ==> Fold(c[s].items[k].name) == k)
  }

  // --- Definitions ----------------------------------------------------------------------------

  /** One more definition; the first spelling of a name stays, the last definition counts. */
  function Define(c: Config, d: ItemDef): (r: Config) {
    var s, k := Fold(d.section), Fold(d.key);
    var section := if s in c then c[s] else Section(d.section, map[]);
    var name := if k in section.items then section.items[k].name else d.key;
    c[s := section.(items := section.items[k := Entry(name, d, d.value)])]
  }

  function DefineAll(c: Config, defs: seq<ItemDef>): Config {
    if defs == [] then c else Define(DefineAll(c, defs[..|defs| - 1]), defs[|defs| - 1])
  }

  /** A definition counts unless a later one has the same names; its entry starts with its default. */
  lemma {:induction false} DefaultsPresent(defs: seq<ItemDef>, i: nat)
    requires i < |defs|
    requires forall j :: i < j < |defs| ==>
      Fold(defs[j].section) != Fold(defs[i].section) || Fold(defs[j].key) != Fold(defs[i].key)
    ensures var c := DefineAll(map[], defs); var s, k := Fold(defs[i].section), Fold(defs[i].key);
      s in c && k in c[s].items && c[s].items[k].def == defs[i] && c[s].items[k].value == defs[i].value
  {
    hide Fold;
    if i + 1 < |defs| {
      assert defs[..|defs| - 1][i] == defs[i];
      DefaultsPresent(defs[..|defs| - 1], i);
    }
  }

  /** Nothing is filed but what is defined. */
  lemma {:induction false} OnlyDefined(defs: seq<ItemDef>, s: string, k: string)
    ensures var c := DefineAll(map[], defs);
      s in c && k in c[s].items <==> exists i :: 0 <= i < |defs| && Fold(defs[i].section) == s && Fold(defs[i].key) == k
  {
    hide Fold;
    if defs != [] {
      var last := |defs| - 1;
      OnlyDefined(defs[..last], s, k);
      if i :| 0 <= i < |defs| && Fold(defs[i].section) == s && Fold(defs[i].key) == k {
        assert i < last ==> defs[..last][i] == defs[i];
      }
    }
  }

  /** A section, and an entry, is spelled as it was first. */
  lemma {:induction false} FirstSpelled(defs: seq<ItemDef>, i: nat)
    requires i < |defs|
    ensures var c := DefineAll(map[], defs); var s, k := Fold(defs[i].section), Fold(defs[i].key);
      && s in c && k in c[s].items
      && ((forall j :: 0 <= j < i ==> Fold(defs[j].section) != s) ==> c[s].name == defs[i].section)
      && ((forall j :: 0 <= j < i ==> Fold(defs[j].section) != s || Fold(defs[j].key) != k) ==>
            c[s].items[k].name == defs[i].key)
  {
    hide Fold;
    var last := |defs| - 1;
    var front := defs[..last];
    if i < last {
      assert front[i] == defs[i] && forall j :: 0 <= j < i ==> front[j] == defs[j];
      FirstSpelled(front, i);
    } else {
      if forall j :: 0 <= j < i ==> Fold(defs[j].section) != Fold(defs[i].section) {
        NotYet(front, Fold(defs[i].section));
      }
      if forall j :: 0 <= j < i ==>
          Fold(defs[j].section) != Fold(defs[i].section) || Fold(defs[j].key) != Fold(defs[i].key) {
        OnlyDefined(front, Fold(defs[i].section), Fold(defs[i].key));
      }
    }
  }

  lemma {:induction false} NotYet(defs: seq<ItemDef>, s: string)
    requires forall j :: 0 <= j < |defs| ==> Fold(defs[j].section) != s
    ensures s !in DefineAll(map[], defs)
  {
    hide Fold;
    if defs != [] {
      NotYet(defs[..|defs| - 1], s);
    }
  }

  /** Names are the same exactly if they differ in nothing but the case of letters. */
  lemma FoldedAlike(a: string, b: string)
    ensures Fold(a) == Fold(b) <==> |a| == |b| && forall i :: 0 <= i < |a| ==> SameLetter(a[i], b[i])
  {
    if Fold(a) == Fold(b) {
      forall i | 0 <= i < |a| ensures SameLetter(a[i], b[i]) {
        assert Fold(a)[i] == Fold(b)[i];
      }
    }
    if |a| == |b| && forall i :: 0 <= i < |a| ==> SameLetter(a[i], b[i]) {
      assert forall i :: 0 <= i < |a| ==> Fold(a)[i] == Fold(b)[i];
    }
  }

  predicate SameLetter(x: char, y: char) {
    || x == y
    || ('A' <= x <= 'Z' && y as int == x as int + 32)
    || ('A' <= y <= 'Z' && x as int == y as int + 32)
  }

  // --- Reading --------------------------------------------------------------------------------

  function SetValue(c: Config, s: string, k: string, value: string): (r: Config)
    requires s in c && k in c[s].items
  {
    c[s := c[s].(items := c[s].items[k := c[s].items[k].(value := value)])]
  }

  /** A line that assigns: unknown names are skipped, an empty value of a non-string becomes 0. */
  function Assigned(c: Config, section: Option<string>, key: string, value: string): Config {
    var k := Fold(key);
    if section.None? || section.value !in c || k !in c[section.value].items then c
    else
      var isString := c[section.value].items[k].def.kind.String?;
      SetValue(c, section.value, k, if value != "" || isString then value else "0")
  }

  datatype State = State(config: Config, section: Option<string>)

  function ReadLine(st: State, line: string): State {
    match Classify(line)
    case Header(name) => st.(section := if Fold(name) in st.config then Some(Fold(name)) else None)
    case Assign(key, value) => st.(config := Assigned(st.config, st.section, key, value))
    case _ => st
  }

  function ReadLines(st: State, lines: seq<string>): State
    decreases |lines|
  {
    if lines == [] then st else ReadLines(ReadLine(st, lines[0]), lines[1..])
  }

  lemma {:induction false} ReadSplit(st: State, a: seq<string>, b: seq<string>)
    ensures ReadLines(st, a + b) == ReadLines(ReadLines(st, a), b)
    decreases |a|
  {
    if a == [] {
      assert a + b == b;
    } else {
      assert (a + b)[0] == a[0] && (a + b)[1..] == a[1..] + b;
      ReadSplit(ReadLine(st, a[0]), a[1..], b);
    }
  }

  // --- What reading means -------------------------------------------------------------------------

  /** The last header in front of line `i` is line `j`, and names section `s`. */
  predicate HeadedBy(lines: seq<string>, i: nat, j: nat, s: string)
    requires i <= |lines|
  {
    && j < i && Classify(lines[j]).Header? && Fold(Classify(lines[j]).name) == s
    && forall m :: j < m < i ==> !Classify(lines[m]).Header?
  }

  ghost predicate Governs(lines: seq<string>, i: nat, s: string)
    requires i <= |lines|
  {
    exists j: nat :: HeadedBy(lines, i, j, s)
  }

  /** Line `i` assigns to this entry. */
  ghost predicate Gives(lines: seq<string>, i: nat, s: string, k: string)
    requires i < |lines|
  {
    Classify(lines[i]).Assign? && Fold(Classify(lines[i]).key) == k && Governs(lines, i, s)
  }

  /** None of the lines from `i` up to `n` assigns to this entry. */
  ghost predicate NoneGives(lines: seq<string>, i: nat, n: nat, s: string, k: string)
    requires n <= |lines|
  {
    forall m :: i <= m < n ==> !Gives(lines, m, s, k)
  }

  /** After `n` lines the entry has the value of the last line that assigned to it, with "0" for
      nothing unless it is a string; and its old value if none did. */
  ghost predicate LastCounts(was: Config, lines: seq<string>, n: nat, now: Config, s: string, k: string)
    requires n <= |lines| && s in was && k in was[s].items && s in now && k in now[s].items
  {
    var value := now[s].items[k].value;
    && (NoneGives(lines, 0, n, s, k) ==> value == was[s].items[k].value)
    && forall i :: 0 <= i < n && Gives(lines, i, s, k) && NoneGives(lines, i + 1, n, s, k) ==>
         var given := Classify(lines[i]).value;
         value == if given == "" && !was[s].items[k].def.kind.String? then "0" else given
  }

  /** The configuration `was` after the first `n` lines. */
  ghost predicate ReadTo(was: Config, lines: seq<string>, n: nat, now: Config)
    requires n <= |lines|
  {
    SameShape(now, was) && forall s, k :: s in was && k in was[s].items ==> LastCounts(was, lines, n, now, s, k)
  }

  /** The reader's section is the one of the last header, if the configuration has it. */
  ghost predicate SectionIs(was: Config, lines: seq<string>, n: nat, section: Option<string>)
    requires n <= |lines|
  {
    forall s :: section == Some(s) <==> s in was && Governs(lines, n, s)
  }

  lemma GovernsNext(lines: seq<string>, n: nat, s: string)
    requires n < |lines|
    ensures Classify(lines[n]).Header? ==> (Governs(lines, n + 1, s) <==> Fold(Classify(lines[n]).name) == s)
    ensures !Classify(lines[n]).Header? ==> (Governs(lines, n + 1, s) <==> Governs(lines, n, s))
  {
    hide Classify, Fold;
    if Classify(lines[n]).Header? {
      if Fold(Classify(lines[n]).name) == s {
        assert HeadedBy(lines, n + 1, n, s);
      }
    } else {
      if Governs(lines, n, s) {
        var j: nat :| HeadedBy(lines, n, j, s);
        assert HeadedBy(lines, n + 1, j, s);
      }
      var next := n + 1;
      if Governs(lines, next, s) {
        var j: nat :| HeadedBy(lines, next, j, s);
        assert HeadedBy(lines, n, j, s);
      }
    }
  }

  lemma SectionNext(was: Config, lines: seq<string>, n: nat, st: State)
    requires n < |lines| && SectionIs(was, lines, n, st.section) && st.config.Keys == was.Keys
    ensures SectionIs(was, lines, n + 1, ReadLine(st, lines[n]).section)
  {
    hide Classify, Fold, Governs;
    forall s ensures ReadLine(st, lines[n]).section == Some(s) <==> s in was && Governs(lines, n + 1, s) {
      GovernsNext(lines, n, s);
    }
  }

  /** One more line, for one entry. */
  lemma LastCountsNext(was: Config, lines: seq<string>, n: nat, now: Config, next: Config, s: string, k: string)
    requires n < |lines| && s in was && k in was[s].items && s in now && k in now[s].items
    requires s in next && k in next[s].items && LastCounts(was, lines, n, now, s, k)
    requires Gives(lines, n, s, k) ==>
      var given := Classify(lines[n]).value;
      next[s].items[k].value == if given == "" && !was[s].items[k].def.kind.String? then "0" else given
    requires !Gives(lines, n, s, k) ==> next[s].items[k].value == now[s].items[k].value
    ensures LastCounts(was, lines, n + 1, next, s, k)
  {
    hide Classify, Fold, Gives, NoneGives;
    NoneGivesNext(lines, n, s, k);
  }

  lemma NoneGivesNext(lines: seq<string>, n: nat, s: string, k: string)
    requires n < |lines|
    ensures forall i {:trigger NoneGives(lines, i, n + 1, s, k)} :: 0 <= i <= n ==>
      (NoneGives(lines, i, n + 1, s, k) <==> NoneGives(lines, i, n, s, k) && !Gives(lines, n, s, k))
    ensures NoneGives(lines, n + 1, n + 1, s, k)
  {
  }

  lemma ReadToNext(was: Config, lines: seq<string>, n: nat, st: State)
    requires n < |lines| && ReadTo(was, lines, n, st.config) && SectionIs(was, lines, n, st.section)
    ensures ReadTo(was, lines, n + 1, ReadLine(st, lines[n]).config)
  {
    hide Classify, Fold, Governs, LastCounts;
    var next := ReadLine(st, lines[n]).config;
    forall s, k | s in was && k in was[s].items
      ensures s in next && k in next[s].items && LastCounts(was, lines, n + 1, next, s, k)
    {
      assert LastCounts(was, lines, n, st.config, s, k);
      assert st.config[s].items[k].(value := "") == was[s].items[k].(value := "");
      LastCountsNext(was, lines, n, st.config, next, s, k);
    }
  }

  /** Reading line by line: every entry has the value of the last line that assigns to it under a
      header of its section. */
  lemma {:induction false} ReadMeans(was: Config, lines: seq<string>, n: nat)
    requires n <= |lines|
    ensures var st := ReadLines(State(was, None), lines[..n]);
      ReadTo(was, lines, n, st.config) && SectionIs(was, lines, n, st.section)
  {
    hide Classify, Fold, ReadLine, LastCounts;
    if n == 0 {
      NothingRead(was, lines);
    } else {
      ReadMeans(was, lines, n - 1);
      var st := ReadLines(State(was, None), lines[..n - 1]);
      assert lines[..n] == lines[..n - 1] + [lines[n - 1]];
      ReadSplit(State(was, None), lines[..n - 1], [lines[n - 1]]);
      ReadOne(st, lines[n - 1]);
      ReadToNext(was, lines, n - 1, st);
      SectionNext(was, lines, n - 1, st);
    }
  }

  lemma NothingRead(was: Config, lines: seq<string>)
    ensures ReadTo(was, lines, 0, was) && SectionIs(was, lines, 0, None)
    ensures ReadLines(State(was, None), lines[..0]) == State(was, None)
  {
  }

  /** Without a section that the configuration has, nothing changes up to the next header. */
  lemma {:induction false} NothingOutside(st: State, lines: seq<string>)
    requires st.section.None? && forall i :: 0 <= i < |lines| ==> !Classify(lines[i]).Header?
    ensures ReadLines(st, lines) == st
    decreases |lines|
  {
    hide Classify, Fold;
    if lines != [] {
      NothingOutside(st, lines[1..]);
    }
  }

  /** Behind the header of an unknown section nothing changes up to the next header. */
  lemma UnknownSection(st: State, header: string, lines: seq<string>)
    requires Classify(header).Header? && Fold(Classify(header).name) !in st.config
    requires forall i :: 0 <= i < |lines| ==> !Classify(lines[i]).Header?
    ensures ReadLines(st, [header] + lines).config == st.config
  {
    hide Classify, Fold;
    ReadSplit(st, [header], lines);
    ReadOne(st, header);
    NothingOutside(ReadLine(st, header), lines);
  }

  // --- Printing -------------------------------------------------------------------------------

  /** The description in lines, without empty ones. */
  function Comments(text: string, word: string): seq<string> {
    if text == "" then if word == "" then [] else [word]
    else if text[0] in "\r\n" then (if word == "" then [] else [word]) + Comments(text[1..], "")
    else Comments(text[1..], word + [text[0]])
  }

  lemma {:induction false} CommentsAreLines(text: string, word: string)
    requires '\n' !in word
    ensures forall i :: 0 <= i < |Comments(text, word)| ==> '\n' !in Comments(text, word)[i]
    decreases |text|
  {
    if text != "" {
      CommentsAreLines(text[1..], if text[0] in "\r\n" then "" else word + [text[0]]);
    }
  }

  lemma {:induction false} CommentsWord(w: string, word: string)
    requires forall i :: 0 <= i < |w| ==> w[i] !in "\r\n"
    ensures Comments(w, word) == if word + w == "" then [] else [word + w]
    decreases |w|
  {
    if w == "" {
      assert word + w == word;
    } else {
      CommentsWord(w[1..], word + [w[0]]);
      assert word + [w[0]] + w[1..] == word + w;
    }
  }

  /** The lines of a description: it is cut at every line end, and empty pieces are left out. */
  lemma {:induction false} CommentsCut(a: string, end: char, b: string, word: string)
    requires end in "\r\n"
    ensures Comments(a + [end] + b, word) == Comments(a, word) + Comments(b, "")
    decreases |a|
  {
    var text := a + [end] + b;
    if a == "" {
      assert text[1..] == b;
    } else {
      assert text[1..] == a[1..] + [end] + b && text[0] == a[0];
      CommentsCut(a[1..], end, b, if a[0] in "\r\n" then "" else word + [a[0]]);
    }
  }

  lemma {:induction false} CommentsOf(words: seq<string>)
    requires forall i :: 0 <= i < |words| ==> words[i] != "" && '\r' !in words[i] && '\n' !in words[i]
    ensures Comments(JoinLines(words), "") == words
  {
    if words != [] {
      CommentsOf(words[1..]);
      var rest := JoinLines(words[1..]);
      assert JoinLines(words) == words[0] + ['\n'] + rest;
      CommentsCut(words[0], '\n', rest, "");
      CommentsWord(words[0], "");
      assert "" + words[0] == words[0];
    }
  }

  function CommentLines(comments: seq<string>): seq<string> {
    if comments == [] then [] else ["; " + CString(comments[0])] + CommentLines(comments[1..])
  }

  function EntryLines(e: Entry, first: bool): seq<string> {
    var comments := Comments(e.def.description, "");
    var line := CString(e.name) + " = " + CString(e.value);
    (if comments != [] && !first then [""] else []) + CommentLines(comments) + [line]
  }

  lemma {:induction false} CommentLineAt(comments: seq<string>, i: nat)
    requires i < |comments|
    ensures |CommentLines(comments)| == |comments| && CommentLines(comments)[i] == "; " + CString(comments[i])
  {
    if |comments| > 1 {
      CommentLineAt(comments[1..], if i == 0 then 0 else i - 1);
    }
  }

  /** Blank lines, a comment for each of the words, and a last line. */
  predicate PrintedAs(lines: seq<string>, blank: nat, words: seq<string>, last: string) {
    && |lines| == blank + |words| + 1
    && (forall i :: 0 <= i < blank ==> lines[i] == "")
    && (forall i :: 0 <= i < |words| ==> lines[blank + i] == "; " + CString(words[i]))
    && lines[|lines| - 1] == last
  }

  /** An entry is printed as its description, a comment for each line of it, and then its value; a
      blank line comes first if there is a description and another entry in front. */
  lemma PrintedEntry(e: Entry, words: seq<string>, first: bool)
    requires forall i :: 0 <= i < |words| ==> words[i] != "" && '\r' !in words[i] && '\n' !in words[i]
    requires e.def.description == JoinLines(words)
    ensures PrintedAs(EntryLines(e, first), if words != [] && !first then 1 else 0, words,
                      CString(e.name) + " = " + CString(e.value))
  {
    hide EntryLines, CommentLines, CString, JoinLines, PrintedAs;
    var line := CString(e.name) + " = " + CString(e.value);
    EntryParts(e, words, first);
    PrintedParts(if words != [] && !first then [""] else [], words, line);
  }

  lemma PrintedParts(front: seq<string>, words: seq<string>, last: string)
    requires front == [] || front == [""]
    ensures PrintedAs(front + CommentLines(words) + [last], |front|, words, last)
  {
    hide CommentLines, CString;
    CommentLinesAre(words);
    InTheMiddle(front, CommentLines(words), last);
  }

  lemma InTheMiddle(front: seq<string>, body: seq<string>, last: string)
    ensures var all := front + body + [last];
      && |all| == |front| + |body| + 1 && all[|all| - 1] == last
      && (front != [] ==> all[0] == front[0])
      && forall i :: 0 <= i < |body| ==> all[|front| + i] == body[i]
  {
  }

  lemma EntryParts(e: Entry, words: seq<string>, first: bool)
    requires forall i :: 0 <= i < |words| ==> words[i] != "" && '\r' !in words[i] && '\n' !in words[i]
    requires e.def.description == JoinLines(words)
    ensures EntryLines(e, first) ==
      (if words != [] && !first then [""] else []) + CommentLines(words) + [CString(e.name) + " = " + CString(e.value)]
  {
    hide Comments, CommentLines, CString, JoinLines;
    CommentsOf(words);
  }

  lemma CommentLinesAre(comments: seq<string>)
    ensures |CommentLines(comments)| == |comments|
    ensures forall i :: 0 <= i < |comments| ==> CommentLines(comments)[i] == "; " + CString(comments[i])
  {
    if comments == [] {
      NoComments();
    } else {
      CommentLineAt(comments, 0);
    }
    forall i | 0 <= i < |comments| ensures CommentLines(comments)[i] == "; " + CString(comments[i]) {
      CommentLineAt(comments, i);
    }
  }

  lemma NoComments()
    ensures CommentLines([]) == []
  {
  }

  function ItemLines(section: Section, order: seq<string>, first: bool): seq<string>
    requires forall k :: k in order ==> k in section.items
  {
    if order == [] then [] else EntryLines(section.items[order[0]], first) + ItemLines(section, order[1..], false)
  }

  /** An order in which a map iteration may visit the sections and the entries of each. */
  type Order = seq<(string, seq<string>)>

  ghost predicate OrderOk(c: Config, order: Order) {
    && (forall i :: 0 <= i < |order| ==> order[i].0 in c)
    && (forall i, k :: 0 <= i < |order| ==> (k in order[i].1 <==> k in c[order[i].0].items))
  }

  ghost predicate Complete(c: Config, order: Order) {
    OrderOk(c, order) && forall s :: s in c ==> exists i :: 0 <= i < |order| && order[i].0 == s
  }

  function SectionLines(section: Section, order: seq<string>): seq<string>
    requires forall k :: k in order ==> k in section.items
  {
    ["[" + CString(section.name) + "]"] + ItemLines(section, order, true) + [""]
  }

  lemma {:induction false} ItemLinesSplit(section: Section, a: seq<string>, b: seq<string>, first: bool)
    requires forall k :: k in a + b ==> k in section.items
    requires (forall k :: k in a ==> k in section.items) && (forall k :: k in b ==> k in section.items)
    ensures ItemLines(section, a + b, first) == ItemLines(section, a, first) + ItemLines(section, b, first && a == [])
    decreases |a|
  {
    hide EntryLines;
    if a == [] {
      assert a + b == b;
    } else {
      assert (a + b)[0] == a[0] && (a + b)[1..] == a[1..] + b;
      ItemLinesSplit(section, a[1..], b, false);
    }
  }

  /** A section is printed as its header, its entries one after the other, and a blank line; only
      the first entry counts as first. */
  lemma PrintedSection(section: Section, order: seq<string>, j: nat)
    requires j < |order| && forall k :: k in order ==> k in section.items
    ensures var lines := SectionLines(section, order); var e := EntryLines(section.items[order[j]], j == 0);
      && |lines| >= 2 && lines[0] == "[" + CString(section.name) + "]" && lines[|lines| - 1] == ""
      && var at := 1 + |ItemLines(section, order[..j], true)|;
         at + |e| < |lines| && lines[at..at + |e|] == e
  {
    hide EntryLines;
    var a, b := order[..j], order[j..];
    assert a + b == order && order[j] == b[0];
    ItemLinesSplit(section, a, b, true);
    var front, items := ItemLines(section, a, true), ItemLines(section, order, true);
    var e, rest := EntryLines(section.items[order[j]], j == 0), ItemLines(section, b[1..], false);
    assert items == front + (e + rest);
    var lines := SectionLines(section, order);
    assert lines == ["[" + CString(section.name) + "]"] + items + [""];
    assert lines[1 + |front|..1 + |front| + |e|] == e;
  }

  ghost function ConfigLines(c: Config, order: Order): seq<string>
    requires OrderOk(c, order)
  {
    if order == [] then [] else SectionLines(c[order[0].0], order[0].1) + ConfigLines(c, order[1..])
  }

  lemma {:induction false} ConfigLinesSplit(c: Config, a: Order, b: Order)
    requires OrderOk(c, a + b) && OrderOk(c, a) && OrderOk(c, b)
    ensures ConfigLines(c, a + b) == ConfigLines(c, a) + ConfigLines(c, b)
    decreases |a|
  {
    hide SectionLines;
    if a == [] {
      assert a + b == b;
    } else {
      assert (a + b)[0] == a[0] && (a + b)[1..] == a[1..] + b;
      ConfigLinesSplit(c, a[1..], b);
    }
  }

  /** A configuration is printed as its sections, one after the other in their order, and nothing else. */
  lemma PrintedConfig(c: Config, order: Order, j: nat)
    requires OrderOk(c, order) && j < |order|
    ensures OrderOk(c, order[..j]) && OrderOk(c, order[j + 1..])
    ensures ConfigLines(c, order) ==
      ConfigLines(c, order[..j]) + SectionLines(c[order[j].0], order[j].1) + ConfigLines(c, order[j + 1..])
  {
    hide SectionLines;
    var a, b := order[..j], order[j..];
    assert a + b == order && b[0] == order[j] && b[1..] == order[j + 1..];
    ConfigLinesSplit(c, a, b);
  }

  // --- The round trip -------------------------------------------------------------------------

  /** Names and values that survive printing. */
  ghost predicate Printable(c: Config) {
    && Filed(c)
    && (forall s :: s in c ==> IsName(c[s].name))
    && (forall s, k :: s in c && k in c[s].items ==> EntryPrintable(c[s].items[k]))
  }

  ghost predicate EntryPrintable(e: Entry) {
    IsKey(e.name) && IsValue(e.value) && (e.value == "" ==> e.def.kind.String?)
  }

  /** The same table of entries, possibly with other values. */
  ghost predicate SameShape(a: Config, b: Config) {
    && a.Keys == b.Keys
    && (forall s :: s in a ==> a[s].name == b[s].name && a[s].items.Keys == b[s].items.Keys)
    && (forall s, k :: s in a && k in a[s].items ==> a[s].items[k].(value := "") == b[s].items[k].(value := ""))
  }

  /** `a` has the value of `b` in this entry. */
  ghost predicate Agrees(a: Config, b: Config, s: string, k: string) {
    s in a && s in b && k in a[s].items && k in b[s].items && a[s].items[k].value == b[s].items[k].value
  }

  /** From `a` to `r` nothing that agreed with `b` was lost, and the table stayed the same. */
  ghost predicate Closer(a: Config, r: Config, b: Config) {
    SameShape(r, b) && forall s, k :: Agrees(a, b, s, k) ==> Agrees(r, b, s, k)
  }

  lemma {:induction false} CommentsSkipped(st: State, comments: seq<string>)
    ensures ReadLines(st, CommentLines(comments)) == st
  {
    if comments != [] {
      CommentLine(CString(comments[0]));
      CommentsSkipped(st, comments[1..]);
      assert CommentLines(comments)[1..] == CommentLines(comments[1..]);
    }
  }

  lemma BlankSkipped(st: State)
    ensures ReadLine(st, "") == st
  {
    assert Trim("") == "";
  }

  lemma ReadOne(st: State, line: string)
    ensures ReadLines(st, [line]) == ReadLine(st, line)
  {
    assert [line][1..] == [];
    assert ReadLines(ReadLine(st, line), []) == ReadLine(st, line);
  }

  lemma AssignmentRestores(st: State, b: Config, s: string, k: string)
    requires Printable(b) && s in b && k in b[s].items && SameShape(st.config, b) && st.section == Some(s)
    ensures var e := b[s].items[k]; var r := ReadLine(st, e.name + " = " + e.value);
      r.section == st.section && Closer(st.config, r.config, b) && Agrees(r.config, b, s, k)
  {
    hide Classify, Fold, IsKey, IsValue;
    var e := b[s].items[k];
    AssignLine(e.name, e.value);
    assert Fold(e.name) == k;
    assert ReadLine(st, e.name + " = " + e.value).config == SetValue(st.config, s, k, e.value);
  }

  /** Names and values that survive printing hold no terminator. */
  lemma PrintedWhole(b: Config, s: string, k: string)
    requires Printable(b) && s in b && k in b[s].items
    ensures CString(b[s].name) == b[s].name
    ensures CString(b[s].items[k].name) == b[s].items[k].name && CString(b[s].items[k].value) == b[s].items[k].value
  {
    hide SectionName, Filed;
    CStringAll(b[s].name);
    CStringAll(b[s].items[k].name);
    CStringAll(b[s].items[k].value);
  }

  /** Reading the lines of one entry, in its section, gives it its value back. */
  lemma EntryRestored(st: State, b: Config, s: string, k: string, first: bool)
    requires Printable(b) && s in b && k in b[s].items && SameShape(st.config, b) && st.section == Some(s)
    ensures var r := ReadLines(st, EntryLines(b[s].items[k], first));
      r.section == st.section && Closer(st.config, r.config, b) && Agrees(r.config, b, s, k)
  {
    hide ReadLine, ReadLines, Printable, Closer, Agrees, SameShape, CommentLines, Comments;
    var e := b[s].items[k];
    var comments := Comments(e.def.description, "");
    var line := e.name + " = " + e.value;
    PrintedWhole(b, s, k);
    AssignmentRestores(st, b, s, k);
    CommentsSkipped(st, comments);
    ReadOne(st, line);
    ReadSplit(st, CommentLines(comments), [line]);
    if comments != [] && !first {
      BlankSkipped(st);
      ReadOne(st, "");
      ReadSplit(st, [""], CommentLines(comments) + [line]);
      assert [""] + CommentLines(comments) + [line] == [""] + (CommentLines(comments) + [line]);
    } else {
      assert [] + CommentLines(comments) + [line] == CommentLines(comments) + [line];
    }
  }

  lemma {:induction false} ItemsRestored(st: State, b: Config, s: string, order: seq<string>, first: bool)
    requires Printable(b) && s in b && SameShape(st.config, b) && st.section == Some(s)
    requires forall k :: k in order ==> k in b[s].items
    ensures var r := ReadLines(st, ItemLines(b[s], order, first));
      r.section == st.section && Closer(st.config, r.config, b) && forall k :: k in order ==> Agrees(r.config, b, s, k)
    decreases |order|
  {
    hide EntryLines, Printable, Classify, SameShape;
    if order != [] {
      EntryRestored(st, b, s, order[0], first);
      var lines := EntryLines(b[s].items[order[0]], first);
      var mid := ReadLines(st, lines);
      ReadSplit(st, lines, ItemLines(b[s], order[1..], false));
      ItemsRestored(mid, b, s, order[1..], false);
    }
  }

  lemma SectionRestored(st: State, b: Config, s: string, order: seq<string>)
    requires Printable(b) && s in b && SameShape(st.config, b) && forall k :: k in order ==> k in b[s].items
    ensures var r := ReadLines(st, SectionLines(b[s], order));
      Closer(st.config, r.config, b) && forall k :: k in order ==> Agrees(r.config, b, s, k)
  {
    hide ItemLines, Classify, Fold;
    CStringAll(b[s].name);
    var head, items := ["[" + b[s].name + "]"], ItemLines(b[s], order, true);
    HeaderLine(b[s].name);
    var st1 := ReadLines(st, head);
    ReadOne(st, head[0]);
    ReadSplit(st, head + items, [""]);
    ReadSplit(st, head, items);
    ItemsRestored(st1, b, s, order, true);
    BlankSkipped(ReadLines(st1, items));
    ReadOne(ReadLines(st1, items), "");
  }

  lemma {:induction false} SectionsRestored(st: State, b: Config, order: Order)
    requires Printable(b) && SameShape(st.config, b) && OrderOk(b, order)
    ensures var r := ReadLines(st, ConfigLines(b, order));
      && Closer(st.config, r.config, b)
      && forall i, k :: 0 <= i < |order| && k in b[order[i].0].items ==> Agrees(r.config, b, order[i].0, k)
    decreases |order|
  {
    hide SectionLines, Printable, SameShape, Classify;
    if order != [] {
      var s := order[0].0;
      SectionRestored(st, b, s, order[0].1);
      var lines := SectionLines(b[s], order[0].1);
      var mid := ReadLines(st, lines);
      ReadSplit(st, lines, ConfigLines(b, order[1..]));
      SectionsRestored(mid, b, order[1..]);
      forall i, k | 0 <= i < |order| && k in b[order[i].0].items
        ensures Agrees(ReadLines(st, ConfigLines(b, order)).config, b, order[i].0, k)
      {
        if i > 0 {
          assert order[i] == order[1..][i - 1];
        }
      }
    }
  }

  /**
   Printing a configuration, in any order of sections and entries, and reading the text into any
   configuration over the same definitions restores every value; comments and blank lines count for
   nothing.
   */
  lemma RoundTrip(a: Config, b: Config, order: Order)
    requires Printable(b) && SameShape(a, b) && Complete(b, order)
    ensures ReadLines(State(a, None), SplitLines(JoinLines(ConfigLines(b, order)), "")).config == b
  {
    ConfigIsLines(b, order);
    SplitAfterJoin(ConfigLines(b, order));
    SectionsRestored(State(a, None), b, order);
    hide ConfigLines, Printable, JoinLines, SplitLines, ReadLines;
    var r := ReadLines(State(a, None), ConfigLines(b, order)).config;
    forall s | s in b ensures s in r && r[s] == b[s] {
      forall k | k in b[s].items ensures k in r[s].items && r[s].items[k] == b[s].items[k] {
        assert Agrees(r, b, s, k);
      }
    }
  }

  lemma {:induction false} ItemsAreLines(section: Section, order: seq<string>, first: bool)
    requires forall k :: k in order ==> k in section.items && EntryPrintable(section.items[k])
    ensures forall i :: 0 <= i < |ItemLines(section, order, first)| ==> '\n' !in ItemLines(section, order, first)[i]
    decreases |order|
  {
    if order != [] {
      ItemsAreLines(section, order[1..], false);
      EntryIsLines(section.items[order[0]], first);
    }
  }

  lemma EntryIsLines(e: Entry, first: bool)
    requires EntryPrintable(e)
    ensures forall i :: 0 <= i < |EntryLines(e, first)| ==> '\n' !in EntryLines(e, first)[i]
  {
    CommentsAreLines(e.def.description, "");
    CommentLinesAreLines(Comments(e.def.description, ""));
    assert forall i :: 0 <= i < |e.name| ==> IsWord(e.name[i]);
  }

  lemma {:induction false} CommentLinesAreLines(comments: seq<string>)
    requires forall i :: 0 <= i < |comments| ==> '\n' !in comments[i]
    ensures forall i :: 0 <= i < |CommentLines(comments)| ==> '\n' !in CommentLines(comments)[i]
  {
    if comments != [] {
      CommentLinesAreLines(comments[1..]);
    }
  }

  lemma {:induction false} ConfigIsLines(c: Config, order: Order)
    requires Printable(c) && OrderOk(c, order)
    ensures forall i :: 0 <= i < |ConfigLines(c, order)| ==> '\n' !in ConfigLines(c, order)[i]
    decreases |order|
  {
    hide ItemLines, ConfigText.SectionName;
    if order != [] {
      ConfigIsLines(c, order[1..]);
      ItemsAreLines(c[order[0].0], order[0].1, true);
      assert forall i :: 0 <= i < |c[order[0].0].name| ==> c[order[0].0].name[i] !in "]\n\r";
    }
  }

  // --- The parser -----------------------------------------------------------------------------

  /** The names a definition table needs for its configuration to be printable. */
  predicate TableOk(defs: seq<ItemDef>) {
    forall i :: 0 <= i < |defs| ==> DefOk(defs[i])
  }

  predicate DefOk(d: ItemDef) {
    IsName(d.section) && IsKey(d.key) && IsValue(d.value) && (d.value == "" ==> d.kind.String?)
  }

  lemma {:induction false} DefinedIsPrintable(defs: seq<ItemDef>)
    requires TableOk(defs)
    ensures Printable(DefineAll(map[], defs))
  {
    hide IsKey, IsValue, IsName, Fold;
    if defs != [] {
      DefinedIsPrintable(defs[..|defs| - 1]);
      DefineFiled(DefineAll(map[], defs[..|defs| - 1]), defs[|defs| - 1]);
    }
  }

  lemma DefineFiled(c: Config, d: ItemDef)
    requires Filed(c)
    ensures Filed(Define(c, d))
  {
  }

  /** A section and a key that the configuration has. */
  predicate Known(c: Config, section: Option<string>, k: string) {
    section.Some? && section.value in c && k in c[section.value].items
  }

  /** Every entry but one has the same value in both. */
  ghost predicate SameBut(a: Config, b: Config, s: string, k: string)
    requires SameShape(a, b)
  {
    forall s', k' :: s' in a && k' in a[s'].items && (s' != s || k' != k) ==>
      a[s'].items[k'].value == b[s'].items[k'].value
  }

  /** What an assignment promises leaves one possible result. */
  lemma SetIsAssigned(was: Config, now: Config, section: Option<string>, key: string, value: string)
    requires !Known(was, section, Fold(key)) ==> now == was
    requires Known(was, section, Fold(key)) ==>
      var s, k := section.value, Fold(key);
      && SameShape(now, was) && SameBut(now, was, s, k)
      && (value != "" || was[s].items[k].def.kind.String? ==> now[s].items[k].value == value)
      && (value == "" && !was[s].items[k].def.kind.String? ==> now[s].items[k].value == "0")
    ensures now == Assigned(was, section, key, value)
  {
    hide Fold;
    if Known(was, section, Fold(key)) {
      var r := Assigned(was, section, key, value);
      forall s | s in was ensures now[s] == r[s] {
        forall k | k in was[s].items ensures now[s].items[k] == r[s].items[k] {
          assert now[s].items[k].(value := "") == was[s].items[k].(value := "");
        }
        assert now[s].items == r[s].items;
      }
    }
  }

  class ConfigParser {
    var config: Config

    constructor (defs: seq<ItemDef>)
      ensures config == DefineAll(map[], defs)
    {
      config := map[];
      new;
      for i := 0 to |defs|
        invariant config == DefineAll(map[], defs[..i])
      {
        assert defs[..i + 1][..i] == defs[..i];
        config := Define(config, defs[i]);
      }
      assert defs[..|defs|] == defs;
    }

    /** An assignment found in the text: unknown names change nothing; an entry that is known gets the
        value, or "0" for an empty one that is not a string; all other entries stay. */
    method Set(section: Option<string>, key: string, value: string)
      modifies this
      ensures !Known(old(config), section, Fold(key)) ==> config == old(config)
      ensures Known(old(config), section, Fold(key)) ==>
        var was, s, k := old(config), section.value, Fold(key);
        && SameShape(config, was) && SameBut(config, was, s, k)
        && (value != "" || was[s].items[k].def.kind.String? ==> config[s].items[k].value == value)
        && (value == "" && !was[s].items[k].def.kind.String? ==> config[s].items[k].value == "0")
    {
      if section.None? || section.value !in config {
        return;
      }
      var s, k := section.value, Fold(key);
      if k in config[s].items {
        if value != "" || config[s].items[k].def.kind.String? {
          config := SetValue(config, s, k, value);
        } else {
          config := SetValue(config, s, k, "0");
        }
      }
    }

    method Read(text: string)
      modifies this
      ensures config == ReadLines(State(old(config), None), SplitLines(text, "")).config
      ensures var lines := SplitLines(text, ""); ReadTo(old(config), lines, |lines|, config)
    {
      hide ReadTo;
      var lines := SplitLines(text, "");
      var section: Option<string> := None;
      assert lines[0..] == lines;
      for i := 0 to |lines|
        invariant ReadLines(State(config, section), lines[i..]) == ReadLines(State(old(config), None), lines)
      {
        assert lines[i..][0] == lines[i] && lines[i..][1..] == lines[i + 1..];
        match Classify(lines[i]) {
          case Nothing =>
          case Header(name) => section := if Fold(name) in config then Some(Fold(name)) else None;
          case Assign(key, value) =>
            ghost var was := config;
            Set(section, key, value);
            SetIsAssigned(was, config, section, key, value);
          case Odd =>
        }
      }
      assert lines[..|lines|] == lines;
      ReadMeans(old(config), lines, |lines|);
    }

    /** The lines of one section. */
    method WriteSection(section: Section, keys: seq<string>) returns (lines: seq<string>)
      requires forall k :: k in keys ==> k in section.items
      ensures lines == SectionLines(section, keys)
    {
      lines := ["[" + CString(section.name) + "]"];
      ghost var all := lines + ItemLines(section, keys, true);
      assert keys[0..] == keys;
      for j := 0 to |keys|
        invariant lines + ItemLines(section, keys[j..], j == 0) == all
      {
        var rest := keys[j..];
        assert rest[0] == keys[j] && rest[1..] == keys[j + 1..];
        lines := lines + EntryLines(section.items[keys[j]], j == 0);
      }
      assert lines == all;
      lines := lines + [""];
    }

    /** Print, visiting the maps in the given order. */
    method Write(order: Order) returns (text: string)
      requires OrderOk(config, order)
      ensures text == JoinLines(ConfigLines(config, order))
    {
      hide SectionLines, JoinLines;
      ghost var all := JoinLines(ConfigLines(config, order));
      text := "";
      assert order[0..] == order && all == text + all;
      for i := 0 to |order|
        invariant all == text + JoinLines(ConfigLines(config, order[i..]))
      {
        assert order[i..][0] == order[i] && order[i..][1..] == order[i + 1..];
        var lines := WriteSection(config[order[i].0], order[i].1);
        ghost var rest := ConfigLines(config, order[i + 1..]);
        JoinSplit(lines, rest);
        assert text + (JoinLines(lines) + JoinLines(rest)) == text + JoinLines(lines) + JoinLines(rest);
        text := text + JoinLines(lines);
      }
      NothingJoined();
      assert text + "" == text;
    }
  }

  lemma NothingJoined()
    ensures JoinLines([]) == ""
  {
  }

  lemma {:induction false} JoinSplit(a: seq<string>, b: seq<string>)
    ensures JoinLines(a + b) == JoinLines(a) + JoinLines(b)
  {
    if a == [] {
      assert a + b == b;
    } else {
      JoinSplit(a[1..], b);
      assert (a + b)[1..] == a[1..] + b;
    }
  }
}
