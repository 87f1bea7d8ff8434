/** CIniFileS on text: what Open makes of a text, and that it takes back what SaveToFile writes. */
module IniFile {
  import opened Options

  // ---------- strings ----------

  predicate Blank(c: char) { c == ' ' || c == '\t' || c == '\n' || c == '\r' }

  function TrimLeft(s: string): string {
    if s != [] && Blank(s[0]) then TrimLeft(s[1..]) else s
  }

  function TrimRight(s: string): string {
    if s != [] && Blank(s[|s| - 1]) then TrimRight(s[..|s| - 1]) else s
  }

  /** _ini_Trim and _ini_TrimStr. */
  function Trim(s: string): string { TrimRight(TrimLeft(s)) }

  predicate Trimmed(s: string) { s != [] ==> !Blank(s[0]) && !Blank(s[|s| - 1]) }

  /** string::find of a character, -1 for npos. */
  function Find(s: string, c: char): (i: int)
    ensures i == -1 ==> c !in s
    ensures i != -1 ==> 0 <= i < |s| && s[i] == c && c !in s[..i]
  {
    if s == [] then -1
    else if s[0] == c then 0
    else
      var i := Find(s[1..], c);
      assert i != -1 ==> s[..i + 1] == [s[0]] + s[1..][..i];
      if i == -1 then -1 else i + 1
  }

  /** What repeated getline calls yield: the pieces between newlines. */
  function Lines(text: string): (ls: seq<string>)
    ensures |ls| > 0
  {
    if text == [] then [""]
    else
      var rest := Lines(text[1..]);
      if text[0] == '\n' then [""] + rest else [[text[0]] + rest[0]] + rest[1..]
  }

  // ---------- the store ----------

  datatype Record = Record(secName: string, key: string, value: string, comments: string, commented: char)

  datatype Section = Section(secName: string, comments: string, commented: char, kv: map<string, Record>)

  const BLANK_RECORD := Record("", "", "", "", ' ')

  type Store = map<string, Section>

  /** The variables of Open: the store, the current section's name, comments not yet used, the pending
      record, and the section new records go to, if any (a pointer to a section of the store). */
  datatype Loading = Loading(store: Store, curSec: string, comments: string, rec: Record, section: Option<string>)

  const START := Loading(map[], "", "", BLANK_RECORD, None)

  predicate IsSection(line: string) { |line| > 2 && line[0] == '[' && ']' in line }

  function SectionLine(s: Loading, line: string): Loading
    requires IsSection(line)
  {
    Begin(s, Trim(line[1..Find(line, ']')]))
  }

  /** A section begins; one that exists already is not opened again. */
  function Begin(s: Loading, name: string): Loading {
    var made := Section(name, Trim(s.comments), s.rec.commented, map[]);
    if name in s.store then s.(curSec := name, comments := "", section := None)
    else s.(store := s.store[name := made], curSec := name, comments := "", section := Some(name))
  }

  /** The section pSection points to, created under the pending record's section name if it is null. */
  function WithSection(s: Loading): Loading {
    if s.section.Some? || s.rec.secName in s.store then s
    else
      var made := Section(s.rec.secName, s.rec.comments, s.rec.commented, map[]);
      s.(store := s.store[s.rec.secName := made], section := Some(s.rec.secName))
  }

  /** The pending record is inserted unless its key is there already. */
  function InsertRecord(s: Loading): Loading {
    if s.section.None? || s.section.value !in s.store then s
    else
      var sec := s.store[s.section.value];
      if s.rec.key in sec.kv then s
      else s.(store := s.store[s.section.value := sec.(kv := sec.kv[s.rec.key := s.rec])], rec := BLANK_RECORD)
  }

  /** The body of the loop, on a line already trimmed. */
  function TrimmedLine(s: Loading, line: string): Loading {
    if line == "" then s
    else if line[0] == '#' || line[0] == ';' then s.(comments := s.comments + line + "\n")
    else
      var s := s.(rec := s.rec.(commented := ' '));
      if IsSection(line) then SectionLine(s, line)
      else
        var eq := Find(line, '=');
        var s :=
          if eq == -1 then s
          else
            s.(rec := Record(s.curSec, Trim(line[..eq]), Trim(line[eq + 1..]), Trim(s.comments), ' '), comments := "");
        if s.comments == "" then InsertRecord(WithSection(s)) else s
  }

  function OneLine(s: Loading, line: string): Loading { TrimmedLine(s, Trim(line)) }

  function Load(s: Loading, lines: seq<string>): Loading
    decreases |lines|
  {
    if lines == [] then s else Load(OneLine(s, lines[0]), lines[1..])
  }

  lemma LoadFrom(s: Loading, lines: seq<string>, i: nat)
    requires i < |lines|
    ensures Load(s, lines[i..]) == Load(OneLine(s, lines[i]), lines[i + 1..])
  {
    hide OneLine;
    assert lines[i..][1..] == lines[i + 1..];
  }

  lemma LoadNothing(s: Loading)
    ensures Load(s, []) == s
  {
  }

  // ---------- saving ----------

  datatype Pair = Pair(key: string, value: string, comments: seq<string>)

  /** The contents of a store, comments line by line, in the order in which the maps are walked. */
  datatype Listed = Listed(name: string, comments: seq<string>, pairs: seq<Pair>)

  /** A comment of several lines, as a record or a section holds it. */
  function Joined(lines: seq<string>): string {
    if lines == [] then "" else if |lines| == 1 then lines[0] else lines[0] + "\n" + Joined(lines[1..])
  }

  function PairLines(pairs: seq<Pair>): seq<string> {
    if pairs == [] then []
    else
      var last := pairs[|pairs| - 1];
      PairLines(pairs[..|pairs| - 1]) + last.comments + [last.key + "=" + last.value]
  }

  function SavedLines(secs: seq<Listed>): seq<string> {
    if secs == [] then []
    else
      var last := secs[|secs| - 1];
      SavedLines(secs[..|secs| - 1]) + last.comments + ["[" + last.name + "]"] + PairLines(last.pairs)
  }

  function Ended(lines: seq<string>): string {
    if lines == [] then "" else lines[0] + "\n" + Ended(lines[1..])
  }

  /** The text SaveToFile writes. */
  function Saved(secs: seq<Listed>): string { Ended(SavedLines(secs)) }

  function StoredPairs(name: string, pairs: seq<Pair>): map<string, Record> {
    if pairs == [] then map[]
    else
      var p := pairs[|pairs| - 1];
      StoredPairs(name, pairs[..|pairs| - 1])[p.key := Record(name, p.key, p.value, Joined(p.comments), ' ')]
  }

  /** The store these contents are listed from. */
  function Stored(secs: seq<Listed>): Store {
    if secs == [] then map[]
    else
      var last := secs[|secs| - 1];
      Stored(secs[..|secs| - 1])[last.name := Section(last.name, Joined(last.comments), ' ', StoredPairs(last.name, last.pairs))]
  }

  // ---------- the methods ----------

  class CIniFileS {
    var mapSection: Store

    constructor ()
      ensures mapSection == map[]
    {
      mapSection := map[];
    }

    /** Open, given the text of the file. */
    method Open(text: string) returns (ok: bool)
      modifies this
      ensures ok && mapSection == Load(START, Lines(text)).store
    {
      hide Trim, SectionLine, Begin, Find, Lines, Load, IsSection;
      mapSection := map[];
      var curSec, comments, rec := "", "", BLANK_RECORD;
      var section: Option<string> := None;
      var lines := Lines(text);
      var i := 0;
      assert lines[0..] == lines;
      while i < |lines|
        invariant i <= |lines|
        invariant Load(START, lines) == Load(Loading(mapSection, curSec, comments, rec, section), lines[i..])
      {
        LoadFrom(Loading(mapSection, curSec, comments, rec, section), lines, i);
        var line := Trim(lines[i]);
        i := i + 1;
        if line == "" {
          continue;
        }
        if line[0] == '#' || line[0] == ';' {
          comments := comments + line + "\n";
          continue;
        }
        rec := rec.(commented := ' ');
        if IsSection(line) {
          mapSection, curSec, section := OpenSection(line, comments, rec);
          comments := "";
          continue;
        }
        var eq := Find(line, '=');
        if eq != -1 {
          rec := Record(curSec, Trim(line[..eq]), Trim(line[eq + 1..]), Trim(comments), ' ');
          comments := "";
        }
        if comments == "" {
          if section == None && rec.secName !in mapSection {
            mapSection := mapSection[rec.secName := Section(rec.secName, rec.comments, rec.commented, map[])];
            section := Some(rec.secName);
          }
          if section.Some? && section.value in mapSection && rec.key !in mapSection[section.value].kv {
            var sec := mapSection[section.value];
            mapSection := mapSection[section.value := sec.(kv := sec.kv[rec.key := rec])];
            rec := BLANK_RECORD;
          }
        }
      }
      assert lines[i..] == [];
      LoadNothing(Loading(mapSection, curSec, comments, rec, section));
      return true;
    }

    /** A section line of Open. */
    method OpenSection(line: string, comments: string, rec: Record) returns (store: Store, name: string, section: Option<string>)
      requires IsSection(line)
      ensures forall s: Loading | s.store == mapSection && s.comments == comments && s.rec == rec ::
                SectionLine(s, line) == Loading(store, name, "", rec, section)
    {
      name := Trim(line[1..Find(line, ']')]);
      store, section := mapSection, None;
      if name !in store {
        store := store[name := Section(name, Trim(comments), rec.commented, map[])];
        section := Some(name);
      }
    }
  }

  // ---------- round trip ----------

  lemma {:induction false} TrimNothing(s: string)
    requires Trimmed(s)
    ensures Trim(s) == s
  {
  }

  predicate NoNewline(s: string) { '\n' !in s }

  /** A line that is read as a comment. */
  predicate CommentFits(c: string) { c != "" && Trimmed(c) && NoNewline(c) && (c[0] == '#' || c[0] == ';') }

  predicate CommentsFit(cs: seq<string>) { forall i | 0 <= i < |cs| :: CommentFits(cs[i]) }

  /** A section name that survives. */
  predicate NameFits(name: string) { name != "" && Trimmed(name) && NoNewline(name) && ']' !in name }

  /** A key and value that survive: the line must not look like a comment or a section. */
  predicate PairFits(p: Pair) {
    p.key != "" && Trimmed(p.key) && NoNewline(p.key) && '=' !in p.key && p.key[0] != '#' && p.key[0] != ';'
    && Trimmed(p.value) && NoNewline(p.value)
    && !(p.key[0] == '[' && (']' in p.key || ']' in p.value))
    && CommentsFit(p.comments)
  }

  predicate ListFits(l: Listed) {
    NameFits(l.name) && CommentsFit(l.comments)
    && (forall i | 0 <= i < |l.pairs| :: PairFits(l.pairs[i]))
    && forall i, j | 0 <= i < j < |l.pairs| :: l.pairs[i].key != l.pairs[j].key
  }

  predicate AllFit(secs: seq<Listed>) {
    (forall i | 0 <= i < |secs| :: ListFits(secs[i]))
    && forall i, j | 0 <= i < j < |secs| :: secs[i].name != secs[j].name
  }

  lemma {:induction false} FindsAt(s: string, c: char, i: nat)
    requires i < |s| && s[i] == c && c !in s[..i]
    ensures Find(s, c) == i
  {
    if i > 0 {
      assert s[..i] == [s[0]] + s[1..][..i - 1];
      FindsAt(s[1..], c, i - 1);
    }
  }

  // ---------- blanks ----------

  predicate Blanks(s: string) { forall i | 0 <= i < |s| :: Blank(s[i]) }

  lemma {:induction false} TrimLeftBlanks(a: string, s: string)
    requires Blanks(a)
    ensures TrimLeft(a + s) == TrimLeft(s)
  {
    if a == "" {
      assert a + s == s;
    } else {
      assert (a + s)[1..] == a[1..] + s;
      TrimLeftBlanks(a[1..], s);
    }
  }

  lemma {:induction false} TrimRightBlanks(s: string, d: string)
    requires Blanks(d)
    ensures TrimRight(s + d) == TrimRight(s)
  {
    if d == "" {
      assert s + d == s;
    } else {
      assert (s + d)[..|s + d| - 1] == s + d[..|d| - 1];
      TrimRightBlanks(s, d[..|d| - 1]);
    }
  }

  /** Trimming takes off exactly the blanks at both ends. */
  lemma TrimPadded(a: string, s: string, d: string)
    requires Blanks(a) && Trimmed(s) && Blanks(d)
    ensures Trim(a + s + d) == s
  {
    assert a + s + d == a + (s + d);
    TrimLeftBlanks(a, s + d);
    if s == "" {
      assert s + d == d + "";
      TrimLeftBlanks(d, "");
      TrimNothing("");
    } else {
      assert TrimLeft(s + d) == s + d;
      TrimRightBlanks(s, d);
      TrimNothing(s);
    }
  }

  lemma {:induction false} JoinedEnded(cs: seq<string>)
    requires CommentsFit(cs)
    ensures cs != [] ==> Ended(cs) == Joined(cs) + "\n" && Joined(cs) != "" && Trimmed(Joined(cs))
    ensures Trim(Ended(cs)) == Joined(cs)
  {
    hide Trim;
    if cs == [] {
      TrimNothing("");
    } else {
      if |cs| > 1 {
        JoinedEnded(cs[1..]);
        assert CommentFits(cs[0]);
        JoinedMore(cs[0], Joined(cs[1..]));
      } else {
        assert CommentFits(cs[0]);
        assert Ended(cs) == cs[0] + "\n" + "";
      }
      hide CommentsFit, CommentFits;
      var joined := Joined(cs);
      assert Ended(cs) == joined + "\n";
      hide Joined, Ended;
      TrimPadded("", joined, "\n");
      assert "" + joined + "\n" == joined + "\n";
    }
  }

  lemma JoinedMore(line: string, rest: string)
    requires line != "" && Trimmed(line) && rest != "" && Trimmed(rest)
    ensures Trimmed(line + "\n" + rest) && line + "\n" + (rest + "\n") == (line + "\n" + rest) + "\n"
  {
    var all := line + "\n" + rest;
    assert all[0] == line[0] && all[|all| - 1] == rest[|rest| - 1];
  }

  /** Comment lines are kept for what follows. */
  lemma {:induction false} CommentsRead(s: Loading, cs: seq<string>)
    requires CommentsFit(cs)
    ensures Load(s, cs) == s.(comments := s.comments + Ended(cs))
    decreases |cs|
  {
    if cs == [] {
      assert s.comments + "" == s.comments;
    } else {
      TrimNothing(cs[0]);
      var s' := s.(comments := s.comments + cs[0] + "\n");
      assert OneLine(s, cs[0]) == s';
      hide OneLine;
      CommentsRead(s', cs[1..]);
      assert s'.comments + Ended(cs[1..]) == s.comments + Ended(cs);
    }
  }

  lemma SectionReadBack(s: Loading, name: string, cs: seq<string>)
    requires NameFits(name) && CommentsFit(cs) && name !in s.store && s.comments == Ended(cs)
    ensures OneLine(s, "[" + name + "]")
         == Loading(s.store[name := Section(name, Joined(cs), ' ', map[])], name, "", s.rec.(commented := ' '), Some(name))
  {
    PlainSection(s, name);
    JoinedEnded(cs);
    hide OneLine, Trim;
  }

  /** A line with a key and a value, and any blanks around them, once trimmed: where the '=' is, and what is on its sides. */
  lemma PairTrimmed(p: Pair, a: string, b: string, c: string, d: string)
    requires PairFits(p) && Blanks(a) && Blanks(b) && Blanks(c) && Blanks(d)
    ensures var line, k := Trim(a + p.key + b + "=" + c + p.value + d), |p.key| + |b|;
      k < |line| && Find(line, '=') == k && Trim(line[..k]) == p.key && Trim(line[k + 1..]) == p.value
      && line[0] == p.key[0] && !IsSection(line)
  {
    hide Trim, Find;
    var k := |p.key| + |b|;
    var core, last := p.key + b + "=" + c + p.value, d;
    if p.value == "" {
      core, last := p.key + b + "=", c + d;
    }
    assert a + p.key + b + "=" + c + p.value + d == a + core + last;
    assert core[0] == p.key[0] && core[k] == '=';
    assert core[|core| - 1] == if p.value == "" then '=' else p.value[|p.value| - 1];
    TrimPadded(a, core, last);
    assert core[..k] == p.key + b && forall i | 0 <= i < k :: core[..k][i] != '=';
    FindsAt(core, '=', k);
    TrimPadded("", p.key, b);
    assert "" + p.key + b == core[..k];
    if p.value == "" {
      assert core[k + 1..] == "" + "" + "";
      TrimPadded("", "", "");
    } else {
      assert core[k + 1..] == c + p.value + "";
      TrimPadded(c, p.value, "");
    }
    NotSection(p, core, b, c);
  }

  lemma NotSection(p: Pair, core: string, b: string, c: string)
    requires PairFits(p) && Blanks(b) && Blanks(c)
    requires core == p.key + b + "=" + c + p.value || (p.value == "" && core == p.key + b + "=")
    ensures !IsSection(core)
  {
    if ']' in core {
      assert ']' in p.key || ']' in p.value || ']' in b || ']' in c;
    }
  }

  lemma PairReadBack(s: Loading, name: string, p: Pair)
    requires PairFits(p) && s.comments == Ended(p.comments) && s.curSec == name && s.section == Some(name) && name in s.store
    requires p.key !in s.store[name].kv
    ensures var sec := s.store[name];
      OneLine(s, p.key + "=" + p.value)
        == s.(store := s.store[name := sec.(kv := sec.kv[p.key := Record(name, p.key, p.value, Joined(p.comments), ' ')])],
              comments := "", rec := BLANK_RECORD)
  {
    PlainLine(p);
    JoinedEnded(p.comments);
    hide Trim, Find, IsSection;
  }

  lemma PlainLine(p: Pair)
    requires PairFits(p)
    ensures var line, k := Trim(p.key + "=" + p.value), |p.key|;
      k < |line| && Find(line, '=') == k && Trim(line[..k]) == p.key && Trim(line[k + 1..]) == p.value
      && line[0] == p.key[0] && !IsSection(line)
  {
    PairTrimmed(p, "", "", "", "");
    hide Trim, Find, IsSection, PairFits;
    assert p.key + "=" + p.value == "" + p.key + "" + "=" + "" + p.value + "";
  }

  /** Blanks around the key and the value change nothing. */
  lemma BlanksDoNotMatter(s: Loading, p: Pair, a: string, b: string, c: string, d: string)
    requires PairFits(p) && Blanks(a) && Blanks(b) && Blanks(c) && Blanks(d)
    ensures OneLine(s, a + p.key + b + "=" + c + p.value + d) == OneLine(s, p.key + "=" + p.value)
  {
    hide Trim, Find, IsSection, TrimmedLine;
    var line, plain := Trim(a + p.key + b + "=" + c + p.value + d), Trim(p.key + "=" + p.value);
    PairTrimmed(p, a, b, c, d);
    PlainLine(p);
    PairIsRecord(s, p, line, |p.key| + |b|);
    PairIsRecord(s, p, plain, |p.key|);
  }

  /** All that counts of a line with a key and a value. */
  lemma PairIsRecord(s: Loading, p: Pair, line: string, eq: nat)
    requires PairFits(p) && eq < |line| && Find(line, '=') == eq && line[0] == p.key[0] && !IsSection(line)
    requires Trim(line[..eq]) == p.key && Trim(line[eq + 1..]) == p.value
    ensures TrimmedLine(s, line)
         == InsertRecord(WithSection(s.(rec := Record(s.curSec, p.key, p.value, Trim(s.comments), ' '), comments := "")))
  {
    hide Trim, Find, IsSection, InsertRecord, WithSection;
  }

  /** What follows a character that is no blank is trimmed, and nothing before it. */
  lemma {:induction false} TrimRightKeeps(x: string, d: string) returns (rest: string)
    requires x != "" && !Blank(x[|x| - 1])
    ensures TrimRight(x + d) == x + rest
    decreases |d|
  {
    rest := d;
    if d != "" && Blank(d[|d| - 1]) {
      assert (x + d)[..|x + d| - 1] == x + d[..|d| - 1];
      rest := TrimRightKeeps(x, d[..|d| - 1]);
    }
  }

  /** Nor do blanks before the brackets of a section line or inside them, or anything after them. */
  lemma SectionBlanks(s: Loading, name: string, a: string, b: string, c: string, d: string)
    requires NameFits(name) && Blanks(a) && Blanks(b) && Blanks(c)
    ensures OneLine(s, a + "[" + b + name + c + "]" + d) == OneLine(s, "[" + name + "]")
  {
    var x := "[" + b + name + c + "]";
    var i := |b + name + c| + 1;
    assert a + "[" + b + name + c + "]" + d == a + (x + d);
    TrimLeftBlanks(a, x + d);
    assert TrimLeft(x + d) == x + d;
    var rest := TrimRightKeeps(x, d);
    hide Trim, Find, IsSection, TrimmedLine, Begin, TrimLeft, TrimRight;
    assert OneLine(s, a + "[" + b + name + c + "]" + d) == TrimmedLine(s, x + rest) by { TrimIs(a + (x + d)); }
    SectionTrimmed(s, name, b, c, rest);
    SectionBegins(s, name, x + rest);
    PlainSection(s, name);
  }

  lemma TrimIs(s: string)
    ensures Trim(s) == TrimRight(TrimLeft(s))
  {
  }

  lemma SectionBegins(s: Loading, name: string, line: string)
    requires IsSection(line) && Trim(line[1..Find(line, ']')]) == name
    ensures TrimmedLine(s, line) == Begin(s.(rec := s.rec.(commented := ' ')), name)
  {
    hide Trim, Find, Begin;
  }

  lemma PlainSection(s: Loading, name: string)
    requires NameFits(name)
    ensures OneLine(s, "[" + name + "]") == Begin(s.(rec := s.rec.(commented := ' ')), name)
  {
    SectionTrimmed(s, name, "", "", "");
    assert "[" + "" + name + "" + "]" + "" == "[" + name + "]";
    TrimNothing("[" + name + "]");
    hide Trim, Find, TrimmedLine, Begin;
    SectionBegins(s, name, "[" + name + "]");
  }

  lemma SectionTrimmed(s: Loading, name: string, b: string, c: string, rest: string)
    requires NameFits(name) && Blanks(b) && Blanks(c)
    ensures var line := "[" + b + name + c + "]" + rest;
      IsSection(line) && line[0] == '[' && Trim(line[1..Find(line, ']')]) == name
  {
    var line, i := "[" + b + name + c + "]" + rest, |b + name + c| + 1;
    hide Trim, Find;
    assert line[i] == ']' && line[..i] == "[" + b + name + c;
    assert forall k | 0 <= k < |b| :: b[k] != ']';
    assert forall k | 0 <= k < |c| :: c[k] != ']';
    assert ']' !in line[..i];
    FindsAt(line, ']', i);
    assert line[1..i] == b + name + c;
    TrimPadded(b, name, c);
  }

  /** Of two lines with the same key the first counts. */
  lemma FirstCounts(s: Loading, name: string, p: Pair)
    requires PairFits(p) && s.curSec == name && s.section == Some(name) && name in s.store && p.key in s.store[name].kv
    ensures OneLine(s, p.key + "=" + p.value).store == s.store
  {
    PlainLine(p);
    hide Trim, Find, IsSection;
  }

  /** When a section is opened a second time, what follows in it is dropped. */
  lemma ReopenedDrops(s: Loading, name: string, pairs: seq<Pair>)
    requires NameFits(name) && name in s.store && forall i | 0 <= i < |pairs| :: PairFits(pairs[i])
    ensures Load(s, ["[" + name + "]"] + PairLines(pairs)).store == s.store
  {
    var head := "[" + name + "]";
    PlainSection(s, name);
    LoadAppend(s, [head], PairLines(pairs));
    LoadOne(s, head);
    hide OneLine;
    NothingInserted(OneLine(s, head), pairs);
  }

  lemma {:induction false} NothingInserted(s: Loading, pairs: seq<Pair>)
    requires s.section == None && s.curSec in s.store && forall i | 0 <= i < |pairs| :: PairFits(pairs[i])
    ensures var e := Load(s, PairLines(pairs)); e.store == s.store && e.section == None && e.curSec == s.curSec
    decreases |pairs|
  {
    hide OneLine, PairFits;
    if pairs != [] {
      var n := |pairs| - 1;
      var p, before := pairs[n], PairLines(pairs[..n]);
      NothingInserted(s, pairs[..n]);
      LoadAppend(s, before, p.comments);
      PairComments(p);
      CommentsRead(Load(s, before), p.comments);
      LoadAppend(s, before + p.comments, [p.key + "=" + p.value]);
      LoadOne(Load(s, before + p.comments), p.key + "=" + p.value);
      NotInserted(Load(s, before + p.comments), p);
    }
  }

  lemma NotInserted(s: Loading, p: Pair)
    requires s.section == None && s.curSec in s.store && PairFits(p)
    ensures var e := OneLine(s, p.key + "=" + p.value); e.store == s.store && e.section == None && e.curSec == s.curSec
  {
    PlainLine(p);
    hide Trim, Find, IsSection;
  }

  lemma {:induction false} LoadAppend(s: Loading, a: seq<string>, b: seq<string>)
    ensures Load(s, a + b) == Load(Load(s, a), b)
    decreases |a|
  {
    hide OneLine;
    if a == [] {
      assert a + b == b;
    } else {
      assert (a + b)[1..] == a[1..] + b;
      LoadAppend(OneLine(s, a[0]), a[1..], b);
    }
  }

  lemma LoadOne(s: Loading, line: string)
    ensures Load(s, [line]) == OneLine(s, line)
  {
    hide OneLine;
    assert [line][1..] == [];
  }

  lemma {:induction false} StoredPairsKeys(name: string, pairs: seq<Pair>, key: string)
    requires forall i | 0 <= i < |pairs| :: pairs[i].key != key
    ensures key !in StoredPairs(name, pairs)
  {
    if pairs != [] {
      StoredPairsKeys(name, pairs[..|pairs| - 1], key);
    }
  }

  lemma {:induction false} StoredNames(secs: seq<Listed>, name: string)
    requires forall i | 0 <= i < |secs| :: secs[i].name != name
    ensures name !in Stored(secs)
  {
    if secs != [] {
      StoredNames(secs[..|secs| - 1], name);
    }
  }

  /** The records of one section, read after its section line. */
  lemma {:induction false} PairsReadBack(s: Loading, l: Listed)
    requires ListFits(l) && s == Loading(s.store, l.name, "", s.rec, Some(l.name))
    requires s.rec == BLANK_RECORD && l.name in s.store && s.store[l.name] == Section(l.name, Joined(l.comments), ' ', map[])
    ensures Load(s, PairLines(l.pairs))
         == s.(store := s.store[l.name := Section(l.name, Joined(l.comments), ' ', StoredPairs(l.name, l.pairs))])
    decreases |l.pairs|
  {
    hide OneLine, PairFits, NameFits, CommentsFit, Joined;
    var pairs, name := l.pairs, l.name;
    if pairs != [] {
      var n := |pairs| - 1;
      var p := pairs[n];
      PairsReadBack(s, l.(pairs := pairs[..n]));
      var before := PairLines(pairs[..n]);
      var s' := Load(s, before);
      LoadAppend(s, before, p.comments);
      PairComments(p);
      CommentsRead(s', p.comments);
      LoadAppend(s, before + p.comments, [p.key + "=" + p.value]);
      var t := s'.(comments := Ended(p.comments));
      assert "" + Ended(p.comments) == Ended(p.comments);
      LoadOne(t, p.key + "=" + p.value);
      StoredPairsKeys(name, pairs[..n], p.key);
      PairReadBack(t, name, p);
    } else {
      assert s.store[name := s.store[name]] == s.store;
    }
  }

  lemma PairComments(p: Pair)
    requires PairFits(p)
    ensures CommentsFit(p.comments)
  {
  }

  /** Where loading stands after the saved lines. */
  function After(secs: seq<Listed>): Loading {
    if secs == [] then START
    else Loading(Stored(secs), secs[|secs| - 1].name, "", BLANK_RECORD, Some(secs[|secs| - 1].name))
  }

  lemma {:induction false} SectionsReadBack(secs: seq<Listed>)
    requires AllFit(secs)
    ensures Load(START, SavedLines(secs)) == After(secs)
  {
    hide OneLine, PairLines, StoredPairs, NameFits, PairFits, CommentsFit, Joined;
    if secs != [] {
      var n := |secs| - 1;
      var init, last := secs[..n], secs[n];
      SectionsReadBack(init);
      StoredNames(init, last.name);
      var s, head := After(init), "[" + last.name + "]";
      LoadAppend(START, SavedLines(init), last.comments);
      CommentsRead(s, last.comments);
      var t := s.(comments := Ended(last.comments));
      assert "" + Ended(last.comments) == Ended(last.comments);
      LoadAppend(START, SavedLines(init) + last.comments, [head]);
      LoadOne(t, head);
      SectionReadBack(t, last.name, last.comments);
      LoadAppend(START, SavedLines(init) + last.comments + [head], PairLines(last.pairs));
      PairsReadBack(OneLine(t, head), last);
    }
  }

  lemma {:induction false} LinesOfOne(line: string, rest: string)
    requires NoNewline(line)
    ensures Lines(line + "\n" + rest) == [line] + Lines(rest)
  {
    var text := line + "\n" + rest;
    if line == "" {
      assert text[1..] == rest;
    } else {
      assert text[1..] == line[1..] + "\n" + rest;
      LinesOfOne(line[1..], rest);
      assert [line[0]] + line[1..] == line;
    }
  }

  lemma {:induction false} LinesOfEnded(lines: seq<string>)
    requires forall i | 0 <= i < |lines| :: NoNewline(lines[i])
    ensures Lines(Ended(lines)) == lines + [""]
  {
    hide NoNewline;
    if lines != [] {
      LinesOfEnded(lines[1..]);
      LinesOfOne(lines[0], Ended(lines[1..]));
      assert [lines[0]] + (lines[1..] + [""]) == lines + [""];
    }
  }

  lemma {:induction false} PairLinesPlain(pairs: seq<Pair>)
    requires forall i | 0 <= i < |pairs| :: PairFits(pairs[i])
    ensures forall i | 0 <= i < |PairLines(pairs)| :: NoNewline(PairLines(pairs)[i])
  {
    if pairs != [] {
      PairLinesPlain(pairs[..|pairs| - 1]);
      var p := pairs[|pairs| - 1];
      assert NoNewline(p.key + "=" + p.value);
      assert forall i | 0 <= i < |p.comments| :: CommentFits(p.comments[i]);
    }
  }

  lemma {:induction false} SavedLinesPlain(secs: seq<Listed>)
    requires AllFit(secs)
    ensures forall i | 0 <= i < |SavedLines(secs)| :: NoNewline(SavedLines(secs)[i])
  {
    hide PairFits, PairLines;
    if secs != [] {
      var last := secs[|secs| - 1];
      SavedLinesPlain(secs[..|secs| - 1]);
      PairLinesPlain(last.pairs);
      assert NoNewline("[" + last.name + "]");
      assert forall i | 0 <= i < |last.comments| :: CommentFits(last.comments[i]);
    }
  }

  /** Open rebuilds exactly the store whose contents SaveToFile wrote, in whatever order. */
  lemma OpenOfSave(secs: seq<Listed>)
    requires AllFit(secs)
    ensures Load(START, Lines(Saved(secs))).store == Stored(secs)
  {
    hide OneLine, AllFit;
    SavedLinesPlain(secs);
    LinesOfEnded(SavedLines(secs));
    SectionsReadBack(secs);
    LoadAppend(START, SavedLines(secs), [""]);
    LoadOne(After(secs), "");
    EmptyLine(After(secs));
  }

  lemma EmptyLine(s: Loading)
    ensures OneLine(s, "") == s
  {
    TrimNothing("");
  }

  /** What a listing says is what the store holds. */
  lemma {:induction false} StoredHolds(secs: seq<Listed>, i: nat)
    requires AllFit(secs) && i < |secs|
    ensures secs[i].name in Stored(secs)
    ensures Stored(secs)[secs[i].name]
         == Section(secs[i].name, Joined(secs[i].comments), ' ', StoredPairs(secs[i].name, secs[i].pairs))
  {
    hide StoredPairs, ListFits;
    if i < |secs| - 1 {
      StoredHolds(secs[..|secs| - 1], i);
    }
  }

  lemma {:induction false} StoredPairHolds(name: string, pairs: seq<Pair>, i: nat)
    requires i < |pairs| && forall a, b | 0 <= a < b < |pairs| :: pairs[a].key != pairs[b].key
    ensures pairs[i].key in StoredPairs(name, pairs)
    ensures var rec := StoredPairs(name, pairs)[pairs[i].key];
      rec.secName == name && rec.key == pairs[i].key && rec.value == pairs[i].value && rec.comments == Joined(pairs[i].comments)
  {
    if i < |pairs| - 1 {
      StoredPairHolds(name, pairs[..|pairs| - 1], i);
    }
  }
}
