/** The INI parser of the server configuration, and its round trip. */
module ServerConfig {
  import opened Text
  import opened Ctype

  type Table = map<string, map<string, string>>

  datatype IniError = EmptySection | MissingEquals | MissingSection | EmptyKey

  /** The parser's state between lines, or the error with its line number. */
  datatype Ini = Parsed(section: string, table: Table) | Bad(error: IniError, lineNo: nat)

  const START := Parsed("", map[])

  /** result[section][key] = value. */
  function Store(table: Table, section: string, key: string, value: string): Table {
    table[section := (if section in table then table[section] else map[])[key := value]]
  }

  /** What one line says. */
  datatype Line = Blank | Header(name: string) | Entry(key: string, value: string) | NoEquals

  /** One line, already trimmed. */
  function ReadLine(line: string): Line {
    if line == "" || line[0] == '#' || line[0] == ';' then Blank
    else if line[0] == '[' && line[|line| - 1] == ']' then Header(Lower(Trim(line[1..|line| - 1])))
    else
      var equals := IndexOf(line, '=');
      if equals == |line| then NoEquals
      else Entry(Lower(Trim(line[..equals])), Trim(line[equals + 1..]))
  }

  function TakeLine(s: Ini, line: Line, lineNo: nat): Ini
    requires s.Parsed?
  {
    match line
    case Blank => s
    case Header(name) => if name == "" then Bad(EmptySection, lineNo) else s.(section := name)
    case NoEquals => Bad(MissingEquals, lineNo)
    case Entry(key, value) =>
      if s.section == "" then Bad(MissingSection, lineNo)
      else if key == "" then Bad(EmptyKey, lineNo)
      else s.(table := Store(s.table, s.section, key, value))
  }

  /** The text of the first line, and what follows it. */
  function FirstLine(text: string): (r: (string, string))
    ensures text != "" ==> |r.1| < |text|
  {
    var i := IndexOf(text, '\n');
    (text[..i], if i < |text| then text[i + 1..] else "")
  }

  /** The lines that repeated std::getline reads, each trimmed. */
  function LinesOf(text: string): seq<Line>
    decreases |text|
  {
    if text == "" then [] else [ReadLine(Trim(FirstLine(text).0))] + LinesOf(FirstLine(text).1)
  }

  function TakeLines(s: Ini, lines: seq<Line>, lineNo: nat): Ini
    decreases |lines|
  {
    if s.Bad? || lines == [] then s
    else TakeLines(TakeLine(s, lines[0], lineNo + 1), lines[1..], lineNo + 1)
  }

  function Parse(text: string): Ini { TakeLines(START, LinesOf(text), 0) }

  method ParseIni(input: string) returns (result: Ini)
    ensures result == Parse(input)
  {
    result := START;
    var text, lineNo := input, 0;
    while text != ""
      invariant result.Parsed? && TakeLines(result, LinesOf(text), lineNo) == Parse(input)
      decreases |text|
    {
      var (raw, rest) := FirstLine(text);
      assert LinesOf(text)[1..] == LinesOf(rest);
      lineNo := lineNo + 1;
      var line := Trim(raw);
      result := TakeLine(result, ReadLine(line), lineNo);
      text := rest;
      if result.Bad? { return; }
    }
  }

  // ----- printing -----

  datatype Section = Section(name: string, entries: seq<(string, string)>)

  /** What a section header or an entry must look like to read back. An entry must not be mistaken for
      a comment or for a section header. */
  predicate PrintableName(s: string) { s != "" && Trimmed(s) && OneLine(s) }

  predicate PrintableEntry(e: (string, string)) {
    && PrintableName(e.0) && (forall i :: 0 <= i < |e.0| ==> e.0[i] != '=')
    && e.0[0] != '#' && e.0[0] != ';'
    && !(e.0[0] == '[' && e.1 != "" && e.1[|e.1| - 1] == ']')
    && Trimmed(e.1) && OneLine(e.1)
  }

  predicate Printable(t: seq<Section>) {
    forall i :: 0 <= i < |t| ==>
      PrintableName(t[i].name) && forall j :: 0 <= j < |t[i].entries| ==> PrintableEntry(t[i].entries[j])
  }

  function EntryLine(e: (string, string)): string { e.0 + "=" + e.1 }

  function NameLine(name: string): string { "[" + name + "]" }

  function PrintEntries(es: seq<(string, string)>): string {
    if es == [] then "" else EntryLine(es[0]) + "\n" + PrintEntries(es[1..])
  }

  function Print(t: seq<Section>): string {
    if t == [] then "" else NameLine(t[0].name) + "\n" + (PrintEntries(t[0].entries) + Print(t[1..]))
  }

  /** The table a printed configuration stands for: names in lower case, sections of the same name
      merged, the last value of each key. */
  function StoreAll(table: Table, section: string, es: seq<(string, string)>): Table
    decreases |es|
  {
    if es == [] then table else StoreAll(Store(table, section, Lower(es[0].0), es[0].1), section, es[1..])
  }

  function TableOf(table: Table, t: seq<Section>): Table
    decreases |t|
  {
    if t == [] then table else TableOf(StoreAll(table, Lower(t[0].name), t[0].entries), t[1..])
  }

  // ----- the round trip -----

  lemma FirstLinePrinted(line: string, rest: string)
    requires OneLine(line)
    ensures FirstLine(line + "\n" + rest) == (line, rest)
  {
    var s := line + "\n" + rest;
    IndexOfAfter(line, '\n', rest);
    assert s[..|line|] == line && s[|line| + 1..] == rest;
  }

  lemma EntryRead(e: (string, string))
    requires PrintableEntry(e)
    ensures OneLine(EntryLine(e)) && Lower(e.0) != ""
    ensures ReadLine(Trim(EntryLine(e))) == Entry(Lower(e.0), e.1)
  {
    var line := EntryLine(e);
    assert line[0] == e.0[0];
    assert line[|line| - 1] == if e.1 == "" then '=' else e.1[|e.1| - 1];
    assert Trim(line) == line;
    IndexOfAfter(e.0, '=', e.1);
    assert line == e.0 + ['='] + e.1;
    assert line[..|e.0|] == e.0 && line[|e.0| + 1..] == e.1;
    assert |Lower(e.0)| > 0;
  }

  lemma NameRead(name: string)
    requires PrintableName(name)
    ensures OneLine(NameLine(name)) && Lower(name) != ""
    ensures ReadLine(Trim(NameLine(name))) == Header(Lower(name))
  {
    var line := NameLine(name);
    assert Trim(line) == line;
    assert line[1..|line| - 1] == name;
    assert |Lower(name)| > 0;
  }

  lemma LineThenRest(line: string, rest: string)
    requires OneLine(line)
    ensures LinesOf(line + "\n" + rest) == [ReadLine(Trim(line))] + LinesOf(rest)
  {
    FirstLinePrinted(line, rest);
  }

  /** What the printed lines say. */
  function EntriesSay(es: seq<(string, string)>): seq<Line> {
    if es == [] then [] else [Entry(Lower(es[0].0), es[0].1)] + EntriesSay(es[1..])
  }

  function TableSays(t: seq<Section>): seq<Line> {
    if t == [] then [] else [Header(Lower(t[0].name))] + (EntriesSay(t[0].entries) + TableSays(t[1..]))
  }

  lemma {:induction false} EntriesPrinted(es: seq<(string, string)>, rest: string)
    requires forall j :: 0 <= j < |es| ==> PrintableEntry(es[j])
    ensures LinesOf(PrintEntries(es) + rest) == EntriesSay(es) + LinesOf(rest)
  {
    if es == [] {
      EmptyLeft(rest);
      EmptyLeft(LinesOf(rest));
    } else {
      var line := EntryLine(es[0]);
      Assoc(line + "\n", PrintEntries(es[1..]), rest);
      EntryRead(es[0]);
      LineThenRest(line, PrintEntries(es[1..]) + rest);
      EntriesPrinted(es[1..], rest);
      Assoc([Entry(Lower(es[0].0), es[0].1)], EntriesSay(es[1..]), LinesOf(rest));
    }
  }

  lemma {:induction false} TablePrinted(t: seq<Section>)
    requires Printable(t)
    ensures LinesOf(Print(t)) == TableSays(t)
  {
    if t == [] {
    } else {
      NameRead(t[0].name);
      LineThenRest(NameLine(t[0].name), PrintEntries(t[0].entries) + Print(t[1..]));
      EntriesPrinted(t[0].entries, Print(t[1..]));
      TablePrinted(t[1..]);
    }
  }

  lemma {:induction false} EntriesTaken(s: Ini, es: seq<(string, string)>, rest: seq<Line>, lineNo: nat)
    requires s.Parsed? && s.section != ""
    requires forall j :: 0 <= j < |es| ==> es[j].0 != ""
    ensures TakeLines(s, EntriesSay(es) + rest, lineNo) ==
            TakeLines(s.(table := StoreAll(s.table, s.section, es)), rest, lineNo + |es|)
    decreases |es|
  {
    if es == [] {
      EmptyLeft(rest);
    } else {
      assert |Lower(es[0].0)| > 0;
      assert (EntriesSay(es) + rest)[1..] == EntriesSay(es[1..]) + rest;
      EntriesTaken(s.(table := Store(s.table, s.section, Lower(es[0].0), es[0].1)), es[1..], rest, lineNo + 1);
    }
  }

  lemma SectionTaken(s: Ini, sec: Section, rest: seq<Line>, lineNo: nat)
    requires s.Parsed? && sec.name != "" && forall j :: 0 <= j < |sec.entries| ==> sec.entries[j].0 != ""
    ensures var name := Lower(sec.name);
            TakeLines(s, [Header(name)] + (EntriesSay(sec.entries) + rest), lineNo) ==
            TakeLines(Parsed(name, StoreAll(s.table, name, sec.entries)), rest, lineNo + 1 + |sec.entries|)
  {
    var name := Lower(sec.name);
    var lines := [Header(name)] + (EntriesSay(sec.entries) + rest);
    assert |name| > 0;
    assert lines[1..] == EntriesSay(sec.entries) + rest;
    EntriesTaken(Parsed(name, s.table), sec.entries, rest, lineNo + 1);
  }

  predicate Named(sec: Section) {
    sec.name != "" && forall j :: 0 <= j < |sec.entries| ==> sec.entries[j].0 != ""
  }

  lemma {:induction false} TableTaken(s: Ini, t: seq<Section>, lineNo: nat)
    requires s.Parsed? && forall i :: 0 <= i < |t| ==> Named(t[i])
    ensures var r := TakeLines(s, TableSays(t), lineNo); r.Parsed? && r.table == TableOf(s.table, t)
    decreases |t|
  {
    if t == [] {
    } else {
      assert Named(t[0]);
      SectionTaken(s, t[0], TableSays(t[1..]), lineNo);
      var name := Lower(t[0].name);
      TableTaken(Parsed(name, StoreAll(s.table, name, t[0].entries)), t[1..], lineNo + 1 + |t[0].entries|);
    }
  }

  /** A printable configuration reads back as the table it stands for. */
  lemma PrintThenParse(t: seq<Section>)
    requires Printable(t)
    ensures Parse(Print(t)).Parsed? && Parse(Print(t)).table == TableOf(map[], t)
  {
    TablePrinted(t);
    forall i | 0 <= i < |t| ensures Named(t[i]) {
      forall j | 0 <= j < |t[i].entries| ensures t[i].entries[j].0 != "" { assert PrintableEntry(t[i].entries[j]); }
    }
    TableTaken(START, t, 0);
  }
}
