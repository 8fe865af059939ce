/** What a configuration text says: how each line is read, which line is at fault, and what is found
    under a section and a key. */
module ConfigReading {
  import opened Text
  import opened Ctype
  import opened ServerConfig

  predicate White(s: string) { forall i :: 0 <= i < |s| ==> IsSpace(s[i]) }

  // ----- one line -----

  /** Every line is its trimmed text with white space around it. */
  lemma {:induction false} LinePadded(raw: string) returns (left: string, right: string)
    ensures White(left) && White(right) && raw == left + Trim(raw) + right
    decreases |raw|
  {
    left, right := "", "";
    if raw == "" {
    } else if IsSpace(raw[0]) {
      left, right := LinePadded(raw[1..]);
      assert raw == [raw[0]] + raw[1..];
      left := [raw[0]] + left;
    } else if IsSpace(raw[|raw| - 1]) {
      left, right := LinePadded(raw[..|raw| - 1]);
      assert raw == raw[..|raw| - 1] + [raw[|raw| - 1]];
      right := right + [raw[|raw| - 1]];
    } else {
      assert raw == "" + raw + "";
    }
  }

  lemma CommentReads(left: string, text: string, right: string)
    requires White(left) && White(right) && Trimmed(text)
    requires text == "" || text[0] == '#' || text[0] == ';'
    ensures ReadLine(Trim(left + text + right)) == Blank
  {
    TrimPadded(left, text, right);
  }

  lemma HeaderReads(left: string, a: string, name: string, b: string, right: string)
    requires White(left) && White(a) && White(b) && White(right) && Trimmed(name)
    ensures ReadLine(Trim(left + ("[" + (a + name + b) + "]") + right)) == Header(Lower(name))
  {
    hide Trim, Lower;
    var text := "[" + (a + name + b) + "]";
    TrimPadded(left, text, right);
    TrimPadded(a, name, b);
    assert text[1..|text| - 1] == a + name + b;
  }

  /** A line with an equals sign that is neither a comment nor a section header. */
  lemma EntryReads(left: string, key: string, a: string, b: string, value: string, right: string)
    requires White(left) && White(a) && White(b) && White(right)
    requires Trimmed(key) && Trimmed(value) && (key == "" ==> a == "") && (value == "" ==> b == "")
    requires forall i :: 0 <= i < |key| ==> key[i] != '='
    requires key != "" ==> key[0] != '#' && key[0] != ';'
    requires key != "" && value != "" ==> !(key[0] == '[' && value[|value| - 1] == ']')
    ensures ReadLine(Trim(left + ((key + a) + "=" + (b + value)) + right)) == Entry(Lower(key), value)
  {
    hide Trim, Lower, ReadLine;
    var front, back := key + a, b + value;
    EntryEnds(key, a, b, value);
    assert Trim(left + (front + "=" + back) + right) == front + "=" + back by {
      TrimPadded(left, front + "=" + back, right);
    }
    SplitReads(front, back);
  }

  /** Its two sides, trimmed; and what the line begins and ends with. */
  lemma EntryEnds(key: string, a: string, b: string, value: string)
    requires White(a) && White(b) && Trimmed(key) && Trimmed(value)
    requires (key == "" ==> a == "") && (value == "" ==> b == "")
    requires forall i :: 0 <= i < |key| ==> key[i] != '='
    ensures Trim(key + a) == key && Trim(b + value) == value
    ensures Trimmed((key + a) + "=" + (b + value))
    ensures forall i :: 0 <= i < |key + a| ==> (key + a)[i] != '='
    ensures key != "" ==> (key + a)[0] == key[0]
    ensures value != "" ==> (b + value)[|b + value| - 1] == value[|value| - 1]
  {
    hide Trim, IsSpace, Trimmed, White;
    KeyEnds(key, a);
    ValueEnds(b, value);
    EndsTrimmed(key + a, b + value);
  }

  lemma KeyEnds(key: string, a: string)
    requires White(a) && Trimmed(key) && (key == "" ==> a == "")
    requires forall i :: 0 <= i < |key| ==> key[i] != '='
    ensures Trim(key + a) == key
    ensures key + a != "" ==> !IsSpace((key + a)[0])
    ensures key != "" ==> (key + a)[0] == key[0]
    ensures forall i :: 0 <= i < |key + a| ==> (key + a)[i] != '='
  {
    hide Trim;
    TrimPadded("", key, a);
    EmptyLeft(key);
    forall i | 0 <= i < |key + a| ensures (key + a)[i] != '=' {
      if i >= |key| { assert IsSpace((key + a)[i]); }
    }
  }

  lemma ValueEnds(b: string, value: string)
    requires White(b) && Trimmed(value) && (value == "" ==> b == "")
    ensures Trim(b + value) == value
    ensures b + value != "" ==> !IsSpace((b + value)[|b + value| - 1])
    ensures value != "" ==> (b + value)[|b + value| - 1] == value[|value| - 1]
  {
    hide Trim;
    TrimPadded(b, value, "");
    assert (b + value) + "" == b + value;
  }

  lemma EndsTrimmed(front: string, back: string)
    requires front != "" ==> !IsSpace(front[0])
    requires back != "" ==> !IsSpace(back[|back| - 1])
    ensures Trimmed(front + "=" + back)
  {
    var text := front + "=" + back;
    assert text[0] == if front == "" then '=' else front[0];
    assert text[|text| - 1] == if back == "" then '=' else back[|back| - 1];
  }

  lemma SplitReads(front: string, back: string)
    requires forall i :: 0 <= i < |front| ==> front[i] != '='
    requires front != "" ==> front[0] != '#' && front[0] != ';'
    requires front != "" && back != "" ==> !(front[0] == '[' && back[|back| - 1] == ']')
    ensures ReadLine(front + "=" + back) == Entry(Lower(Trim(front)), Trim(back))
  {
    hide Trim, Lower;
    var text := front + "=" + back;
    assert text[0] == if front == "" then '=' else front[0];
    assert text[|text| - 1] == if back == "" then '=' else back[|back| - 1];
    IndexOfAfter(front, '=', back);
    assert text[..|front|] == front && text[|front| + 1..] == back;
  }

  lemma BareReads(left: string, text: string, right: string)
    requires White(left) && White(right) && Trimmed(text) && text != ""
    requires forall i :: 0 <= i < |text| ==> text[i] != '='
    requires text[0] != '#' && text[0] != ';' && !(text[0] == '[' && text[|text| - 1] == ']')
    ensures ReadLine(Trim(left + text + right)) == NoEquals
  {
    hide Trim, Lower;
    TrimPadded(left, text, right);
  }

  // ----- the lines of a text -----

  function Unlines(raws: seq<string>): string {
    if raws == [] then "" else raws[0] + "\n" + Unlines(raws[1..])
  }

  function ReadAll(raws: seq<string>): (lines: seq<Line>)
    ensures |lines| == |raws| && forall i :: 0 <= i < |raws| ==> lines[i] == ReadLine(Trim(raws[i]))
  {
    seq(|raws|, i requires 0 <= i < |raws| => ReadLine(Trim(raws[i])))
  }

  /** A line feed ends a line; the last line need not have one. */
  lemma {:induction false} LinesRead(raws: seq<string>, last: string)
    requires OneLine(last) && forall i :: 0 <= i < |raws| ==> OneLine(raws[i])
    ensures LinesOf(Unlines(raws) + last) == ReadAll(if last == "" then raws else raws + [last])
    decreases |raws|
  {
    hide ReadLine, Trim, LinesOf, ReadAll;
    if raws == [] {
      EmptyLeft(last);
      LastLine(last);
      ReadAllParts([], []);
      ReadAllParts(raws, [last]);
    } else {
      var first, rest := raws[0], raws[1..];
      Assoc(first + "\n", Unlines(rest), last);
      LineThenRest(first, Unlines(rest) + last);
      LinesRead(rest, last);
      ReadAllParts([first], rest);
      ReadAllParts([first], rest + [last]);
      assert [first] + rest == raws && [first] + (rest + [last]) == raws + [last];
    }
  }

  lemma ReadAllParts(a: seq<string>, b: seq<string>)
    ensures ReadAll(a + b) == ReadAll(a) + ReadAll(b)
    ensures |a| == 1 ==> ReadAll(a) == [ReadLine(Trim(a[0]))]
    ensures |b| == 1 ==> ReadAll(b) == [ReadLine(Trim(b[0]))]
    ensures ReadAll([]) == []
  {
    hide ReadLine, Trim;
  }

  lemma LastLine(last: string)
    requires OneLine(last)
    ensures LinesOf(last) == if last == "" then [] else [ReadLine(Trim(last))]
  {
    assert IndexOf(last, '\n') == |last| && last[..|last|] == last;
  }

  // ----- what is found -----

  /** The section in force behind these lines. */
  function SectionAt(lines: seq<Line>): string {
    if lines == [] then ""
    else if lines[|lines| - 1].Header? then lines[|lines| - 1].name
    else SectionAt(lines[..|lines| - 1])
  }

  /** What is wrong with a line, given the section in force. */
  function Fault(line: Line, section: string): Option<IniError> {
    match line
    case Blank => None
    case Header(name) => if name == "" then Some(EmptySection) else None
    case NoEquals => Some(MissingEquals)
    case Entry(key, value) =>
      if section == "" then Some(MissingSection) else if key == "" then Some(EmptyKey) else None
  }

  function FaultAt(lines: seq<Line>, i: nat): Option<IniError>
    requires i < |lines|
  {
    Fault(lines[i], SectionAt(lines[..i]))
  }

  /** The value of the last line that sets this key in this section. */
  function ValueOf(lines: seq<Line>, section: string, key: string): Option<string> {
    if lines == [] then None
    else
      var front, last := lines[..|lines| - 1], lines[|lines| - 1];
      if last.Entry? && last.key == key && SectionAt(front) == section then Some(last.value)
      else ValueOf(front, section, key)
  }

  function Found(table: Table, section: string, key: string): Option<string> {
    if section in table && key in table[section] then Some(table[section][key]) else None
  }

  /** Storing one value changes what is found in one place. */
  lemma StoreIs(table: Table, section: string, key: string, value: string, s: string, k: string)
    ensures Found(Store(table, section, key, value), s, k) ==
            if s == section && k == key then Some(value) else Found(table, s, k)
  {}

  lemma {:induction false} TakeLast(s: Ini, lines: seq<Line>, line: Line, lineNo: nat)
    ensures TakeLines(s, lines + [line], lineNo) ==
            var t := TakeLines(s, lines, lineNo); if t.Bad? then t else TakeLine(t, line, lineNo + |lines| + 1)
    decreases |lines|
  {
    if s.Bad? {
    } else if lines == [] {
      assert lines + [line] == [line];
    } else {
      assert (lines + [line])[1..] == lines[1..] + [line];
      TakeLast(TakeLine(s, lines[0], lineNo + 1), lines[1..], line, lineNo + 1);
    }
  }

  /** Line i is the first at fault. */
  ghost predicate FirstFault(lines: seq<Line>, i: nat) {
    i < |lines| && FaultAt(lines, i).Some? && forall j: nat :: j < i ==> FaultAt(lines, j).None?
  }

  ghost predicate FailsAtFirst(r: Ini, lines: seq<Line>) {
    exists i: nat :: FirstFault(lines, i) && r == Bad(FaultAt(lines, i).value, i + 1)
  }

  ghost predicate FindsAll(r: Ini, lines: seq<Line>) {
    && r.Parsed? && (forall i: nat :: i < |lines| ==> FaultAt(lines, i).None?)
    && r.section == SectionAt(lines)
    && forall s, k :: Found(r.table, s, k) == ValueOf(lines, s, k)
  }

  lemma {:induction false} LinesTaken(lines: seq<Line>)
    ensures var r := TakeLines(ServerConfig.START, lines, 0); FindsAll(r, lines) || FailsAtFirst(r, lines)
    decreases |lines|
  {
    if lines == [] {
    } else {
      var front, last := lines[..|lines| - 1], lines[|lines| - 1];
      var before := TakeLines(ServerConfig.START, front, 0);
      assert lines == front + [last];
      LinesTaken(front);
      TakeLast(ServerConfig.START, front, last, 0);
      FaultsOfFront(lines);
      if FindsAll(before, front) {
        LastTaken(before, lines);
      } else {
        StaysFailed(before, lines);
      }
    }
  }

  lemma FaultsOfFront(lines: seq<Line>)
    requires lines != []
    ensures forall i: nat :: i < |lines| - 1 ==> FaultAt(lines, i) == FaultAt(lines[..|lines| - 1], i)
  {
    forall i: nat | i < |lines| - 1 ensures FaultAt(lines, i) == FaultAt(lines[..|lines| - 1], i) {
      assert lines[..|lines| - 1][..i] == lines[..i];
    }
  }

  lemma StaysFailed(before: Ini, lines: seq<Line>)
    requires lines != [] && FailsAtFirst(before, lines[..|lines| - 1])
    ensures FailsAtFirst(before, lines)
  {
    hide FaultAt;
    FaultsOfFront(lines);
    var front := lines[..|lines| - 1];
    var i: nat :| FirstFault(front, i) && before == Bad(FaultAt(front, i).value, i + 1);
    assert FirstFault(lines, i) && FaultAt(lines, i) == FaultAt(front, i);
  }

  lemma LastTaken(before: Ini, lines: seq<Line>)
    requires lines != [] && FindsAll(before, lines[..|lines| - 1])
    ensures var r := TakeLine(before, lines[|lines| - 1], |lines|); FindsAll(r, lines) || FailsAtFirst(r, lines)
  {
    hide FaultAt, Store, Found;
    var front, last, n := lines[..|lines| - 1], lines[|lines| - 1], |lines| - 1;
    var r := TakeLine(before, last, |lines|);
    FaultsOfFront(lines);
    LastFault(lines);
    if r.Parsed? {
      forall s, k ensures Found(r.table, s, k) == ValueOf(lines, s, k) {
        assert Found(before.table, s, k) == ValueOf(front, s, k);
        if last.Entry? { StoreIs(before.table, before.section, last.key, last.value, s, k); }
      }
    }
  }

  lemma LastFault(lines: seq<Line>)
    requires lines != []
    ensures FaultAt(lines, |lines| - 1) == Fault(lines[|lines| - 1], SectionAt(lines[..|lines| - 1]))
  {}

  lemma OneFirstFault(lines: seq<Line>, i: nat, j: nat)
    requires FirstFault(lines, i) && FirstFault(lines, j)
    ensures i == j && FaultAt(lines, i).Some?
  {}

  lemma Outcome(r: Ini, lines: seq<Line>)
    requires FindsAll(r, lines) || FailsAtFirst(r, lines)
    ensures forall i: nat :: FirstFault(lines, i) ==> r == Bad(FaultAt(lines, i).value, i + 1)
    ensures (forall i: nat :: i < |lines| ==> FaultAt(lines, i).None?) ==>
              r.Parsed? && forall s, k :: Found(r.table, s, k) == ValueOf(lines, s, k)
  {
    hide FaultAt, Found, ValueOf;
    if FailsAtFirst(r, lines) {
      var i: nat :| FirstFault(lines, i) && r == Bad(FaultAt(lines, i).value, i + 1);
      forall j: nat | FirstFault(lines, j) ensures i == j { OneFirstFault(lines, i, j); }
    }
  }

  /** Every configuration text is refused for its first line at fault, with the number of that line; a text
      without one gives, for each section and key, the value of the last line that sets it, and nothing
      where no line does. */
  lemma ConfigIs(raws: seq<string>, last: string)
    requires OneLine(last) && forall i :: 0 <= i < |raws| ==> OneLine(raws[i])
    ensures var lines := ReadAll(if last == "" then raws else raws + [last]);
            var r := Parse(Unlines(raws) + last);
            && (forall i: nat :: FirstFault(lines, i) ==> r == Bad(FaultAt(lines, i).value, i + 1))
            && ((forall i: nat :: i < |lines| ==> FaultAt(lines, i).None?) ==>
                 r.Parsed? && forall s, k :: Found(r.table, s, k) == ValueOf(lines, s, k))
  {
    hide LinesOf, TakeLines, ReadAll;
    hide FaultAt, Found, ValueOf, FirstFault, FailsAtFirst, FindsAll, Unlines;
    var lines := ReadAll(if last == "" then raws else raws + [last]);
    LinesRead(raws, last);
    LinesTaken(lines);
    Outcome(Parse(Unlines(raws) + last), lines);
  }
}
