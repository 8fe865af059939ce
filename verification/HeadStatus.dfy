/** Which heads the Asio server's parser accepts, and with which status it refuses every other one, in terms
    of the characters that were sent. */
module HeadStatus {
  import opened Text
  import opened Ctype
  import opened HttpParser

  // ----- Content-Length -----

  function Pow10(n: nat): nat { if n == 0 then 1 else 10 * Pow10(n - 1) }

  /** The value of a digit: its place in the row of digits. */
  function DigitValue(c: char): nat { IndexOf(DIGITS, c) }

  /** The value of digits by position. */
  function Value(digits: string): nat {
    if digits == "" then 0 else DigitValue(digits[0]) * Pow10(|digits| - 1) + Value(digits[1..])
  }

  predicate Digital(s: string) { forall i :: 0 <= i < |s| ==> s[i] in DIGITS }

  /** An optional sign and one or more digits. */
  predicate Numeral(t: string, negative: bool, digits: string) {
    && digits != "" && Digital(digits)
    && if negative then t == "-" + digits else t == digits || t == "+" + digits
  }

  lemma DigitValueIs(c: char)
    requires IsDigit(c)
    ensures DigitValue(c) == c as int - '0' as int
  {
    var d := c as int - '0' as int;
    assert DIGITS[d] == c;
    assert forall i :: 0 <= i < d ==> DIGITS[i] != c;
  }

  lemma Times10(x: nat, p: nat)
    ensures x * (10 * p) == 10 * (x * p)
  {}

  lemma {:induction false} ValueSnoc(digits: string, c: char)
    ensures Value(digits + [c]) == 10 * Value(digits) + DigitValue(c)
  {
    var all := digits + [c];
    if digits == "" {
      assert all[1..] == "" && Value("") == 0 && Pow10(0) == 1;
    } else {
      assert all[1..] == digits[1..] + [c];
      ValueSnoc(digits[1..], c);
      Times10(DigitValue(digits[0]), Pow10(|digits| - 1));
    }
  }

  lemma {:induction false} NumberIsValue(digits: string)
    requires forall i :: 0 <= i < |digits| ==> IsDigit(digits[i])
    ensures Number(digits) == Value(digits)
  {
    if digits == "" {
    } else {
      var front, last := digits[..|digits| - 1], digits[|digits| - 1];
      NumberIsValue(front);
      ValueSnoc(front, last);
      DigitValueIs(last);
      assert front + [last] == digits;
    }
  }

  /** What digits stand for, after a minus sign or not. */
  function Signed(n: nat, negative: bool): Option<nat> {
    if n >= 0x1_0000_0000_0000_0000 then None
    else if negative && n > 0 then Some(0x1_0000_0000_0000_0000 - n)
    else Some(n)
  }

  /** The length a Content-Length value stands for, if it stands for one: the value by position of its
      digits, which must be below 2^64; a minus sign makes it 2^64 less that. */
  ghost predicate StandsFor(value: string, length: Option<nat>) {
    var t := Trim(value);
    && (forall negative, digits :: Numeral(t, negative, digits) ==>
          length == Signed(Value(digits), negative))
    && ((forall negative, digits :: !Numeral(t, negative, digits)) ==> length == None)
  }

  lemma ContentLengthIs(value: string)
    ensures StandsFor(value, ParseContentLength(value))
  {
    var t := Trim(value);
    forall negative, digits | Numeral(t, negative, digits)
      ensures ParseContentLength(value) == Signed(Value(digits), negative)
    {
      NumeralParses(value, negative, digits);
    }
    if forall negative, digits :: !Numeral(t, negative, digits) {
      OnlyNumeralsParse(value);
    }
  }

  lemma AllDigits(s: string)
    ensures Digital(s) <==> forall i :: 0 <= i < |s| ==> IsDigit(s[i])
  {
    forall i | 0 <= i < |s| ensures s[i] in DIGITS <==> IsDigit(s[i]) { Classes(s[i]); }
  }

  lemma FromDigitsIs(digits: string, negative: bool)
    ensures FromDigits(digits, negative) ==
            if digits != "" && Digital(digits) then Signed(Value(digits), negative) else None
  {
    AllDigits(digits);
    if Digital(digits) { NumberIsValue(digits); }
  }

  lemma NumeralParses(value: string, negative: bool, digits: string)
    requires Numeral(Trim(value), negative, digits)
    ensures ParseContentLength(value) == Signed(Value(digits), negative)
  {
    hide Signed, FromDigits, Value, Trim;
    var t := Trim(value);
    FromDigitsIs(digits, negative);
    assert digits[0] in DIGITS;
    Classes(digits[0]);
    if t != digits { assert t[1..] == digits; }
  }

  lemma OnlyNumeralsParse(value: string)
    requires forall negative, digits :: !Numeral(Trim(value), negative, digits)
    ensures ParseContentLength(value) == None
  {
    hide Signed, FromDigits, Value, Trim;
    var t := Trim(value);
    if t != "" && (t[0] == '+' || t[0] == '-') {
      var digits := t[1..];
      assert t == [t[0]] + digits;
      assert !Numeral(t, t[0] == '-', digits);
      FromDigitsIs(digits, t[0] == '-');
    } else {
      assert !Numeral(t, false, t);
      FromDigitsIs(t, false);
    }
  }

  // ----- words -----

  predicate White(s: string) { forall i :: 0 <= i < |s| ==> IsSpace(s[i]) }

  predicate IsWord(s: string) { s != "" && forall i :: 0 <= i < |s| ==> !IsSpace(s[i]) }

  /** Words with white space around and between them. */
  function Spaced(words: seq<string>, gaps: seq<string>): string
    requires |gaps| == |words| + 1
  {
    if words == [] then gaps[0] else gaps[0] + (words[0] + Spaced(words[1..], gaps[1..]))
  }

  predicate Gaps(words: seq<string>, gaps: seq<string>) {
    && |gaps| == |words| + 1
    && (forall i :: 0 <= i < |gaps| ==> White(gaps[i]))
    && (forall i :: 0 < i < |words| ==> gaps[i] != "")
  }

  lemma {:induction false} WordsBehindGap(gap: string, rest: string)
    requires White(gap)
    ensures Words(gap + rest) == Words(rest)
    decreases |gap|
  {
    if gap == "" {
      EmptyLeft(rest);
    } else {
      assert (gap + rest)[1..] == gap[1..] + rest;
      WordsBehindGap(gap[1..], rest);
    }
  }

  lemma {:induction false} WordLengthIs(word: string, rest: string)
    requires IsWord(word) || word == ""
    requires rest == "" || IsSpace(rest[0])
    ensures WordLength(word + rest) == |word|
    decreases |word|
  {
    if word == "" {
      EmptyLeft(rest);
    } else {
      assert (word + rest)[1..] == word[1..] + rest;
      WordLengthIs(word[1..], rest);
    }
  }

  /** Words are exactly what white space separates: whatever is written this way is read this way. */
  lemma {:induction false} SpacedWordsRead(words: seq<string>, gaps: seq<string>)
    requires Gaps(words, gaps) && forall i :: 0 <= i < |words| ==> IsWord(words[i])
    ensures Words(Spaced(words, gaps)) == words
    decreases |words|
  {
    if words == [] {
      WordsBehindGap(gaps[0], "");
      assert gaps[0] + "" == gaps[0];
    } else {
      var word, rest := words[0], Spaced(words[1..], gaps[1..]);
      WordsBehindGap(gaps[0], word + rest);
      RestStartsWhite(words, gaps);
      WordLengthIs(word, rest);
      assert (word + rest)[..|word|] == word && (word + rest)[|word|..] == rest;
      SpacedWordsRead(words[1..], gaps[1..]);
    }
  }

  lemma RestStartsWhite(words: seq<string>, gaps: seq<string>)
    requires words != [] && Gaps(words, gaps) && forall i :: 0 <= i < |words| ==> IsWord(words[i])
    ensures var rest := Spaced(words[1..], gaps[1..]); rest == "" || IsSpace(rest[0])
  {
    var rest := Spaced(words[1..], gaps[1..]);
    if |words| > 1 {
      assert gaps[1] != "" && IsSpace(gaps[1][0]) && rest[0] == gaps[1][0];
    } else {
      assert White(gaps[1]) && rest == gaps[1];
    }
  }

  /** And every text is its words with white space between them. */
  lemma {:induction false} EveryTextIsSpaced(s: string) returns (gaps: seq<string>)
    ensures Gaps(Words(s), gaps) && Spaced(Words(s), gaps) == s
    ensures forall i :: 0 <= i < |Words(s)| ==> IsWord(Words(s)[i])
    decreases |s|
  {
    if s == "" {
      gaps := [""];
    } else if IsSpace(s[0]) {
      var more := EveryTextIsSpaced(s[1..]);
      gaps := [[s[0]] + more[0]] + more[1..];
      GapLonger(Words(s), more, s[0]);
      assert s == [s[0]] + s[1..];
    } else {
      var n := WordLength(s);
      var more := EveryTextIsSpaced(s[n..]);
      gaps := [""] + more;
      FirstGap(s[..n], s[n..], more);
      assert s == s[..n] + s[n..];
    }
  }

  lemma GapLonger(words: seq<string>, more: seq<string>, c: char)
    requires Gaps(words, more) && IsSpace(c)
    ensures var gaps := [[c] + more[0]] + more[1..];
            Gaps(words, gaps) && Spaced(words, gaps) == [c] + Spaced(words, more)
  {
    var gaps := [[c] + more[0]] + more[1..];
    assert gaps[1..] == more[1..];
    assert White(more[0]);
    forall i | 0 <= i < |gaps| ensures White(gaps[i]) {
      if i > 0 { assert gaps[i] == more[i]; }
    }
    if words == [] {
    } else {
      Assoc([c], more[0], words[0] + Spaced(words[1..], more[1..]));
    }
  }

  lemma FirstGap(word: string, rest: string, more: seq<string>)
    requires IsWord(word) && (rest == "" || IsSpace(rest[0]))
    requires Gaps(Words(rest), more) && Spaced(Words(rest), more) == rest
    requires forall i :: 0 <= i < |Words(rest)| ==> IsWord(Words(rest)[i])
    ensures Gaps([word] + Words(rest), [""] + more) && Spaced([word] + Words(rest), [""] + more) == word + rest
  {
    var words, gaps := [word] + Words(rest), [""] + more;
    assert words[1..] == Words(rest) && gaps[1..] == more;
    EmptyLeft(word + rest);
    forall i | 0 < i < |words| ensures gaps[i] != "" {
      if i == 1 {
        if more[0] == "" {
          assert IsWord(Words(rest)[0]);
          EmptyLeft(Words(rest)[0] + Spaced(Words(rest)[1..], more[1..]));
        }
      }
    }
  }

  // ----- the request line -----

  /** Three words, of which the first is made of letters, digits, '-', '_' and '.', and the second begins
      with a slash. */
  predicate GoodRequestLine(w: seq<string>) {
    && |w| == 3
    && (forall i :: 0 <= i < |w[0]| ==>
          w[0][i] in DIGITS || w[0][i] in UPPER || w[0][i] in LOWER || w[0][i] in "-_.")
    && w[1] != "" && w[1][0] == '/'
  }

  lemma TokenCharIs(c: char)
    ensures IsTokenChar(c) <==> c in DIGITS || c in UPPER || c in LOWER || c in "-_."
  {
    Classes(c);
    assert "-_."[0] == '-' && "-_."[1] == '_' && "-_."[2] == '.';
  }

  lemma TokenIs(s: string)
    ensures (forall i :: 0 <= i < |s| ==> IsTokenChar(s[i])) <==>
            (forall i :: 0 <= i < |s| ==> s[i] in DIGITS || s[i] in UPPER || s[i] in LOWER || s[i] in "-_.")
  {
    forall i | 0 <= i < |s|
      ensures IsTokenChar(s[i]) <==> s[i] in DIGITS || s[i] in UPPER || s[i] in LOWER || s[i] in "-_."
    {
      TokenCharIs(s[i]);
    }
  }

  /** A request line is refused as a bad request, or gives its three words, the second one divided at its
      first question mark. */
  lemma RequestLineIs(line: string)
    ensures var w, r := Words(line), RequestLine(line);
            if !GoodRequestLine(w) then r.status == BadRequest
            else
              && r.status == Ok && r.request.meth == w[0] && r.request.target == w[1] && r.request.version == w[2]
              && (forall i :: 0 <= i < |r.request.path| ==> r.request.path[i] != '?')
              && (w[1] == r.request.path + "?" + r.request.query || (w[1] == r.request.path && r.request.query == ""))
  {
    hide IsTokenChar, Words;
    var w := Words(line);
    if |w| == 3 {
      TokenIs(w[0]);
      TargetDivided(w[1]);
    }
  }

  lemma TargetDivided(target: string)
    ensures var q := IndexOf(target, '?');
            && (q < |target| ==> target == target[..q] + "?" + target[q + 1..])
            && (q == |target| ==> target == target[..q])
            && (target[..q] != "" && target[..q][0] == '/' <==> target != "" && target[0] == '/')
  {
    var q := IndexOf(target, '?');
    DividedAt(target, q);
    StartOf(target, q);
  }

  lemma DividedAt(s: string, q: nat)
    requires q <= |s| && (q < |s| ==> s[q] == '?')
    ensures q < |s| ==> s == s[..q] + "?" + s[q + 1..]
    ensures q == |s| ==> s == s[..q]
  {
    if q < |s| { assert [s[q]] == "?" && s == s[..q] + [s[q]] + s[q + 1..]; }
  }

  lemma StartOf(s: string, q: nat)
    requires q <= |s| && (s != "" && s[0] == '/' ==> q > 0)
    ensures s[..q] != "" && s[..q][0] == '/' <==> s != "" && s[0] == '/'
  {}

  // ----- the header lines -----

  /** The lines up to the empty one. */
  function HeadLines(text: string): seq<string>
    decreases |text|
  {
    match GetLine(text)
    case None => []
    case Some((raw, rest)) => if ChopCR(raw) == "" then [] else [ChopCR(raw)] + HeadLines(rest)
  }

  /** What is wrong with a header line: there is no colon, or no name before it, or it announces a length that
      is none or is too large. */
  function Fault(line: string, config: Config): Option<Status> {
    var colon := IndexOf(line, ':');
    if colon == |line| || Trim(line[..colon]) == "" then Some(BadRequest)
    else if Lower(Trim(line[..colon])) != "content-length" then None
    else
      match ParseContentLength(line[colon + 1..])
      case None => Some(BadRequest)
      case Some(n) => if n > config.maxBodyBytes then Some(BodyTooLarge) else None
  }

  function FirstFault(lines: seq<string>, config: Config): Option<Status> {
    if lines == [] then None
    else
      match Fault(lines[0], config)
      case Some(status) => Some(status)
      case None => FirstFault(lines[1..], config)
  }

  lemma TrimTwice(s: string)
    ensures ParseContentLength(Trim(s)) == ParseContentLength(s)
  {}

  lemma LowerEmpty(s: string)
    ensures Lower(s) == "" <==> s == ""
  {
    assert |Lower(s)| == |s|;
  }

  lemma TakeLineFault(s: Scan, line: string, config: Config)
    ensures var r := TakeLine(s, line, config);
            match Fault(line, config)
            case Some(status) => r.Refused? && r.status == status
            case None => r.Scanned?
  {
    var colon := IndexOf(line, ':');
    if colon < |line| {
      var key, value := Lower(Trim(line[..colon])), Trim(line[colon + 1..]);
      LowerEmpty(Trim(line[..colon]));
      TrimTwice(line[colon + 1..]);
      LookupAfter(map[], key, value);
    }
  }

  lemma {:induction false} ScanFault(s: Scan, text: string, config: Config)
    ensures var r := ScanHeaders(s, text, config);
            match FirstFault(HeadLines(text), config)
            case Some(status) => r.Refused? && r.status == status
            case None => r.Scanned?
    decreases |text|
  {
    hide TakeLine, Fault;
    if GetLine(text).None? || ChopCR(GetLine(text).value.0) == "" {
    } else {
      var (raw, rest) := GetLine(text).value;
      TakeLineFault(s, ChopCR(raw), config);
      var taken := TakeLine(s, ChopCR(raw), config);
      if taken.Scanned? { ScanFault(taken.scan, rest, config); }
    }
  }

  // ----- the media type of a body -----

  /** The media type, alone or with parameters behind a semicolon. */
  predicate Media(value: string, media: string) {
    Lower(value) == media ||
    exists i :: 0 <= i < |value| && value[i] == ';' && (forall j :: 0 <= j < i ==> value[j] != ';')
                && Lower(Trim(value[..i])) == media
  }

  lemma {:induction false} TrimLower(s: string)
    ensures Trim(Lower(s)) == Lower(Trim(s))
    decreases |s|
  {
    if s == "" {
      assert Lower("") == "";
    } else {
      var l := Lower(s);
      SpaceLower(s[0]);
      SpaceLower(s[|s| - 1]);
      if IsSpace(s[0]) {
        assert l[1..] == Lower(s[1..]);
        TrimLower(s[1..]);
      } else if IsSpace(s[|s| - 1]) {
        assert l[..|l| - 1] == Lower(s[..|s| - 1]);
        TrimLower(s[..|s| - 1]);
      }
    }
  }

  lemma SpaceLower(c: char)
    ensures IsSpace(LowerChar(c)) <==> IsSpace(c)
    ensures LowerChar(c) == ';' <==> c == ';'
  {}

  lemma AllowedIs(value: string)
    ensures IsAllowedContentType(value) <==>
            Media(value, "text/plain") || Media(value, "application/json")
            || Media(value, "application/x-www-form-urlencoded")
  {
    var l := Lower(value);
    var semicolon := IndexOf(l, ';');
    forall i | 0 <= i < |value| ensures l[i] == ';' <==> value[i] == ';' { SpaceLower(value[i]); }
    if semicolon < |l| {
      assert l[..semicolon] == Lower(value[..semicolon]);
      TrimLower(value[..semicolon]);
      NoSemicolon();
      forall i | 0 <= i < |value| && value[i] == ';' && (forall j :: 0 <= j < i ==> value[j] != ';')
        ensures i == semicolon
      {
      }
    }
  }

  /** None of the three types has a semicolon in it. */
  lemma NoSemicolon()
    ensures forall i :: 0 <= i < |"text/plain"| ==> "text/plain"[i] != ';'
    ensures forall i :: 0 <= i < |"application/json"| ==> "application/json"[i] != ';'
    ensures forall i :: 0 <= i < |"application/x-www-form-urlencoded"| ==> "application/x-www-form-urlencoded"[i] != ';'
  {}

  // ----- the whole head -----

  function LastOr(fs: seq<(string, string)>, key: string, default: string): string {
    match LastValue(fs, key)
    case Some(v) => v
    case None => default
  }

  /** The status of a head whose request line and header lines are in order. */
  function FinalStatus(w: seq<string>, fs: seq<(string, string)>): Status
    requires |w| == 3
  {
    if w[2] != "HTTP/1.1" && w[2] != "HTTP/1.0" then BadRequest
    else if w[0] == "POST" && ParseContentLength(LastOr(fs, "content-length", "0")) != Some(0)
            && !IsAllowedContentType(LastOr(fs, "content-type", "")) then UnsupportedMediaType
    else Ok
  }

  /** Every head, and the status it gets: the size first, then the request line, then the first header line
      that is at fault, then the version and the type of a POST's body. */
  lemma HeadStatusIs(raw: string, config: Config)
    ensures ParseHead(raw, config).status ==
            if |raw| > config.maxHeaderBytes then HeaderTooLarge
            else if raw == "" then BadRequest
            else
              var (first, rest) := GetLine(raw).value;
              var w := Words(ChopCR(first));
              if !GoodRequestLine(w) then BadRequest
              else match FirstFault(HeadLines(rest), config)
                case Some(status) => status
                case None => FinalStatus(w, FieldsOf(rest))
  {
    if |raw| <= config.maxHeaderBytes && raw != "" {
      var (first, rest) := GetLine(raw).value;
      var start := RequestLine(ChopCR(first));
      RequestLineIs(ChopCR(first));
      RequestLineBlank(ChopCR(first));
      if start.status == Ok {
        ScanFault(Scan(start.request, false, false), rest, config);
        if FirstFault(HeadLines(rest), config).None? { FinalStatusIs(start.request, rest, config); }
      }
    }
  }

  lemma ZeroLength()
    ensures ParseContentLength("0") == Some(0)
  {
    assert Trim("0") == "0";
    assert "0"[..0] == "" && Number("0") == 0;
  }

  lemma FinalStatusIs(req: Request, text: string, config: Config)
    requires req.headers == map[] && req.contentLength == 0 && req.contentType == ""
    requires ScanHeaders(Scan(req, false, false), text, config).Scanned?
    ensures var r := Conclude(ScanHeaders(Scan(req, false, false), text, config).scan);
            r.status == FinalStatus([req.meth, req.target, req.version], FieldsOf(text))
  {
    hide IsAllowedContentType, ScanHeaders, FieldsOf, LastOr;
    LastOnes(req, text, config);
    ScanKeepsLine(Scan(req, false, false), text, config);
  }

  /** The cached length and type are those of the last lines. */
  lemma LastOnes(req: Request, text: string, config: Config)
    requires req.headers == map[] && req.contentLength == 0 && req.contentType == ""
    requires ScanHeaders(Scan(req, false, false), text, config).Scanned?
    ensures var r, fs := ScanHeaders(Scan(req, false, false), text, config).scan.request, FieldsOf(text);
            && Some(r.contentLength) == ParseContentLength(LastOr(fs, "content-length", "0"))
            && r.contentType == LastOr(fs, "content-type", "")
  {
    hide ScanHeaders, FieldsOf, LastValue, ParseContentLength;
    var s := Scan(req, false, false);
    StartAgrees(req, config);
    ScanHeadersAgrees(s, text, config);
    ScanHoldsLast(s, text, config, "content-length");
    ScanHoldsLast(s, text, config, "content-type");
    ZeroLength();
  }

  lemma {:induction false} ScanKeepsLine(s: Scan, text: string, config: Config)
    requires ScanHeaders(s, text, config).Scanned?
    ensures var r := ScanHeaders(s, text, config).scan.request;
            r.meth == s.request.meth && r.version == s.request.version
    decreases |text|
  {
    hide TakeLine;
    if GetLine(text).None? || ChopCR(GetLine(text).value.0) == "" {
    } else {
      var (raw, rest) := GetLine(text).value;
      TakeLineKeepsLine(s, ChopCR(raw), config);
      ScanKeepsLine(TakeLine(s, ChopCR(raw), config).scan, rest, config);
    }
  }

  lemma TakeLineKeepsLine(s: Scan, line: string, config: Config)
    requires TakeLine(s, line, config).Scanned?
    ensures var r := TakeLine(s, line, config).scan.request;
            r.meth == s.request.meth && r.version == s.request.version
  {}

  /** In particular, whatever stands behind Content-Length, if it is not a number as StandsFor has it, a head
      whose lines before are in order is a bad request. */
  lemma BadLengthIsBadRequest(raw: string, config: Config, i: nat)
    requires 0 < |raw| <= config.maxHeaderBytes && GoodRequestLine(Words(ChopCR(GetLine(raw).value.0)))
    requires var lines := HeadLines(GetLine(raw).value.1);
             && i < |lines| && FirstFault(lines[..i], config).None?
             && var colon := IndexOf(lines[i], ':');
                && colon < |lines[i]| && Lower(Trim(lines[i][..colon])) == "content-length"
                && StandsFor(lines[i][colon + 1..], None)
    ensures ParseHead(raw, config).status == BadRequest
  {
    var lines := HeadLines(GetLine(raw).value.1);
    var colon := IndexOf(lines[i], ':');
    var value := lines[i][colon + 1..];
    ContentLengthIs(value);
    StandsForOne(value, ParseContentLength(value), None);
    LowerEmpty(Trim(lines[i][..colon]));
    FirstFaultAt(lines, i, config);
    HeadStatusIs(raw, config);
  }

  lemma StandsForOne(value: string, a: Option<nat>, b: Option<nat>)
    requires StandsFor(value, a) && StandsFor(value, b)
    ensures a == b
  {
    if exists negative, digits :: Numeral(Trim(value), negative, digits) {
      var negative, digits :| Numeral(Trim(value), negative, digits);
    }
  }

  lemma {:induction false} FirstFaultAt(lines: seq<string>, i: nat, config: Config)
    requires i < |lines| && FirstFault(lines[..i], config).None? && Fault(lines[i], config).Some?
    ensures FirstFault(lines, config) == Fault(lines[i], config)
    decreases i
  {
    if i == 0 {
    } else {
      assert lines[..i][0] == lines[0] && lines[..i][1..] == lines[1..][..i - 1];
      FirstFaultAt(lines[1..], i - 1, config);
    }
  }

  // ----- keeping the connection -----

  predicate OccursAt(sub: string, s: string, i: nat) { i + |sub| <= |s| && s[i..i + |sub|] == sub }

  ghost predicate Occurs(sub: string, s: string) { exists i: nat :: OccursAt(sub, s, i) }

  lemma {:induction false} ContainsIsOccurs(s: string, sub: string)
    ensures Contains(s, sub) <==> Occurs(sub, s)
  {
    if sub <= s {
      assert OccursAt(sub, s, 0);
    } else if s == "" {
    } else {
      ContainsIsOccurs(s[1..], sub);
      if Occurs(sub, s[1..]) {
        var i: nat :| OccursAt(sub, s[1..], i);
        assert s[1..][i..i + |sub|] == s[i + 1..i + 1 + |sub|];
        assert OccursAt(sub, s, i + 1);
      }
      if Occurs(sub, s) {
        var i: nat :| OccursAt(sub, s, i);
        assert i > 0;
        assert s[1..][i - 1..i - 1 + |sub|] == s[i..i + |sub|];
        assert OccursAt(sub, s[1..], i - 1);
      }
    }
  }

  /** An accepted HTTP/1.1 request keeps the connection unless its last Connection line has "close" in it, an
      HTTP/1.0 request only if it has "keep-alive" in it, in any case of letters. */
  lemma KeepAliveIs(raw: string, config: Config)
    requires ParseHead(raw, config).status == Ok
    ensures GetLine(raw).Some?
    ensures var req := ParseHead(raw, config).request;
            var word := Lower(LastOr(FieldsOf(GetLine(raw).value.1), "connection", ""));
            && (req.version == "HTTP/1.1" || req.version == "HTTP/1.0")
            && (req.keepAlive <==>
                 if req.version == "HTTP/1.1" then !Occurs("close", word) else Occurs("keep-alive", word))
  {
    hide Contains, Occurs, ScanHeaders, LengthIn, GoodKey;
    ParsedAgrees(raw, config);
    ConnectionIsLast(raw, config);
    var word := Lower(LastOr(FieldsOf(GetLine(raw).value.1), "connection", ""));
    ContainsIsOccurs(word, "close");
    ContainsIsOccurs(word, "keep-alive");
  }

  lemma ConnectionIsLast(raw: string, config: Config)
    requires ParseHead(raw, config).status == Ok
    ensures GetLine(raw).Some?
    ensures GetOr(ParseHead(raw, config).request.headers, "connection") ==
            LastOr(FieldsOf(GetLine(raw).value.1), "connection", "")
  {
    hide ScanHeaders, FieldsOf, LastValue, Words;
    var (first, rest) := GetLine(raw).value;
    var start := RequestLine(ChopCR(first));
    RequestLineBlank(ChopCR(first));
    ScanHoldsLast(Scan(start.request, false, false), rest, config, "connection");
    ConcludeKeeps(start, rest, config);
  }
}
