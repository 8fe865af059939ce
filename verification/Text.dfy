/** String searching, shared by both HTTP parsers and the configuration parser. A byte is a char. */
module Text {

  datatype Option<+T> = None | Some(value: T)

  const CRLF := "\r\n"

  /** memchr / std::find / std::string::find: the first occurrence of c, or |s|. */
  function IndexOf(s: string, c: char): (i: nat)
    ensures i <= |s|
    ensures i < |s| ==> s[i] == c
    ensures forall k :: 0 <= k < i ==> s[k] != c
  {
    if s == "" then 0 else if s[0] == c then 0 else 1 + IndexOf(s[1..], c)
  }

  lemma {:induction false} IndexOfAfter(s: string, c: char, rest: string)
    requires forall i :: 0 <= i < |s| ==> s[i] != c
    ensures IndexOf(s + [c] + rest, c) == |s|
  {
    if s == "" {
    } else {
      assert (s + [c] + rest)[1..] == s[1..] + [c] + rest;
      IndexOfAfter(s[1..], c, rest);
    }
  }

  /** No line feed in it. */
  predicate OneLine(s: string) { forall i :: 0 <= i < |s| ==> s[i] != '\n' }

  /** There is a CR LF pair at position i. */
  predicate IsCRLFAt(s: string, i: nat) {
    i + 2 <= |s| && s[i] == '\r' && s[i + 1] == '\n'
  }

  /** std::search for CR LF: its first position, if any. */
  function FindCRLF(s: string): (r: Option<nat>)
    ensures r.Some? ==> r.value + 2 <= |s|
  {
    if |s| < 2 then None
    else if IsCRLFAt(s, 0) then Some(0)
    else
      match FindCRLF(s[1..])
      case None => None
      case Some(i) => Some(i + 1)
  }

  lemma {:induction false} FindCRLFIsFirst(s: string)
    ensures forall k: nat :: IsCRLFAt(s, k) ==> FindCRLF(s).Some? && FindCRLF(s).value <= k
    ensures FindCRLF(s).Some? ==> IsCRLFAt(s, FindCRLF(s).value)
  {
    if |s| >= 2 && !IsCRLFAt(s, 0) {
      FindCRLFIsFirst(s[1..]);
      forall k: nat | IsCRLFAt(s, k) ensures FindCRLF(s).Some? && FindCRLF(s).value <= k {
        assert IsCRLFAt(s[1..], k - 1);
      }
    }
  }

  /** More data behind does not move the first CR LF. */
  lemma {:induction false} FindCRLFStable(a: string, b: string)
    requires FindCRLF(a).Some?
    ensures FindCRLF(a + b) == FindCRLF(a)
  {
    if !IsCRLFAt(a, 0) {
      FindCRLFStable(a[1..], b);
      assert (a + b)[1..] == a[1..] + b;
    }
  }

  function Concat(parts: seq<string>): string {
    if parts == [] then "" else parts[0] + Concat(parts[1..])
  }

  lemma EmptyLeft<T>(s: seq<T>)
    ensures [] + s == s
  {}

  lemma Assoc<T>(a: seq<T>, b: seq<T>, c: seq<T>)
    ensures (a + b) + c == a + (b + c)
  {}

  /** A non-negative number in decimal, as printf and std::to_string write it. */
  function Decimal(n: nat): (s: string)
    ensures s != "" && forall i :: 0 <= i < |s| ==> '0' <= s[i] <= '9'
  {
    if n < 10 then [('0' as int + n) as char] else Decimal(n / 10) + [('0' as int + n % 10) as char]
  }

  /** One header line, and a block of them. */
  function FieldLine(h: (string, string)): string { h.0 + ": " + h.1 }

  function HeaderText(headers: seq<(string, string)>): string {
    if headers == [] then "" else FieldLine(headers[0]) + CRLF + HeaderText(headers[1..])
  }

  lemma {:induction false} HeaderTextAppend(a: seq<(string, string)>, b: seq<(string, string)>)
    ensures HeaderText(a + b) == HeaderText(a) + HeaderText(b)
  {
    if a == [] {
      assert a + b == b;
      EmptyLeft(HeaderText(b));
    } else {
      assert (a + b)[1..] == a[1..] + b;
      HeaderTextAppend(a[1..], b);
      Assoc(FieldLine(a[0]) + CRLF, HeaderText(a[1..]), HeaderText(b));
    }
  }

  /** The head of a message: a first line, header lines, an empty line. */
  function HeadText(line: string, hs: seq<(string, string)>): string {
    line + CRLF + (HeaderText(hs) + CRLF)
  }
}
