/** Percent-decoding of a request path. */
module PathDecoding {
  import opened Text

  predicate IsHex(c: char) { '0' <= c <= '9' || 'a' <= c <= 'f' || 'A' <= c <= 'F' }

  function FromHex(c: char): (n: nat)
    ensures n < 16
  {
    if '0' <= c <= '9' then c as int - '0' as int
    else if 'a' <= c <= 'f' then c as int - 'a' as int + 10
    else if 'A' <= c <= 'F' then c as int - 'A' as int + 10
    else 0
  }

  /** Two digits make one byte. */
  function Byte(hi: char, lo: char): char { (FromHex(hi) * 16 + FromHex(lo)) as char }

  function Decoded(s: string): Option<string> {
    if s == "" then Some("")
    else if s[0] == '%' then
      if |s| < 3 || !IsHex(s[1]) || !IsHex(s[2]) then None
      else
        match Decoded(s[3..])
        case None => None
        case Some(rest) => Some([Byte(s[1], s[2])] + rest)
    else
      match Decoded(s[1..])
      case None => None
      case Some(rest) => Some([s[0]] + rest)
  }

  method UrlDecodePath(path: string) returns (result: Option<string>)
    ensures result == Decoded(path)
  {
    var out := "";
    var i := 0;
    assert path[0..] == path;
    if Decoded(path).Some? { EmptyLeft(Decoded(path).value); }
    while i < |path|
      invariant 0 <= i <= |path|
      invariant Decoded(path) == match Decoded(path[i..]) { case None => None case Some(rest) => Some(out + rest) }
    {
      var ch := path[i];
      assert path[i..][1..] == path[i + 1..];
      if ch == '%' {
        if i + 2 >= |path| || !IsHex(path[i + 1]) || !IsHex(path[i + 2]) {
          return None;
        }
        assert path[i..][3..] == path[i + 3..];
        var byte := Byte(path[i + 1], path[i + 2]);
        if Decoded(path[i + 3..]).Some? { Assoc(out, [byte], Decoded(path[i + 3..]).value); }
        out := out + [byte];
        i := i + 3;
      } else {
        if Decoded(path[i + 1..]).Some? { Assoc(out, [ch], Decoded(path[i + 1..]).value); }
        out := out + [ch];
        i := i + 1;
      }
    }
    assert path[i..] == "" && out + "" == out;
    return Some(out);
  }

  // ----- encodings -----

  const HEX := "0123456789abcdef"
  const HEX_UPPER := "0123456789ABCDEF"

  function Digit(n: nat, upper: bool): char
    requires n < 16
  {
    if upper then HEX_UPPER[n] else HEX[n]
  }

  /** How one byte is written: as itself, or as a '%' and its two hex digits, each in either case. */
  datatype Choice = Plain | Escaped(upperHi: bool, upperLo: bool)

  /** The choices are possible for these bytes: '%' is always escaped, and what is escaped is a byte. */
  predicate Suits(bytes: string, choices: seq<Choice>) {
    |choices| == |bytes| &&
    forall i :: 0 <= i < |bytes| ==> if choices[i] == Plain then bytes[i] != '%' else bytes[i] as int < 256
  }

  function EncodedByte(byte: char, choice: Choice): string
    requires choice.Escaped? ==> byte as int < 256
  {
    match choice
    case Plain => [byte]
    case Escaped(hi, lo) => ['%', Digit(byte as int / 16, hi), Digit(byte as int % 16, lo)]
  }

  function Encoded(bytes: string, choices: seq<Choice>): string
    requires Suits(bytes, choices)
  {
    if bytes == "" then "" else EncodedByte(bytes[0], choices[0]) + Encoded(bytes[1..], choices[1..])
  }

  /** The digits of the decoder are these. */
  lemma DigitRead(n: nat, upper: bool)
    requires n < 16
    ensures IsHex(Digit(n, upper)) && FromHex(Digit(n, upper)) == n
  {
    if n < 10 {
      DecimalDigit(n);
    } else {
      LetterDigit(n);
    }
  }

  lemma DecimalDigit(n: nat)
    requires n < 10
    ensures HEX[n] as int == '0' as int + n && HEX_UPPER[n] as int == '0' as int + n
  {}

  lemma LetterDigit(n: nat)
    requires 10 <= n < 16
    ensures HEX[n] as int == 'a' as int + n - 10 && HEX_UPPER[n] as int == 'A' as int + n - 10
  {}

  lemma DigitWritten(c: char)
    requires IsHex(c)
    ensures Digit(FromHex(c), 'A' <= c <= 'F') == c
  {
    if '0' <= c <= '9' { DecimalDigit(FromHex(c)); } else { LetterDigit(FromHex(c)); }
  }

  /** Hex digits are the ones in these two rows. */
  lemma HexDigits(c: char)
    ensures IsHex(c) <==> c in HEX || c in HEX_UPPER
  {
    if IsHex(c) { DigitWritten(c); }
    if c in HEX {
      var n :| 0 <= n < |HEX| && HEX[n] == c;
      DigitRead(n, false);
    }
    if c in HEX_UPPER {
      var n :| 0 <= n < |HEX_UPPER| && HEX_UPPER[n] == c;
      DigitRead(n, true);
    }
  }

  lemma ByteRead(byte: char, hi: bool, lo: bool)
    requires byte as int < 256
    ensures var b := byte as int; Byte(Digit(b / 16, hi), Digit(b % 16, lo)) == byte
  {
    DigitRead(byte as int / 16, hi);
    DigitRead(byte as int % 16, lo);
  }

  lemma SuitsRest(bytes: string, choices: seq<Choice>)
    requires Suits(bytes, choices) && bytes != ""
    ensures Suits(bytes[1..], choices[1..])
  {}

  /** The decoder takes one encoded byte off the front. */
  lemma EncodedByteRead(byte: char, choice: Choice, rest: string)
    requires if choice == Plain then byte != '%' else byte as int < 256
    requires Decoded(rest).Some?
    ensures Decoded(EncodedByte(byte, choice) + rest) == Some([byte] + Decoded(rest).value)
  {
    hide Digit, Byte, IsHex, FromHex;
    var s := EncodedByte(byte, choice) + rest;
    match choice
    case Plain =>
      assert s[0] == byte && s[1..] == rest;
    case Escaped(hi, lo) =>
      DigitRead(byte as int / 16, hi);
      DigitRead(byte as int % 16, lo);
      ByteRead(byte, hi, lo);
      assert s[0] == '%' && s[3..] == rest;
  }

  lemma {:induction false} DecodeEncoded(bytes: string, choices: seq<Choice>)
    requires Suits(bytes, choices)
    ensures Decoded(Encoded(bytes, choices)) == Some(bytes)
  {
    hide Decoded, EncodedByte;
    if bytes == "" {
      NothingDecoded();
    } else {
      SuitsRest(bytes, choices);
      DecodeEncoded(bytes[1..], choices[1..]);
      EncodedByteRead(bytes[0], choices[0], Encoded(bytes[1..], choices[1..]));
      assert [bytes[0]] + bytes[1..] == bytes;
    }
  }

  lemma NothingDecoded()
    ensures Decoded("") == Some("")
  {}

  lemma {:induction false} ChoicesOf(s: string) returns (choices: seq<Choice>)
    requires Decoded(s).Some?
    ensures Suits(Decoded(s).value, choices) && Encoded(Decoded(s).value, choices) == s
  {
    if s == "" {
      choices := [];
    } else {
      var n := if s[0] == '%' then 3 else 1;
      var more := ChoicesOf(s[n..]);
      var first := if s[0] == '%' then Escaped('A' <= s[1] <= 'F', 'A' <= s[2] <= 'F') else Plain;
      choices := [first] + more;
      FirstChoice(s, first);
      SuitsCons(Decoded(s).value[0], Decoded(s[n..]).value, first, more);
      assert s == s[..n] + s[n..];
      assert Decoded(s).value == [Decoded(s).value[0]] + Decoded(s[n..]).value;
    }
  }

  lemma FirstChoice(s: string, first: Choice)
    requires s != "" && Decoded(s).Some?
    requires first == if s[0] == '%' then Escaped('A' <= s[1] <= 'F', 'A' <= s[2] <= 'F') else Plain
    ensures var byte := Decoded(s).value[0];
            && (if first == Plain then byte != '%' else byte as int < 256)
            && EncodedByte(byte, first) == s[..if s[0] == '%' then 3 else 1]
  {
    if s[0] == '%' {
      DigitWritten(s[1]);
      DigitWritten(s[2]);
      var b := Byte(s[1], s[2]) as int;
      assert b / 16 == FromHex(s[1]) && b % 16 == FromHex(s[2]);
      assert s[..3] == ['%', s[1], s[2]];
    } else {
      assert s[..1] == [s[0]];
    }
  }

  lemma SuitsCons(byte: char, bytes: string, first: Choice, more: seq<Choice>)
    requires Suits(bytes, more)
    requires if first == Plain then byte != '%' else byte as int < 256
    ensures Suits([byte] + bytes, [first] + more)
    ensures Encoded([byte] + bytes, [first] + more) == EncodedByte(byte, first) + Encoded(bytes, more)
  {
    var all, choices := [byte] + bytes, [first] + more;
    assert all[1..] == bytes && choices[1..] == more;
    forall i | 0 <= i < |all| ensures if choices[i] == Plain then all[i] != '%' else all[i] as int < 256 {
      if i > 0 { assert choices[i] == more[i - 1] && all[i] == bytes[i - 1]; }
    }
  }

  /** Decoding is exactly the inverse of encoding: a text decodes to `bytes` if and only if it is one
      of the encodings of `bytes`; so a text decodes to nothing exactly when it encodes nothing. */
  lemma DecodesIffEncoding(s: string, bytes: string)
    ensures Decoded(s) == Some(bytes) <==> exists choices :: Suits(bytes, choices) && Encoded(bytes, choices) == s
  {
    if Decoded(s) == Some(bytes) {
      var choices := ChoicesOf(s);
    }
    if exists choices :: Suits(bytes, choices) && Encoded(bytes, choices) == s {
      var choices :| Suits(bytes, choices) && Encoded(bytes, choices) == s;
      DecodeEncoded(bytes, choices);
    }
  }

  // ----- where decoding fails -----

  /** Two hex digits follow position i. */
  predicate EscapeAt(s: string, i: nat) { i + 2 < |s| && IsHex(s[i + 1]) && IsHex(s[i + 2]) }

  /** Position i is where a token begins, when a '%' with its two digits is one token and every other byte
      is one: it is not a digit of an escape before it. */
  predicate TokenAt(s: string, i: nat)
    requires i <= |s|
  {
    i == 0 ||
    if s[0] == '%' then EscapeAt(s, 0) && i >= 3 && TokenAt(s[3..], i - 3) else TokenAt(s[1..], i - 1)
  }

  predicate BadEscapeAt(s: string, i: nat) {
    i < |s| && TokenAt(s, i) && s[i] == '%' && !EscapeAt(s, i)
  }

  /** A text decodes to nothing exactly when some '%', where a token begins, lacks two hex digits. */
  lemma {:induction false} DecodesToNothingIff(s: string)
    ensures Decoded(s).None? <==> exists i: nat :: BadEscapeAt(s, i)
  {
    if s == "" {
    } else if s[0] == '%' && !EscapeAt(s, 0) {
      assert BadEscapeAt(s, 0);
    } else {
      var n := if s[0] == '%' then 3 else 1;
      DecodesToNothingIff(s[n..]);
      forall i: nat | BadEscapeAt(s[n..], i) ensures BadEscapeAt(s, i + n) {}
      forall i: nat | BadEscapeAt(s, i) ensures i >= n && BadEscapeAt(s[n..], i - n) {}
      if exists i: nat :: BadEscapeAt(s, i) {
        var i: nat :| BadEscapeAt(s, i);
        assert BadEscapeAt(s[n..], i - n);
      }
      if exists i: nat :: BadEscapeAt(s[n..], i) {
        var i: nat :| BadEscapeAt(s[n..], i);
        assert BadEscapeAt(s, i + n);
      }
    }
  }
}
