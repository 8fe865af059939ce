/** What the path operations do to texts: reading a path collapses its separators and loses nothing else,
    appending joins two texts by one separator, and normalising is rewriting by three rules. */
module PathText {
  import opened Text
  import opened Paths

  // ----- reading and writing -----

  /** Each run of separators becomes one. */
  function Squeezed(s: string): string {
    if |s| < 2 then s
    else if s[0] == '/' && s[1] == '/' then Squeezed(s[1..])
    else [s[0]] + Squeezed(s[1..])
  }

  lemma {:induction false} SqueezedName(s: string, i: nat)
    requires i <= |s| && forall k :: 0 <= k < i ==> s[k] != '/'
    ensures Squeezed(s) == s[..i] + Squeezed(s[i..])
  {
    if i == 0 {
      assert s[0..] == s;
    } else if |s| == 1 {
      assert s[..1] == s && s[1..] == "";
    } else {
      SqueezedName(s[1..], i - 1);
      assert s[1..][i - 1..] == s[i..];
      assert s[..i] == [s[0]] + s[1..][..i - 1];
      Assoc([s[0]], s[1..][..i - 1], Squeezed(s[i..]));
    }
  }

  /** Only separators are left when there is no name. */
  lemma {:induction false} NoPieces(s: string)
    requires s != "" && Pieces(s) == []
    ensures s[|s| - 1] == '/'
    decreases |s|
  {
    if |s| > 1 {
      NoPieces(s[1..]);
    }
  }

  /** A name and what comes behind it. */
  lemma PrintedNames(name: string, rest: Path)
    requires IsName(name) && Wellformed(rest) && rest.absolute
    ensures GenericString(Path(false, [name] + rest.names, rest.trailing || rest.names == [])) ==
            name + GenericString(rest)
  {
    var tail := if rest.trailing then "/" else "";
    if rest.names == [] {
      EmptyLeft(Joined([name]));
      assert GenericString(rest) == "/";
    } else {
      assert ([name] + rest.names)[1..] == rest.names;
      assert Joined([name] + rest.names) == name + "/" + Joined(rest.names);
      EmptyLeft(Joined([name] + rest.names));
      Assoc(name + "/", Joined(rest.names), tail);
      Assoc(name, "/", Joined(rest.names) + tail);
      Assoc("/", Joined(rest.names), tail);
    }
  }

  /** Reading a path and writing it again only collapses separators, for every text. */
  lemma {:induction false} ParseSqueezes(s: string)
    ensures Wellformed(Parse(s)) && GenericString(Parse(s)) == Squeezed(s)
    decreases |s|
  {
    if s == "" {
    } else if s[0] == '/' {
      SlashFirst(s);
    } else {
      var i := IndexOf(s, '/');
      var name, behind := s[..i], s[i..];
      SqueezedName(s, i);
      ParseSqueezes(behind);
      assert Pieces(s) == [name] + Pieces(behind);
      if behind == "" {
        assert s == name && Squeezed("") == "";
        EmptyLeft(Joined([name]));
      } else {
        assert s[|s| - 1] == behind[|behind| - 1];
        if Pieces(behind) == [] { NoPieces(behind); }
        PrintedNames(name, Parse(behind));
      }
    }
  }

  lemma {:induction false} SlashFirst(s: string)
    requires s != "" && s[0] == '/'
    ensures Wellformed(Parse(s)) && GenericString(Parse(s)) == Squeezed(s)
    decreases |s|, 0
  {
    var rest := s[1..];
    assert Pieces(s) == Pieces(rest);
    if rest == "" {
      assert Parse(s) == Path(true, [], false);
    } else {
      assert s[|s| - 1] == rest[|rest| - 1];
      ParseSqueezes(rest);
      if rest[0] != '/' {
        var p := Parse(rest);
        var tail := if p.trailing then "/" else "";
        EmptyLeft(Joined(p.names));
        Assoc("/", Joined(p.names), tail);
      }
    }
  }

  /** The first and the last character of printed names are not separators. */
  lemma {:induction false} JoinedEnds(names: seq<string>)
    requires names != [] && forall i :: 0 <= i < |names| ==> IsName(names[i])
    ensures var s := Joined(names); s != "" && s[0] != '/' && s[|s| - 1] != '/'
    decreases |names|
  {
    var s := Joined(names);
    if |names| > 1 {
      var rest := Joined(names[1..]);
      JoinedEnds(names[1..]);
      assert s == names[0] + "/" + rest;
      assert s[|s| - 1] == rest[|rest| - 1];
    }
  }

  /** The names of a printed path, with or without a separator at the end. */
  lemma {:induction false} PiecesPrinted(names: seq<string>, tail: string)
    requires forall i :: 0 <= i < |names| ==> IsName(names[i])
    requires tail == "" || tail == "/"
    ensures Pieces(Joined(names) + tail) == names
    decreases |names|
  {
    if names == [] {
      EmptyLeft(tail);
      assert Pieces("/") == Pieces("") == [];
    } else {
      var name, rest := names[0], names[1..];
      assert names == [name] + rest;
      PiecesPrinted(rest, tail);
      if rest == [] {
        FirstPiece(name, tail);
        assert Pieces(tail) == [] by { PiecesPrinted([], tail); EmptyLeft(tail); }
      } else {
        var behind := Joined(rest) + tail;
        Assoc(name + "/", Joined(rest), tail);
        Assoc(name, "/", behind);
        FirstPiece(name, "/" + behind);
        assert ("/" + behind)[1..] == behind;
        assert Pieces("/" + behind) == Pieces(behind);
      }
    }
  }

  lemma FirstPiece(name: string, behind: string)
    requires IsName(name) && (behind == "" || behind[0] == '/')
    ensures Pieces(name + behind) == [name] + Pieces(behind)
  {
    var s := name + behind;
    assert IndexOf(s, '/') == |name| by {
      if behind == "" {
        assert s == name;
      } else {
        IndexOfAfter(name, '/', behind[1..]);
        assert s == name + ['/'] + behind[1..];
      }
    }
    assert s[..|name|] == name && s[|name|..] == behind;
  }

  /** And every path is read back as it was written. */
  lemma ParsePrinted(p: Path)
    requires Wellformed(p)
    ensures Parse(GenericString(p)) == p
  {
    var tail := if p.trailing then "/" else "";
    var text := Joined(p.names) + tail;
    PiecesPrinted(p.names, tail);
    if p.names != [] { JoinedEnds(p.names); }
    if p.absolute {
      var s := GenericString(p);
      assert s[1..] == text by { Assoc("/", Joined(p.names), tail); }
      assert Pieces(s) == Pieces(text);
    } else {
      EmptyLeft(Joined(p.names));
      assert GenericString(p) == text;
    }
  }

  // ----- appending -----

  lemma {:induction false} JoinedAppend(a: seq<string>, b: seq<string>)
    requires a != [] && b != []
    ensures Joined(a + b) == Joined(a) + "/" + Joined(b)
  {
    assert (a + b)[1..] == a[1..] + b;
    if |a| > 1 {
      JoinedAppend(a[1..], b);
      Assoc(a[0] + "/", Joined(a[1..]), "/");
      Assoc(a[0] + "/", Joined(a[1..]) + "/", Joined(b));
    } else {
      assert a[1..] + b == b;
    }
  }

  lemma BetweenNames(root: string, a: string, end: string, separator: string, b: string, tail: string)
    requires (end == "/" && separator == "") || (end == "" && separator == "/")
    ensures root + a + end + separator + (b + tail) == root + (a + "/" + b) + tail
  {
    if end == "" {
      assert root + a + end == root + a;
    } else {
      assert root + a + end + separator == root + a + end;
    }
  }

  lemma AppendNames(p: Path, q: Path)
    requires !q.absolute && p.names != [] && q.names != []
    ensures GenericString(Append(p, q)) ==
            GenericString(p) + (if p.trailing then "" else "/") + GenericString(q)
  {
    hide Joined;
    var tail := if q.trailing then "/" else "";
    JoinedAppend(p.names, q.names);
    assert GenericString(q) == Joined(q.names) + tail by { EmptyLeft(Joined(q.names)); }
    BetweenNames(if p.absolute then "/" else "", Joined(p.names), if p.trailing then "/" else "",
                 if p.trailing then "" else "/", Joined(q.names), tail);
  }

  /** operator/ on texts: an absolute path replaces what is before it; any other is written behind it,
      after a separator if the path before it ends in a name. */
  lemma AppendText(p: Path, q: Path)
    requires Wellformed(p) && Wellformed(q)
    ensures GenericString(Append(p, q)) ==
            if q.absolute then GenericString(q)
            else GenericString(p) + (if p.names != [] && !p.trailing then "/" else "") + GenericString(q)
  {
    hide Joined;
    if !q.absolute {
      EmptyLeft(Joined(q.names));
      assert Joined([]) == "" by { NoNames(); }
      if p == EMPTY_PATH {
        assert GenericString(p) == "";
      } else if p.names == [] {
        assert GenericString(p) == "/" && [] + q.names == q.names;
      } else if q.names == [] {
        assert GenericString(q) == "";
      } else {
        AppendNames(p, q);
      }
    }
  }

  lemma NoNames()
    ensures Joined([]) == ""
  {}

  // ----- normalising -----

  predicate Ordinary(name: string) { name != "." && name != ".." }

  /** The names that are left of a path. */
  function NamesLeft(absolute: bool, names: seq<string>): seq<string> { Reduce(absolute, [], false, names).0 }

  lemma {:induction false} ReduceAppend(absolute: bool, stack: seq<string>, ended: bool, l: seq<string>, r: seq<string>)
    ensures var (s, e) := Reduce(absolute, stack, ended, l);
            Reduce(absolute, stack, ended, l + r) == Reduce(absolute, s, e, r)
    decreases |l|
  {
    if l == [] {
      assert l + r == r;
    } else {
      var (s, e) := Step(absolute, stack, l[0]);
      assert (l + r)[1..] == l[1..] + r;
      ReduceAppend(absolute, s, e, l[1..], r);
    }
  }

  lemma ReduceEnded(absolute: bool, stack: seq<string>, a: bool, b: bool, names: seq<string>)
    ensures Reduce(absolute, stack, a, names).0 == Reduce(absolute, stack, b, names).0
  {
    if names == [] {}
  }

  /** A dot says nothing. */
  lemma DotVanishes(absolute: bool, l: seq<string>, r: seq<string>)
    ensures NamesLeft(absolute, l + ["."] + r) == NamesLeft(absolute, l + r)
  {
    var (s, e) := Reduce(absolute, [], false, l);
    ReduceAppend(absolute, [], false, l, r);
    ReduceAppend(absolute, [], false, l, ["."] + r);
    assert l + ["."] + r == l + (["."] + r) && (["."] + r)[1..] == r;
    ReduceEnded(absolute, s, e, true, r);
  }

  /** A dot-dot takes the name before it away. */
  lemma DotDotCancels(absolute: bool, l: seq<string>, name: string, r: seq<string>)
    requires Ordinary(name)
    ensures NamesLeft(absolute, l + [name, ".."] + r) == NamesLeft(absolute, l + r)
  {
    var (s, e) := Reduce(absolute, [], false, l);
    ReduceAppend(absolute, [], false, l, r);
    ReduceAppend(absolute, [], false, l, [name, ".."] + r);
    assert l + [name, ".."] + r == l + ([name, ".."] + r);
    assert ([name, ".."] + r)[1..] == [".."] + r && ([".."] + r)[1..] == r;
    assert (s + [name])[..|s|] == s;
    ReduceEnded(absolute, s, e, true, r);
  }

  /** And nothing is above the root. */
  lemma RootStays(r: seq<string>)
    ensures NamesLeft(true, [".."] + r) == NamesLeft(true, r)
  {
    assert ([".."] + r)[1..] == r;
    ReduceEnded(true, [], true, false, r);
  }

  /** The front of a list, up to its first dot or dot-dot. */
  lemma {:induction false} FirstDot(names: seq<string>) returns (i: nat)
    requires exists k :: 0 <= k < |names| && !Ordinary(names[k])
    ensures i < |names| && !Ordinary(names[i]) && forall k :: 0 <= k < i ==> Ordinary(names[k])
    decreases |names|
  {
    if !Ordinary(names[0]) {
      i := 0;
    } else {
      var k :| 0 <= k < |names| && !Ordinary(names[k]);
      assert names[1..][k - 1] == names[k];
      var j := FirstDot(names[1..]);
      i := j + 1;
    }
  }

  lemma SplitAt(names: seq<string>, i: nat)
    requires i < |names|
    ensures names == names[..i] + [names[i]] + names[i + 1..]
    ensures i > 0 ==> names == names[..i - 1] + [names[i - 1], names[i]] + names[i + 1..]
  {}

  /** The names of a path to which none of the rules applies: no dots, and dot-dots only in front, and not
      even there below the root. */
  ghost predicate Plain(absolute: bool, names: seq<string>) {
    && (forall i :: 0 <= i < |names| ==> names[i] != ".")
    && (forall i :: 0 <= i < |names| && names[i] == ".." ==> !absolute && forall j :: 0 <= j < i ==> names[j] == "..")
  }

  /** A path to which no rule applies stays as it is. */
  lemma {:induction false} PlainStays(absolute: bool, stack: seq<string>, ended: bool, names: seq<string>)
    requires Plain(absolute, stack + names)
    ensures Reduce(absolute, stack, ended, names).0 == stack + names
    decreases |names|
  {
    if names == [] {
      assert stack + names == stack;
    } else {
      var all := stack + names;
      assert all[|stack|] == names[0];
      if stack != [] { assert all[|stack| - 1] == stack[|stack| - 1]; }
      assert stack + [names[0]] + names[1..] == all;
      PlainStays(absolute, stack + [names[0]], false, names[1..]);
      ReduceEnded(absolute, stack + [names[0]], false, Step(absolute, stack, names[0]).1, names[1..]);
    }
  }

  /** So the rules say what is left of every path: as long as it is not plain, one of them applies. */
  lemma {:induction false} RulesCover(absolute: bool, names: seq<string>)
    returns (l: seq<string>, name: string, r: seq<string>)
    ensures if Plain(absolute, names) then NamesLeft(absolute, names) == names
            else || names == l + ["."] + r
                 || (names == l + [name, ".."] + r && Ordinary(name))
                 || (absolute && names == [".."] + r)
    decreases |names|
  {
    l, name, r := [], "", [];
    if Plain(absolute, names) {
      EmptyLeft(names);
      PlainStays(absolute, [], false, names);
    } else {
      hide NamesLeft;
      var i := FirstDot(names);
      SplitAt(names, i);
      r := names[i + 1..];
      if names[i] == "." {
        l := names[..i];
      } else if i > 0 {
        l, name := names[..i - 1], names[i - 1];
      } else if absolute {
        EmptyLeft([".."]);
      } else {
        if Plain(false, names[1..]) { PlainBehind(names); }
        l, name, r := RulesCover(false, names[1..]);
        assert names == [".."] + names[1..];
        Assoc([".."], l, ["."]);
        Assoc([".."], l + ["."], r);
        Assoc([".."], l, [name, ".."]);
        Assoc([".."], l + [name, ".."], r);
        l := [".."] + l;
      }
    }
  }

  lemma PlainBehind(names: seq<string>)
    requires names != [] && names[0] == ".." && Plain(false, names[1..])
    ensures Plain(false, names)
  {
    var rest := names[1..];
    forall i | 0 <= i < |names| ensures names[i] != "." {
      if i > 0 { assert names[i] == rest[i - 1]; }
    }
    forall i, j | 0 <= j < i < |names| && names[i] == ".." ensures names[j] == ".." {
      assert names[i] == rest[i - 1];
      if j > 0 { assert names[j] == rest[j - 1]; }
    }
  }

  /** A normalised path ends in a separator if it did before, or if a dot or a dot-dot was last, but never
      behind a dot-dot; of a relative path without names a dot is left. */
  lemma NormalIs(p: Path)
    ensures var names := NamesLeft(p.absolute, p.names);
            Normal(p) ==
            if p == EMPTY_PATH then p
            else if names == [] then (if p.absolute then Path(true, [], false) else Path(false, ["."], false))
            else Path(p.absolute, names, names[|names| - 1] != ".."
                                         && (p.trailing || !Ordinary(p.names[|p.names| - 1])))
  {
    if p.names != [] {
      var front, last := p.names[..|p.names| - 1], p.names[|p.names| - 1];
      assert p.names == front + [last];
      var (s, e) := Reduce(p.absolute, [], false, front);
      ReduceAppend(p.absolute, [], false, front, [last]);
      assert [last][1..] == [];
      var after := Step(p.absolute, s, last);
      assert Reduce(p.absolute, s, e, [last]) == Reduce(p.absolute, after.0, after.1, []) == after;
    }
  }
}
