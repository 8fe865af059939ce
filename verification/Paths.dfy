/** Lexical paths in the generic POSIX format: parsing, appending, normalising and relating them, as
    [fs.path.generic], [fs.path.append] and [fs.path.gen] of ISO C++20 define it. */
module Paths {
  import opened Text

  /** The names between the separators, and whether a separator ends the path. */
  datatype Path = Path(absolute: bool, names: seq<string>, trailing: bool)

  const EMPTY_PATH := Path(false, [], false)

  predicate IsName(s: string) { s != "" && forall i :: 0 <= i < |s| ==> s[i] != '/' }

  /** The non-empty pieces between slashes. */
  function Pieces(s: string): (r: seq<string>)
    ensures forall i :: 0 <= i < |r| ==> IsName(r[i])
    decreases |s|
  {
    if s == "" then []
    else
      var i := IndexOf(s, '/');
      if i == 0 then Pieces(s[1..]) else [s[..i]] + Pieces(s[i..])
  }

  function Parse(s: string): Path {
    var names := Pieces(s);
    Path(s != "" && s[0] == '/', names, names != [] && s[|s| - 1] == '/')
  }

  /** What a path consists of: its names, and an empty one for a separator at the end. */
  function Elements(p: Path): seq<string> {
    p.names + if p.trailing then [""] else []
  }

  ghost predicate Wellformed(p: Path) {
    && (forall i :: 0 <= i < |p.names| ==> IsName(p.names[i]))
    && (p.names == [] ==> !p.trailing)
  }

  /** operator/. */
  function Append(p: Path, q: Path): Path {
    if q.absolute || p == EMPTY_PATH then q
    else if q.names == [] then p.(trailing := p.names != [])
    else Path(p.absolute, p.names + q.names, q.trailing)
  }

  // ----- lexically_normal -----

  /** One name against what precedes it: the remaining names, and whether a separator is left at the
      end. */
  function Step(absolute: bool, stack: seq<string>, name: string): (seq<string>, bool) {
    if name == "." then (stack, true)
    else if name == ".." then
      if stack != [] && stack[|stack| - 1] != ".." then (stack[..|stack| - 1], true)
      else if absolute then (stack, true)
      else (stack + [".."], false)
    else (stack + [name], false)
  }

  function Reduce(absolute: bool, stack: seq<string>, ended: bool, names: seq<string>): (seq<string>, bool)
    decreases |names|
  {
    if names == [] then (stack, ended)
    else
      var (s, e) := Step(absolute, stack, names[0]);
      Reduce(absolute, s, e, names[1..])
  }

  function Normal(p: Path): Path {
    if p == EMPTY_PATH then p
    else
      var (names, ended) := Reduce(p.absolute, [], false, p.names);
      if names == [] then (if p.absolute then Path(true, [], false) else Path(false, ["."], false))
      else Path(p.absolute, names, (ended || p.trailing) && names[|names| - 1] != "..")
  }

  /** An absolute path without dots, as lexically_normal leaves it. */
  ghost predicate Canonical(p: Path) {
    && p.absolute && Wellformed(p)
    && forall i :: 0 <= i < |p.names| ==> p.names[i] != "." && p.names[i] != ".."
  }

  ghost predicate Dotless(names: seq<string>) {
    forall i :: 0 <= i < |names| ==> IsName(names[i]) && names[i] != "." && names[i] != ".."
  }

  lemma {:induction false} ReduceDotless(stack: seq<string>, ended: bool, names: seq<string>)
    requires Dotless(stack)
    requires forall i :: 0 <= i < |names| ==> IsName(names[i])
    ensures Dotless(Reduce(true, stack, ended, names).0)
    decreases |names|
  {
    if names == [] {
    } else {
      var (s, e) := Step(true, stack, names[0]);
      ReduceDotless(s, e, names[1..]);
    }
  }

  /** Normalising an absolute path leaves no dot and no dot-dot in it. */
  lemma NormalIsCanonical(p: Path)
    requires p.absolute && Wellformed(p)
    ensures Canonical(Normal(p))
  {
    ReduceDotless([], false, p.names);
  }

  lemma {:induction false} ReduceKeepsDotless(stack: seq<string>, ended: bool, names: seq<string>)
    requires Dotless(names)
    ensures Reduce(true, stack, ended, names) == (stack + names, if names == [] then ended else false)
    decreases |names|
  {
    if names == [] {
      assert stack + names == stack;
    } else {
      ReduceKeepsDotless(stack + [names[0]], false, names[1..]);
      assert stack + [names[0]] + names[1..] == stack + names;
    }
  }

  /** Canonical paths are the fixed points of normalising, so normalising twice is normalising once. */
  lemma CanonicalIsNormal(p: Path)
    requires Canonical(p)
    ensures Normal(p) == p
  {
    ReduceKeepsDotless([], false, p.names);
    assert [] + p.names == p.names;
  }

  // ----- lexically_relative -----

  function CommonPrefix(a: seq<string>, b: seq<string>): (n: nat)
    ensures n <= |a| && n <= |b|
    ensures forall i :: 0 <= i < n ==> a[i] == b[i]
    ensures n < |a| && n < |b| ==> a[n] != b[n]
  {
    if a == [] || b == [] || a[0] != b[0] then 0 else 1 + CommonPrefix(a[1..], b[1..])
  }

  /** How many levels the elements descend: names count up, dot-dots count down. */
  function Depth(elements: seq<string>): int {
    if elements == [] then 0
    else
      var e := elements[0];
      (if e == ".." then -1 else if e != "" && e != "." then 1 else 0) + Depth(elements[1..])
  }

  function Ups(n: nat): (s: seq<string>)
    ensures |s| == n && forall i :: 0 <= i < n ==> s[i] == ".."
  {
    seq(n, i => "..")
  }

  /** The path that a list of elements spells; an empty element can only be the last. */
  function Spelled(elements: seq<string>): Path {
    if elements != [] && elements[|elements| - 1] == "" then
      Path(false, elements[..|elements| - 1], |elements| > 1)
    else Path(false, elements, false)
  }

  /** The empty path when there is no relative path. */
  function LexicallyRelative(p: Path, base: Path): Path {
    if p.absolute != base.absolute then EMPTY_PATH
    else
      var a, b := Elements(p), Elements(base);
      var c := CommonPrefix(a, b);
      if c == |a| && c == |b| then Path(false, ["."], false)
      else
        var n := Depth(b[c..]);
        if n < 0 then EMPTY_PATH
        else if n == 0 && (c == |a| || a[c] == "") then Path(false, ["."], false)
        else Spelled(Ups(n) + a[c..])
  }

  function Joined(names: seq<string>): string {
    if names == [] then "" else if |names| == 1 then names[0] else names[0] + "/" + Joined(names[1..])
  }

  /** generic_string. */
  function GenericString(p: Path): string {
    (if p.absolute then "/" else "") + Joined(p.names) + if p.trailing then "/" else ""
  }

  // ----- staying under a root -----

  predicate StartsWith(s: string, prefix: string) { prefix <= s }

  predicate PathEscapesRoot(root: Path, candidate: Path) {
    var relative := LexicallyRelative(candidate, root);
    var text := GenericString(relative);
    relative == EMPTY_PATH || text == ".." || StartsWith(text, "../") || relative.absolute
  }

  /** The text of a relative path begins with its first name, and a slash if anything follows. */
  lemma FirstNameOfText(names: seq<string>, trailing: bool)
    requires names != []
    ensures var text := Joined(names) + if trailing then "/" else "";
            if |names| == 1 && !trailing then text == names[0] else names[0] + "/" <= text
  {
    if |names| > 1 {
      assert Joined(names) == names[0] + "/" + Joined(names[1..]);
    }
  }

  /** A text that begins with a name other than dot-dot is not an upward path. */
  lemma NotUpward(name: string, text: string)
    requires IsName(name) && name != ".."
    requires text == name || name + "/" <= text
    ensures text != ".." && !StartsWith(text, "../")
  {
    assert |"../"| == 3 && "../"[2] == '/';
    if text != name {
      var front := name + "/";
      assert text[|name|] == front[|name|] == '/';
      assert forall i :: 0 <= i < |name| ==> text[i] == front[i] == name[i];
    }
  }

  lemma {:induction false} DepthOfNames(names: seq<string>, tail: seq<string>)
    requires Dotless(names) && (tail == [] || tail == [""])
    ensures Depth(names + tail) == |names|
  {
    if names == [] {
      assert names + tail == tail;
    } else {
      assert (names + tail)[1..] == names[1..] + tail;
      DepthOfNames(names[1..], tail);
    }
  }

  /** Below the root, nothing but a trailing separator of the root is left over. */
  lemma CommonWithin(root: Path, candidate: Path)
    requires Canonical(root) && Canonical(candidate) && root.names <= candidate.names
    ensures var b := Elements(root); var c := CommonPrefix(Elements(candidate), b);
            c >= |root.names| && (b[c..] == [] || b[c..] == [""]) && Depth(b[c..]) == 0
  {
    var a, b := Elements(candidate), Elements(root);
    var c := CommonPrefix(a, b);
    assert forall i :: 0 <= i < |root.names| ==> a[i] == candidate.names[i] == b[i];
    assert c >= |root.names|;
    assert b[c..] == [] || b[c..] == [""];
  }

  lemma SpelledRest(p: Path, c: nat)
    requires Canonical(p) && c < |p.names|
    ensures Spelled(Elements(p)[c..]) == Path(false, p.names[c..], p.trailing)
  {
    var rest := Elements(p)[c..];
    if p.trailing {
      assert rest == p.names[c..] + [""];
      assert rest[..|rest| - 1] == p.names[c..];
    } else {
      assert rest == p.names[c..];
      assert rest[|rest| - 1] == p.names[|p.names| - 1];
    }
  }

  lemma WithinRoot(root: Path, candidate: Path)
    requires Canonical(root) && Canonical(candidate) && root.names <= candidate.names
    ensures !PathEscapesRoot(root, candidate)
  {
    var a, b := Elements(candidate), Elements(root);
    var c := CommonPrefix(a, b);
    CommonWithin(root, candidate);
    if c < |candidate.names| {
      RelativeBelow(root, candidate);
      RelativeDownward(Path(false, candidate.names[c..], candidate.trailing));
    } else {
      assert LexicallyRelative(candidate, root) == Path(false, ["."], false);
      RelativeDownward(Path(false, ["."], false));
    }
  }

  lemma RelativeBelow(root: Path, candidate: Path)
    requires Canonical(root) && Canonical(candidate) && root.names <= candidate.names
    requires CommonPrefix(Elements(candidate), Elements(root)) < |candidate.names|
    ensures var c := CommonPrefix(Elements(candidate), Elements(root));
            LexicallyRelative(candidate, root) == Path(false, candidate.names[c..], candidate.trailing)
  {
    var a := Elements(candidate);
    var c := CommonPrefix(a, Elements(root));
    CommonWithin(root, candidate);
    SpelledRest(candidate, c);
    assert a[c] == candidate.names[c];
    EmptyLeft(a[c..]);
    assert Ups(0) == [];
  }

  lemma RelativeDownward(r: Path)
    requires !r.absolute && r.names != [] && IsName(r.names[0]) && r.names[0] != ".."
    ensures GenericString(r) != ".." && !StartsWith(GenericString(r), "../")
  {
    var text := Joined(r.names) + if r.trailing then "/" else "";
    EmptyLeft(Joined(r.names));
    assert GenericString(r) == text;
    FirstNameOfText(r.names, r.trailing);
    NotUpward(r.names[0], text);
  }

  lemma RelativeUpward(r: Path)
    requires !r.absolute && r.names != [] && r.names[0] == ".."
    ensures GenericString(r) == ".." || StartsWith(GenericString(r), "../")
  {
    var text := Joined(r.names) + if r.trailing then "/" else "";
    EmptyLeft(Joined(r.names));
    assert GenericString(r) == text;
    FirstNameOfText(r.names, r.trailing);
    assert ".." + "/" == "../";
  }

  /** Outside the root, some name of the root is not matched, and those that follow count upwards. */
  lemma DepthOutside(root: Path, candidate: Path)
    requires Canonical(root) && Canonical(candidate) && !(root.names <= candidate.names)
    ensures var b := Elements(root); var c := CommonPrefix(Elements(candidate), b);
            c < |root.names| && Depth(b[c..]) == |root.names| - c
  {
    var a, b := Elements(candidate), Elements(root);
    var c := CommonPrefix(a, b);
    assert c < |root.names| by {
      if |root.names| <= |candidate.names| {
        var i :| 0 <= i < |root.names| && root.names[i] != candidate.names[i];
        assert a[i] == candidate.names[i] && b[i] == root.names[i];
      } else if candidate.trailing {
        assert a[|candidate.names|] == "" && b[|candidate.names|] == root.names[|candidate.names|];
      }
    }
    var tail := if root.trailing then [""] else [];
    assert b[c..] == root.names[c..] + tail;
    DepthOfNames(root.names[c..], tail);
  }

  lemma SpelledUps(n: nat, rest: seq<string>)
    requires n > 0
    ensures var r := Spelled(Ups(n) + rest); !r.absolute && r.names != [] && r.names[0] == ".."
  {}

  lemma OutsideRoot(root: Path, candidate: Path)
    requires Canonical(root) && Canonical(candidate) && !(root.names <= candidate.names)
    ensures PathEscapesRoot(root, candidate)
  {
    var a, b := Elements(candidate), Elements(root);
    var c := CommonPrefix(a, b);
    DepthOutside(root, candidate);
    SpelledUps(|root.names| - c, a[c..]);
    RelativeUpward(LexicallyRelative(candidate, root));
  }

  /** The escape test detects exactly the paths whose names do not begin with the root's. */
  lemma EscapesIffOutside(root: Path, candidate: Path)
    requires Canonical(root) && Canonical(candidate)
    ensures PathEscapesRoot(root, candidate) <==> !(root.names <= candidate.names)
  {
    if root.names <= candidate.names { WithinRoot(root, candidate); } else { OutsideRoot(root, candidate); }
  }
}
