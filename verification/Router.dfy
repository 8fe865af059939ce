/** From a request path to a file below the document root. The file system is an oracle that says
    which paths are directories. */
module Router {
  import opened Text
  import opened PathDecoding
  import opened Paths
  import PathText

  /** The router's root: the configured directory, made absolute and normalised. */
  function DocumentRoot(currentPath: Path, directory: string): Path {
    Normal(Append(currentPath, Parse(directory)))
  }

  lemma AppendWellformed(p: Path, q: Path)
    requires Wellformed(p) && Wellformed(q)
    ensures Wellformed(Append(p, q)) && (p.absolute ==> Append(p, q).absolute)
  {}

  lemma DocumentRootIsCanonical(currentPath: Path, directory: string)
    requires currentPath.absolute && Wellformed(currentPath)
    ensures Canonical(DocumentRoot(currentPath, directory))
  {
    AppendWellformed(currentPath, Parse(directory));
    NormalIsCanonical(Append(currentPath, Parse(directory)));
  }

  /** The decoded path, unless it is malformed, empty, not absolute, or holds a NUL or a backslash. */
  function CleanPath(requestPath: string): Option<string> {
    match Decoded(requestPath)
    case None => None
    case Some(d) =>
      if d == "" || d[0] != '/' then None
      else if IndexOf(d, '\0') < |d| || IndexOf(d, '\\') < |d| then None
      else Some(d)
  }

  /** Where a clean path leads, before the containment check. */
  function Candidate(root: Path, indexFile: string, isDirectory: Path -> bool, decoded: string): Path
    requires decoded != ""
  {
    var parsed := Parse(decoded[1..]);
    var relative := if parsed == EMPTY_PATH then Parse(indexFile) else parsed;
    var first := Normal(Append(root, relative));
    if isDirectory(first) then Normal(Append(first, Parse(indexFile))) else first
  }

  function ResolveStaticPath(root: Path, indexFile: string, isDirectory: Path -> bool, requestPath: string): Option<Path> {
    match CleanPath(requestPath)
    case None => None
    case Some(d) =>
      var candidate := Candidate(root, indexFile, isDirectory, d);
      if PathEscapesRoot(root, candidate) then None else Some(candidate)
  }

  lemma CandidateIsCanonical(root: Path, indexFile: string, isDirectory: Path -> bool, decoded: string)
    requires Canonical(root) && decoded != ""
    ensures Canonical(Candidate(root, indexFile, isDirectory, decoded))
  {
    var parsed := Parse(decoded[1..]);
    var relative := if parsed == EMPTY_PATH then Parse(indexFile) else parsed;
    AppendWellformed(root, relative);
    NormalIsCanonical(Append(root, relative));
    var first := Normal(Append(root, relative));
    AppendWellformed(first, Parse(indexFile));
    NormalIsCanonical(Append(first, Parse(indexFile)));
  }

  /** Whatever the request path, the index file and the file system, a path that is served is
      normalised, has no dot-dot, and lies under the document root. */
  lemma ResolvedIsContained(root: Path, indexFile: string, isDirectory: Path -> bool, requestPath: string)
    requires Canonical(root)
    ensures var r := ResolveStaticPath(root, indexFile, isDirectory, requestPath);
            r.Some? ==> Canonical(r.value) && Normal(r.value) == r.value && root.names <= r.value.names
  {
    match CleanPath(requestPath)
    case None =>
    case Some(d) =>
      var candidate := Candidate(root, indexFile, isDirectory, d);
      CandidateIsCanonical(root, indexFile, isDirectory, d);
      CanonicalIsNormal(candidate);
      EscapesIffOutside(root, candidate);
  }

  /** And nothing under the root is refused: a clean request path is turned down exactly when the place
      it leads to is outside. */
  lemma ResolvedIffContained(root: Path, indexFile: string, isDirectory: Path -> bool, requestPath: string)
    requires Canonical(root)
    ensures ResolveStaticPath(root, indexFile, isDirectory, requestPath).Some? <==>
            match CleanPath(requestPath)
            case None => false
            case Some(d) => root.names <= Candidate(root, indexFile, isDirectory, d).names
  {
    match CleanPath(requestPath)
    case None =>
    case Some(d) =>
      CandidateIsCanonical(root, indexFile, isDirectory, d);
      EscapesIffOutside(root, Candidate(root, indexFile, isDirectory, d));
  }

  /** The characters that a request path is searched for. */
  lemma CleanPathIs(d: string, choices: seq<Choice>)
    requires Suits(d, choices)
    ensures CleanPath(Encoded(d, choices)) ==
            if d == "" || d[0] != '/' || '\0' in d || '\\' in d then None else Some(d)
  {
    DecodeEncoded(d, choices);
  }

  /** A name that stands for a file or a directory. */
  predicate FileName(name: string) { IsName(name) && name != "." && name != ".." }

  /** One name below a canonical path stays where it is. */
  lemma NameBelow(p: Path, name: string)
    requires Canonical(p) && FileName(name)
    ensures Parse(name) == Path(false, [name], false)
    ensures Normal(Append(p, Parse(name))) == Path(true, p.names + [name], false)
  {
    assert Parse(name) == Path(false, [name], false) by {
      PathText.ParsePrinted(Path(false, [name], false));
      EmptyLeft(name);
      assert Joined([name]) == name && name + "" == name;
    }
    CanonicalIsNormal(Path(true, p.names + [name], false));
  }

  /** What is served for every request path that encodes `d`: the place below the root that the names of
      `d` lead to, or the index file when there are none; in a directory, its index file; and nothing if
      that is outside the root or `d` is not a clean absolute path. */
  lemma ServedAt(root: Path, index: string, isDirectory: Path -> bool, d: string, choices: seq<Choice>)
    requires Canonical(root) && FileName(index)
    requires Suits(d, choices)
    ensures var p := if d == "" then EMPTY_PATH else Parse(d[1..]);
            var asked := if p.absolute then p
                         else Path(true, root.names + (if p.names == [] then [index] else p.names), p.trailing);
            var place := Normal(asked);
            var file := if isDirectory(place) then Path(true, place.names + [index], false) else place;
            ResolveStaticPath(root, index, isDirectory, Encoded(d, choices)) ==
            if d == "" || d[0] != '/' || '\0' in d || '\\' in d || !(root.names <= file.names) then None else Some(file)
  {
    CleanPathIs(d, choices);
    if d != "" {
      var candidate := Candidate(root, index, isDirectory, d);
      CandidateIs(root, index, isDirectory, d);
      CandidateIsCanonical(root, index, isDirectory, d);
      EscapesIffOutside(root, candidate);
    }
  }

  lemma CandidateIs(root: Path, index: string, isDirectory: Path -> bool, d: string)
    requires Canonical(root) && FileName(index) && d != ""
    ensures var p := Parse(d[1..]);
            var place := Normal(if p.absolute then p
                                else Path(true, root.names + (if p.names == [] then [index] else p.names), p.trailing));
            Candidate(root, index, isDirectory, d) ==
            if isDirectory(place) then Path(true, place.names + [index], false) else place
  {
    var p := Parse(d[1..]);
    NameBelow(root, index);
    if p != EMPTY_PATH {
      AppendWellformed(root, p);
      NormalIsCanonical(Append(root, p));
      NameBelow(Normal(Append(root, p)), index);
    } else {
      CanonicalIsNormal(Path(true, root.names + [index], false));
      NameBelow(Path(true, root.names + [index], false), index);
    }
  }

  /** And a request path that encodes nothing is refused. */
  lemma MalformedRefused(root: Path, index: string, isDirectory: Path -> bool, requestPath: string)
    ensures (exists i: nat :: BadEscapeAt(requestPath, i)) ==>
              ResolveStaticPath(root, index, isDirectory, requestPath) == None
  {
    DecodesToNothingIff(requestPath);
  }

  /** A request for names without dots is served from exactly there, whichever of its bytes are escaped. */
  lemma FileServed(root: Path, index: string, isDirectory: Path -> bool, names: seq<string>, trailing: bool,
                   choices: seq<Choice>)
    requires Canonical(root) && Dotless(names) && FileName(index) && (names == [] ==> !trailing)
    requires var d := "/" + GenericString(Path(false, names, trailing));
             Suits(d, choices) && '\0' !in d && '\\' !in d
    ensures var d := "/" + GenericString(Path(false, names, trailing));
            var place := Path(true, root.names + (if names == [] then [index] else names), trailing);
            ResolveStaticPath(root, index, isDirectory, Encoded(d, choices)) ==
            Some(if isDirectory(place) then Path(true, place.names + [index], false) else place)
  {
    hide ResolveStaticPath, Normal, Suits, GenericString, Encoded, CleanPath, Parse;
    var p := Path(false, names, trailing);
    var d := "/" + GenericString(p);
    assert d[1..] == GenericString(p);
    PathText.ParsePrinted(p);
    ServedAt(root, index, isDirectory, d, choices);
    BelowRoot(root, if names == [] then [index] else names, trailing);
    Longer(root.names, if names == [] then [index] else names, [index]);
  }

  lemma BelowRoot(root: Path, names: seq<string>, trailing: bool)
    requires Canonical(root) && Dotless(names) && (names == [] ==> !trailing)
    ensures Normal(Path(true, root.names + names, trailing)) == Path(true, root.names + names, trailing)
  {
    hide Normal;
    CanonicalIsNormal(Path(true, root.names + names, trailing));
  }

  lemma Longer<T>(a: seq<T>, b: seq<T>, c: seq<T>)
    ensures a <= a + b && a <= (a + b) + c
  {}
}
