/** A request head as a client writes it; both servers read this text. */
module RequestText {
  import opened Text

  /** `query` is what follows a '?', if there is one. */
  datatype Head = Head(meth: string, path: string, query: Option<string>, version: string,
                       headers: seq<(string, string)>)
  {
    function Target(): string { path + if query.Some? then "?" + query.value else "" }

    function Query(): string { if query.Some? then query.value else "" }

    function FirstLine(): string { meth + " " + Target() + " " + version }

    function Print(): string { HeadText(FirstLine(), headers) }
  }

  /** Without the character c. */
  predicate Without(s: string, c: char) { forall i :: 0 <= i < |s| ==> s[i] != c }

  /** The target divides at the first '?'. */
  lemma TargetSplit(h: Head)
    requires Without(h.path, '?')
    ensures var t := h.Target(); var q := IndexOf(t, '?');
            && (q < |t| <==> h.query.Some?) && t[..q] == h.path
            && (if h.query.Some? then t[q + 1..] == h.query.value else t == h.path)
  {
    var t := h.Target();
    if h.query.Some? {
      assert t == h.path + ['?'] + h.query.value;
      IndexOfAfter(h.path, '?', h.query.value);
      assert t[..|h.path|] == h.path && t[|h.path| + 1..] == h.query.value;
    } else {
      assert t == h.path && t[..|t|] == t;
    }
  }
}
