/** The result of incremental parsing against a reference that sees the whole stream at once and
    works line by line. */
module Segmentation {
  import opened Text
  import opened HttpContext

  // ----- the code: one onMessage call per read -----

  /** Everything parsing remembers about a connection: the parser, the unconsumed input, and the
      requests handed to onRequest so far. */
  datatype Reader = Reader(ctx: Ctx, buf: string, delivered: seq<Request>)

  const FRESH := Reader(START, "", [])

  function OnData(r: Reader, chunk: string): Reader {
    var d := Drain(r.ctx, r.buf + chunk);
    Reader(d.ctx, d.rest, r.delivered + d.requests)
  }

  function Feed(r: Reader, chunks: seq<string>): Reader
    decreases |chunks|
  {
    if chunks == [] then r else Feed(OnData(r, chunks[0]), chunks[1..])
  }

  // ----- the reference: split the stream into lines, then fold over the lines -----

  function Lines(s: string): seq<string>
    decreases |s|
  {
    match FindCRLF(s)
    case None => []
    case Some(i) => [s[..i]] + Lines(s[i + 2..])
  }

  function Tail(s: string): string
    decreases |s|
  {
    match FindCRLF(s)
    case None => s
    case Some(i) => Tail(s[i + 2..])
  }

  datatype Ref = Ref(inHead: bool, request: Request, delivered: seq<Request>)

  const REF_START := Ref(false, EMPTY_REQUEST, [])

  predicate SkipsLine(a: Ref, line: string) {
    !a.inHead && !WellFormedRequestLine(line)
  }

  function RefLine(a: Ref, line: string): Ref {
    if SkipsLine(a, line) then a
    else if !a.inHead then a.(inHead := true, request := RequestLine(EMPTY_REQUEST, line).1)
    else if line == "" then Ref(false, EMPTY_REQUEST, a.delivered + [a.request])
    else a.(request := HeaderLine(a.request, line))
  }

  function RefFold(a: Ref, lines: seq<string>): (b: Ref)
    ensures a.delivered <= b.delivered
    decreases |lines|
  {
    if lines == [] then a else RefFold(RefLine(a, lines[0]), lines[1..])
  }

  function Reference(s: string): Ref { RefFold(REF_START, Lines(s)) }

  /** Some line is malformed where a request line is due. */
  predicate Malformed(a: Ref, lines: seq<string>)
    decreases |lines|
  {
    lines != [] && (SkipsLine(a, lines[0]) || Malformed(RefLine(a, lines[0]), lines[1..]))
  }

  /** Some line is malformed where a request line is due, and another complete line follows. */
  predicate Stalls(a: Ref, lines: seq<string>)
    decreases |lines|
  {
    |lines| >= 2 && (SkipsLine(a, lines[0]) || Stalls(RefLine(a, lines[0]), lines[1..]))
  }

  /** The last line is malformed where a request line is due. */
  predicate EndsMalformed(a: Ref, lines: seq<string>)
    decreases |lines|
  {
    lines != [] &&
    if |lines| == 1 then SkipsLine(a, lines[0]) else EndsMalformed(RefLine(a, lines[0]), lines[1..])
  }

  // ----- lines and folds of concatenations -----

  lemma {:induction false} LinesSplit(p: string, x: string)
    requires Tail(p) == ""
    ensures Lines(p + x) == Lines(p) + Lines(x)
    ensures Tail(p + x) == Tail(x)
    decreases |p|
  {
    if p == "" {
      assert p + x == x;
    } else {
      var i := FindCRLF(p).value;
      var q := p[i + 2..];
      FindCRLFStable(p, x);
      assert (p + x)[..i] == p[..i] && (p + x)[i + 2..] == q + x;
      LinesSplit(q, x);
      Assoc([p[..i]], Lines(q), Lines(x));
    }
  }

  /** Two stretches of whole lines, one after the other. */
  lemma UsedThen(s: string, p: string, mid: string, q: string, rest: string)
    requires s == p + mid && mid == q + rest
    requires Tail(p) == "" && Tail(q) == ""
    ensures s == (p + q) + rest && Tail(p + q) == ""
    ensures Lines(p + q) == Lines(p) + Lines(q)
  {
    LinesSplit(p, q);
  }

  lemma {:induction false} RefFoldSplit(a: Ref, l: seq<string>, m: seq<string>)
    ensures RefFold(a, l + m) == RefFold(RefFold(a, l), m)
    ensures Malformed(a, l + m) == (Malformed(a, l) || Malformed(RefFold(a, l), m))
    ensures m != [] ==> EndsMalformed(a, l + m) == EndsMalformed(RefFold(a, l), m)
    ensures m != [] && EndsMalformed(a, l) ==> Stalls(a, l + m)
    ensures Stalls(RefFold(a, l), m) ==> Stalls(a, l + m)
    decreases |l|
  {
    if l == [] {
      assert l + m == m;
    } else {
      assert (l + m)[1..] == l[1..] + m;
      RefFoldSplit(RefLine(a, l[0]), l[1..], m);
    }
  }

  lemma FirstLineAlone(s: string, i: nat)
    requires FindCRLF(s) == Some(i)
    ensures Lines(s[..i + 2]) == [s[..i]] && Tail(s[..i + 2]) == ""
  {
    var l := s[..i + 2];
    FindCRLFIsFirst(s);
    FindCRLFIsFirst(l);
    assert IsCRLFAt(s, i);
    assert IsCRLFAt(l, i);
    assert forall k: nat :: IsCRLFAt(l, k) ==> IsCRLFAt(s, k);
    assert FindCRLF(l) == Some(i);
    assert l[..i] == s[..i] && l[i + 2..] == "";
  }

  // ----- the code follows the reference -----

  /** A malformed request line may have left its method behind; nothing else differs. */
  ghost predicate Follows(ctx: Ctx, a: Ref, clean: bool) {
    && ctx.state == (if a.inHead then ExpectHeaders else ExpectRequestLine)
    && (a.inHead ==> ctx.request == a.request)
    && (!a.inHead ==> a.request == EMPTY_REQUEST == ctx.request.(meth := Invalid))
    && (!a.inHead && clean ==> ctx.request == EMPTY_REQUEST)
  }

  /** One line through the code and through the reference. */
  lemma TurnFollows(ctx: Ctx, line: string, a: Ref, clean: bool)
    requires Follows(ctx, a, clean)
    ensures Turn(ctx, line).0 == if SkipsLine(a, line) then Failed
                                 else if a.inHead && line == "" then Complete else More
    ensures Turn(ctx, line).0 != Complete ==>
              && Follows(Turn(ctx, line).1, RefLine(a, line), clean && !SkipsLine(a, line))
              && RefLine(a, line).delivered == a.delivered
    ensures Turn(ctx, line).0 == Complete ==>
              RefLine(a, line) == Ref(false, EMPTY_REQUEST, a.delivered + [Turn(ctx, line).1.request])
  {
    RequestLineOk(ctx.request, line);
  }

  /** The outcome of one Parse call is what the reference does with the lines it consumed. */
  ghost predicate Explains(o: Outcome, a: Ref, clean: bool, lines: seq<string>) {
    var b := RefFold(a, lines);
    if o.got then b == Ref(false, EMPTY_REQUEST, a.delivered + [o.ctx.request])
    else
      && b.delivered == a.delivered
      && Follows(o.ctx, b, clean && !Malformed(a, lines))
      && (FindCRLF(o.rest).Some? ==> EndsMalformed(a, lines))
  }

  lemma ExplainsCons(o: Outcome, a: Ref, clean: bool, line: string, lines: seq<string>)
    requires !SkipsLine(a, line) && RefLine(a, line).delivered == a.delivered
    requires Explains(o, RefLine(a, line), clean, lines)
    ensures Explains(o, a, clean, [line] + lines)
  {
    assert ([line] + lines)[1..] == lines;
  }

  lemma {:induction false} ParseFollows(ctx: Ctx, s: string, a: Ref, clean: bool) returns (used: string)
    requires Follows(ctx, a, clean)
    ensures s == used + Parse(ctx, s).rest && Tail(used) == ""
    ensures Explains(Parse(ctx, s), a, clean, Lines(used))
    decreases |s|
  {
    if FindCRLF(s).None? {
      return "";
    }
    var i := FindCRLF(s).value;
    var line, head, rest := s[..i], s[..i + 2], s[i + 2..];
    assert s == head + rest;
    FirstLineAlone(s, i);
    TurnFollows(ctx, line, a, clean);
    if Turn(ctx, line).0 != More {
      assert RefFold(a, [line]) == RefLine(a, line);
      return head;
    }
    var more := ParseFollows(Turn(ctx, line).1, rest, RefLine(a, line), clean);
    UsedThen(s, head, rest, more, Parse(ctx, s).rest);
    ExplainsCons(Parse(ctx, s), a, clean, line, Lines(more));
    used := head + more;
  }

  // ----- one onMessage call, and all of them -----

  /** The code, having handed out `delivered` and left `rest` in the buffer, is where the reference
      is after `lines`. */
  ghost predicate At(ctx: Ctx, rest: string, delivered: seq<Request>, a: Ref, clean: bool, lines: seq<string>) {
    && RefFold(a, lines).delivered == delivered
    && Follows(ctx, RefFold(a, lines), clean && !Malformed(a, lines))
    && (FindCRLF(rest).Some? ==> EndsMalformed(a, lines))
  }

  lemma AtThen(ctx: Ctx, rest: string, delivered: seq<Request>, a: Ref, clean: bool,
               l: seq<string>, m: seq<string>)
    requires At(ctx, rest, delivered, RefFold(a, l), clean && !Malformed(a, l), m)
    ensures At(ctx, rest, delivered, a, clean, l + m)
  {
    RefFoldSplit(a, l, m);
  }

  lemma {:induction false} DrainFollows(ctx: Ctx, s: string, a: Ref, clean: bool) returns (used: string)
    requires Follows(ctx, a, clean)
    ensures s == used + Drain(ctx, s).rest && Tail(used) == ""
    ensures var d := Drain(ctx, s); At(d.ctx, d.rest, a.delivered + d.requests, a, clean, Lines(used))
    decreases |s|
  {
    if s == "" {
      return "";
    }
    var o, d := Parse(ctx, s), Drain(ctx, s);
    var first := ParseFollows(ctx, s, a, clean);
    if !o.got {
      return first;
    }
    var b := RefFold(a, Lines(first));
    var more := DrainFollows(START, o.rest, b, true);
    used := first + more;
    assert At(d.ctx, d.rest, a.delivered + d.requests, a, clean, Lines(first) + Lines(more)) by {
      Assoc(a.delivered, [o.ctx.request], Drain(START, o.rest).requests);
      AtThen(d.ctx, d.rest, a.delivered + d.requests, a, clean, Lines(first), Lines(more));
    }
    UsedThen(s, first, o.rest, more, d.rest);
  }

  /** `used` is the part of the stream consumed so far. */
  ghost predicate Tracks(r: Reader, stream: string, used: string) {
    && stream == used + r.buf && Tail(used) == ""
    && At(r.ctx, r.buf, r.delivered, REF_START, true, Lines(used))
  }

  lemma OnDataTracks(r: Reader, stream: string, used: string, chunk: string) returns (used': string)
    requires Tracks(r, stream, used)
    ensures Tracks(OnData(r, chunk), stream + chunk, used')
  {
    var r' := OnData(r, chunk);
    var b := RefFold(REF_START, Lines(used));
    var more := DrainFollows(r.ctx, r.buf + chunk, b, !Malformed(REF_START, Lines(used)));
    used' := used + more;
    assert At(r'.ctx, r'.buf, r'.delivered, REF_START, true, Lines(used) + Lines(more)) by {
      AtThen(r'.ctx, r'.buf, r'.delivered, REF_START, true, Lines(used), Lines(more));
    }
    Assoc(used, r.buf, chunk);
    UsedThen(stream + chunk, used, r.buf + chunk, more, r'.buf);
  }

  lemma {:induction false} FeedTracks(r: Reader, stream: string, used: string, chunks: seq<string>)
    returns (used': string)
    requires Tracks(r, stream, used)
    ensures Tracks(Feed(r, chunks), stream + Concat(chunks), used')
    decreases |chunks|
  {
    if chunks == [] {
      assert stream + Concat(chunks) == stream;
      return used;
    }
    assert stream + chunks[0] + Concat(chunks[1..]) == stream + Concat(chunks);
    var mid := OnDataTracks(r, stream, used, chunks[0]);
    used' := FeedTracks(OnData(r, chunks[0]), stream + chunks[0], mid, chunks[1..]);
  }

  /** However the stream is cut, the requests handed out so far are the first ones the reference
      finds in it, and nothing but complete lines is gone from the buffer. */
  lemma DeliveredIsPrefix(chunks: seq<string>)
    ensures Feed(FRESH, chunks).delivered <= Reference(Concat(chunks)).delivered
  {
    assert Tracks(FRESH, "", "");
    var used := FeedTracks(FRESH, "", "", chunks);
    LinesSplit(used, Feed(FRESH, chunks).buf);
    RefFoldSplit(REF_START, Lines(used), Lines(Feed(FRESH, chunks).buf));
    assert "" + Concat(chunks) == Concat(chunks);
  }

  /** The delivered requests and the unconsumed bytes are those of the reference. */
  ghost predicate AgreesWithReference(chunks: seq<string>) {
    var r, s := Feed(FRESH, chunks), Concat(chunks);
    r.delivered == Reference(s).delivered && r.buf == Tail(s)
  }

  /** With no malformed request line except possibly in the last complete line, cutting the stream
      differently changes nothing; with none at all, the parser's own fields agree as well. */
  lemma SegmentationIndependent(chunks: seq<string>)
    requires !Stalls(REF_START, Lines(Concat(chunks)))
    ensures AgreesWithReference(chunks)
    ensures var a := Reference(Concat(chunks));
            !Malformed(REF_START, Lines(Concat(chunks))) ==>
              Feed(FRESH, chunks).ctx == Ctx(if a.inHead then ExpectHeaders else ExpectRequestLine, a.request)
  {
    var s, r := Concat(chunks), Feed(FRESH, chunks);
    assert Tracks(FRESH, "", "");
    var used := FeedTracks(FRESH, "", "", chunks);
    assert "" + Concat(chunks) == Concat(chunks);
    LinesSplit(used, r.buf);
    RefFoldSplit(REF_START, Lines(used), Lines(r.buf));
    assert FindCRLF(r.buf).None?;
    assert Lines(used) + [] == Lines(used);
  }

  /** A stream in which a malformed request line is followed by a complete line stalls when it
      arrives in one read: a complete line stays in the buffer. */
  lemma {:induction false} StalledDrain(ctx: Ctx, s: string, a: Ref)
    requires Follows(ctx, a, false)
    requires Stalls(a, Lines(s))
    ensures FindCRLF(Drain(ctx, s).rest).Some?
    decreases |s|
  {
    var o := Parse(ctx, s);
    StalledParse(ctx, s, a);
    if o.got {
      StalledDrain(START, o.rest, Ref(false, EMPTY_REQUEST, a.delivered + [o.ctx.request]));
    }
  }

  lemma {:induction false} StalledParse(ctx: Ctx, s: string, a: Ref)
    requires Follows(ctx, a, false)
    requires Stalls(a, Lines(s))
    ensures var o := Parse(ctx, s);
            if o.got then Stalls(Ref(false, EMPTY_REQUEST, a.delivered + [o.ctx.request]), Lines(o.rest))
            else FindCRLF(o.rest).Some?
    decreases |s|
  {
    var i := FindCRLF(s).value;
    TurnFollows(ctx, s[..i], a, false);
    assert Lines(s)[1..] == Lines(s[i + 2..]);
    if Turn(ctx, s[..i]).0 == More {
      StalledParse(Turn(ctx, s[..i]).1, s[i + 2..], RefLine(a, s[..i]));
    }
  }

  /** Exactly when every way of cutting a stream gives what the reference gives. */
  lemma SegmentationIndependentIff(s: string)
    ensures (forall chunks :: Concat(chunks) == s ==> AgreesWithReference(chunks))
            <==> !Stalls(REF_START, Lines(s))
  {
    if !Stalls(REF_START, Lines(s)) {
      forall chunks | Concat(chunks) == s ensures AgreesWithReference(chunks) {
        SegmentationIndependent(chunks);
      }
    } else {
      StalledDrain(START, s, REF_START);
      assert Concat([s]) == s + Concat([]) == s;
      assert Feed(FRESH, [s]) == OnData(FRESH, s);
      assert "" + s == s;
      TailHasNoLine(s);
      assert !AgreesWithReference([s]);
    }
  }

  lemma {:induction false} TailHasNoLine(s: string)
    ensures FindCRLF(Tail(s)).None?
    decreases |s|
  {
    if FindCRLF(s).Some? { TailHasNoLine(s[FindCRLF(s).value + 2..]); }
  }

  // ----- which requests are delivered -----

  /** Some request is completed after a line that is malformed where a request line is due. */
  predicate LateRequest(a: Ref, lines: seq<string>)
    decreases |lines|
  {
    lines != [] &&
    if SkipsLine(a, lines[0]) then RefFold(a, lines[1..]).delivered != a.delivered
    else LateRequest(RefLine(a, lines[0]), lines[1..])
  }

  /** Whatever ends with a malformed line has all of its requests, unless one is late. */
  lemma {:induction false} NothingLate(a: Ref, l: seq<string>, m: seq<string>)
    requires EndsMalformed(a, l) && !LateRequest(a, l + m)
    ensures RefFold(a, l).delivered == RefFold(a, l + m).delivered
    decreases |l|
  {
    var rest := l[1..];
    assert (l + m)[1..] == rest + m;
    RefFoldSplit(RefLine(a, l[0]), rest, m);
    if !SkipsLine(a, l[0]) {
      NothingLate(RefLine(a, l[0]), rest, m);
    }
  }

  /** In one read, nothing is delivered behind the first malformed line. */
  lemma {:induction false} LateDrain(ctx: Ctx, s: string, a: Ref)
    requires Follows(ctx, a, false) && LateRequest(a, Lines(s))
    ensures a.delivered + Drain(ctx, s).requests != RefFold(a, Lines(s)).delivered
    decreases |s|
  {
    var o := Parse(ctx, s);
    LateParse(ctx, s, a);
    if o.got {
      var b := Ref(false, EMPTY_REQUEST, a.delivered + [o.ctx.request]);
      LateDrain(START, o.rest, b);
      Assoc(a.delivered, [o.ctx.request], Drain(START, o.rest).requests);
    } else {
      assert a.delivered + [] == a.delivered;
    }
  }

  lemma {:induction false} LateParse(ctx: Ctx, s: string, a: Ref)
    requires Follows(ctx, a, false) && LateRequest(a, Lines(s))
    ensures var o := Parse(ctx, s);
            if o.got then
              var b := Ref(false, EMPTY_REQUEST, a.delivered + [o.ctx.request]);
              LateRequest(b, Lines(o.rest)) && RefFold(b, Lines(o.rest)) == RefFold(a, Lines(s))
            else RefFold(a, Lines(s)).delivered != a.delivered
    decreases |s|
  {
    var i := FindCRLF(s).value;
    TurnFollows(ctx, s[..i], a, false);
    assert Lines(s)[1..] == Lines(s[i + 2..]);
    if Turn(ctx, s[..i]).0 == More {
      LateParse(Turn(ctx, s[..i]).1, s[i + 2..], RefLine(a, s[..i]));
    }
  }

  /** The cutting that puts every line into a read of its own. */
  function LineByLine(s: string): seq<string>
    decreases |s|
  {
    match FindCRLF(s)
    case None => [s]
    case Some(i) => [s[..i + 2]] + LineByLine(s[i + 2..])
  }

  lemma {:induction false} LineByLineIsCutting(s: string)
    ensures Concat(LineByLine(s)) == s
    decreases |s|
  {
    match FindCRLF(s)
    case None => assert Concat([s]) == s + Concat([]) == s;
    case Some(i) =>
      LineByLineIsCutting(s[i + 2..]);
      assert ([s[..i + 2]] + LineByLine(s[i + 2..]))[1..] == LineByLine(s[i + 2..]);
      assert s[..i + 2] + s[i + 2..] == s;
  }

  /** A read of one line is consumed to its end. */
  lemma OneLineConsumed(ctx: Ctx, s: string, i: nat)
    requires ctx.state != GotAll && FindCRLF(s) == Some(i)
    ensures Drain(ctx, s[..i + 2]).rest == "" && Drain(ctx, s[..i + 2]).ctx.state != GotAll
  {
    FirstLineAlone(s, i);
    var l := s[..i + 2];
    assert FindCRLF(l) == Some(i) && l[i + 2..] == "";
    var (progress, next) := Turn(ctx, l[..i]);
    assert Parse(next, "") == Outcome(false, next, "");
    assert Parse(ctx, l) == Outcome(progress == Complete, next, "");
    assert Drain(START, "") == Drained([], START, "");
  }

  lemma {:induction false} LineByLineLeavesTail(r: Reader, s: string)
    requires r.buf == "" && r.ctx.state != GotAll
    ensures FindCRLF(Feed(r, LineByLine(s)).buf).None?
    decreases |s|
  {
    match FindCRLF(s)
    case None =>
      EmptyLeft(s);
      assert Feed(r, [s]) == OnData(r, s);
    case Some(i) =>
      var l, chunks := s[..i + 2], [s[..i + 2]] + LineByLine(s[i + 2..]);
      EmptyLeft(l);
      OneLineConsumed(r.ctx, s, i);
      LineByLineLeavesTail(OnData(r, l), s[i + 2..]);
      assert chunks[1..] == LineByLine(s[i + 2..]);
  }

  /** When no complete line is left in the buffer, everything agrees with the reference. */
  lemma DrainedAgrees(chunks: seq<string>)
    requires FindCRLF(Feed(FRESH, chunks).buf).None?
    ensures AgreesWithReference(chunks)
  {
    var r := Feed(FRESH, chunks);
    assert Tracks(FRESH, "", "");
    var used := FeedTracks(FRESH, "", "", chunks);
    EmptyLeft(Concat(chunks));
    LinesSplit(used, r.buf);
    assert Lines(used) + [] == Lines(used);
  }

  /** Read line by line, every stream gives what the reference gives. */
  lemma LineByLineAgrees(s: string)
    ensures Concat(LineByLine(s)) == s && AgreesWithReference(LineByLine(s))
  {
    LineByLineIsCutting(s);
    LineByLineLeavesTail(FRESH, s);
    DrainedAgrees(LineByLine(s));
  }

  /** A stream without a late request is delivered alike by every cutting. */
  lemma NoneLateDelivered(chunks: seq<string>)
    requires !LateRequest(REF_START, Lines(Concat(chunks)))
    ensures Feed(FRESH, chunks).delivered == Reference(Concat(chunks)).delivered
  {
    var r := Feed(FRESH, chunks);
    assert Tracks(FRESH, "", "");
    var used := FeedTracks(FRESH, "", "", chunks);
    EmptyLeft(Concat(chunks));
    LinesSplit(used, r.buf);
    if FindCRLF(r.buf).Some? {
      NothingLate(REF_START, Lines(used), Lines(r.buf));
    } else {
      assert Lines(used) + [] == Lines(used);
    }
  }

  /** A stream with a late request is not: read at once, it gives less than read line by line. */
  lemma LateDeliversLess(s: string)
    requires LateRequest(REF_START, Lines(s))
    ensures Concat([s]) == s && Concat(LineByLine(s)) == s
    ensures Feed(FRESH, [s]).delivered != Feed(FRESH, LineByLine(s)).delivered
  {
    LineByLineAgrees(s);
    LateDrain(START, s, REF_START);
    assert Concat([s]) == s + Concat([]) == s;
    EmptyLeft(s);
    assert Feed(FRESH, [s]) == OnData(FRESH, s);
  }

  ghost predicate DeliverAlike(c: seq<string>, d: seq<string>) {
    Feed(FRESH, c).delivered == Feed(FRESH, d).delivered
  }

  /** Exactly when any two ways of cutting a stream deliver the same requests. */
  lemma CuttingsDeliverAlikeIff(s: string)
    ensures (forall c, d :: Concat(c) == s && Concat(d) == s ==> DeliverAlike(c, d))
            <==> !LateRequest(REF_START, Lines(s))
  {
    if LateRequest(REF_START, Lines(s)) {
      LateDeliversLess(s);
      assert !DeliverAlike([s], LineByLine(s));
    } else {
      forall c, d | Concat(c) == s && Concat(d) == s ensures DeliverAlike(c, d) {
        NoneLateDelivered(c);
        NoneLateDelivered(d);
      }
    }
  }
}
