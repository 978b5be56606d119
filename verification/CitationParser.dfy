/** `parse_text`: a document's citations, with the sentence-scoped inheritance of file names
    (scripts/check-citation-drift.py:512-599). */
module CitationParser {
  import opened Text
  import opened Citations

  // ------------------------------------------------------------------- stops

  predicate EndsSentence(text: string, i: nat)
    requires i < |text|
  {
    (text[i] == '.' || text[i] == '!' || text[i] == '?') && (i + 1 == |text| || IsSpace(text[i + 1]))
  }

  /** Offset of line `i` in the document joined by line feeds. */
  function LineBase(lines: seq<string>, i: nat): nat
    requires i <= |lines|
  {
    if i == 0 then 0 else LineBase(lines, i - 1) + |lines[i - 1]| + 1
  }

  /** An offset where inheritance stops: just after a sentence end, or at a blank line. */
  ghost predicate IsStop(lines: seq<string>, s: nat) {
    || (1 <= s <= |Join(lines, "\n")| && EndsSentence(Join(lines, "\n"), s - 1))
    || BlankBefore(lines, |lines|, s)
  }

  /** `s` is where one of the first `n` lines starts, and that line is blank. */
  ghost predicate BlankBefore(lines: seq<string>, n: nat, s: nat)
    requires n <= |lines|
  {
    exists i :: 0 <= i < n && Strip(lines[i]) == "" && s == LineBase(lines, i)
  }

  lemma BlankNext(lines: seq<string>, n: nat, s: nat)
    requires n < |lines|
    ensures BlankBefore(lines, n + 1, s) <==>
            BlankBefore(lines, n, s) || (Strip(lines[n]) == "" && s == LineBase(lines, n))
  {
  }

  /** Some stop lies after `a` and not after `b`. */
  ghost predicate Stopped(lines: seq<string>, a: int, b: int) {
    exists s: nat :: a < s <= b && IsStop(lines, s)
  }

  function SentenceStops(text: string, i: nat): (stops: seq<nat>)
    requires i <= |text|
    ensures forall s: nat :: s in stops <==> i < s <= |text| && EndsSentence(text, s - 1)
    decreases |text| - i
  {
    if i == |text| then []
    else
      var rest := SentenceStops(text, i + 1);
      if EndsSentence(text, i) then [i + 1] + rest else rest
  }

  function Insert(x: nat, s: seq<nat>): (r: seq<nat>)
    requires Ascending(s)
    ensures Ascending(r) && forall y: nat :: y in r <==> y == x || y in s
  {
    if s == [] || x <= s[0] then [x] + s
    else
      var rest := Insert(x, s[1..]);
      assert rest[0] in rest && s == [s[0]] + s[1..];
      [s[0]] + rest
  }

  predicate Ascending(s: seq<nat>) {
    forall i, j :: 0 <= i < j < |s| ==> s[i] <= s[j]
  }

  /** `sorted(s)` */
  function Sorted(s: seq<nat>): (r: seq<nat>)
    ensures Ascending(r) && forall y: nat :: y in r <==> y in s
  {
    if s == [] then [] else
      assert s == [s[0]] + s[1..];
      Insert(s[0], Sorted(s[1..]))
  }

  ghost predicate AreStops(lines: seq<string>, stops: seq<nat>) {
    Ascending(stops) && forall s: nat :: s in stops <==> IsStop(lines, s)
  }

  /** The stop list the parser walks through: sentence ends and blank lines, in order. */
  method StopList(lines: seq<string>) returns (stops: seq<nat>)
    ensures AreStops(lines, stops)
  {
    var text := Join(lines, "\n");
    hide Join;
    stops := SentenceStops(text, 0);
    ghost var sentences := stops;
    var base := 0;
    for i := 0 to |lines|
      invariant base == LineBase(lines, i)
      invariant forall s: nat :: s in stops <==> s in sentences || BlankBefore(lines, i, s)
    {
      forall s: nat {
        BlankNext(lines, i, s);
      }
      hide BlankBefore, LineBase, Strip;
      if Strip(lines[i]) == "" {
        stops := stops + [base];
      }
      base := base + |lines[i]| + 1;
    }
    stops := Sorted(stops);
  }

  // -------------------------------------------------------- the parser state

  datatype ProblemKind = OmitsName | Unresolvable | IllegalRange
  datatype Problem = Problem(docLine: nat, at: int, tokensBefore: nat, kind: ProblemKind)

  /** One written citation: where its code span starts in the document, the column of its text
      in its line, its text, its span list, whether it names its file itself, and the file it
      means. */
  datatype Token = Token(docLine: nat, at: int, col: nat, raw: string, spans: string, explicit: bool, target: string)

  /** `last` is the file a bare `:N` inherits, `seen` the offset up to which stops have been
      passed (-1 before the first code span), `asked` the names whose existence the resolver
      asked about. `tokens` is kept for the properties: the code keeps only the citations. */
  datatype State = State(
    last: Option<string>, seen: int, tokens: seq<Token>, citations: seq<Citation>,
    problems: seq<Problem>, asked: set<string>)

  const START := State(None, -1, [], [], [], {})

  ghost function Advance(lines: seq<string>, st: State, at: nat): State {
    st.(last := if Stopped(lines, st.seen, at) then None else st.last, seen := at)
  }

  function Emitted(doc: string, token: Token, chunks: seq<string>): seq<Citation>
    requires forall c <- chunks :: IsChunk(c)
  {
    if chunks == [] then []
    else
      var r := ChunkRange(chunks[0]);
      var rest := Emitted(doc, token, chunks[1..]);
      if LegalRange(r) then [Citation(doc, token.docLine, token.raw, token.target, r.0, r.1)] + rest else rest
  }

  function Illegal(p: Problem, chunks: seq<string>): seq<Problem>
    requires forall c <- chunks :: IsChunk(c)
  {
    if chunks == [] then []
    else (if LegalRange(ChunkRange(chunks[0])) then [] else [p]) + Illegal(p, chunks[1..])
  }

  function Resolve(doc: string, token: Token, st: State): State
    requires IsSpanList(token.spans)
  {
    var chunks := Split(token.spans, ',');
    st.(last := Some(token.target),
        tokens := st.tokens + [token],
        citations := st.citations + Emitted(doc, token, chunks),
        problems := st.problems + Illegal(Problem(token.docLine, token.at, |st.tokens| + 1, IllegalRange), chunks))
  }

  /** Start of the name written before the colon of `m`: `m.start` when the pattern recognised
      a path, otherwise the run of path characters that touches the colon. */
  function NameStart(text: string, m: Match): (s: nat)
    requires IsMatch(text, 0, m)
    ensures s <= m.colon
  {
    if m.start < m.colon then m.start else RunStart(text, 0, m.colon)
  }

  /** The name is not a citation's: a URL's tail, or nothing shaped like a path. */
  predicate NotACitation(text: string, m: Match, tree: Tree)
    requires IsMatch(text, 0, m)
  {
    var s := NameStart(text, m);
    s < m.colon && (IsUrlTail(text[..s], text[s..m.colon]) || !IsPathShaped(text[s..m.colon], tree))
  }

  /** `base` is the column at which the text starts in its line. */
  function StepMatch(doc: string, tree: Tree, docLine: nat, base: nat, text: string, m: Match, st: State): State
    requires IsMatch(text, 0, m)
  {
    var s := NameStart(text, m);
    var spans := text[m.colon + 1..m.end];
    if s < m.colon && !NotACitation(text, m, tree) then
      var name := text[s..m.colon];
      var asking := st.(asked := st.asked + {name});
      match ResolveTarget(name, st.last, tree)
      case None => asking.(problems := st.problems + [Problem(docLine, st.seen, |st.tokens|, Unresolvable)])
      case Some(target) => Resolve(doc, Token(docLine, st.seen, base + s, text[s..m.end], spans, true, target), asking)
    else if st.last.Some? then
      Resolve(doc, Token(docLine, st.seen, base + m.start, text[m.start..m.end], spans, false, st.last.value), st)
    else if NotACitation(text, m, tree) then st
    else st.(problems := st.problems + [Problem(docLine, st.seen, |st.tokens|, OmitsName)])
  }

  function FoldMatches(doc: string, tree: Tree, docLine: nat, base: nat, text: string, from: nat, st: State): State
    requires from <= |text|
    decreases |text| - from
  {
    match NextMatch(text, from)
    case None => st
    case Some(m) => FoldMatches(doc, tree, docLine, base, text, m.end, StepMatch(doc, tree, docLine, base, text, m, st))
  }

  ghost function FoldSpans(doc: string, tree: Tree, lines: seq<string>, i: nat, from: nat, st: State): State
    requires i < |lines|
    decreases |lines[i]| - from
  {
    match NextSpan(lines[i], from)
    case None => st
    case Some(span) => FoldSpans(doc, tree, lines, i, span.end, StepSpan(doc, tree, lines, i, span, st))
  }

  ghost function StepSpan(doc: string, tree: Tree, lines: seq<string>, i: nat, span: Span, st: State): State
    requires i < |lines| && span.start + 2 < span.end <= |lines[i]|
  {
    var inside := lines[i][span.start + 1..span.end - 1];
    FoldMatches(doc, tree, i + 1, span.start + 1, inside, 0, Advance(lines, st, LineBase(lines, i) + span.start))
  }

  ghost function FoldLines(doc: string, tree: Tree, lines: seq<string>, i: nat, st: State): State
    requires i <= |lines|
    decreases |lines| - i
  {
    if i == |lines| then st
    else FoldLines(doc, tree, lines, i + 1, FoldSpans(doc, tree, lines, i, 0, st))
  }

  ghost function Parse(doc: string, tree: Tree, lines: seq<string>): State {
    FoldLines(doc, tree, lines, 0, START)
  }

  // --------------------------------------------------- the parser as written

  /** The stops passed are behind `seen` and the others are ahead of it. */
  predicate StopsPassed(stops: seq<nat>, stop: nat, seen: int) {
    && stop <= |stops|
    && (forall k :: 0 <= k < stop ==> stops[k] <= seen)
    && (forall k :: stop <= k < |stops| ==> seen < stops[k])
  }

  /** The walk passes a stop exactly when one lies between the spans. */
  lemma PassingIsStopped(lines: seq<string>, stops: seq<nat>, stop: nat, seen: int, stop': nat, at: int)
    requires AreStops(lines, stops)
    requires StopsPassed(stops, stop, seen) && StopsPassed(stops, stop', at) && stop <= stop'
    ensures Stopped(lines, seen, at) <==> stop < stop'
  {
    if stop < stop' {
      assert stops[stop] in stops;
    }
    if s: nat :| seen < s <= at && IsStop(lines, s) {
      var k :| 0 <= k < |stops| && stops[k] == s;
      assert stop <= k < stop';
    }
  }

  method ParseText(doc: string, lines: seq<string>, tree: Tree)
    returns (citations: seq<Citation>, problems: seq<Problem>, asked: set<string>)
    ensures citations == Parse(doc, tree, lines).citations
    ensures problems == Parse(doc, tree, lines).problems
    ensures asked == Parse(doc, tree, lines).asked
  {
    var stops := StopList(lines);
    var stop, base := 0, 0;
    var st := START;
    for i := 0 to |lines|
      invariant base == LineBase(lines, i) && st.seen < base
      invariant StopsPassed(stops, stop, st.seen)
      invariant FoldLines(doc, tree, lines, i, st) == Parse(doc, tree, lines)
    {
      stop, st := ParseLine(doc, lines, tree, stops, i, base, stop, st);
      base := base + |lines[i]| + 1;
    }
    return st.citations, st.problems, st.asked;
  }

  method ParseLine(doc: string, lines: seq<string>, tree: Tree, stops: seq<nat>, i: nat, base: nat,
                   stop0: nat, st0: State)
    returns (stop: nat, st: State)
    requires i < |lines| && base == LineBase(lines, i) && st0.seen < base
    requires AreStops(lines, stops)
    requires StopsPassed(stops, stop0, st0.seen)
    ensures st == FoldSpans(doc, tree, lines, i, 0, st0)
    ensures StopsPassed(stops, stop, st.seen) && st.seen < base + |lines[i]| + 1
  {
    hide StepSpan, FoldSpans;
    stop, st := stop0, st0;
    var line, from := lines[i], 0;
    ghost var result := FoldSpans(doc, tree, lines, i, 0, st0);
    while true
      invariant from <= |line| && st.seen < base + from
      invariant StopsPassed(stops, stop, st.seen)
      invariant FoldSpans(doc, tree, lines, i, from, st) == result
      decreases |line| - from
    {
      var found := NextSpan(line, from);
      FoldSpansUnfold(doc, tree, lines, i, from, st);
      if found == None {
        return;
      }
      stop, st := ParseSpan(doc, lines, tree, stops, i, base, found.value, stop, st);
      from := found.value.end;
    }
  }

  method ParseSpan(doc: string, lines: seq<string>, tree: Tree, stops: seq<nat>, i: nat, base: nat,
                   span: Span, stop0: nat, st0: State)
    returns (stop: nat, st: State)
    requires i < |lines| && base == LineBase(lines, i)
    requires span.start + 2 < span.end <= |lines[i]| && st0.seen < base + span.start
    requires AreStops(lines, stops) && StopsPassed(stops, stop0, st0.seen)
    ensures st == StepSpan(doc, tree, lines, i, span, st0)
    ensures StopsPassed(stops, stop, st.seen) && st.seen == base + span.start
  {
    hide FoldMatches, IsStop;
    var at := base + span.start;
    var last;
    last, stop := PassStops(stops, stop0, st0.seen, at, st0.last);
    PassingIsStopped(lines, stops, stop0, st0.seen, stop, at);
    st := st0.(last := last, seen := at);
    assert st == Advance(lines, st0, at);
    st := ParseMatches(doc, tree, i + 1, span.start + 1, lines[i][span.start + 1..span.end - 1], st);
  }

  lemma FoldSpansUnfold(doc: string, tree: Tree, lines: seq<string>, i: nat, from: nat, st: State)
    requires i < |lines|
    ensures FoldSpans(doc, tree, lines, i, from, st) ==
            match NextSpan(lines[i], from)
            case None => st
            case Some(span) =>
              FoldSpans(doc, tree, lines, i, span.end, StepSpan(doc, tree, lines, i, span, st))
  {
    hide StepSpan;
  }

  /** The inner loop over the stops not yet passed. */
  method PassStops(stops: seq<nat>, stop0: nat, seen: int, at: nat, last0: Option<string>)
    returns (last: Option<string>, stop: nat)
    requires Ascending(stops) && StopsPassed(stops, stop0, seen) && seen < at
    ensures stop0 <= stop && StopsPassed(stops, stop, at)
    ensures last == if stop0 < stop then None else last0
  {
    last, stop := last0, stop0;
    while stop < |stops| && at >= stops[stop]
      invariant stop0 <= stop <= |stops|
      invariant forall k :: 0 <= k < stop ==> stops[k] <= at
      invariant last == if stop0 < stop then None else last0
    {
      last := None;
      stop := stop + 1;
    }
  }

  method ParseMatches(doc: string, tree: Tree, docLine: nat, base: nat, text: string, here: State) returns (st: State)
    ensures st == FoldMatches(doc, tree, docLine, base, text, 0, here) && st.seen == here.seen
  {
    st := here;
    var from := 0;
    while true
      invariant from <= |text| && st.seen == here.seen
      invariant FoldMatches(doc, tree, docLine, base, text, from, st) == FoldMatches(doc, tree, docLine, base, text, 0, here)
      decreases |text| - from
    {
      var found := NextMatch(text, from);
      if found == None {
        return;
      }
      st := ParseMatch(doc, tree, docLine, base, text, found.value, st);
      from := found.value.end;
    }
  }

  method ParseMatch(doc: string, tree: Tree, docLine: nat, base: nat, text: string, m: Match, here: State)
    returns (st: State)
    requires IsMatch(text, 0, m)
    ensures st == StepMatch(doc, tree, docLine, base, text, m, here) && st.seen == here.seen
  {
    hide IsUrlTail, IsPathShaped, ResolveTarget, IsSpanList, NameStart, IsPathChar, Emitted, Illegal, Split;
    st := here;
    var s := NameStart(text, m);
    var name: Option<string> := if s < m.colon then Some(text[s..m.colon]) else None;
    var notACitation := name.Some? && (IsUrlTail(text[..s], name.value) || !IsPathShaped(name.value, tree));
    var col, raw: string, target: Option<string>, explicit := base + s, "", None, true;
    if name.Some? && !notACitation {
      raw := text[s..m.end];
      st := st.(asked := st.asked + {name.value});
      target := ResolveTarget(name.value, st.last, tree);
    } else if st.last.Some? {
      col, raw, target, explicit := base + m.start, text[m.start..m.end], st.last, false;
    } else if notACitation {
      return;
    } else {
      st := st.(problems := st.problems + [Problem(docLine, st.seen, |st.tokens|, OmitsName)]);
      return;
    }
    if target == None {
      st := st.(problems := st.problems + [Problem(docLine, st.seen, |st.tokens|, Unresolvable)]);
      return;
    }
    var spans := text[m.colon + 1..m.end];
    var token := Token(docLine, st.seen, col, raw, spans, explicit, target.value);
    st := EmitChunks(doc, token, st);
  }

  method EmitChunks(doc: string, token: Token, here: State) returns (st: State)
    requires IsSpanList(token.spans)
    ensures st == Resolve(doc, token, here)
  {
    st := here.(last := Some(token.target), tokens := here.tokens + [token]);
    var chunks := Split(token.spans, ',');
    var problem := Problem(token.docLine, token.at, |here.tokens| + 1, IllegalRange);
    for k := 0 to |chunks|
      invariant st == here.(last := st.last, tokens := st.tokens, citations := st.citations, problems := st.problems)
      invariant st.last == Some(token.target) && st.tokens == here.tokens + [token]
      invariant st.citations + Emitted(doc, token, chunks[k..]) == here.citations + Emitted(doc, token, chunks)
      invariant st.problems + Illegal(problem, chunks[k..]) == here.problems + Illegal(problem, chunks)
    {
      assert chunks[k] in chunks && chunks[k..][1..] == chunks[k + 1..];
      var r := ChunkRange(chunks[k]);
      if !LegalRange(r) {
        st := st.(problems := st.problems + [problem]);
      } else {
        st := st.(citations := st.citations + [Citation(doc, token.docLine, token.raw, token.target, r.0, r.1)]);
      }
    }
  }
}
