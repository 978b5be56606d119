/** What holds of every parse: a bare `:N` means the file of an explicit citation of its own
    sentence, and the citations are the written tokens' spans, in order. */
module CitationScope {
  import opened Text
  import opened Citations
  import opened CitationParser

  ghost predicate Follows(lines: seq<string>, a: Token, b: Token) {
    a.at <= b.at && a.docLine <= b.docLine && (!b.explicit ==> b.target == a.target && !Stopped(lines, a.at, b.at))
  }

  /** The tokens come in document order; each bare one continues the one before it, with no
      stop between their code spans; the first is explicit. */
  ghost predicate Chained(lines: seq<string>, tokens: seq<Token>) {
    && (tokens != [] ==> tokens[0].explicit)
    && (forall k :: 0 < k < |tokens| ==> Follows(lines, tokens[k - 1], tokens[k]))
  }

  /** What is inherited is the last token's file, exactly while no stop has come after it. */
  ghost predicate Inherits(lines: seq<string>, st: State) {
    if st.tokens == [] then st.last == None
    else
      var t := st.tokens[|st.tokens| - 1];
      && t.at <= st.seen
      && st.last == if Stopped(lines, t.at, st.seen) then None else Some(t.target)
  }

  /** A `:N` is refused for want of a name only when no token of its sentence precedes it. */
  ghost predicate Orphan(lines: seq<string>, tokens: seq<Token>, p: Problem) {
    && p.tokensBefore <= |tokens|
    && (p.kind == OmitsName && p.tokensBefore > 0 ==> Stopped(lines, tokens[p.tokensBefore - 1].at, p.at))
  }

  ghost predicate Scoped(lines: seq<string>, st: State) {
    && Chained(lines, st.tokens)
    && Inherits(lines, st)
    && (forall p <- st.problems :: Orphan(lines, st.tokens, p))
  }

  /** A token's spans are its text after the last colon; a written path is its own target. */
  ghost predicate WellWritten(tree: Tree, t: Token) {
    && IsSpanList(t.spans) && SpansOf(t.raw) == t.spans
    && (t.explicit ==> PathOf(t.raw) != "")
    && (t.explicit && '/' in PathOf(t.raw) ==> t.target == PathOf(t.raw) && t.target in tree.files)
  }

  function TokenCitations(doc: string, t: Token): seq<Citation>
    requires IsSpanList(t.spans)
  {
    Emitted(doc, t, Split(t.spans, ','))
  }

  function AllCitations(doc: string, tokens: seq<Token>): seq<Citation>
    requires forall t <- tokens :: IsSpanList(t.spans)
  {
    if tokens == [] then []
    else AllCitations(doc, tokens[..|tokens| - 1]) + TokenCitations(doc, tokens[|tokens| - 1])
  }

  ghost predicate Accounted(doc: string, tree: Tree, st: State) {
    && (forall t <- st.tokens :: WellWritten(tree, t))
    && st.citations == AllCitations(doc, st.tokens)
    && (st.problems == [] ==> forall t <- st.tokens, c <- Split(t.spans, ',') :: LegalRange(ChunkRange(c)))
  }

  ghost predicate Placed(st: State, low: nat, high: nat) {
    forall t <- st.tokens :: low <= t.docLine <= high
  }

  ghost predicate Good(doc: string, tree: Tree, lines: seq<string>, st: State, line: nat) {
    Scoped(lines, st) && Accounted(doc, tree, st) && Placed(st, 1, line)
  }

  // ---------------------------------------------------------- one token more

  lemma StoppedSplits(lines: seq<string>, a: int, b: int, c: int)
    requires a <= b <= c
    ensures Stopped(lines, a, c) <==> Stopped(lines, a, b) || Stopped(lines, b, c)
  {
    hide IsStop;
  }

  lemma AdvanceScoped(lines: seq<string>, st: State, at: nat)
    requires Scoped(lines, st) && st.seen <= at
    ensures Scoped(lines, Advance(lines, st, at))
  {
    hide Stopped;
    if st.tokens != [] {
      StoppedSplits(lines, st.tokens[|st.tokens| - 1].at, st.seen, at);
    }
  }

  lemma IllegalKind(p: Problem, chunks: seq<string>)
    requires forall c <- chunks :: IsChunk(c)
    ensures forall q <- Illegal(p, chunks) :: q == p
    ensures Illegal(p, chunks) == [] <==> forall c <- chunks :: LegalRange(ChunkRange(c))
  {
    if chunks != [] {
      assert chunks == [chunks[0]] + chunks[1..];
      IllegalKind(p, chunks[1..]);
    }
  }

  lemma NotStoppedHere(lines: seq<string>, at: int)
    ensures !Stopped(lines, at, at)
  {
  }

  lemma ResolveScoped(doc: string, lines: seq<string>, token: Token, st: State)
    requires Scoped(lines, st) && IsSpanList(token.spans)
    requires token.at == st.seen
    requires st.tokens != [] ==> st.tokens[|st.tokens| - 1].docLine <= token.docLine
    requires token.explicit || st.last == Some(token.target)
    ensures Scoped(lines, Resolve(doc, token, st))
  {
    hide Stopped, LegalRange, ChunkRange, Emitted, Illegal, Split, IsSpanList;
    NotStoppedHere(lines, token.at);
    var problem := Problem(token.docLine, token.at, |st.tokens| + 1, IllegalRange);
    assert forall c <- Split(token.spans, ',') :: IsChunk(c) by {
      ChunksOfSpanList(token.spans);
    }
    IllegalKind(problem, Split(token.spans, ','));
    var after := Resolve(doc, token, st);
    forall k | 0 < k < |after.tokens| ensures Follows(lines, after.tokens[k - 1], after.tokens[k]) {
      assert k < |st.tokens| ==> after.tokens[k] == st.tokens[k];
    }
    forall p <- after.problems ensures Orphan(lines, after.tokens, p) {
      assert p in st.problems || p == problem;
      assert p in st.problems ==> Orphan(lines, st.tokens, p);
    }
  }

  lemma ChunksOfSpanList(s: string)
    requires IsSpanList(s)
    ensures forall c <- Split(s, ',') :: IsChunk(c)
  {
    hide Split;
  }

  lemma ResolveAccounted(doc: string, tree: Tree, token: Token, st: State)
    requires Accounted(doc, tree, st) && WellWritten(tree, token)
    ensures Accounted(doc, tree, Resolve(doc, token, st))
  {
    hide LegalRange, ChunkRange, Emitted, Illegal, Split, IsSpanList, WellWritten;
    assert IsSpanList(token.spans) by {
      TokenSpans(tree, token);
    }
    ChunksOfSpanList(token.spans);
    var chunks := Split(token.spans, ',');
    var problem := Problem(token.docLine, token.at, |st.tokens| + 1, IllegalRange);
    IllegalKind(problem, chunks);
    var after := Resolve(doc, token, st);
    assert after.tokens[..|after.tokens| - 1] == st.tokens;
    assert after.problems == [] ==> st.problems == [] && Illegal(problem, chunks) == [];
    forall t | t in after.tokens ensures WellWritten(tree, t) && IsSpanList(t.spans) {
      TokenSpans(tree, t);
    }
  }

  lemma TokenSpans(tree: Tree, t: Token)
    ensures WellWritten(tree, t) ==> IsSpanList(t.spans)
  {
    hide IsSpanList;
  }

  lemma WrittenName(text: string, s: nat, m: Match)
    requires IsMatch(text, 0, m) && s <= m.colon
    ensures SpansOf(text[s..m.end]) == text[m.colon + 1..m.end]
    ensures PathOf(text[s..m.end]) == text[s..m.colon]
  {
    hide IsSpanList;
    var spans := text[m.colon + 1..m.end];
    SpanListLacksColon(spans);
    assert text[s..m.end] == text[s..m.colon] + ":" + spans;
    SpansOfParts(text[s..m.colon], spans);
  }

  lemma StepGood(doc: string, tree: Tree, lines: seq<string>, docLine: nat, base: nat, text: string, m: Match, st: State)
    requires IsMatch(text, 0, m) && Good(doc, tree, lines, st, docLine) && docLine >= 1
    ensures Good(doc, tree, lines, StepMatch(doc, tree, docLine, base, text, m, st), docLine)
    ensures StepMatch(doc, tree, docLine, base, text, m, st).seen == st.seen
  {
    hide Good, StepMatch, NotACitation, IsSpanList, NameStart, IsMatch;
    if NameStart(text, m) < m.colon && !NotACitation(text, m, tree) {
      NamedGood(doc, tree, lines, docLine, base, text, m, st);
    } else {
      InheritedGood(doc, tree, lines, docLine, base, text, m, st);
    }
  }

  lemma NamedGood(doc: string, tree: Tree, lines: seq<string>, docLine: nat, base: nat, text: string, m: Match, st: State)
    requires IsMatch(text, 0, m) && Good(doc, tree, lines, st, docLine) && docLine >= 1
    requires NameStart(text, m) < m.colon && !NotACitation(text, m, tree)
    ensures Good(doc, tree, lines, StepMatch(doc, tree, docLine, base, text, m, st), docLine)
    ensures StepMatch(doc, tree, docLine, base, text, m, st).seen == st.seen
  {
    hide Stopped, Scoped, Accounted, WellWritten, Resolve, NotACitation, IsSpanList, NameStart, IsPathChar, PathOf, SpansOf, ResolveTarget;
    var s, spans := NameStart(text, m), text[m.colon + 1..m.end];
    var name := text[s..m.colon];
    var asking := st.(asked := st.asked + {name});
    AskingKeeps(doc, tree, lines, st, asking);
    match ResolveTarget(name, st.last, tree)
    case None =>
      ProblemKeeps(doc, tree, lines, asking, Problem(docLine, st.seen, |st.tokens|, Unresolvable));
    case Some(target) =>
      WrittenName(text, s, m);
      PathIsTarget(name, st.last, tree);
      ResolveGood(doc, tree, lines, Token(docLine, st.seen, base + s, text[s..m.end], spans, true, target), asking);
  }

  lemma PathIsTarget(name: string, last: Option<string>, tree: Tree)
    ensures var target := ResolveTarget(name, last, tree);
            target.Some? && '/' in name ==> target.value == name && name in tree.files
  {
  }

  lemma InheritedGood(doc: string, tree: Tree, lines: seq<string>, docLine: nat, base: nat, text: string, m: Match, st: State)
    requires IsMatch(text, 0, m) && Good(doc, tree, lines, st, docLine) && docLine >= 1
    requires !(NameStart(text, m) < m.colon && !NotACitation(text, m, tree))
    ensures Good(doc, tree, lines, StepMatch(doc, tree, docLine, base, text, m, st), docLine)
    ensures StepMatch(doc, tree, docLine, base, text, m, st).seen == st.seen
  {
    hide Stopped, Scoped, Accounted, WellWritten, Resolve, NotACitation, IsSpanList, NameStart, IsPathChar, PathOf, SpansOf, ResolveTarget;
    var spans := text[m.colon + 1..m.end];
    if st.last.Some? {
      WrittenName(text, m.start, m);
      ResolveGood(doc, tree, lines, Token(docLine, st.seen, base + m.start, text[m.start..m.end], spans, false, st.last.value), st);
    } else {
      ProblemKeeps(doc, tree, lines, st, Problem(docLine, st.seen, |st.tokens|, OmitsName));
    }
  }

  lemma AskingKeeps(doc: string, tree: Tree, lines: seq<string>, st: State, asking: State)
    requires asking == st.(asked := asking.asked)
    requires Scoped(lines, st) && Accounted(doc, tree, st)
    ensures Scoped(lines, asking) && Accounted(doc, tree, asking)
  {
    hide Stopped, WellWritten;
  }

  lemma ProblemKeeps(doc: string, tree: Tree, lines: seq<string>, st: State, p: Problem)
    requires Scoped(lines, st) && Accounted(doc, tree, st)
    requires p.tokensBefore == |st.tokens| && p.at == st.seen && p.kind != IllegalRange
    requires p.kind == OmitsName ==> st.last == None
    ensures Scoped(lines, st.(problems := st.problems + [p]))
    ensures Accounted(doc, tree, st.(problems := st.problems + [p]))
  {
    hide Stopped, WellWritten;
  }

  lemma ResolveGood(doc: string, tree: Tree, lines: seq<string>, token: Token, st: State)
    requires Good(doc, tree, lines, st, token.docLine) && token.docLine >= 1 && token.at == st.seen
    requires IsSpanList(token.spans) && SpansOf(token.raw) == token.spans
    requires token.explicit ==> PathOf(token.raw) != "" && ('/' in PathOf(token.raw) ==>
               token.target == PathOf(token.raw) && token.target in tree.files)
    requires token.explicit || st.last == Some(token.target)
    ensures Good(doc, tree, lines, Resolve(doc, token, st), token.docLine)
    ensures Resolve(doc, token, st).seen == st.seen
  {
    hide Stopped, IsSpanList, Emitted, Illegal, Split;
    ResolveScoped(doc, lines, token, st);
    ResolveAccounted(doc, tree, token, st);
  }

  // ------------------------------------------------------------- the three loops

  lemma {:induction false} MatchesGood(doc: string, tree: Tree, lines: seq<string>, docLine: nat, base: nat, text: string,
                                       from: nat, st: State)
    requires from <= |text| && Good(doc, tree, lines, st, docLine) && docLine >= 1
    ensures Good(doc, tree, lines, FoldMatches(doc, tree, docLine, base, text, from, st), docLine)
    ensures FoldMatches(doc, tree, docLine, base, text, from, st).seen == st.seen
    decreases |text| - from
  {
    hide Good, StepMatch, NextMatch, IsSpanList;
    var next := NextMatch(text, from);
    if next.Some? {
      StepGood(doc, tree, lines, docLine, base, text, next.value, st);
      MatchesGood(doc, tree, lines, docLine, base, text, next.value.end, StepMatch(doc, tree, docLine, base, text, next.value, st));
    }
  }

  lemma AdvanceGood(doc: string, tree: Tree, lines: seq<string>, st: State, line: nat, at: nat)
    requires Good(doc, tree, lines, st, line) && st.seen <= at
    ensures Good(doc, tree, lines, Advance(lines, st, at), line) && Advance(lines, st, at).seen == at
  {
    hide Stopped, Scoped, WellWritten;
    AdvanceScoped(lines, st, at);
  }

  lemma SpanGood(doc: string, tree: Tree, lines: seq<string>, i: nat, span: Span, st: State)
    requires i < |lines| && span.start + 2 < span.end <= |lines[i]|
    requires Good(doc, tree, lines, st, i + 1) && st.seen <= LineBase(lines, i) + span.start
    ensures Good(doc, tree, lines, StepSpan(doc, tree, lines, i, span, st), i + 1)
    ensures StepSpan(doc, tree, lines, i, span, st).seen == LineBase(lines, i) + span.start
  {
    hide Stopped, FoldMatches, LineBase, Good, Advance;
    var at := LineBase(lines, i) + span.start;
    AdvanceGood(doc, tree, lines, st, i + 1, at);
    MatchesGood(doc, tree, lines, i + 1, span.start + 1, lines[i][span.start + 1..span.end - 1], 0, Advance(lines, st, at));
  }

  lemma {:induction false} SpansGood(doc: string, tree: Tree, lines: seq<string>, i: nat, from: nat, st: State)
    requires i < |lines| && Good(doc, tree, lines, st, i + 1)
    requires from <= |lines[i]| && st.seen <= LineBase(lines, i) + from
    ensures Good(doc, tree, lines, FoldSpans(doc, tree, lines, i, from, st), i + 1)
    ensures FoldSpans(doc, tree, lines, i, from, st).seen <= LineBase(lines, i) + |lines[i]|
    decreases |lines[i]| - from
  {
    hide Good, StepSpan, FoldSpans;
    FoldSpansUnfold(doc, tree, lines, i, from, st);
    var next := NextSpan(lines[i], from);
    if next.Some? {
      SpanGood(doc, tree, lines, i, next.value, st);
      SpansGood(doc, tree, lines, i, next.value.end, StepSpan(doc, tree, lines, i, next.value, st));
    }
  }

  lemma GoodLater(doc: string, tree: Tree, lines: seq<string>, st: State, i: nat)
    requires Good(doc, tree, lines, st, i)
    ensures Good(doc, tree, lines, st, i + 1)
  {
    hide Scoped, Accounted;
  }

  lemma {:induction false} LinesGood(doc: string, tree: Tree, lines: seq<string>, i: nat, st: State)
    requires i <= |lines| && Good(doc, tree, lines, st, i) && st.seen <= LineBase(lines, i)
    ensures Good(doc, tree, lines, FoldLines(doc, tree, lines, i, st), |lines|)
    decreases |lines| - i
  {
    hide Good, FoldSpans;
    if i < |lines| {
      GoodLater(doc, tree, lines, st, i);
      SpansGood(doc, tree, lines, i, 0, st);
      LinesGood(doc, tree, lines, i + 1, FoldSpans(doc, tree, lines, i, 0, st));
    }
  }

  lemma ParseGood(doc: string, tree: Tree, lines: seq<string>)
    ensures Good(doc, tree, lines, Parse(doc, tree, lines), |lines|)
  {
    LinesGood(doc, tree, lines, 0, START);
  }

  // --------------------------------------------------------------- main results

  lemma {:induction false} OriginOf(lines: seq<string>, tokens: seq<Token>, k: nat) returns (j: nat)
    requires Chained(lines, tokens) && k < |tokens|
    ensures j <= k && tokens[j].explicit && tokens[j].target == tokens[k].target && tokens[j].at <= tokens[k].at
    ensures !Stopped(lines, tokens[j].at, tokens[k].at)
  {
    hide Stopped;
    if tokens[k].explicit {
      NotStoppedHere(lines, tokens[k].at);
      return k;
    }
    assert k > 0 && Follows(lines, tokens[k - 1], tokens[k]);
    j := OriginOf(lines, tokens, k - 1);
    StoppedSplits(lines, tokens[j].at, tokens[k - 1].at, tokens[k].at);
  }

  /** A bare `:N` means the file of an earlier explicit, resolved citation, with no sentence
      end and no blank line between the starts of their code spans. */
  lemma InheritedFromItsSentence(doc: string, tree: Tree, lines: seq<string>, k: nat)
    requires k < |Parse(doc, tree, lines).tokens| && !Parse(doc, tree, lines).tokens[k].explicit
    ensures var tokens := Parse(doc, tree, lines).tokens;
            exists j :: 0 <= j < k && tokens[j].explicit && tokens[j].target == tokens[k].target &&
                        tokens[j].at <= tokens[k].at && !Stopped(lines, tokens[j].at, tokens[k].at)
  {
    hide Stopped, Parse, Accounted;
    ParseGood(doc, tree, lines);
    var j := OriginOf(lines, Parse(doc, tree, lines).tokens, k);
  }

  lemma StoppedFurther(lines: seq<string>, a: int, b: int, c: int)
    ensures a <= b && Stopped(lines, b, c) ==> Stopped(lines, a, c)
  {
    hide IsStop;
  }

  lemma {:induction false} TokensAscend(lines: seq<string>, tokens: seq<Token>, j: nat, n: nat)
    requires Chained(lines, tokens) && j < n <= |tokens|
    ensures tokens[j].at <= tokens[n - 1].at
    decreases n
  {
    hide Stopped;
    if j < n - 1 {
      assert Follows(lines, tokens[n - 2], tokens[n - 1]);
      TokensAscend(lines, tokens, j, n - 1);
    }
  }

  /** The parser refuses a `:N` as naming no file only when every token before it lies on the
      far side of a stop. */
  lemma RefusedOnlyOutsideSentence(doc: string, tree: Tree, lines: seq<string>, p: Problem, j: nat)
    requires p in Parse(doc, tree, lines).problems && p.kind == OmitsName && j < p.tokensBefore
    ensures p.tokensBefore <= |Parse(doc, tree, lines).tokens|
    ensures Stopped(lines, Parse(doc, tree, lines).tokens[j].at, p.at)
  {
    hide Stopped, Parse, Accounted;
    ParseGood(doc, tree, lines);
    assert Orphan(lines, Parse(doc, tree, lines).tokens, p);
    var tokens, n := Parse(doc, tree, lines).tokens, p.tokensBefore;
    TokensAscend(lines, tokens, j, n);
    StoppedFurther(lines, tokens[j].at, tokens[n - 1].at, p.at);
  }

  ghost predicate WrittenBy(c: Citation, doc: string, t: Token) {
    && c.doc == doc && c.docLine == t.docLine && c.raw == t.raw && c.target == t.target
    && 1 <= c.start <= c.end
    && exists chunk :: chunk in Split(t.spans, ',') && IsChunk(chunk) && ChunkRange(chunk) == (c.start, c.end)
  }

  lemma {:induction false} EmittedWritten(doc: string, t: Token, chunks: seq<string>)
    requires forall c <- chunks :: IsChunk(c) && c in Split(t.spans, ',')
    ensures forall c <- Emitted(doc, t, chunks) :: WrittenBy(c, doc, t)
  {
    hide Split, IsChunk, ChunkRange;
    if chunks != [] {
      assert chunks == [chunks[0]] + chunks[1..];
      EmittedWritten(doc, t, chunks[1..]);
    }
  }

  lemma {:induction false} AllWritten(doc: string, tokens: seq<Token>)
    requires forall t <- tokens :: IsSpanList(t.spans)
    ensures forall c <- AllCitations(doc, tokens) :: exists t :: t in tokens && WrittenBy(c, doc, t)
  {
    hide Split, IsChunk, ChunkRange, WrittenBy, Emitted;
    if tokens != [] {
      var init, t := tokens[..|tokens| - 1], tokens[|tokens| - 1];
      assert tokens == init + [t];
      AllWritten(doc, init);
      EmittedWritten(doc, t, Split(t.spans, ','));
    }
  }

  /** Every citation comes from a written token, means that token's file, carries the range of
      one of its spans, and that range is legal. */
  lemma CitationsAreWritten(doc: string, tree: Tree, lines: seq<string>, c: Citation)
    requires c in Parse(doc, tree, lines).citations
    ensures exists t :: t in Parse(doc, tree, lines).tokens && WrittenBy(c, doc, t) && WellWritten(tree, t)
  {
    hide Parse, Scoped, WellWritten, WrittenBy;
    ParseGood(doc, tree, lines);
    var tokens := Parse(doc, tree, lines).tokens;
    forall t <- tokens ensures IsSpanList(t.spans) {
      TokenSpans(tree, t);
    }
    AllWritten(doc, tokens);
    var t :| t in tokens && WrittenBy(c, doc, t);
  }

  // -------------------------------------------------- citations in whole tokens

  /** The citations of one written token, one per chunk of its comma list. */
  predicate IsGroup(g: seq<Citation>) {
    && g != []
    && var chunks := Split(SpansOf(g[0].raw), ',');
       && |g| == |chunks|
       && (forall j :: 0 <= j < |g| ==> IsChunk(chunks[j]))
       && (forall j :: 0 <= j < |g| ==>
             g[j] == g[0].(start := ChunkRange(chunks[j]).0, end := ChunkRange(chunks[j]).1))
  }

  function GroupLine(g: seq<Citation>): nat {
    if g == [] then 0 else g[0].docLine
  }

  function Flatten<T>(groups: seq<seq<T>>): seq<T> {
    if groups == [] then [] else groups[0] + Flatten(groups[1..])
  }

  lemma {:induction false} FlattenAppend<T>(a: seq<seq<T>>, b: seq<seq<T>>)
    ensures Flatten(a + b) == Flatten(a) + Flatten(b)
  {
    if a == [] {
      assert a + b == b;
    } else {
      assert (a + b)[1..] == a[1..] + b;
      FlattenAppend(a[1..], b);
    }
  }

  lemma {:induction false} EmittedAll(doc: string, t: Token, chunks: seq<string>)
    requires forall c <- chunks :: IsChunk(c) && LegalRange(ChunkRange(c))
    ensures |Emitted(doc, t, chunks)| == |chunks|
    ensures forall j :: 0 <= j < |chunks| ==>
              Emitted(doc, t, chunks)[j] ==
              Citation(doc, t.docLine, t.raw, t.target, ChunkRange(chunks[j]).0, ChunkRange(chunks[j]).1)
  {
    hide IsChunk, ChunkRange;
    if chunks != [] {
      assert chunks == [chunks[0]] + chunks[1..];
      EmittedAll(doc, t, chunks[1..]);
    }
  }

  lemma {:induction false} GroupsOf(doc: string, tree: Tree, tokens: seq<Token>) returns (groups: seq<seq<Citation>>)
    requires forall t <- tokens :: WellWritten(tree, t) && IsSpanList(t.spans)
    requires forall t <- tokens, c <- Split(t.spans, ',') :: IsChunk(c) && LegalRange(ChunkRange(c))
    ensures Flatten(groups) == AllCitations(doc, tokens) && |groups| == |tokens|
    ensures forall k :: 0 <= k < |groups| ==> IsGroup(groups[k])
    ensures forall k :: 0 <= k < |groups| ==> GroupLine(groups[k]) == tokens[k].docLine
    ensures forall k :: 0 <= k < |groups| ==> groups[k] == TokenCitations(doc, tokens[k])
  {
    hide Split, IsChunk, ChunkRange, LegalRange, TokenCitations, WellWritten, IsSpanList, IsGroup, GroupLine;
    if tokens == [] {
      groups := [];
    } else {
      var init, t := tokens[..|tokens| - 1], tokens[|tokens| - 1];
      assert tokens == init + [t];
      groups := GroupsOf(doc, tree, init);
      OneGroup(doc, tree, t);
      FlattenAppend(groups, [TokenCitations(doc, t)]);
      assert Flatten([TokenCitations(doc, t)]) == TokenCitations(doc, t);
      groups := groups + [TokenCitations(doc, t)];
    }
  }

  lemma OneGroup(doc: string, tree: Tree, t: Token)
    requires WellWritten(tree, t) && IsSpanList(t.spans) && forall c <- Split(t.spans, ',') :: IsChunk(c) && LegalRange(ChunkRange(c))
    ensures IsGroup(TokenCitations(doc, t)) && GroupLine(TokenCitations(doc, t)) == t.docLine
  {
    hide Split, IsChunk, ChunkRange, LegalRange, Emitted, SpansOf, PathOf;
    EmittedAll(doc, t, Split(t.spans, ','));
  }

  /** Citations as the rewriter needs them: whole written tokens, in document-line order. */
  ghost predicate InWholeTokens(citations: seq<Citation>, groups: seq<seq<Citation>>) {
    && citations == Flatten(groups)
    && (forall k :: 0 <= k < |groups| ==> IsGroup(groups[k]) && GroupLine(groups[k]) >= 1)
    && (forall k :: 0 < k < |groups| ==> GroupLine(groups[k - 1]) <= GroupLine(groups[k]))
  }

  /** The groups are the tokens' citations, one group a token. */
  ghost predicate GroupsAre(doc: string, tokens: seq<Token>, groups: seq<seq<Citation>>) {
    && |groups| == |tokens|
    && forall k :: 0 <= k < |tokens| ==>
         IsSpanList(tokens[k].spans) && groups[k] == TokenCitations(doc, tokens[k]) && GroupLine(groups[k]) == tokens[k].docLine
  }

  /** A parse with no problems is a sequence of whole tokens. */
  lemma ParsedInWholeTokens(doc: string, tree: Tree, lines: seq<string>) returns (groups: seq<seq<Citation>>)
    requires Parse(doc, tree, lines).problems == []
    ensures InWholeTokens(Parse(doc, tree, lines).citations, groups)
    ensures forall k :: 0 <= k < |groups| ==> GroupLine(groups[k]) <= |lines|
    ensures GroupsAre(doc, Parse(doc, tree, lines).tokens, groups)
  {
    hide Parse, Inherits, Orphan, WellWritten, Stopped, IsGroup, Split, ChunkRange, LegalRange;
    ParseGood(doc, tree, lines);
    var tokens := Parse(doc, tree, lines).tokens;
    forall t <- tokens ensures IsSpanList(t.spans) {
      TokenSpans(tree, t);
      ChunksOfSpanList(t.spans);
    }
    groups := GroupsOf(doc, tree, tokens);
    forall k | 0 < k < |groups| ensures GroupLine(groups[k - 1]) <= GroupLine(groups[k]) {
      assert Follows(lines, tokens[k - 1], tokens[k]);
    }
    forall k | 0 <= k < |groups| ensures 1 <= GroupLine(groups[k]) <= |lines| {
      assert tokens[k] in tokens;
    }
  }

  // ------------------------------------------------- one way to cut into tokens

  lemma GroupCount(g: seq<Citation>)
    requires IsGroup(g)
    ensures g != [] && |Split(SpansOf(g[0].raw), ',')| == |g|
  {
    hide IsChunk, ChunkRange, Split, SpansOf;
  }

  lemma {:induction false} GroupsAreUnique(a: seq<seq<Citation>>, b: seq<seq<Citation>>)
    requires Flatten(a) == Flatten(b)
    requires (forall k :: 0 <= k < |a| ==> IsGroup(a[k])) && forall k :: 0 <= k < |b| ==> IsGroup(b[k])
    ensures a == b
    decreases |a|
  {
    hide IsGroup;
    if a == [] {
      if b != [] {
        GroupCount(b[0]);
      }
    } else {
      GroupCount(a[0]);
      if b != [] {
        GroupCount(b[0]);
        FirstGroups(a[0], Flatten(a[1..]), b[0], Flatten(b[1..]));
        GroupsAreUnique(a[1..], b[1..]);
        assert a == [a[0]] + a[1..] && b == [b[0]] + b[1..];
      }
    }
  }

  lemma FirstGroups(a: seq<Citation>, c: seq<Citation>, b: seq<Citation>, d: seq<Citation>)
    requires a + c == b + d && a != [] && b != []
    requires |Split(SpansOf(a[0].raw), ',')| == |a| && |Split(SpansOf(b[0].raw), ',')| == |b|
    ensures a == b && c == d
  {
    hide Split, SpansOf;
    assert a[0] == (a + c)[0] == b[0];
    assert a == (a + c)[..|a|] && b == (b + d)[..|b|] && c == (a + c)[|a|..] && d == (b + d)[|b|..];
  }
}
