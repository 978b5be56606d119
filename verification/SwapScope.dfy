/** A document in which one span list stands in another's place: the parser reads the same
    citations in it, but for the list itself (scripts/check-citation-drift.py:512-599). */
module SwapScope {
  import opened Text
  import opened Citations
  import opened CitationParser
  import opened CitationScope
  import opened CitationPlaces
  import opened SpanSwap
  import opened SwapStops

  predicate LegalList(s: string) {
    IsSpanList(s) && forall c <- Split(s, ',') :: IsChunk(c) && LegalRange(ChunkRange(c))
  }

  predicate IsHit(x: Site, docLine: nat, key: int) {
    docLine == x.i + 1 && key == x.r.start
  }

  /** The column behind a colon: not inside the region. */
  predicate KeyFits(x: Site, docLine: nat, key: int) {
    docLine == x.i + 1 ==> key <= x.r.start || x.r.end < key
  }

  /** The token means the same file; its list is the same but where the region stands. */
  predicate TokenMoves(x: Site, was: string, t: Token, t': Token) {
    && t'.docLine == t.docLine && t'.explicit == t.explicit && t'.target == t.target && PathOf(t'.raw) == PathOf(t.raw)
    && KeyFits(x, t.docLine, Key(t)) && Key(t') == ColumnTo(x, t.docLine, Key(t))
    && if IsHit(x, t.docLine, Key(t)) then Respanned(was, x.r.text, t.spans, t'.spans) else t'.spans == t.spans
  }

  predicate TokensMove(x: Site, was: string, ts: seq<Token>, ts': seq<Token>) {
    |ts'| == |ts| && forall k :: 0 <= k < |ts| ==> TokenMoves(x, was, ts[k], ts'[k])
  }

  predicate StateMoves(x: Site, was: string, cut: int, st: State, st': State) {
    && st'.last == st.last && st'.seen == OffsetTo(x, cut, st.seen)
    && TokensMove(x, was, st.tokens, st'.tokens)
    && (st.problems == [] ==> st'.problems == [])
  }

  // ------------------------------------------------------- one reading at a time

  function ReadToken(docLine: nat, at: int, key: nat, rd: Reading, explicit: bool, target: string): Token
    requires key > |rd.path|
  {
    Token(docLine, at, key - |rd.path| - 1, rd.path + ":" + rd.spans, rd.spans, explicit, target)
  }

  /** What the parser does with a match, by what the match says and where its colon stands. */
  function StepReading(doc: string, tree: Tree, docLine: nat, key: nat, rd: Reading, st: State): State
    requires IsSpanList(rd.spans) && key > |rd.path|
  {
    if rd.named then
      var asking := st.(asked := st.asked + {rd.path});
      match ResolveTarget(rd.path, st.last, tree)
      case None => asking.(problems := st.problems + [Problem(docLine, st.seen, |st.tokens|, Unresolvable)])
      case Some(target) => Resolve(doc, ReadToken(docLine, st.seen, key, rd, true, target), asking)
    else if st.last.Some? then Resolve(doc, ReadToken(docLine, st.seen, key, rd, false, st.last.value), st)
    else if rd.skip then st
    else st.(problems := st.problems + [Problem(docLine, st.seen, |st.tokens|, OmitsName)])
  }

  lemma StepIsReading(doc: string, tree: Tree, docLine: nat, base: nat, text: string, m: Match, st: State)
    requires IsMatch(text, 0, m)
    ensures var rd, key := Read(text, m, tree), base + m.colon + 1;
      && IsSpanList(rd.spans) && key > |rd.path|
      && StepMatch(doc, tree, docLine, base, text, m, st) == StepReading(doc, tree, docLine, key, rd, st)
  {
    hide IsSpanList, NotACitation, NameStart, ResolveTarget, Resolve;
    var s := NameStart(text, m);
    Written(text, s, m);
    Written(text, m.start, m);
  }

  lemma Written(text: string, s: nat, m: Match)
    requires IsMatch(text, 0, m) && s <= m.colon
    ensures text[s..m.end] == text[s..m.colon] + ":" + text[m.colon + 1..m.end]
  {
    hide IsSpanList;
  }

  // ------------------------------------------------------------- legal stays legal

  lemma SplitHead(a: string, c: char, b: string)
    requires IndexOfChar(a, c) < |a|
    ensures var k := IndexOfChar(a, c);
            Split(a, c) == [a[..k]] + Split(a[k + 1..], c) && Split(a + [c] + b, c) == [a[..k]] + Split(a[k + 1..] + [c] + b, c)
  {
    hide Split;
    var k := IndexOfChar(a, c);
    var head, rest := a[..k], a[k + 1..];
    SplitFirst(head, c, rest);
    SplitFirst(head, c, rest + [c] + b);
    hide IndexOfChar, Lacks;
    Rejoined(a, k, c, b);
  }

  lemma Rejoined(a: string, k: nat, c: char, b: string)
    requires k < |a| && a[k] == c
    ensures a[..k] + [c] + a[k + 1..] == a && a[..k] + [c] + (a[k + 1..] + [c] + b) == a + [c] + b
  {
  }

  lemma {:induction false} SplitAppend(a: string, c: char, b: string)
    ensures Split(a + [c] + b, c) == Split(a, c) + Split(b, c)
    decreases |a|
  {
    hide Split;
    var k := IndexOfChar(a, c);
    if k == |a| {
      assert a[..k] == a;
      SplitFirst(a, c, b);
      SplitNone(a, c);
    } else {
      SplitHead(a, c, b);
      SplitAppend(a[k + 1..], c, b);
    }
  }

  lemma RespannedLegal(was: string, text: string, spans: string, spans': string)
    requires Respanned(was, text, spans, spans') && LegalList(text)
    ensures IsSpanList(spans') && (LegalList(spans) ==> LegalList(spans'))
  {
    hide Split, IsChunk, LegalRange, ChunkRange;
    var rest := spans[|was|..];
    assert spans == was + rest;
    if rest != "" {
      SplitAppend(text, ',', rest[1..]);
      SplitAppend(was, ',', rest[1..]);
      assert rest == [','] + rest[1..];
      assert text + [','] + rest[1..] == spans' && was + [','] + rest[1..] == spans;
      forall c ensures c in Split(spans', ',') ==> c in Split(text, ',') || c in Split(rest[1..], ',') {
      }
      forall c ensures c in Split(rest[1..], ',') ==> c in Split(spans, ',') {
      }
    } else {
      assert spans' == text;
    }
  }

  lemma LegalIff(p: Problem, spans: string)
    requires IsSpanList(spans)
    ensures forall c <- Split(spans, ',') :: IsChunk(c)
    ensures Illegal(p, Split(spans, ',')) == [] <==> LegalList(spans)
  {
    hide Split, IsChunk, LegalRange, ChunkRange;
    IllegalKind(p, Split(spans, ','));
  }

  lemma ResolveParts(doc: string, token: Token, st: State)
    requires IsSpanList(token.spans)
    ensures var after := Resolve(doc, token, st);
      && after.last == Some(token.target) && after.seen == st.seen && after.tokens == st.tokens + [token]
      && (after.problems == [] <==> st.problems == [] && LegalList(token.spans))
  {
    hide IsSpanList, Split, IsChunk, LegalList, Emitted, Illegal;
    LegalIff(Problem(token.docLine, token.at, |st.tokens| + 1, IllegalRange), token.spans);
  }

  lemma ResolveMoves(doc: string, x: Site, was: string, cut: int, t: Token, t': Token, st: State, st': State)
    requires StateMoves(x, was, cut, st, st') && TokenMoves(x, was, t, t') && LegalList(x.r.text)
    requires IsSpanList(t.spans)
    ensures IsSpanList(t'.spans) && StateMoves(x, was, cut, Resolve(doc, t, st), Resolve(doc, t', st'))
  {
    hide IsSpanList, LegalList, Respanned, Resolve;
    if IsHit(x, t.docLine, Key(t)) {
      RespannedLegal(was, x.r.text, t.spans, t'.spans);
    }
    ResolveParts(doc, t, st);
    ResolveParts(doc, t', st');
    hide TokenMoves;
  }

  /** The two readings of one match and the columns behind its colon. */
  predicate ReadingMoves(x: Site, was: string, docLine: nat, key: nat, rd: Reading, key': nat, rd': Reading) {
    && KeyFits(x, docLine, key) && key' == ColumnTo(x, docLine, key)
    && rd' == rd.(spans := rd'.spans)
    && if IsHit(x, docLine, key) then Respanned(was, x.r.text, rd.spans, rd'.spans) else rd'.spans == rd.spans
  }

  lemma TokenOfReading(x: Site, was: string, docLine: nat, key: nat, rd: Reading, key': nat, rd': Reading,
                       at: int, at': int, explicit: bool, target: string)
    requires ReadingMoves(x, was, docLine, key, rd, key', rd') && key > |rd.path| && key' > |rd.path|
    requires IsSpanList(rd.spans) && IsSpanList(rd'.spans)
    ensures TokenMoves(x, was, ReadToken(docLine, at, key, rd, explicit, target), ReadToken(docLine, at', key', rd', explicit, target))
  {
    hide IsSpanList, Respanned, PathOf, SpansOf;
    SpanListLacksColon(rd.spans);
    SpanListLacksColon(rd'.spans);
    SpansOfParts(rd.path, rd.spans);
    SpansOfParts(rd'.path, rd'.spans);
  }

  lemma StepMoves(doc: string, tree: Tree, x: Site, was: string, cut: int, docLine: nat,
                  key: nat, rd: Reading, key': nat, rd': Reading, st: State, st': State)
    requires StateMoves(x, was, cut, st, st') && LegalList(x.r.text)
    requires ReadingMoves(x, was, docLine, key, rd, key', rd') && key > |rd.path| && key' > |rd'.path|
    requires IsSpanList(rd.spans) && IsSpanList(rd'.spans)
    ensures StateMoves(x, was, cut, StepReading(doc, tree, docLine, key, rd, st), StepReading(doc, tree, docLine, key', rd', st'))
  {
    hide IsSpanList, LegalList, Respanned, Resolve, ResolveTarget, TokenMoves, TokensMove;
    if rd.named {
      var asking, asking' := st.(asked := st.asked + {rd.path}), st'.(asked := st'.asked + {rd.path});
      assert StateMoves(x, was, cut, asking, asking');
      var target := ResolveTarget(rd.path, st.last, tree);
      if target.Some? {
        TokenOfReading(x, was, docLine, key, rd, key', rd', st.seen, st'.seen, true, target.value);
        ResolveMoves(doc, x, was, cut, ReadToken(docLine, st.seen, key, rd, true, target.value),
                     ReadToken(docLine, st'.seen, key', rd', true, target.value), asking, asking');
      }
    } else if st.last.Some? {
      TokenOfReading(x, was, docLine, key, rd, key', rd', st.seen, st'.seen, false, st.last.value);
      ResolveMoves(doc, x, was, cut, ReadToken(docLine, st.seen, key, rd, false, st.last.value),
                   ReadToken(docLine, st'.seen, key', rd', false, st.last.value), st, st');
    }
  }

  // ------------------------------------------------------------- one code span

  lemma ReadingThere(tree: Tree, x: Site, base: nat, t: string, m: Match, n: Match)
    requires base <= x.r.start <= x.r.end && IsMatch(t, 0, m)
    requires var r := Within(x.r, base); Swappable(t, r) && Quiet(tree, t, r)
    requires var r := Within(x.r, base); IsMatch(Swapped(t, r), 0, n) && MovesTo(r, m, n)
    requires SpanListEnd(t, m.colon + 1) == Some(m.end)
    ensures var r := Within(x.r, base);
            ReadingMoves(x, t[r.start..r.end], x.i + 1, base + m.colon + 1, Read(t, m, tree),
                         base + n.colon + 1, Read(Swapped(t, r), n, tree))
  {
    hide IsSpanList, SpanListEnd, Respanned, Read, Swapped, Quiet, IsMatch;
    ReadMoves(t, Within(x.r, base), m, n, tree);
    hide Swappable;
  }

  /** The matches of the code span that holds the region. */
  lemma {:induction false} MatchesMove(doc: string, tree: Tree, x: Site, cut: int, base: nat, t: string, from: nat,
                                       was: string, st: State, st': State)
    requires base <= x.r.start <= x.r.end <= base + |t| && from <= |t| && Past(Within(x.r, base), from) && LegalList(x.r.text)
    requires var r := Within(x.r, base);
             Swappable(t, r) && Quiet(tree, t, r) && was == t[r.start..r.end] && 0 <= To(r, from) <= |Swapped(t, r)|
    requires StateMoves(x, was, cut, st, st')
    ensures var r := Within(x.r, base);
            StateMoves(x, was, cut, FoldMatches(doc, tree, x.i + 1, base, t, from, st),
                       FoldMatches(doc, tree, x.i + 1, base, Swapped(t, r), To(r, from), st'))
    decreases |t| - from
  {
    hide StateMoves, Swapped, Swappable, Quiet, IsSpanList, SpanListEnd, NextMatch, Read, StepReading, StepMatch, ReadingMoves, LegalList, IsMatch, To, Past;
    var r := Within(x.r, base);
    var u := Swapped(t, r);
    NextMatchMoves(t, r, from);
    var next := NextMatch(t, from);
    if next.Some? {
      var m, n := next.value, NextMatch(u, To(r, from)).value;
      NextMatchEnds(t, from);
      NextMatchEnds(u, To(r, from));
      MatchMoves(doc, tree, x, cut, base, t, m, n, was, st, st');
      EndsMove(r, m, n);
      MatchesMove(doc, tree, x, cut, base, t, m.end, was, StepMatch(doc, tree, x.i + 1, base, t, m, st),
                  StepMatch(doc, tree, x.i + 1, base, u, n, st'));
    }
  }

  lemma EndsMove(r: Region, m: Match, n: Match)
    requires MovesTo(r, m, n)
    ensures Past(r, m.end) && n.end == To(r, m.end)
  {
  }

  lemma MatchMoves(doc: string, tree: Tree, x: Site, cut: int, base: nat, t: string, m: Match, n: Match,
                   was: string, st: State, st': State)
    requires base <= x.r.start <= x.r.end <= base + |t| && IsMatch(t, 0, m) && LegalList(x.r.text)
    requires var r := Within(x.r, base); Swappable(t, r) && Quiet(tree, t, r) && was == t[r.start..r.end]
    requires var r := Within(x.r, base); IsMatch(Swapped(t, r), 0, n) && MovesTo(r, m, n)
    requires SpanListEnd(t, m.colon + 1) == Some(m.end) && StateMoves(x, was, cut, st, st')
    ensures StateMoves(x, was, cut, StepMatch(doc, tree, x.i + 1, base, t, m, st),
                       StepMatch(doc, tree, x.i + 1, base, Swapped(t, Within(x.r, base)), n, st'))
  {
    hide StateMoves, Swapped, Swappable, Quiet, IsSpanList, SpanListEnd, Read, StepReading, StepMatch, ReadingMoves, LegalList, IsMatch, MovesTo;
    ReadingThere(tree, x, base, t, m, n);
    var u := Swapped(t, Within(x.r, base));
    StepIsReading(doc, tree, x.i + 1, base, t, m, st);
    StepIsReading(doc, tree, x.i + 1, base, u, n, st');
    StepMoves(doc, tree, x, was, cut, x.i + 1, base + m.colon + 1, Read(t, m, tree), base + n.colon + 1, Read(u, n, tree), st, st');
  }

  /** The matches of any other code span: `text` starts at `base` and ends before `end`. */
  lemma {:induction false} MatchesStay(doc: string, tree: Tree, x: Site, cut: int, docLine: nat, base: nat, base': nat, t: string,
                                       from: nat, was: string, st: State, st': State)
    requires from <= |t| && LegalList(x.r.text) && x.r.start < x.r.end && base' == ColumnTo(x, docLine, base)
    requires docLine == x.i + 1 ==> base + |t| < x.r.start || x.r.end <= base
    requires StateMoves(x, was, cut, st, st')
    ensures StateMoves(x, was, cut, FoldMatches(doc, tree, docLine, base, t, from, st), FoldMatches(doc, tree, docLine, base', t, from, st'))
    decreases |t| - from
  {
    hide StateMoves, IsSpanList, SpanListEnd, NextMatch, Read, StepReading, StepMatch, LegalList, Respanned, IsMatch;
    var next := NextMatch(t, from);
    if next.Some? {
      var m := next.value;
      NextMatchEnds(t, from);
      MatchColon(t, m);
      var rd, key, key' := Read(t, m, tree), base + m.colon + 1, base' + m.colon + 1;
      StepIsReading(doc, tree, docLine, base, t, m, st);
      StepIsReading(doc, tree, docLine, base', t, m, st');
      StepMoves(doc, tree, x, was, cut, docLine, key, rd, key', rd, st, st');
      MatchesStay(doc, tree, x, cut, docLine, base, base', t, m.end, was, StepMatch(doc, tree, docLine, base, t, m, st),
                  StepMatch(doc, tree, docLine, base', t, m, st'));
    }
  }

  lemma MatchColon(t: string, m: Match)
    requires IsMatch(t, 0, m)
    ensures m.colon < m.end <= |t|
  {
    hide IsSpanList;
  }

  lemma StepKeepsSeen(doc: string, tree: Tree, docLine: nat, base: nat, text: string, m: Match, st: State)
    requires IsMatch(text, 0, m)
    ensures StepMatch(doc, tree, docLine, base, text, m, st).seen == st.seen
  {
    hide IsSpanList, NotACitation, NameStart, ResolveTarget;
  }

  lemma {:induction false} MatchesKeepSeen(doc: string, tree: Tree, docLine: nat, base: nat, text: string, from: nat, st: State)
    requires from <= |text|
    ensures FoldMatches(doc, tree, docLine, base, text, from, st).seen == st.seen
    decreases |text| - from
  {
    hide IsSpanList, NextMatch, StepMatch;
    var next := NextMatch(text, from);
    if next.Some? {
      StepKeepsSeen(doc, tree, docLine, base, text, next.value, st);
      MatchesKeepSeen(doc, tree, docLine, base, text, next.value.end, StepMatch(doc, tree, docLine, base, text, next.value, st));
    }
  }

  // ------------------------------------------------------------------ one line

  /** A site whose region can be swapped with no name in front of a colon changed. */
  predicate Fits(tree: Tree, lines: seq<string>, x: Site) {
    SwappableIn(lines, x) && Quiet(tree, lines[x.i], x.r) && LegalList(x.r.text)
  }

  function Was(lines: seq<string>, x: Site): string
    requires x.i < |lines| && x.r.start <= x.r.end <= |lines[x.i]|
  {
    lines[x.i][x.r.start..x.r.end]
  }

  /** The parser's states before and after the swap, at places outside the region. */
  predicate InStep(lines: seq<string>, x: Site, st: State, st': State)
    requires x.i < |lines| && x.r.start <= x.r.end <= |lines[x.i]|
  {
    StateMoves(x, Was(lines, x), Cut(lines, x), st, st') && Outside(lines, x, st.seen)
  }

  lemma OffsetOfColumn(lines: seq<string>, x: Site, k: nat, p: nat)
    requires SwappableIn(lines, x) && k < |lines| && p <= |lines[k]| && (k == x.i ==> Past(x.r, p))
    ensures OffsetTo(x, Cut(lines, x), LineBase(lines, k) + p) == LineBase(SwappedIn(lines, x), k) + ColumnTo(x, k + 1, p)
    ensures Outside(lines, x, LineBase(lines, k) + p)
  {
    hide IsSpanList, IsPathChar, LineBase, Swapped;
    LineBaseMoves(lines, x, k);
    if k < x.i {
      LineBaseGrows(lines, k, x.i);
    } else if k > x.i {
      LineBaseGrows(lines, x.i, k);
    }
  }

  lemma AdvanceMoves(lines: seq<string>, x: Site, st: State, st': State, at: nat, at': nat)
    requires SwappableIn(lines, x) && InStep(lines, x, st, st')
    requires Outside(lines, x, at) && at' == OffsetTo(x, Cut(lines, x), at)
    ensures InStep(lines, x, Advance(lines, st, at), Advance(SwappedIn(lines, x), st', at'))
  {
    hide Stopped, Swappable, TokensMove, Swapped;
    StoppedAlike(lines, x, st.seen, at);
  }

  predicate SameSpan(x: Site, k: nat, span: Span, span': Span) {
    if k == x.i then SpanMovesTo(x.r, span, span') else span' == span
  }

  lemma SpanMoves(doc: string, tree: Tree, lines: seq<string>, x: Site, k: nat, span: Span, span': Span, st: State, st': State)
    requires Fits(tree, lines, x) && k < |lines| && InStep(lines, x, st, st')
    requires span.start + 2 < span.end <= |lines[k]| && span'.start + 2 < span'.end <= |SwappedIn(lines, x)[k]|
    requires SameSpan(x, k, span, span')
    ensures InStep(lines, x, StepSpan(doc, tree, lines, k, span, st), StepSpan(doc, tree, SwappedIn(lines, x), k, span', st'))
  {
    hide Swapped, IsSpanList, IsPathChar, LegalList, Quiet, StateMoves, LineBase, FoldMatches, Advance, Outside, Cut;
    var lines' := SwappedIn(lines, x);
    var at, at' := LineBase(lines, k) + span.start, LineBase(lines', k) + span'.start;
    OffsetOfColumn(lines, x, k, span.start);
    AdvanceMoves(lines, x, st, st', at, at');
    var here, here' := Advance(lines, st, at), Advance(lines', st', at');
    InsideMoves(doc, tree, lines, x, k, span, span', here, here');
    MatchesKeepSeen(doc, tree, k + 1, span.start + 1, lines[k][span.start + 1..span.end - 1], 0, here);
  }

  lemma InsideMoves(doc: string, tree: Tree, lines: seq<string>, x: Site, k: nat, span: Span, span': Span, here: State, here': State)
    requires Fits(tree, lines, x) && k < |lines| && StateMoves(x, Was(lines, x), Cut(lines, x), here, here')
    requires span.start + 2 < span.end <= |lines[k]| && span'.start + 2 < span'.end <= |SwappedIn(lines, x)[k]|
    requires SameSpan(x, k, span, span')
    ensures StateMoves(x, Was(lines, x), Cut(lines, x),
                       FoldMatches(doc, tree, k + 1, span.start + 1, lines[k][span.start + 1..span.end - 1], 0, here),
                       FoldMatches(doc, tree, k + 1, span'.start + 1, SwappedIn(lines, x)[k][span'.start + 1..span'.end - 1], 0, here'))
  {
    hide Swapped, LegalList, Quiet, StateMoves, LineBase, FoldMatches, Cut, IsSpanList, IsPathChar;
    var a, b := span.start + 1, span.end - 1;
    var line, t := lines[k], lines[k][a..b];
    if k == x.i && a < x.r.start && x.r.end <= b {
      WindowSwappable(tree, line, x.r, a, b);
      WindowSwapped(line, x.r, a, b);
      MatchesMove(doc, tree, x, Cut(lines, x), a, t, 0, Was(lines, x), here, here');
    } else {
      if k == x.i {
        SliceMoves(line, x.r, a, b);
      }
      MatchesStay(doc, tree, x, Cut(lines, x), k + 1, a, span'.start + 1, t, 0, Was(lines, x), here, here');
    }
  }

  lemma {:induction false} SpansMove(doc: string, tree: Tree, lines: seq<string>, x: Site, k: nat, from: nat, st: State, st': State)
    requires Fits(tree, lines, x) && k < |lines| && InStep(lines, x, st, st')
    requires from <= |lines[k]| && (k == x.i ==> Past(x.r, from))
    ensures 0 <= ColumnTo(x, k + 1, from)
    ensures InStep(lines, x, FoldSpans(doc, tree, lines, k, from, st),
                   FoldSpans(doc, tree, SwappedIn(lines, x), k, ColumnTo(x, k + 1, from), st'))
    decreases |lines[k]| - from
  {
    hide Swapped, IsSpanList, IsPathChar, LegalList, Quiet, InStep, FoldSpans, StepSpan, NextSpan;
    var lines' := SwappedIn(lines, x);
    if k == x.i {
      NextSpanMoves(lines[k], x.r, from);
    }
    var from' := ColumnTo(x, k + 1, from);
    FoldSpansUnfold(doc, tree, lines, k, from, st);
    FoldSpansUnfold(doc, tree, lines', k, from', st');
    var next, next' := NextSpan(lines[k], from), NextSpan(lines'[k], from');
    if next.Some? {
      SpanMoves(doc, tree, lines, x, k, next.value, next'.value, st, st');
      SpansMove(doc, tree, lines, x, k, next.value.end, StepSpan(doc, tree, lines, k, next.value, st),
                StepSpan(doc, tree, lines', k, next'.value, st'));
    }
  }

  lemma {:induction false} LinesMove(doc: string, tree: Tree, lines: seq<string>, x: Site, k: nat, st: State, st': State)
    requires Fits(tree, lines, x) && k <= |lines| && InStep(lines, x, st, st')
    ensures InStep(lines, x, FoldLines(doc, tree, lines, k, st), FoldLines(doc, tree, SwappedIn(lines, x), k, st'))
    decreases |lines| - k
  {
    hide LegalList, Quiet, InStep, FoldSpans, Swapped, IsSpanList, IsPathChar;
    if k < |lines| {
      SpansMove(doc, tree, lines, x, k, 0, st, st');
      LinesMove(doc, tree, lines, x, k + 1, FoldSpans(doc, tree, lines, k, 0, st), FoldSpans(doc, tree, SwappedIn(lines, x), k, 0, st'));
    }
  }

  /** With one span list in another's place, a document reads the same token by token: the same
      files, the same paths, and the same lists but for the one that starts with the region. */
  lemma SwapReadsTheSame(doc: string, tree: Tree, lines: seq<string>, x: Site)
    requires Fits(tree, lines, x)
    ensures var was, now := Parse(doc, tree, lines), Parse(doc, tree, SwappedIn(lines, x));
            TokensMove(x, Was(lines, x), was.tokens, now.tokens) && (was.problems == [] ==> now.problems == [])
  {
    hide LegalList, Quiet, FoldLines, IsSpanList, IsPathChar, Swapped;
    LinesMove(doc, tree, lines, x, 0, START, START);
  }
}
