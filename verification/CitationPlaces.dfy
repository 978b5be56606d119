/** Where the parser's tokens stand in the document: each is its line's text at its column, in
    order, and a token that writes a path names that path unless it is a URL's tail
    (scripts/check-citation-drift.py:388-400, 526-599). */
module CitationPlaces {
  import opened Text
  import opened Citations
  import opened CitationParser
  import opened CitationScope

  /** The column just behind a token's colon. */
  function Key(t: Token): int {
    t.col + |t.raw| - |t.spans|
  }

  /** The token is its line's text at its column: a path, maybe empty, a colon, the span list.
      A written path with a slash names its file unless a URL's colon stands before it. */
  ghost predicate InPlace(lines: seq<string>, t: Token) {
    && 1 <= t.docLine <= |lines|
    && t.raw == PathOf(t.raw) + ":" + t.spans
    && OccursAt(lines[t.docLine - 1], t.raw, t.col)
    && ('/' in PathOf(t.raw) ==> (t.explicit <==> !IsUrlTail(lines[t.docLine - 1][..t.col], PathOf(t.raw))))
  }

  ghost predicate KeysGrow(tokens: seq<Token>) {
    forall j, k :: 0 <= j < k < |tokens| ==>
      tokens[j].docLine < tokens[k].docLine || (tokens[j].docLine == tokens[k].docLine && Key(tokens[j]) < Key(tokens[k]))
  }

  /** Every token stands before column `col` of line `line`. */
  ghost predicate Before(tokens: seq<Token>, line: nat, col: int) {
    forall t <- tokens :: t.docLine < line || (t.docLine == line && Key(t) <= col)
  }

  ghost predicate WellPlaced(lines: seq<string>, st: State, line: nat, col: int) {
    (forall t <- st.tokens :: InPlace(lines, t)) && KeysGrow(st.tokens) && Before(st.tokens, line, col)
  }

  /** The text of a code span and where it starts: behind a backtick. */
  predicate Inside(line: string, base: nat, text: string) {
    1 <= base && OccursAt(line, text, base) && line[base - 1] == '`'
  }

  lemma TokenAdded(lines: seq<string>, st: State, t: Token, col: nat, end: nat)
    requires WellPlaced(lines, st, t.docLine, col) && InPlace(lines, t) && col < Key(t) <= end
    ensures WellPlaced(lines, st.(tokens := st.tokens + [t]), t.docLine, end)
  {
    hide InPlace;
    var all := st.tokens + [t];
    forall j | 0 <= j < |st.tokens| ensures st.tokens[j].docLine < t.docLine || (st.tokens[j].docLine == t.docLine && Key(st.tokens[j]) < Key(t)) {
      assert st.tokens[j] in st.tokens;
    }
  }

  lemma LaterStill(lines: seq<string>, st: State, line: nat, col: int, line': nat, col': int)
    requires WellPlaced(lines, st, line, col) && (line < line' || (line == line' && col <= col'))
    ensures WellPlaced(lines, st, line', col')
  {
    hide InPlace;
  }

  /** What the match writes from `s` on, as it stands in the line. */
  lemma WrittenInPlace(line: string, base: nat, text: string, s: nat, m: Match)
    requires Inside(line, base, text) && IsMatch(text, 0, m) && s <= m.colon
    ensures var raw, spans := text[s..m.end], text[m.colon + 1..m.end];
      && OccursAt(line, raw, base + s) && raw == PathOf(raw) + ":" + spans && PathOf(raw) == text[s..m.colon]
      && base + s + |raw| - |spans| == base + m.colon + 1
    ensures text[s..m.colon] != "" ==> (IsUrlTail(line[..base + s], text[s..m.colon]) <==> IsUrlTail(text[..s], text[s..m.colon]))
  {
    hide IsSpanList;
    WrittenName(text, s, m);
    var raw := text[s..m.end];
    var end := base + |text|;
    assert text == line[base..end];
    assert text[s..s + |raw|] == raw;
    OccursInPart(line, raw, base, end, base + s);
    assert raw == text[s..m.colon] + ":" + text[m.colon + 1..m.end];
    if s > 0 {
      assert line[..base + s][base + s - 1] == text[s - 1] == text[..s][s - 1];
    } else {
      assert line[..base + s][base - 1] == '`';
    }
  }

  /** A match adds one token or none. */
  lemma StepAdds(doc: string, tree: Tree, docLine: nat, base: nat, text: string, m: Match, st: State)
    requires IsMatch(text, 0, m)
    ensures var after := StepMatch(doc, tree, docLine, base, text, m, st).tokens;
            after == st.tokens || (|after| == |st.tokens| + 1 && after == st.tokens + [after[|st.tokens|]])
  {
    hide IsSpanList, NameStart, NotACitation, ResolveTarget, Emitted, Illegal, Split;
  }

  lemma StepPlaced(doc: string, tree: Tree, lines: seq<string>, docLine: nat, base: nat, text: string, from: nat, m: Match, st: State)
    requires 1 <= docLine <= |lines| && Inside(lines[docLine - 1], base, text)
    requires IsMatch(text, from, m) && IsMatch(text, 0, m) && WellPlaced(lines, st, docLine, base + from)
    ensures WellPlaced(lines, StepMatch(doc, tree, docLine, base, text, m, st), docLine, base + m.end)
  {
    hide WellPlaced, IsSpanList, InPlace, Inside, OccursAt, StepMatch;
    StepAdds(doc, tree, docLine, base, text, m, st);
    var st' := StepMatch(doc, tree, docLine, base, text, m, st);
    if |st'.tokens| == |st.tokens| {
      assert st'.tokens == st.tokens;
      LaterStill(lines, st, docLine, base + from, docLine, base + m.end);
      SameTokens(lines, st, st', docLine, base + m.end);
    } else {
      var t := st'.tokens[|st.tokens|];
      assert st'.tokens == st.tokens + [t];
      NewInPlace(doc, tree, lines, docLine, base, text, m, st, t);
      TokenAdded(lines, st, t, base + from, base + m.end);
      SameTokens(lines, st.(tokens := st.tokens + [t]), st', docLine, base + m.end);
    }
  }

  lemma SameTokens(lines: seq<string>, a: State, b: State, line: nat, col: int)
    requires WellPlaced(lines, a, line, col) && a.tokens == b.tokens
    ensures WellPlaced(lines, b, line, col)
  {
  }

  lemma NewInPlace(doc: string, tree: Tree, lines: seq<string>, docLine: nat, base: nat, text: string, m: Match, st: State, t: Token)
    requires 1 <= docLine <= |lines| && Inside(lines[docLine - 1], base, text) && IsMatch(text, 0, m)
    requires StepMatch(doc, tree, docLine, base, text, m, st).tokens == st.tokens + [t]
    ensures InPlace(lines, t) && t.docLine == docLine && Key(t) == base + m.colon + 1
  {
    hide IsSpanList, IsUrlTail, IsPathShaped, ResolveTarget, Emitted, Illegal, InPlace, Inside, Split;
    var s, spans := NameStart(text, m), text[m.colon + 1..m.end];
    assert (st.tokens + [t])[|st.tokens|] == t;
    if s < m.colon && !NotACitation(text, m, tree) {
      assert t == Token(docLine, st.seen, base + s, text[s..m.end], spans, true, t.target);
      NamedInPlace(lines, tree, docLine, base, text, m, t);
    } else {
      assert t == Token(docLine, st.seen, base + m.start, text[m.start..m.end], spans, false, t.target);
      InheritedInPlace(lines, tree, docLine, base, text, m, t);
    }
  }

  lemma NamedInPlace(lines: seq<string>, tree: Tree, docLine: nat, base: nat, text: string, m: Match, t: Token)
    requires 1 <= docLine <= |lines| && Inside(lines[docLine - 1], base, text) && IsMatch(text, 0, m)
    requires var s := NameStart(text, m);
      s < m.colon && !NotACitation(text, m, tree) &&
      t == Token(docLine, t.at, base + s, text[s..m.end], text[m.colon + 1..m.end], true, t.target)
    ensures InPlace(lines, t) && Key(t) == base + m.colon + 1
  {
    hide IsSpanList, IsUrlTail, IsPathShaped, Inside, OccursAt, PathOf, NameStart;
    WrittenInPlace(lines[docLine - 1], base, text, NameStart(text, m), m);
  }

  lemma InheritedInPlace(lines: seq<string>, tree: Tree, docLine: nat, base: nat, text: string, m: Match, t: Token)
    requires 1 <= docLine <= |lines| && Inside(lines[docLine - 1], base, text) && IsMatch(text, 0, m)
    requires !(NameStart(text, m) < m.colon && !NotACitation(text, m, tree))
    requires t == Token(docLine, t.at, base + m.start, text[m.start..m.end], text[m.colon + 1..m.end], false, t.target)
    ensures InPlace(lines, t) && Key(t) == base + m.colon + 1
  {
    hide IsSpanList, IsUrlTail, Inside, OccursAt, PathOf, RunStart, ExtensionOf;
    WrittenInPlace(lines[docLine - 1], base, text, m.start, m);
    if '/' in text[m.start..m.colon] {
      assert NameStart(text, m) == m.start;
      assert IsPathShaped(text[m.start..m.colon], tree);
    }
  }

  // ------------------------------------------------------------- the three loops

  lemma {:induction false} MatchesPlaced(doc: string, tree: Tree, lines: seq<string>, docLine: nat, base: nat, text: string,
                                         from: nat, st: State)
    requires 1 <= docLine <= |lines| && Inside(lines[docLine - 1], base, text)
    requires from <= |text| && WellPlaced(lines, st, docLine, base + from)
    ensures WellPlaced(lines, FoldMatches(doc, tree, docLine, base, text, from, st), docLine, base + |text|)
    decreases |text| - from
  {
    hide WellPlaced, StepMatch, NextMatch, IsSpanList, Inside;
    var next := NextMatch(text, from);
    if next.Some? {
      StepPlaced(doc, tree, lines, docLine, base, text, from, next.value, st);
      MatchesPlaced(doc, tree, lines, docLine, base, text, next.value.end,
                    StepMatch(doc, tree, docLine, base, text, next.value, st));
    } else {
      LaterStill(lines, st, docLine, base + from, docLine, base + |text|);
    }
  }

  lemma SpanInside(line: string, from: nat)
    ensures var s := NextSpan(line, from);
      s.Some? ==> Inside(line, s.value.start + 1, line[s.value.start + 1..s.value.end - 1])
  {
    hide OccursAt, NextSpan;
    var s := NextSpan(line, from);
    if s.Some? {
      SliceOccurs(line, s.value.start + 1, s.value.end - 1);
    }
  }

  lemma SliceOccurs(line: string, a: nat, b: nat)
    requires a <= b <= |line|
    ensures OccursAt(line, line[a..b], a)
  {
  }

  lemma {:induction false} SpansPlaced(doc: string, tree: Tree, lines: seq<string>, i: nat, from: nat, st: State)
    requires i < |lines| && from <= |lines[i]| && WellPlaced(lines, st, i + 1, from)
    ensures WellPlaced(lines, FoldSpans(doc, tree, lines, i, from, st), i + 1, |lines[i]|)
    decreases |lines[i]| - from
  {
    hide WellPlaced, FoldMatches, FoldSpans, Inside;
    FoldSpansUnfold(doc, tree, lines, i, from, st);
    SpanInside(lines[i], from);
    var next := NextSpan(lines[i], from);
    if next.Some? {
      var span := next.value;
      var inside := lines[i][span.start + 1..span.end - 1];
      var here := Advance(lines, st, LineBase(lines, i) + span.start);
      SameTokens(lines, st, here, i + 1, from);
      LaterStill(lines, here, i + 1, from, i + 1, span.start + 1);
      MatchesPlaced(doc, tree, lines, i + 1, span.start + 1, inside, 0, here);
      var after := StepSpan(doc, tree, lines, i, span, st);
      LaterStill(lines, after, i + 1, span.end - 1, i + 1, span.end);
      SpansPlaced(doc, tree, lines, i, span.end, after);
    } else {
      LaterStill(lines, st, i + 1, from, i + 1, |lines[i]|);
    }
  }

  lemma {:induction false} LinesPlaced(doc: string, tree: Tree, lines: seq<string>, i: nat, st: State)
    requires i <= |lines| && WellPlaced(lines, st, i + 1, 0)
    ensures WellPlaced(lines, FoldLines(doc, tree, lines, i, st), |lines| + 1, 0)
    decreases |lines| - i
  {
    hide WellPlaced, FoldSpans;
    if i < |lines| {
      SpansPlaced(doc, tree, lines, i, 0, st);
      LaterStill(lines, FoldSpans(doc, tree, lines, i, 0, st), i + 1, |lines[i]|, i + 2, 0);
      LinesPlaced(doc, tree, lines, i + 1, FoldSpans(doc, tree, lines, i, 0, st));
    }
  }

  /** Every token of a parse stands where it says, in order. */
  lemma ParsePlaced(doc: string, tree: Tree, lines: seq<string>)
    ensures forall t <- Parse(doc, tree, lines).tokens :: InPlace(lines, t)
    ensures KeysGrow(Parse(doc, tree, lines).tokens)
  {
    hide InPlace;
    LinesPlaced(doc, tree, lines, 0, START);
  }

  /** A token that writes a path with a slash names that very file exactly when it is no URL's
      tail; a URL's tail inherits the file of its sentence instead. */
  lemma PathNamesFileIff(doc: string, tree: Tree, lines: seq<string>, t: Token)
    requires t in Parse(doc, tree, lines).tokens && '/' in PathOf(t.raw)
    ensures 1 <= t.docLine <= |lines| && t.col <= |lines[t.docLine - 1]|
    ensures t.explicit <==> !IsUrlTail(lines[t.docLine - 1][..t.col], PathOf(t.raw))
    ensures t.explicit ==> t.target == PathOf(t.raw) && t.target in tree.files
  {
    hide Parse, IsSpanList;
    ParsePlaced(doc, tree, lines);
    ParseGood(doc, tree, lines);
    assert InPlace(lines, t) && WellWritten(tree, t);
  }
}
