/** What a document's plan guarantees: one decision per citation, in order; comma lists move
    whole or not at all; a rewritten token says what was decided; and the edits are edits of
    whole lines. */
module WholeTokens {
  import opened Text
  import opened LineBreaks
  import opened LineIndex
  import opened Citations
  import opened CitationScope
  import opened Relocate
  import opened Decide
  import opened Agreement
  import opened TokenRewrite
  import opened Plan

  // ----------------------------------------------------------------- alignment

  lemma DecidedAbout(parents: seq<Parent>, cur: SourceIndex, links: set<string>, line: string, cit: Citation)
    requires 1 <= cit.start <= cit.end && cur.sep != ""
    ensures var d := Decided(parents, cur, links, line, cit);
            && d.cited == (cit.start, cit.end)
            && (d.status == Right ==> d.placed == Some((cit.start, cit.end)))
  {
    hide VoteOf, Deciding, SymlinkRefused, IdentityRefused, ContinuationRefused, AlreadyRight;
  }

  lemma SettledAbout(ctx: Context, g: Group)
    requires AllInContext(ctx, g)
    ensures var fs := TokenDecisions(ctx, g);
            |fs| == |g| && forall j :: 0 <= j < |g| ==> fs[j].cited == (g[j].start, g[j].end)
  {
    hide Decided;
    forall j | 0 <= j < |g| ensures DecisionOf(ctx, g[j]).cited == (g[j].start, g[j].end) {
      DecidedAbout(ctx.parents, ctx.index[g[j].target], ctx.links, ctx.lines[g[j].docLine - 1], g[j]);
    }
  }

  /** The decisions line up one to one with the citations they are zipped with. */
  lemma {:induction false} DecisionsAligned(ctx: Context, gs: seq<Group>)
    requires Groups(ctx, gs)
    ensures |Flatten(SettledAll(ctx, gs))| == |Flatten(gs)|
    ensures forall k :: 0 <= k < |Flatten(gs)| ==>
              Flatten(SettledAll(ctx, gs))[k].cited == (Flatten(gs)[k].start, Flatten(gs)[k].end)
  {
    hide IsGroup, InContext, TokenDecisions;
    if gs != [] {
      SettledAbout(ctx, gs[0]);
      DecisionsAligned(ctx, gs[1..]);
    }
  }

  lemma SettledDecided(ctx: Context, g: Group)
    requires AllInContext(ctx, g)
    ensures |TokenDecisions(ctx, g)| == |g|
    ensures forall j :: 0 <= j < |g| && TokenDecisions(ctx, g)[j].status == Shifted ==>
              TokenDecisions(ctx, g)[j] == DecisionOf(ctx, g[j])
  {
    hide Decided;
  }

  /** A shift that survives the plan is the sides' own decision about that citation. */
  lemma {:induction false} ShiftsAreDecided(ctx: Context, gs: seq<Group>, k: nat)
    requires Groups(ctx, gs) && AllInContext(ctx, Flatten(gs)) && k < |Flatten(gs)| == |Flatten(SettledAll(ctx, gs))|
    requires Flatten(SettledAll(ctx, gs))[k].status == Shifted
    ensures Flatten(SettledAll(ctx, gs))[k] == DecisionOf(ctx, Flatten(gs)[k])
  {
    hide IsGroup, InContext, TokenDecisions, DecisionOf;
    if gs != [] {
      SettledDecided(ctx, gs[0]);
      DecisionsAligned(ctx, gs[1..]);
      var rest := Flatten(gs[1..]);
      assert forall j :: 0 <= j < |rest| ==> rest[j] == Flatten(gs)[|gs[0]| + j];
      if k >= |gs[0]| {
        ShiftsAreDecided(ctx, gs[1..], k - |gs[0]|);
      }
    }
  }

  // -------------------------------------------------------- whole or not at all

  /** After the plan a token's spans include a shift exactly when the token is rewritten, and
      then every span of it is right or shifted. */
  lemma WholeOrNotAtAll(g: Group, ds: seq<Decision>)
    requires g != [] && |ds| == |g| == |WrittenSpans(g)|
    ensures |ReplacementOf(g, ds)| <= 1
    ensures ReplacementOf(g, ds) != [] <==> Moved(Settled(ds))
    ensures ReplacementOf(g, ds) != [] ==>
              Settled(ds) == ds && forall d <- Settled(ds) :: d.status == Right || d.status == Shifted
    ensures forall j :: 0 <= j < |ds| ==> ds[j].status != Shifted ==> Settled(ds)[j] == ds[j]
  {
    hide NewSpans, Join;
    if Moved(ds) && Stuck(ds) {
      var fs := Settled(ds);
      forall d <- fs ensures d.status != Shifted {
        var j :| 0 <= j < |fs| && fs[j] == d;
        assert fs[j] == Demoted(ds[j]);
      }
    }
  }

  /** The spans of a rewritten token read back as the ranges that were decided, and its file
      name is untouched. */
  lemma RewrittenTokenSays(ctx: Context, g: Group)
    requires AllInContext(ctx, g) && IsGroup(g)
    requires TokenReplacement(ctx, g) != []
    ensures var fs, text := TokenDecisions(ctx, g), TokenReplacement(ctx, g)[0].text;
            var spans := Split(SpansOf(text), ',');
            && g != [] && |fs| == |g| && PathOf(text) == PathOf(g[0].raw) && |spans| == |g|
            && forall j :: 0 <= j < |g| ==>
                 IsChunk(spans[j]) && fs[j].placed == Some(ChunkRange(spans[j]))
  {
    GroupShape(ctx, g);
    var ds := Decisions(ctx, g);
    WholeOrNotAtAll(g, ds);
    var spans := NewSpans(g, ds);
    forall j | 0 <= j < |g|
      ensures IsChunk(spans[j]) && Lacks(spans[j], ',') && Lacks(spans[j], ':')
      ensures ds[j].placed == Some(ChunkRange(spans[j]))
    {
      NewSpanSays(ctx, g, j);
    }
    hide Decisions, IsChunk, ChunkRange, NewSpans, IsGroup, WrittenSpans;
    SplitOfJoin(spans, ',');
    SpanListLacksColon(Join(spans, ","));
    SpansOfParts(PathOf(g[0].raw), Join(spans, ","));
  }

  lemma NewSpanSays(ctx: Context, g: Group, j: nat)
    requires AllInContext(ctx, g) && IsGroup(g) && j < |g|
    requires Decisions(ctx, g)[j].status == Right || Decisions(ctx, g)[j].status == Shifted
    ensures var span := NewSpan(Decisions(ctx, g)[j], WrittenSpans(g)[j]);
            && IsChunk(span) && Lacks(span, ',') && Lacks(span, ':')
            && Decisions(ctx, g)[j].placed == Some(ChunkRange(span))
  {
    hide Decided;
    var d, c := DecisionOf(ctx, g[j]), g[j];
    UnanimousOrRefused(ctx.parents, ctx.index[c.target], ctx.links, ctx.lines[c.docLine - 1], c);
    DecidedAbout(ctx.parents, ctx.index[c.target], ctx.links, ctx.lines[c.docLine - 1], c);
    hide IsChunk, ChunkRange, SpanText, Split, SpansOf;
    if d.status == Shifted {
      SpanTextReadsBack(d.placed.value.0, d.placed.value.1);
    } else {
      assert WrittenSpans(g)[j] in WrittenSpans(g);
      ChunkLacksColon(WrittenSpans(g)[j]);
    }
  }

  // ------------------------------------------------------------ edits of lines

  lemma BreakFreeSlice(t: string, i: nat, j: nat)
    requires BreakFree(t) && i <= j <= |t|
    ensures BreakFree(t[i..j])
  {
    forall k | 0 <= k < j - i ensures !IsBreak(t[i..j][k]) {
      assert t[i..j][k] == t[i + k];
    }
  }

  lemma BreakFreeConcat(a: string, b: string)
    requires BreakFree(a) && BreakFree(b)
    ensures BreakFree(a + b)
  {
  }

  predicate OneLine(t: string) {
    t != "" && BreakFree(t)
  }

  lemma WholeFits(line: string, token: string, at: int)
    requires WholeAt(line, token, at)
    ensures at + |token| <= |line|
  {
  }

  lemma {:induction false} SplicedOneLine(line: string, reps: seq<Replacement>, pos: nat, at: seq<nat>)
    requires pos <= |line| && Placement(line, reps, pos, at) && BreakFree(line)
    requires forall r <- reps :: OneLine(r.text)
    ensures BreakFree(Spliced(line, reps, pos, at)) && (reps != [] ==> Spliced(line, reps, pos, at) != "")
    decreases |reps|
  {
    hide IsBreak, WholeAt, BreakFree, IsPathChar;
    if reps == [] {
      BreakFreeSlice(line, pos, |line|);
      assert line[pos..] == line[pos..|line|];
    } else {
      var next := at[0] + |reps[0].token|;
      assert reps[0] in reps;
      WholeFits(line, reps[0].token, at[0]);
      SplicedOneLine(line, reps[1..], next, at[1..]);
      BreakFreeSlice(line, pos, at[0]);
      BreakFreeConcat(line[pos..at[0]], reps[0].text);
      BreakFreeConcat(line[pos..at[0]] + reps[0].text, Spliced(line, reps[1..], next, at[1..]));
    }
  }

  lemma {:induction false} TokensInLine(line: string, reps: seq<Replacement>, pos: nat, at: seq<nat>)
    requires Placement(line, reps, pos, at) && BreakFree(line)
    ensures forall r <- reps :: BreakFree(r.token)
    decreases |reps|
  {
    hide IsBreak, IsPathChar, BreakFree;
    if reps != [] {
      var next := at[0] + |reps[0].token|;
      BreakFreeSlice(line, at[0], next);
      TokensInLine(line, reps[1..], next, at[1..]);
      assert reps == [reps[0]] + reps[1..];
    }
  }

  lemma {:induction false} JoinBreakFree(parts: seq<string>)
    requires forall p <- parts :: BreakFree(p)
    ensures BreakFree(Join(parts, ","))
  {
    hide IsBreak, BreakFree;
    NoBreakIn();
    if |parts| > 1 {
      JoinBreakFree(parts[1..]);
      BreakFreeConcat(parts[0], ",");
      BreakFreeConcat(parts[0] + ",", Join(parts[1..], ","));
    } else if |parts| == 1 {
      assert parts[0] in parts;
    }
  }

  lemma NoBreakIn()
    ensures BreakFree("") && BreakFree(",") && BreakFree(":")
  {
  }

  lemma ChunkBreakFree(s: string)
    requires IsChunk(s)
    ensures BreakFree(s)
  {
    var k := IndexOfChar(s, '-');
    forall i | 0 <= i < |s| ensures !IsBreak(s[i]) {
      if k < |s| {
        assert i < k ==> s[i] == s[..k][i];
        assert i > k ==> s[i] == s[k + 1..][i - k - 1];
      }
    }
  }

  lemma NewTextOneLine(ctx: Context, g: Group)
    requires AllInContext(ctx, g) && IsGroup(g)
    requires TokenReplacement(ctx, g) != [] && g != [] && BreakFree(g[0].raw)
    ensures OneLine(TokenReplacement(ctx, g)[0].text)
  {
    GroupShape(ctx, g);
    var ds := Decisions(ctx, g);
    WholeOrNotAtAll(g, ds);
    var spans := NewSpans(g, ds);
    forall s <- spans ensures BreakFree(s) {
      var j :| 0 <= j < |spans| && spans[j] == s;
      NewSpanSays(ctx, g, j);
      ChunkBreakFree(s);
    }
    hide IsBreak, BreakFree, NewSpans, Decisions, IsGroup;
    JoinBreakFree(spans);
    NoBreakIn();
    var raw := g[0].raw;
    BreakFreeSlice(raw, 0, |PathOf(raw)|);
    BreakFreeConcat(PathOf(raw), ":");
    BreakFreeConcat(PathOf(raw) + ":", Join(spans, ","));
  }

  lemma {:induction false} ReplacementsOneLine(ctx: Context, gs: seq<Group>)
    requires Groups(ctx, gs)
    requires forall r <- Replacements(ctx, gs) :: BreakFree(r.token)
    ensures forall r <- Replacements(ctx, gs) :: OneLine(r.text)
  {
    hide OneLine, BreakFree, IsGroup, InContext, TokenReplacement;
    if gs != [] {
      var first, rest := TokenReplacement(ctx, gs[0]), Replacements(ctx, gs[1..]);
      assert Replacements(ctx, gs) == first + rest;
      ReplacementsOneLine(ctx, gs[1..]);
      ReplacesRaw(ctx, gs[0]);
      if first != [] {
        assert first[0] in Replacements(ctx, gs);
        NewTextOneLine(ctx, gs[0]);
      }
    }
  }

  lemma ReplacesRaw(ctx: Context, g: Group)
    requires AllInContext(ctx, g) && IsGroup(g)
    ensures |TokenReplacement(ctx, g)| <= 1
    ensures TokenReplacement(ctx, g) != [] ==> g != [] && TokenReplacement(ctx, g)[0].token == g[0].raw
  {
    hide Decisions, NewSpans, IsGroup, InContext;
    GroupShape(ctx, g);
  }

  /** The line numbers of the runs grow. */
  predicate Growing(plans: seq<LinePlan>) {
    forall i, j :: 0 <= i < j < |plans| ==> plans[i].line < plans[j].line
  }

  predicate LinesGrow(gs: seq<Group>) {
    forall k :: 0 < k < |gs| ==> GroupLine(gs[k - 1]) <= GroupLine(gs[k])
  }

  lemma {:induction false} AllAfter(gs: seq<Group>)
    requires LinesGrow(gs)
    ensures forall k :: 0 <= k < |gs| ==> GroupLine(gs[0]) <= GroupLine(gs[k])
  {
    if |gs| > 1 {
      assert forall k :: 0 <= k < |gs[1..]| ==> gs[1..][k] == gs[k + 1];
      AllAfter(gs[1..]);
      forall k | 0 <= k < |gs| ensures GroupLine(gs[0]) <= GroupLine(gs[k]) {
        if k > 0 {
          assert gs[k] == gs[1..][k - 1];
        }
      }
    }
  }

  lemma {:induction false} PlansGrow(ctx: Context, gs: seq<Group>)
    requires Groups(ctx, gs) && LinesGrow(gs)
    ensures AllGroups(ctx, Runs(gs)) && Growing(PerLine(ctx, Runs(gs)))
    ensures gs != [] ==> forall p <- PerLine(ctx, Runs(gs)) :: p.line >= GroupLine(gs[0])
    decreases |gs|
  {
    hide IsGroup, InContext, Replacements, GroupLine;
    if gs != [] {
      RunsAreGroups(ctx, gs);
      var line := GroupLine(gs[0]);
      var n := RunLength(gs, line);
      assert forall k :: 0 <= k < |gs[n..]| ==> gs[n..][k] == gs[n + k];
      PlansGrow(ctx, gs[n..]);
      AllAfter(gs);
      assert Runs(gs) == [gs[..n]] + Runs(gs[n..]);
      if n < |gs| {
        assert GroupLine(gs[n]) > line;
      }
      var rest := PerLine(ctx, Runs(gs[n..]));
      assert forall p <- rest :: p.line > line;
      assert forall k :: 0 <= k < |rest| ==> rest[k] in rest;
    }
  }

  predicate PlansOneLine(lines: seq<string>, plans: seq<LinePlan>) {
    forall p <- plans :: 1 <= p.line <= |lines| && p.reps != [] &&
      ((forall r <- p.reps :: BreakFree(r.token)) ==> forall r <- p.reps :: OneLine(r.text))
  }

  lemma {:induction false} PerLineOneLine(ctx: Context, runs: seq<seq<Group>>)
    requires AllGroups(ctx, runs)
    ensures PlansOneLine(ctx.lines, PerLine(ctx, runs))
  {
    hide IsGroup, OneLine, BreakFree, Replacements;
    LinesInContext(ctx, runs);
    if runs != [] {
      PerLineOneLine(ctx, runs[1..]);
      if forall r <- Replacements(ctx, runs[0]) :: BreakFree(r.token) {
        ReplacementsOneLine(ctx, runs[0]);
      }
    }
  }

  lemma EditOneLine(was: string, p: LinePlan)
    requires BreakFree(was) && p.reps != []
    requires (forall r <- p.reps :: BreakFree(r.token)) ==> forall r <- p.reps :: OneLine(r.text)
    ensures forall e <- EditOf(was, p) :: OneLine(e.text) && e.line == p.line
    ensures |EditOf(was, p)| <= 1
  {
    hide BreakFree, Spliced;
    match Greedy(was, p.reps, 0)
    case None =>
    case Some(at) =>
      TokensInLine(was, p.reps, 0, at);
      SplicedOneLine(was, p.reps, 0, at);
  }

  lemma {:induction false} EditsOneLine(lines: seq<string>, plans: seq<LinePlan>)
    requires PlansOneLine(lines, plans) && Growing(plans)
    requires forall k :: 0 <= k < |lines| ==> BreakFree(lines[k])
    ensures forall e <- EditsOf(lines, plans) :: OneLine(e.text) && exists p :: p in plans && e.line == p.line
    ensures DistinctLines(EditsOf(lines, plans))
  {
    hide OneLine, BreakFree, EditOf;
    if plans != [] {
      assert forall k :: 0 <= k < |plans[1..]| ==> plans[1..][k] == plans[k + 1];
      assert plans[0] in plans;
      EditsOneLine(lines, plans[1..]);
      EditOneLine(lines[plans[0].line - 1], plans[0]);
      var first, rest := EditOf(lines[plans[0].line - 1], plans[0]), EditsOf(lines, plans[1..]);
      assert forall k :: 0 <= k < |first| ==> first[k] in first;
      forall k | 0 <= k < |rest| ensures rest[k].line > plans[0].line {
        assert rest[k] in rest;
        var p :| p in plans[1..] && rest[k].line == p.line;
      }
    }
  }

  /** The edits planned for a document are edits of distinct existing lines by non-empty text
      without line breaks: rewriting changes those lines and nothing else. */
  lemma PlannedEditsAreLineEdits(ctx: Context, text: string, citations: seq<Citation>, gs: seq<Group>)
    requires ctx.lines == SplitLines(text)
    requires InWholeTokens(citations, gs) && AllInContext(ctx, citations)
    ensures Groups(ctx, gs) && AllGroups(ctx, Runs(gs))
    ensures forall p <- PerLine(ctx, Runs(gs)) :: 1 <= p.line <= |ctx.lines|
    ensures var edits := EditsOf(ctx.lines, PerLine(ctx, Runs(gs)));
            && LineEdits(SplitParts(text), edits) && (forall e <- edits :: e.text != "")
            && Replaced(text, edits).Some?
            && OnlyEdited(SplitParts(text), edits, SplitParts(Replaced(text, edits).value))
  {
    hide IsGroup, InContext, PerLine, Runs, EditsOf, OnlyEdited, Groups, AllGroups, Growing, PlansOneLine, DistinctLines, LinesGrow;
    GroupsStand(citations, gs);
    GroupsInContext(ctx, gs);
    RunsAreGroups(ctx, gs);
    PlansGrow(ctx, gs);
    PerLineOneLine(ctx, Runs(gs));
    LinesInContext(ctx, Runs(gs));
    PlannedLineEdits(text, PerLine(ctx, Runs(gs)));
    ReplacePreservesLines(text, EditsOf(ctx.lines, PerLine(ctx, Runs(gs))));
  }

  lemma GroupsStand(citations: seq<Citation>, gs: seq<Group>)
    requires InWholeTokens(citations, gs)
    ensures citations == Flatten(gs) && LinesGrow(gs) && forall k :: 0 <= k < |gs| ==> IsGroup(gs[k])
  {
    hide IsGroup, GroupLine;
  }

  lemma PlannedLineEdits(text: string, plans: seq<LinePlan>)
    requires PlansOneLine(SplitLines(text), plans) && Growing(plans)
    requires forall p <- plans :: 1 <= p.line <= |SplitLines(text)|
    ensures var edits := EditsOf(SplitLines(text), plans);
            LineEdits(SplitParts(text), edits) && forall e <- edits :: e.text != ""
  {
    hide BreakFree, EditsOf, Growing, SplitParts, DistinctLines;
    SplitAlternates(text);
    LinesFreeOfBreaks(SplitParts(text));
    EditsOneLine(SplitLines(text), plans);
  }

  lemma LinesFreeOfBreaks(parts: seq<string>)
    requires Alternates(parts)
    ensures forall k :: 0 <= k < |LinesOf(parts)| ==> BreakFree(LinesOf(parts)[k])
  {
    hide BreakFree, IsTerminator;
  }
}
