/** Where a run's rewrites land: a planned document, parsed again, gives the citations the plan
    decided exactly when each replaced token is the first of its kind behind the one before it
    (scripts/relocate-citations.py:810-866, 937-1022, 1182-1226). */
module Landing {
  import opened Text
  import opened LineBreaks
  import opened Citations
  import opened CitationParser
  import opened CitationScope
  import opened CitationPlaces
  import opened SpanSwap
  import opened SwapScope
  import opened SwapAll
  import opened Relocate
  import opened Decide
  import opened Agreement
  import opened TokenRewrite
  import opened Plan
  import opened WholeTokens
  import opened PlannedLines
  import opened Commit

  // ------------------------------------------------ the tokens a plan replaces

  /** The places of the flags that are set, from `from` on. */
  function SetFrom(flags: seq<bool>, from: nat): (js: seq<nat>)
    requires from <= |flags|
    ensures forall k :: 0 <= k < |js| ==> from <= js[k] < |flags| && flags[js[k]]
    ensures forall j :: from <= j < |flags| && flags[j] ==> j in js
    ensures forall a, b :: 0 <= a < b < |js| ==> js[a] < js[b]
    decreases |flags| - from
  {
    if from == |flags| then []
    else if flags[from] then [from] + SetFrom(flags, from + 1)
    else SetFrom(flags, from + 1)
  }

  ghost predicate IsMarked(ctx: Context, gs: seq<Group>, line: nat, j: nat)
    requires Groups(ctx, gs) && j < |gs|
  {
    GroupLine(gs[j]) == line && TokenReplacement(ctx, gs[j]) != []
  }

  ghost function Flags(ctx: Context, gs: seq<Group>, line: nat): seq<bool>
    requires Groups(ctx, gs)
  {
    seq(|gs|, j requires 0 <= j < |gs| => IsMarked(ctx, gs, line, j))
  }

  /** The tokens of a line that the plan replaces. */
  ghost function Marks(ctx: Context, gs: seq<Group>, line: nat): (js: seq<nat>)
    requires Groups(ctx, gs)
    ensures forall k :: 0 <= k < |js| ==> js[k] < |gs| && IsMarked(ctx, gs, line, js[k])
    ensures forall j: nat :: j < |gs| && IsMarked(ctx, gs, line, j) ==> j in js
    ensures forall a, b :: 0 <= a < b < |js| ==> js[a] < js[b]
  {
    hide IsMarked, Groups;
    SetFrom(Flags(ctx, gs, line), 0)
  }

  /** The line's replacements of the tokens from `from` on. */
  ghost function RepsFrom(ctx: Context, gs: seq<Group>, line: nat, from: nat): seq<Replacement>
    requires Groups(ctx, gs) && from <= |gs|
  {
    hide IsGroup, InContext;
    LineReps(ctx, gs[from..], line)
  }

  lemma LineRepsStep(ctx: Context, gs: seq<Group>, line: nat, from: nat)
    requires Groups(ctx, gs) && from < |gs|
    ensures var first, rest := TokenReplacement(ctx, gs[from]), RepsFrom(ctx, gs, line, from + 1);
      && |first| <= 1
      && RepsFrom(ctx, gs, line, from) == if IsMarked(ctx, gs, line, from) then first + rest else rest
  {
    hide TokenReplacement, IsGroup, InContext, GroupLine;
    ReplacesRaw(ctx, gs[from]);
    assert gs[from..][0] == gs[from] && gs[from..][1..] == gs[from + 1..];
  }

  ghost predicate RepsAt(ctx: Context, gs: seq<Group>, js: seq<nat>, reps: seq<Replacement>)
    requires Groups(ctx, gs)
  {
    |reps| == |js| && forall k :: 0 <= k < |js| ==> js[k] < |gs| && TokenReplacement(ctx, gs[js[k]]) == [reps[k]]
  }

  lemma RepsAtMore(ctx: Context, gs: seq<Group>, j: nat, js: seq<nat>, first: seq<Replacement>, reps: seq<Replacement>)
    requires Groups(ctx, gs) && RepsAt(ctx, gs, js, reps)
    requires j < |gs| && TokenReplacement(ctx, gs[j]) == first && |first| == 1
    ensures RepsAt(ctx, gs, [j] + js, first + reps)
  {
    hide TokenReplacement, Groups;
    assert first == [first[0]];
  }

  lemma {:induction false} MarksGiveReps(ctx: Context, gs: seq<Group>, line: nat, from: nat)
    requires Groups(ctx, gs) && from <= |gs|
    ensures RepsAt(ctx, gs, SetFrom(Flags(ctx, gs, line), from), RepsFrom(ctx, gs, line, from))
    decreases |gs| - from
  {
    hide TokenReplacement, IsGroup, InContext, GroupLine, RepsAt, RepsFrom;
    var flags := Flags(ctx, gs, line);
    if from < |gs| {
      MarksGiveReps(ctx, gs, line, from + 1);
      LineRepsStep(ctx, gs, line, from);
      if flags[from] {
        RepsAtMore(ctx, gs, from, SetFrom(flags, from + 1), TokenReplacement(ctx, gs[from]), RepsFrom(ctx, gs, line, from + 1));
      }
    } else {
      NoReps(ctx, gs, line);
    }
  }

  lemma NoReps(ctx: Context, gs: seq<Group>, line: nat)
    requires Groups(ctx, gs)
    ensures RepsAt(ctx, gs, [], RepsFrom(ctx, gs, line, |gs|))
  {
  }

  lemma LineRepsMarked(ctx: Context, gs: seq<Group>, line: nat)
    requires Groups(ctx, gs)
    ensures RepsAt(ctx, gs, Marks(ctx, gs, line), LineReps(ctx, gs, line))
  {
    hide Groups, RepsAt, LineReps, SetFrom;
    MarksGiveReps(ctx, gs, line, 0);
    assert gs[0..] == gs;
  }

  /** Where the parser found the tokens of a line that the plan replaces. */
  ghost function OwnColumns(ctx: Context, gs: seq<Group>, tokens: seq<Token>, line: nat): (at: seq<nat>)
    requires Groups(ctx, gs) && |tokens| == |gs|
    ensures |at| == |LineReps(ctx, gs, line)|
  {
    hide TokenReplacement, IsGroup, InContext, Marks, LineReps;
    LineRepsMarked(ctx, gs, line);
    var js := Marks(ctx, gs, line);
    seq(|js|, k requires 0 <= k < |js| => tokens[js[k]].col)
  }

  /** The line's planned tokens stand whole where the parser found them, and none of them has
      an identical whole token between it and the one before. */
  ghost predicate Home(ctx: Context, gs: seq<Group>, tokens: seq<Token>, line: nat)
    requires Groups(ctx, gs) && |tokens| == |gs| && 1 <= line <= |ctx.lines|
  {
    var text, reps, own := ctx.lines[line - 1], LineReps(ctx, gs, line), OwnColumns(ctx, gs, tokens, line);
    Placement(text, reps, 0, own) && NoneEarlier(text, reps, 0, own)
  }

  lemma HomeIff(ctx: Context, gs: seq<Group>, tokens: seq<Token>, line: nat)
    requires Groups(ctx, gs) && |tokens| == |gs| && 1 <= line <= |ctx.lines|
    ensures Home(ctx, gs, tokens, line) <==>
            Greedy(ctx.lines[line - 1], LineReps(ctx, gs, line), 0) == Some(OwnColumns(ctx, gs, tokens, line))
  {
    hide WholeAt, TokenReplacement, IsGroup, InContext, Marks, LineReps, OwnColumns, Placement, NoneEarlier, Greedy;
    var text, reps, own := ctx.lines[line - 1], LineReps(ctx, gs, line), OwnColumns(ctx, gs, tokens, line);
    if Placement(text, reps, 0, own) {
      LandsWherePlannedIff(text, reps, 0, own);
    }
  }

  // --------------------------------------------------- replacements keep the shape

  /** What is known of every token of a clean parse with the group of its citations. */
  ghost predicate Parsed(doc: string, lines: seq<string>, t: Token, g: Group) {
    && InPlace(lines, t) && IsSpanList(t.spans) && SpansOf(t.raw) == t.spans
    && g == TokenCitations(doc, t) && IsGroup(g) && g[0].raw == t.raw && g[0].docLine == t.docLine
  }

  lemma ShiftIsLegal(ctx: Context, c: Citation)
    requires InContext(ctx, c) && DecisionOf(ctx, c).status == Shifted
    ensures DecisionOf(ctx, c).placed.Some? && LegalRange(DecisionOf(ctx, c).placed.value)
  {
    hide Decided, Locate, SymlinkRefused, IdentityRefused, Deciding;
    var cur, line := ctx.index[c.target], ctx.lines[c.docLine - 1];
    var d, owners := DecisionOf(ctx, c), Deciding(ctx.parents, line, c);
    UnanimousOrRefused(ctx.parents, cur, ctx.links, line, c);
    var o := owners[0];
    assert VoteOf(o, cur, c) == Move(d.placed.value);
    LocatedIsLegal(o.sources[c.target], cur, c.start, c.end);
  }

  lemma LocatedIsLegal(was: LineIndex.SourceIndex, cur: LineIndex.SourceIndex, start: nat, end: nat)
    requires 1 <= start <= end && cur.sep != ""
    ensures var d := Locate(was, cur, start, end); d.status == Shifted ==> d.placed.Some? && LegalRange(d.placed.value)
  {
    hide LineIndex.SourceIndex.WindowsFrom, LineIndex.SourceIndex.Block, Strip, IsRight;
  }

  lemma PlacedIsLegal(ctx: Context, g: Group, j: nat)
    requires AllInContext(ctx, g) && IsGroup(g) && j < |g| && TokenReplacement(ctx, g) != []
    requires |TokenDecisions(ctx, g)| == |g| && TokenDecisions(ctx, g)[j].placed.Some?
    ensures LegalRange(TokenDecisions(ctx, g)[j].placed.value)
  {
    hide Decided, NewSpans, IsGroup, WrittenSpans, DecisionOf;
    GroupShape(ctx, g);
    var ds := Decisions(ctx, g);
    WholeOrNotAtAll(g, ds);
    var d := ds[j];
    assert d in ds && d == DecisionOf(ctx, g[j]);
    if d.status == Shifted {
      ShiftIsLegal(ctx, g[j]);
    } else {
      RightPlaced(ctx, g[j]);
    }
  }

  lemma RightPlaced(ctx: Context, c: Citation)
    requires InContext(ctx, c) && DecisionOf(ctx, c).status == Right
    ensures DecisionOf(ctx, c).placed == Some((c.start, c.end))
  {
    hide Decided;
    DecidedAbout(ctx.parents, ctx.index[c.target], ctx.links, ctx.lines[c.docLine - 1], c);
  }

  lemma NewTextIs(ctx: Context, g: Group)
    requires AllInContext(ctx, g) && IsGroup(g) && TokenReplacement(ctx, g) != []
    ensures g != [] && TokenReplacement(ctx, g)[0].token == g[0].raw
    ensures var text := TokenReplacement(ctx, g)[0].text; text == PathOf(g[0].raw) + ":" + SpansOf(text)
  {
    GroupShape(ctx, g);
    var ds := Decisions(ctx, g);
    WholeOrNotAtAll(g, ds);
    var spans := NewSpans(g, ds);
    forall j | 0 <= j < |g| ensures Lacks(spans[j], ':') {
      NewSpanSays(ctx, g, j);
    }
    hide Decisions, IsChunk, ChunkRange, NewSpans, IsGroup, WrittenSpans, PathOf, SpansOf;
    JoinLacks(spans);
    SpansOfParts(PathOf(g[0].raw), Join(spans, ","));
  }

  lemma {:induction false} JoinLacks(parts: seq<string>)
    requires forall k :: 0 <= k < |parts| ==> Lacks(parts[k], ':')
    ensures Lacks(Join(parts, ","), ':')
  {
    if |parts| > 1 {
      JoinLacks(parts[1..]);
    }
  }

  lemma TokenRespans(doc: string, ctx: Context, t: Token, g: Group)
    requires AllInContext(ctx, g) && Parsed(doc, ctx.lines, t, g) && TokenReplacement(ctx, g) != []
    ensures Respans(TokenReplacement(ctx, g)[0])
    ensures TokenReplacement(ctx, g)[0].token == t.raw
  {
    hide TokenReplacement, TokenDecisions, IsGroup, IsChunk, ChunkRange, LegalRange, PathOf, SpansOf, Split, InContext;
    NewTextIs(ctx, g);
    RewrittenTokenSays(ctx, g);
    var text := TokenReplacement(ctx, g)[0].text;
    var spans := Split(SpansOf(text), ',');
    forall c <- spans ensures IsChunk(c) && LegalRange(ChunkRange(c)) {
      var j :| 0 <= j < |spans| && spans[j] == c;
      PlacedIsLegal(ctx, g, j);
    }
    GroupCount(g);
  }

  // ------------------------------------------------------ the document afterwards

  ghost predicate AllParsed(doc: string, lines: seq<string>, tokens: seq<Token>, gs: seq<Group>) {
    && |gs| == |tokens| && KeysGrow(tokens)
    && forall j :: 0 <= j < |gs| ==> Parsed(doc, lines, tokens[j], gs[j])
  }

  lemma LineRespans(doc: string, ctx: Context, tokens: seq<Token>, gs: seq<Group>, line: nat)
    requires Groups(ctx, gs) && AllParsed(doc, ctx.lines, tokens, gs)
    ensures AllRespan(LineReps(ctx, gs, line))
    ensures var js, reps := Marks(ctx, gs, line), LineReps(ctx, gs, line);
      && |reps| == |js| && forall k :: 0 <= k < |js| ==> js[k] < |gs| && reps[k].token == tokens[js[k]].raw
  {
    hide TokenReplacement, IsGroup, InContext, Respans, Marks, LineReps, Parsed, KeysGrow;
    LineRepsMarked(ctx, gs, line);
    var js, reps := Marks(ctx, gs, line), LineReps(ctx, gs, line);
    forall k | 0 <= k < |reps| ensures Respans(reps[k]) && reps[k].token == tokens[js[k]].raw {
      TokenRespans(doc, ctx, tokens[js[k]], gs[js[k]]);
    }
  }

  /** The regions the rewriter swaps on each line. */
  ghost predicate SwapsMade(ctx: Context, gs: seq<Group>, rss: seq<seq<Region>>)
    requires Groups(ctx, gs)
  {
    && |rss| == |ctx.lines|
    && forall i :: 0 <= i < |rss| ==> SwapsOnLine(ctx, gs, i, rss[i])
  }

  ghost predicate SwapsOnLine(ctx: Context, gs: seq<Group>, i: nat, rs: seq<Region>)
    requires Groups(ctx, gs) && i < |ctx.lines|
  {
    var reps := LineReps(ctx, gs, i + 1);
    var at := Greedy(ctx.lines[i], reps, 0);
    at.Some? && |at.value| == |reps| && rs == RegionsOf(reps, at.value)
  }

  /** What the rewriter does to the line leaves the names in front of its colons alone. */
  ghost predicate QuietLine(tree: Tree, ctx: Context, gs: seq<Group>, i: nat)
    requires Groups(ctx, gs) && i < |ctx.lines|
  {
    var reps := LineReps(ctx, gs, i + 1);
    var at := Greedy(ctx.lines[i], reps, 0);
    at.Some? ==> QuietAt(tree, ctx.lines[i], reps, at.value)
  }

  ghost predicate QuietLines(tree: Tree, ctx: Context, gs: seq<Group>)
    requires Groups(ctx, gs)
  {
    forall i :: 0 <= i < |ctx.lines| ==> QuietLine(tree, ctx, gs, i)
  }

  lemma LineSwaps(doc: string, tree: Tree, ctx: Context, tokens: seq<Token>, gs: seq<Group>, i: nat, now: string) returns (rs: seq<Region>)
    requires Groups(ctx, gs) && AllParsed(doc, ctx.lines, tokens, gs)
    requires i < |ctx.lines| && Rewritten(ctx.lines[i], LineReps(ctx, gs, i + 1)) == Some(now) && QuietLine(tree, ctx, gs, i)
    ensures SwapsOnLine(ctx, gs, i, rs) && InOrder(tree, ctx.lines[i], rs) && Rewoven(tree, ctx.lines[i], rs) == now
  {
    hide TokenReplacement, IsGroup, InContext, Marks, LineReps, Parsed, KeysGrow, AllRespan, WholeAt, Greedy, Spliced, Placement, RegionsOf, InOrder, Rewoven, QuietAt;
    LineRespans(doc, ctx, tokens, gs, i + 1);
    var line, reps := ctx.lines[i], LineReps(ctx, gs, i + 1);
    var at := Greedy(line, reps, 0).value;
    SplicedIsRewoven(tree, line, reps, 0, at);
    rs := RegionsOf(reps, at);
    assert Rewoven(tree, line, rs)[0..] == Rewoven(tree, line, rs);
  }

  lemma AllSwaps(doc: string, tree: Tree, ctx: Context, tokens: seq<Token>, gs: seq<Group>, now: seq<string>) returns (rss: seq<seq<Region>>)
    requires Groups(ctx, gs) && AllParsed(doc, ctx.lines, tokens, gs) && QuietLines(tree, ctx, gs)
    requires LinesRewritten(ctx, gs, now)
    ensures SwapsMade(ctx, gs, rss) && AllInOrder(tree, ctx.lines, rss) && RewovenLines(tree, ctx.lines, rss) == now
  {
    hide Groups, AllParsed, LineReps, SwapsOnLine, Rewritten, InOrder, Rewoven, QuietLine;
    rss := [];
    for i := 0 to |now|
      invariant |rss| == i
      invariant forall k :: 0 <= k < i ==> SwapsOnLine(ctx, gs, k, rss[k]) && InOrder(tree, ctx.lines[k], rss[k]) && Rewoven(tree, ctx.lines[k], rss[k]) == now[k]
    {
      var rs := LineSwaps(doc, tree, ctx, tokens, gs, i, now[i]);
      rss := rss + [rs];
    }
  }

  // -------------------------------------------------------------- what a token reads

  /** The new span list of a replaced token, the old one of any other. */
  ghost function PlannedSpans(ctx: Context, g: Group, t: Token): string
    requires AllInContext(ctx, g) && IsGroup(g)
  {
    hide TokenReplacement, IsGroup, InContext;
    if TokenReplacement(ctx, g) == [] then t.spans else SpansOf(TokenReplacement(ctx, g)[0].text)
  }

  /** The region of a replacement made where the parser found its token. */
  lemma OwnRegion(doc: string, ctx: Context, t: Token, g: Group, r: Replacement)
    requires AllInContext(ctx, g) && Parsed(doc, ctx.lines, t, g) && TokenReplacement(ctx, g) == [r] && 0 <= t.col
    ensures RegionOf(r, t.col) == Region(Key(t), Key(t) + |t.spans|, PlannedSpans(ctx, g, t))
    ensures forall at: nat :: RegionOf(r, at).start == Key(t) <==> at == t.col
  {
    hide TokenReplacement, IsGroup, InContext, PathOf, SpansOf, IsSpanList, TokenCitations;
    TokenRespans(doc, ctx, t, g);
  }

  /** Swapped whole, a list reads as the new one. */
  lemma WholeListReread(spans: string, text: string, spans': string)
    requires Respanned(spans, text, spans, spans')
    ensures spans' == text
  {
    hide IsSpanList;
    assert spans[|spans|..] == "";
  }

  lemma HitReread(line: string, rs: seq<Region>, k: nat, t: Token, spans': string)
    requires k < |rs| && rs[k].start == Key(t) && rs[k].end == Key(t) + |t.spans|
    requires rs[k].end <= |line| && line[rs[k].start..rs[k].end] == t.spans
    requires ListReread(line, rs, Key(t), t.spans, spans')
    ensures spans' == rs[k].text
  {
    hide Respanned;
    WholeListReread(t.spans, rs[k].text, spans');
  }

  lemma SpansThere(doc: string, lines: seq<string>, t: Token, g: Group)
    requires Parsed(doc, lines, t, g)
    ensures 1 <= t.docLine <= |lines| && Key(t) + |t.spans| <= |lines[t.docLine - 1]|
    ensures 0 <= Key(t) && lines[t.docLine - 1][Key(t)..Key(t) + |t.spans|] == t.spans
  {
    hide IsGroup, IsSpanList, PathOf, SpansOf, TokenCitations, IsUrlTail;
    PathColonSpans(lines[t.docLine - 1], PathOf(t.raw), t.spans, t.col);
  }

  lemma HomeRegions(doc: string, ctx: Context, tokens: seq<Token>, gs: seq<Group>, line: nat, rs: seq<Region>)
    requires Groups(ctx, gs) && AllParsed(doc, ctx.lines, tokens, gs) && 1 <= line <= |ctx.lines|
    requires SwapsOnLine(ctx, gs, line - 1, rs) && Home(ctx, gs, tokens, line)
    ensures var js := Marks(ctx, gs, line);
      && |rs| == |js|
      && forall k :: 0 <= k < |js| ==>
           js[k] < |gs| && var t := tokens[js[k]];
             0 <= Key(t) && rs[k] == Region(Key(t), Key(t) + |t.spans|, PlannedSpans(ctx, gs[js[k]], t))
  {
    hide TokenReplacement, IsGroup, InContext, Marks, LineReps, Parsed, Home, Greedy, PlannedSpans, KeysGrow;
    HomeIff(ctx, gs, tokens, line);
    LineRepsMarked(ctx, gs, line);
    var js, reps, own := Marks(ctx, gs, line), LineReps(ctx, gs, line), OwnColumns(ctx, gs, tokens, line);
    forall k | 0 <= k < |js|
      ensures var t := tokens[js[k]];
              0 <= Key(t) && rs[k] == Region(Key(t), Key(t) + |t.spans|, PlannedSpans(ctx, gs[js[k]], t))
    {
      SpansThere(doc, ctx.lines, tokens[js[k]], gs[js[k]]);
      OwnRegion(doc, ctx, tokens[js[k]], gs[js[k]], reps[k]);
    }
  }

  lemma KeysDiffer(tokens: seq<Token>, j: nat, k: nat)
    requires KeysGrow(tokens) && j < |tokens| && k < |tokens| && j != k && tokens[j].docLine == tokens[k].docLine
    ensures Key(tokens[j]) != Key(tokens[k])
  {
  }

  /** A replaced token's list starts where one of the line's regions does. */
  lemma OwnRegionThere(doc: string, ctx: Context, tokens: seq<Token>, gs: seq<Group>, j: nat, rs: seq<Region>) returns (k: nat)
    requires Groups(ctx, gs) && AllParsed(doc, ctx.lines, tokens, gs) && j < |gs| && 1 <= tokens[j].docLine <= |ctx.lines|
    requires SwapsOnLine(ctx, gs, tokens[j].docLine - 1, rs) && Home(ctx, gs, tokens, tokens[j].docLine)
    requires IsMarked(ctx, gs, tokens[j].docLine, j)
    ensures k < |rs| && rs[k] == Region(Key(tokens[j]), Key(tokens[j]) + |tokens[j].spans|, PlannedSpans(ctx, gs[j], tokens[j]))
  {
    hide Groups, Marks, Parsed, Home, SwapsOnLine, PlannedSpans, IsMarked, KeysGrow, Key;
    var line := tokens[j].docLine;
    HomeRegions(doc, ctx, tokens, gs, line, rs);
    var js := Marks(ctx, gs, line);
    k :| 0 <= k < |js| && js[k] == j;
  }

  /** No region starts at the list of a token that is not replaced. */
  lemma NoRegionThere(doc: string, ctx: Context, tokens: seq<Token>, gs: seq<Group>, j: nat, rs: seq<Region>)
    requires Groups(ctx, gs) && AllParsed(doc, ctx.lines, tokens, gs) && j < |gs| && 1 <= tokens[j].docLine <= |ctx.lines|
    requires SwapsOnLine(ctx, gs, tokens[j].docLine - 1, rs) && Home(ctx, gs, tokens, tokens[j].docLine)
    requires !IsMarked(ctx, gs, tokens[j].docLine, j)
    ensures forall k :: 0 <= k < |rs| ==> rs[k].start != Key(tokens[j])
  {
    hide Groups, Marks, Parsed, Home, SwapsOnLine, PlannedSpans, IsMarked, KeysGrow, Key;
    var line := tokens[j].docLine;
    HomeRegions(doc, ctx, tokens, gs, line, rs);
    var js := Marks(ctx, gs, line);
    forall k | 0 <= k < |rs| ensures rs[k].start != Key(tokens[j]) {
      MarkedOnLine(doc, ctx, tokens, gs, line, js[k]);
      KeysDiffer(tokens, j, js[k]);
    }
  }

  /** On a line whose replacements land at home, every token reads as planned. */
  lemma HomeReads(doc: string, ctx: Context, tokens: seq<Token>, gs: seq<Group>, j: nat, rs: seq<Region>, spans': string)
    requires Groups(ctx, gs) && AllParsed(doc, ctx.lines, tokens, gs) && j < |gs|
    requires 1 <= tokens[j].docLine <= |ctx.lines| && GroupLine(gs[j]) == tokens[j].docLine
    requires SwapsOnLine(ctx, gs, tokens[j].docLine - 1, rs) && Home(ctx, gs, tokens, tokens[j].docLine)
    requires ListReread(ctx.lines[tokens[j].docLine - 1], rs, Key(tokens[j]), tokens[j].spans, spans')
    ensures spans' == PlannedSpans(ctx, gs[j], tokens[j])
  {
    hide Groups, Parsed, Home, SwapsOnLine, KeysGrow, ListReread, Key, PlannedSpans, IsMarked, GroupLine;
    var t, line := tokens[j], tokens[j].docLine;
    if IsMarked(ctx, gs, line, j) {
      var k := OwnRegionThere(doc, ctx, tokens, gs, j, rs);
      SpansThere(doc, ctx.lines, t, gs[j]);
      HitReread(ctx.lines[line - 1], rs, k, t, spans');
    } else {
      NoRegionThere(doc, ctx, tokens, gs, j, rs);
      MissReread(ctx.lines[line - 1], rs, Key(t), t.spans, spans');
      UnmarkedSpans(ctx, gs, line, j, t);
    }
  }

  lemma UnmarkedSpans(ctx: Context, gs: seq<Group>, line: nat, j: nat, t: Token)
    requires Groups(ctx, gs) && j < |gs| && GroupLine(gs[j]) == line && !IsMarked(ctx, gs, line, j)
    ensures AllInContext(ctx, gs[j]) && IsGroup(gs[j]) && PlannedSpans(ctx, gs[j], t) == t.spans
  {
    hide TokenReplacement, IsGroup, InContext, GroupLine, SpansOf;
  }

  lemma MarkedOnLine(doc: string, ctx: Context, tokens: seq<Token>, gs: seq<Group>, line: nat, j: nat)
    requires Groups(ctx, gs) && AllParsed(doc, ctx.lines, tokens, gs) && j < |gs| && IsMarked(ctx, gs, line, j)
    ensures tokens[j].docLine == line
  {
    hide TokenReplacement, IsGroup, InContext, KeysGrow, InPlace, IsSpanList, SpansOf, TokenCitations;
    GroupNotEmpty(gs[j]);
  }

  lemma MissReread(line: string, rs: seq<Region>, key: int, spans: string, spans': string)
    requires ListReread(line, rs, key, spans, spans') && forall k :: 0 <= k < |rs| ==> rs[k].start != key
    ensures spans' == spans
  {
    hide Respanned;
  }

  // ---------------------------------------------------- what the citations then say

  /** The citation is the old one, at the range decided when it was moved. */
  predicate ReadsAsDecided(c: Citation, d: Decision, c': Citation) {
    && c'.doc == c.doc && c'.docLine == c.docLine && c'.target == c.target && PathOf(c'.raw) == PathOf(c.raw)
    && (c'.start, c'.end) == if d.status == Shifted && d.placed.Some? then d.placed.value else (c.start, c.end)
  }

  predicate AsPlanned(cs: seq<Citation>, ds: seq<Decision>, cs': seq<Citation>) {
    |cs'| == |cs| == |ds| && forall k :: 0 <= k < |cs| ==> ReadsAsDecided(cs[k], ds[k], cs'[k])
  }

  /** Every move changes the range. */
  predicate MovesAway(cs: seq<Citation>, ds: seq<Decision>)
  {
    |ds| == |cs| && forall k :: 0 <= k < |cs| && ds[k].status == Shifted ==> ds[k].placed != Some((cs[k].start, cs[k].end))
  }

  lemma SplitPlanned(cs: seq<Citation>, ds: seq<Decision>, cs': seq<Citation>, bs: seq<Citation>, fs: seq<Decision>, bs': seq<Citation>)
    requires |bs| == |fs| == |bs'|
    ensures AsPlanned(bs + cs, fs + ds, bs' + cs') <==> AsPlanned(bs, fs, bs') && AsPlanned(cs, ds, cs')
    ensures |ds| == |cs| ==> (MovesAway(bs + cs, fs + ds) <==> MovesAway(bs, fs) && MovesAway(cs, ds))
  {
    hide ReadsAsDecided;
    if AsPlanned(bs + cs, fs + ds, bs' + cs') {
      forall k | 0 <= k < |cs| ensures ReadsAsDecided(cs[k], ds[k], cs'[k]) {
        assert (bs + cs)[|bs| + k] == cs[k] && (fs + ds)[|bs| + k] == ds[k] && (bs' + cs')[|bs| + k] == cs'[k];
      }
      forall k | 0 <= k < |bs| ensures ReadsAsDecided(bs[k], fs[k], bs'[k]) {
        assert (bs + cs)[k] == bs[k] && (fs + ds)[k] == fs[k] && (bs' + cs')[k] == bs'[k];
      }
    }
    if |ds| == |cs| && MovesAway(bs + cs, fs + ds) {
      forall k | 0 <= k < |cs| && ds[k].status == Shifted ensures ds[k].placed != Some((cs[k].start, cs[k].end)) {
        assert (bs + cs)[|bs| + k] == cs[k] && (fs + ds)[|bs| + k] == ds[k];
      }
      forall k | 0 <= k < |bs| && fs[k].status == Shifted ensures fs[k].placed != Some((bs[k].start, bs[k].end)) {
        assert (bs + cs)[k] == bs[k] && (fs + ds)[k] == fs[k];
      }
    }
  }

  /** A document reads as planned when each of its tokens does. */
  lemma {:induction false} FlattenPlanned(ctx: Context, gs: seq<Group>, gs': seq<Group>)
    requires Groups(ctx, gs) && |gs'| == |gs|
    requires forall j :: 0 <= j < |gs| ==> |gs'[j]| == |gs[j]| == |TokenDecisions(ctx, gs[j])|
    ensures |Flatten(SettledAll(ctx, gs))| == |Flatten(gs)|
    ensures AsPlanned(Flatten(gs), Flatten(SettledAll(ctx, gs)), Flatten(gs')) <==>
            forall j :: 0 <= j < |gs| ==> AsPlanned(gs[j], TokenDecisions(ctx, gs[j]), gs'[j])
    ensures MovesAway(Flatten(gs), Flatten(SettledAll(ctx, gs))) <==>
            forall j :: 0 <= j < |gs| ==> MovesAway(gs[j], TokenDecisions(ctx, gs[j]))
  {
    hide AsPlanned, MovesAway, TokenDecisions, IsGroup, InContext;
    if gs == [] {
      NothingPlanned();
    } else {
      FlattenPlanned(ctx, gs[1..], gs'[1..]);
      SplitPlanned(Flatten(gs[1..]), Flatten(SettledAll(ctx, gs[1..])), Flatten(gs'[1..]), gs[0], TokenDecisions(ctx, gs[0]), gs'[0]);
      assert forall j :: 0 <= j < |gs| - 1 ==> gs[1..][j] == gs[j + 1] && gs'[1..][j] == gs'[j + 1];
      assert forall j :: 0 < j < |gs| ==> gs[j] == gs[1..][j - 1] && gs'[j] == gs'[1..][j - 1];
    }
  }

  lemma NothingPlanned()
    ensures AsPlanned([], [], []) && MovesAway([], [])
  {
  }

  /** A token's citations by its chunks. */
  lemma GroupByChunks(doc: string, t: Token)
    requires LegalList(t.spans)
    ensures var g, chunks := TokenCitations(doc, t), Split(t.spans, ',');
      && |g| == |chunks|
      && (forall k :: 0 <= k < |g| ==> IsChunk(chunks[k]))
      && (forall k :: 0 <= k < |g| ==>
            g[k] == Citation(doc, t.docLine, t.raw, t.target, ChunkRange(chunks[k]).0, ChunkRange(chunks[k]).1))
  {
    hide IsChunk, ChunkRange, LegalRange, Split;
    EmittedAll(doc, t, Split(t.spans, ','));
  }

  lemma StillThere(doc: string, ctx: Context, t: Token, t': Token, g: Group)
    requires SameToken(t, t') && t'.spans == t.spans && LegalList(t.spans)
    requires AllInContext(ctx, g) && g == TokenCitations(doc, t) && IsGroup(g) && TokenReplacement(ctx, g) == []
    ensures AsPlanned(g, TokenDecisions(ctx, g), TokenCitations(doc, t'))
  {
    hide IsChunk, ChunkRange, LegalRange, Split, Decisions, IsGroup, NewSpans, InContext, WrittenSpans, PathOf;
    GroupByChunks(doc, t);
    GroupByChunks(doc, t');
    GroupShape(ctx, g);
    var ds := Decisions(ctx, g);
    WholeOrNotAtAll(g, ds);
    var fs := Settled(ds);
    forall k | 0 <= k < |fs| ensures fs[k].status != Shifted {
      assert fs[k] in fs;
    }
  }

  lemma MovedThere(doc: string, ctx: Context, t: Token, t': Token, g: Group)
    requires SameToken(t, t') && LegalList(t.spans) && LegalList(t'.spans)
    requires AllInContext(ctx, g) && g == TokenCitations(doc, t) && IsGroup(g) && TokenReplacement(ctx, g) != []
    requires t'.spans == PlannedSpans(ctx, g, t)
    ensures AsPlanned(g, TokenDecisions(ctx, g), TokenCitations(doc, t'))
  {
    hide IsChunk, ChunkRange, LegalRange, Split, TokenDecisions, TokenReplacement, IsGroup, InContext, PathOf, SpansOf;
    GroupByChunks(doc, t);
    GroupByChunks(doc, t');
    RewrittenTokenSays(ctx, g);
    var fs, g' := TokenDecisions(ctx, g), TokenCitations(doc, t');
    forall k | 0 <= k < |g| ensures ReadsAsDecided(g[k], fs[k], g'[k]) {
      PlacedAsDecided(ctx, g, k);
    }
  }

  /** In a replaced token an unmoved span is placed where it was. */
  lemma PlacedAsDecided(ctx: Context, g: Group, k: nat)
    requires AllInContext(ctx, g) && IsGroup(g) && TokenReplacement(ctx, g) != [] && k < |g|
    ensures var fs := TokenDecisions(ctx, g);
            |fs| == |g| && (fs[k].status != Shifted ==> fs[k].placed == Some((g[k].start, g[k].end)))
  {
    hide IsGroup, NewSpans, WrittenSpans, DecisionOf;
    GroupShape(ctx, g);
    var ds := Decisions(ctx, g);
    WholeOrNotAtAll(g, ds);
    assert ds[k] in ds && ds[k] == DecisionOf(ctx, g[k]);
    if ds[k].status == Right {
      RightPlaced(ctx, g[k]);
    }
  }

  /** A replaced token that reads as before does not read as planned. */
  lemma MissedThere(doc: string, ctx: Context, t: Token, t': Token, g: Group)
    requires SameToken(t, t') && LegalList(t.spans) && t'.spans == t.spans
    requires AllInContext(ctx, g) && g == TokenCitations(doc, t) && IsGroup(g) && TokenReplacement(ctx, g) != []
    requires |TokenDecisions(ctx, g)| == |g| && MovesAway(g, TokenDecisions(ctx, g))
    ensures !AsPlanned(g, TokenDecisions(ctx, g), TokenCitations(doc, t'))
  {
    hide IsChunk, ChunkRange, LegalRange, Split, IsGroup, NewSpans, WrittenSpans, Decisions, PathOf;
    GroupByChunks(doc, t);
    GroupByChunks(doc, t');
    GroupShape(ctx, g);
    var fs := TokenDecisions(ctx, g);
    WholeOrNotAtAll(g, Decisions(ctx, g));
    var d :| d in fs && d.status == Shifted;
    var k :| 0 <= k < |fs| && fs[k] == d;
    ShiftIsPlaced(ctx, g, k);
  }

  lemma ShiftIsPlaced(ctx: Context, g: Group, k: nat)
    requires AllInContext(ctx, g) && k < |g| == |TokenDecisions(ctx, g)| && TokenDecisions(ctx, g)[k].status == Shifted
    ensures TokenDecisions(ctx, g)[k].placed.Some?
  {
    hide TokenDecisions, DecisionOf;
    SettledDecided(ctx, g);
    ShiftIsLegal(ctx, g[k]);
  }

  // ------------------------------------------------------------------ and back

  predicate Ascends(s: seq<int>) {
    forall i, j :: 0 <= i < j < |s| ==> s[i] < s[j]
  }

  predicate Among(a: seq<int>, b: seq<int>) {
    forall k :: 0 <= k < |a| ==> a[k] in b
  }

  lemma ShorterAmong(a: seq<int>, b: seq<int>, n: nat)
    requires |a| == |b| == n + 1 && Ascends(a) && Ascends(b) && Among(a, b)
    ensures Ascends(a[..n]) && Ascends(b[..n]) && Among(a[..n], b[..n])
  {
    assert a[n] in b;
    var last :| 0 <= last < |b| && b[last] == a[n];
    forall k | 0 <= k < n ensures a[..n][k] in b[..n] {
      assert a[k] in b;
      var m :| 0 <= m < |b| && b[m] == a[k];
      assert b[m] < b[last];
      assert b[..n][m] == a[..n][k];
    }
  }

  lemma LastAgrees(a: seq<int>, b: seq<int>, n: nat)
    requires |a| == |b| == n + 1 && a[..n] == b[..n] && Ascends(a) && a[n] in b
    ensures a == b
  {
    assert forall k :: 0 <= k < n ==> b[k] == b[..n][k] == a[..n][k] == a[k];
    assert a == a[..n] + [a[n]] && b == b[..n] + [b[n]];
  }

  lemma {:induction false} AscendingSubset(a: seq<int>, b: seq<int>)
    requires |a| == |b| && Ascends(a) && Ascends(b) && Among(a, b)
    ensures a == b
  {
    hide Ascends;
    if a != [] {
      var n := |a| - 1;
      ShorterAmong(a, b, n);
      AscendingSubset(a[..n], b[..n]);
      LastAgrees(a, b, n);
    }
  }

  ghost function KeysOf(tokens: seq<Token>, js: seq<nat>): seq<int>
    requires forall k :: 0 <= k < |js| ==> js[k] < |tokens|
  {
    seq(|js|, k requires 0 <= k < |js| => Key(tokens[js[k]]))
  }

  function StartsOf(rs: seq<Region>): seq<int> {
    seq(|rs|, k requires 0 <= k < |rs| => rs[k].start)
  }

  lemma StartsAreKeys(tokens: seq<Token>, js: seq<nat>, rs: seq<Region>)
    requires |rs| == |js| && forall k :: 0 <= k < |js| ==> js[k] < |tokens|
    requires forall a, b :: 0 <= a < b < |js| ==> Key(tokens[js[a]]) < Key(tokens[js[b]])
    requires forall a, b :: 0 <= a < b < |rs| ==> rs[a].start < rs[b].start
    requires forall k :: 0 <= k < |js| ==> exists m :: 0 <= m < |rs| && rs[m].start == Key(tokens[js[k]])
    ensures forall k :: 0 <= k < |js| ==> rs[k].start == Key(tokens[js[k]])
  {
    hide Key;
    var keys, starts := KeysOf(tokens, js), StartsOf(rs);
    forall k | 0 <= k < |keys| ensures keys[k] in starts {
      var m :| 0 <= m < |rs| && rs[m].start == Key(tokens[js[k]]);
      assert starts[m] == keys[k];
    }
    AscendingSubset(keys, starts);
    forall k | 0 <= k < |js| ensures rs[k].start == Key(tokens[js[k]]) {
      assert keys[k] == starts[k];
    }
  }

  /** When a region starts at every marked token's list, each was made where its token was found. */
  lemma ComesHome(doc: string, tree: Tree, ctx: Context, tokens: seq<Token>, gs: seq<Group>, line: nat, rs: seq<Region>)
    requires Groups(ctx, gs) && AllParsed(doc, ctx.lines, tokens, gs) && 1 <= line <= |ctx.lines|
    requires SwapsOnLine(ctx, gs, line - 1, rs) && InOrder(tree, ctx.lines[line - 1], rs)
    requires forall j: nat :: j < |gs| && IsMarked(ctx, gs, line, j) ==> HasStart(rs, Key(tokens[j]))
    ensures Home(ctx, gs, tokens, line)
  {
    hide TokenReplacement, IsGroup, InContext, LineReps, Parsed, Home, Greedy, InOrder, RegionOf, Key;
    hide Marks, IsMarked, OwnColumns, KeysGrow;
    LineRepsMarked(ctx, gs, line);
    var js, reps := Marks(ctx, gs, line), LineReps(ctx, gs, line);
    KeysAscend(doc, ctx, tokens, gs, line, js);
    RegionsAscend(tree, ctx.lines[line - 1], rs);
    StartsAreKeys(tokens, js, rs);
    var at := Greedy(ctx.lines[line - 1], reps, 0).value;
    OwnFromStarts(doc, ctx, tokens, gs, line, at);
    HomeIff(ctx, gs, tokens, line);
  }

  lemma OwnFromStarts(doc: string, ctx: Context, tokens: seq<Token>, gs: seq<Group>, line: nat, at: seq<nat>)
    requires Groups(ctx, gs) && AllParsed(doc, ctx.lines, tokens, gs)
    requires |at| == |LineReps(ctx, gs, line)| == |Marks(ctx, gs, line)|
    requires forall k :: 0 <= k < |at| ==>
               RegionsOf(LineReps(ctx, gs, line), at)[k].start == Key(tokens[Marks(ctx, gs, line)[k]])
    ensures at == OwnColumns(ctx, gs, tokens, line)
  {
    hide TokenReplacement, IsGroup, InContext, LineReps, Parsed, RegionOf, Key, IsMarked, KeysGrow;
    LineRepsMarked(ctx, gs, line);
    var js, reps, own := Marks(ctx, gs, line), LineReps(ctx, gs, line), OwnColumns(ctx, gs, tokens, line);
    hide Marks;
    forall k | 0 <= k < |js| ensures at[k] == own[k] {
      assert RegionsOf(reps, at)[k] == RegionOf(reps[k], at[k]);
      OwnRegion(doc, ctx, tokens[js[k]], gs[js[k]], reps[k]);
    }
  }

  lemma KeysAscend(doc: string, ctx: Context, tokens: seq<Token>, gs: seq<Group>, line: nat, js: seq<nat>)
    requires Groups(ctx, gs) && AllParsed(doc, ctx.lines, tokens, gs)
    requires forall k :: 0 <= k < |js| ==> js[k] < |gs| && IsMarked(ctx, gs, line, js[k])
    requires forall a, b :: 0 <= a < b < |js| ==> js[a] < js[b]
    ensures forall a, b :: 0 <= a < b < |js| ==> Key(tokens[js[a]]) < Key(tokens[js[b]])
  {
    hide Groups, Parsed, IsMarked;
    forall k | 0 <= k < |js| ensures tokens[js[k]].docLine == line {
      MarkedOnLine(doc, ctx, tokens, gs, line, js[k]);
    }
  }

  lemma {:induction false} RegionsAscend(tree: Tree, line: string, rs: seq<Region>)
    requires InOrder(tree, line, rs)
    ensures forall i, j :: 0 <= i < j < |rs| ==> rs[i].start < rs[j].start
    decreases |rs|
  {
    if rs != [] {
      InOrderTail(tree, line, rs);
      StartsAscend(tree, line, rs);
      hide InOrder;
      RegionsAscend(tree, line, rs[1..]);
      forall i, j | 0 <= i < j < |rs| ensures rs[i].start < rs[j].start {
        assert rs[j] == rs[1..][j - 1] && (i > 0 ==> rs[i] == rs[1..][i - 1]);
      }
    }
  }

  // ------------------------------------------------------------------ as many spans

  lemma RespannedCount(was: string, text: string, spans: string, spans': string)
    requires Respanned(was, text, spans, spans') && |Split(was, ',')| == |Split(text, ',')|
    ensures |Split(spans', ',')| == |Split(spans, ',')|
  {
    hide Split, IsSpanList;
    var rest := spans[|was|..];
    assert spans == was + rest;
    if rest != "" {
      SplitAppend(text, ',', rest[1..]);
      SplitAppend(was, ',', rest[1..]);
      assert rest == [','] + rest[1..];
      assert text + [','] + rest[1..] == spans' && was + [','] + rest[1..] == spans;
    } else {
      assert spans' == text && spans == was;
    }
  }

  lemma RegionCount(line: string, reps: seq<Replacement>, pos: nat, at: seq<nat>, k: nat)
    requires AllRespan(reps) && Placement(line, reps, pos, at) && k < |reps| == |at|
    ensures var x := RegionsOf(reps, at)[k];
      x.start <= x.end <= |line| && |Split(line[x.start..x.end], ',')| == |Split(x.text, ',')|
    decreases |reps|
  {
    hide WholeAt, Respans, PathOf, SpansOf, LegalList;
    if k == 0 {
      RegionFits(line, reps[0], at[0]);
      CountOf(reps[0]);
      hide Split, IsSpanList, IsPathChar;
    } else {
      RegionCount(line, reps[1..], at[0] + |reps[0].token|, at[1..], k - 1);
      RegionsTail(reps, at);
    }
  }

  lemma CountOf(r: Replacement)
    requires Respans(r)
    ensures |Split(SpansOf(r.text), ',')| == |Split(SpansOf(r.token), ',')|
  {
    hide Split, SpansOf, PathOf, LegalList, IsSpanList;
  }

  lemma CountKept(doc: string, ctx: Context, tokens: seq<Token>, gs: seq<Group>, i: nat, rs: seq<Region>, key: int,
                  spans: string, spans': string)
    requires Groups(ctx, gs) && AllParsed(doc, ctx.lines, tokens, gs)
    requires i < |ctx.lines| && SwapsOnLine(ctx, gs, i, rs) && ListReread(ctx.lines[i], rs, key, spans, spans')
    ensures |Split(spans', ',')| == |Split(spans, ',')|
  {
    hide Groups, Parsed, LineReps, Greedy, Split, Respanned, WholeAt, AllRespan, Placement, RegionOf;
    LineRespans(doc, ctx, tokens, gs, i + 1);
    var reps := LineReps(ctx, gs, i + 1);
    var at := Greedy(ctx.lines[i], reps, 0).value;
    if k: nat :| k < |rs| && rs[k].start == key {
      RegionCount(ctx.lines[i], reps, 0, at, k);
      RespannedCount(ctx.lines[i][rs[k].start..rs[k].end], rs[k].text, spans, spans');
    }
  }

  // --------------------------------------------------------------- main results

  ghost predicate AllHome(ctx: Context, gs: seq<Group>, tokens: seq<Token>)
    requires Groups(ctx, gs) && |tokens| == |gs|
  {
    forall line :: 1 <= line <= |ctx.lines| ==> Home(ctx, gs, tokens, line)
  }

  lemma CleanTokens(doc: string, tree: Tree, ctx: Context, gs: seq<Group>)
    requires Parse(doc, tree, ctx.lines).problems == [] && Groups(ctx, gs)
    requires GroupsAre(doc, Parse(doc, tree, ctx.lines).tokens, gs)
    ensures AllParsed(doc, ctx.lines, Parse(doc, tree, ctx.lines).tokens, gs)
    ensures forall t <- Parse(doc, tree, ctx.lines).tokens :: LegalList(t.spans) && 1 <= t.docLine <= |ctx.lines|
  {
    hide Parse, Scoped, KeysGrow, InPlace, IsGroup, InContext, TokenCitations, IsSpanList, LegalList, PathOf, SpansOf, GroupLine;
    ParsePlaced(doc, tree, ctx.lines);
    ParseGood(doc, tree, ctx.lines);
    var st := Parse(doc, tree, ctx.lines);
    forall t <- st.tokens ensures LegalList(t.spans) {
      CleanSpans(doc, tree, st, t);
    }
    forall j | 0 <= j < |gs| ensures Parsed(doc, ctx.lines, st.tokens[j], gs[j]) {
      assert st.tokens[j] in st.tokens;
      FirstOfGroup(doc, st.tokens[j], gs[j]);
    }
  }

  lemma CleanSpans(doc: string, tree: Tree, st: State, t: Token)
    requires Accounted(doc, tree, st) && st.problems == [] && t in st.tokens
    ensures LegalList(t.spans)
  {
    hide IsChunk, ChunkRange, LegalRange, Split, IsSpanList, AllCitations, TokenCitations, SpansOf, PathOf;
    ChunksOfSpanList(t.spans);
  }

  lemma FirstOfGroup(doc: string, t: Token, g: Group)
    requires LegalList(t.spans) && IsSpanList(t.spans) && g == TokenCitations(doc, t) && IsGroup(g)
    ensures g[0].raw == t.raw && g[0].docLine == t.docLine
  {
    hide IsSpanList, Split, IsChunk, ChunkRange, LegalRange, SpansOf;
    GroupByChunks(doc, t);
  }

  /** One token of the document before and after, with its line's swaps. */
  ghost predicate TokenThen(doc: string, ctx: Context, tokens: seq<Token>, gs: seq<Group>, j: nat, t': Token, g': Group, rs: seq<Region>)
    requires Groups(ctx, gs) && |tokens| == |gs| && j < |gs|
  {
    var t := tokens[j];
    && 1 <= t.docLine <= |ctx.lines| && GroupLine(gs[j]) == t.docLine && SwapsOnLine(ctx, gs, t.docLine - 1, rs)
    && SameToken(t, t') && ListReread(ctx.lines[t.docLine - 1], rs, Key(t), t.spans, t'.spans)
    && LegalList(t.spans) && LegalList(t'.spans) && g' == TokenCitations(doc, t')
  }

  lemma TokenLands(doc: string, ctx: Context, tokens: seq<Token>, gs: seq<Group>, j: nat, t': Token, g': Group, rs: seq<Region>)
    requires Groups(ctx, gs) && AllParsed(doc, ctx.lines, tokens, gs) && j < |gs|
    requires TokenThen(doc, ctx, tokens, gs, j, t', g', rs) && Home(ctx, gs, tokens, tokens[j].docLine)
    ensures AsPlanned(gs[j], TokenDecisions(ctx, gs[j]), g')
  {
    hide TokenReplacement, TokenDecisions, IsGroup, InContext, InPlace, KeysGrow, Home, SwapsOnLine, ListReread, LegalList, TokenCitations, AsPlanned, SameToken;
    HomeReads(doc, ctx, tokens, gs, j, rs, t'.spans);
    if TokenReplacement(ctx, gs[j]) == [] {
      StillThere(doc, ctx, tokens[j], t', gs[j]);
    } else {
      MovedThere(doc, ctx, tokens[j], t', gs[j]);
    }
  }

  lemma TokenHit(doc: string, ctx: Context, tokens: seq<Token>, gs: seq<Group>, j: nat, t': Token, g': Group, rs: seq<Region>)
    requires Groups(ctx, gs) && AllParsed(doc, ctx.lines, tokens, gs) && j < |gs|
    requires TokenThen(doc, ctx, tokens, gs, j, t', g', rs) && TokenReplacement(ctx, gs[j]) != []
    requires MovesAway(gs[j], TokenDecisions(ctx, gs[j])) && AsPlanned(gs[j], TokenDecisions(ctx, gs[j]), g')
    ensures HasStart(rs, Key(tokens[j]))
  {
    hide TokenReplacement, TokenDecisions, IsGroup, InContext, InPlace, KeysGrow, SwapsOnLine, LegalList, TokenCitations, AsPlanned, SameToken, Respanned, Key;
    if forall k :: 0 <= k < |rs| ==> rs[k].start != Key(tokens[j]) {
      DecisionCount(ctx, gs[j]);
      MissedThere(doc, ctx, tokens[j], t', gs[j]);
    }
  }

  lemma DecisionCount(ctx: Context, g: Group)
    requires AllInContext(ctx, g)
    ensures |TokenDecisions(ctx, g)| == |g|
  {
    hide DecisionOf;
  }

  lemma TokenCount(doc: string, ctx: Context, tokens: seq<Token>, gs: seq<Group>, j: nat, t': Token, g': Group, rs: seq<Region>)
    requires Groups(ctx, gs) && AllParsed(doc, ctx.lines, tokens, gs) && j < |gs|
    requires TokenThen(doc, ctx, tokens, gs, j, t', g', rs)
    ensures |g'| == |gs[j]| == |TokenDecisions(ctx, gs[j])|
  {
    hide TokenDecisions, IsGroup, InContext, InPlace, KeysGrow, SwapsOnLine, LegalList, TokenCitations, SameToken, Split, ListReread, IsSpanList;
    var t := tokens[j];
    CountKept(doc, ctx, tokens, gs, t.docLine - 1, rs, Key(t), t.spans, t'.spans);
    GroupByChunks(doc, t);
    GroupByChunks(doc, t');
    DecisionCount(ctx, gs[j]);
  }

  /** The document before and after, token by token. */
  ghost predicate AllThen(doc: string, tree: Tree, ctx: Context, tokens: seq<Token>, gs: seq<Group>, tokens': seq<Token>, gs': seq<Group>,
                          rss: seq<seq<Region>>)
    requires Groups(ctx, gs)
  {
    && AllParsed(doc, ctx.lines, tokens, gs) && |tokens'| == |gs'| == |gs| == |tokens| && |rss| == |ctx.lines|
    && (forall j :: 0 <= j < |gs| ==> 1 <= tokens[j].docLine <= |rss|)
    && (forall j :: 0 <= j < |gs| ==> TokenThen(doc, ctx, tokens, gs, j, tokens'[j], gs'[j], rss[tokens[j].docLine - 1]))
    && (forall i :: 0 <= i < |rss| ==> SwapsOnLine(ctx, gs, i, rss[i]) && InOrder(tree, ctx.lines[i], rss[i]))
  }

  lemma AllLands(doc: string, tree: Tree, ctx: Context, tokens: seq<Token>, gs: seq<Group>, tokens': seq<Token>, gs': seq<Group>,
                 rss: seq<seq<Region>>)
    requires Groups(ctx, gs) && AllThen(doc, tree, ctx, tokens, gs, tokens', gs', rss)
    ensures |Flatten(gs')| == |Flatten(gs)| == |Flatten(SettledAll(ctx, gs))|
    ensures AllHome(ctx, gs, tokens) ==> AsPlanned(Flatten(gs), Flatten(SettledAll(ctx, gs)), Flatten(gs'))
    ensures MovesAway(Flatten(gs), Flatten(SettledAll(ctx, gs))) && AsPlanned(Flatten(gs), Flatten(SettledAll(ctx, gs)), Flatten(gs')) ==>
              AllHome(ctx, gs, tokens)
  {
    hide TokenReplacement, TokenDecisions, Groups, AllParsed, TokenThen, SwapsOnLine, InOrder, Home, MovesAway, AsPlanned, Flatten, SettledAll, IsMarked;
    forall j | 0 <= j < |gs| ensures |gs'[j]| == |gs[j]| == |DecisionsAt(ctx, gs, j)| {
      TokenCount(doc, ctx, tokens, gs, j, tokens'[j], gs'[j], rss[tokens[j].docLine - 1]);
    }
    FlattenCount(gs, gs');
    FlattenAt(ctx, gs, gs');
    if AllHome(ctx, gs, tokens) {
      forall j | 0 <= j < |gs| ensures AsPlanned(gs[j], DecisionsAt(ctx, gs, j), gs'[j]) {
        TokenLands(doc, ctx, tokens, gs, j, tokens'[j], gs'[j], rss[tokens[j].docLine - 1]);
      }
    }
    if MovesAway(Flatten(gs), Flatten(SettledAll(ctx, gs))) && AsPlanned(Flatten(gs), Flatten(SettledAll(ctx, gs)), Flatten(gs')) {
      forall line | 1 <= line <= |ctx.lines| ensures Home(ctx, gs, tokens, line) {
        LineComesHome(doc, tree, ctx, tokens, gs, tokens', gs', rss, line);
      }
    }
  }

  lemma LineComesHome(doc: string, tree: Tree, ctx: Context, tokens: seq<Token>, gs: seq<Group>, tokens': seq<Token>, gs': seq<Group>,
                      rss: seq<seq<Region>>, line: nat)
    requires Groups(ctx, gs) && AllThen(doc, tree, ctx, tokens, gs, tokens', gs', rss) && 1 <= line <= |ctx.lines|
    requires forall j :: 0 <= j < |gs| ==> MovesAway(gs[j], DecisionsAt(ctx, gs, j)) && AsPlanned(gs[j], DecisionsAt(ctx, gs, j), gs'[j])
    ensures Home(ctx, gs, tokens, line)
  {
    hide TokenReplacement, TokenDecisions, Groups, AllParsed, TokenThen, SwapsOnLine, InOrder, Home, MovesAway, AsPlanned, IsMarked;
    var rs := rss[line - 1];
    forall j: nat | j < |gs| && IsMarked(ctx, gs, line, j) ensures HasStart(rs, Key(tokens[j])) {
      MarkedHit(doc, tree, ctx, tokens, gs, tokens', gs', rss, line, j);
    }
    ComesHome(doc, tree, ctx, tokens, gs, line, rs);
  }

  predicate HasStart(rs: seq<Region>, key: int) {
    exists k :: 0 <= k < |rs| && rs[k].start == key
  }

  lemma MarkedHit(doc: string, tree: Tree, ctx: Context, tokens: seq<Token>, gs: seq<Group>, tokens': seq<Token>, gs': seq<Group>,
                  rss: seq<seq<Region>>, line: nat, j: nat)
    requires Groups(ctx, gs) && AllThen(doc, tree, ctx, tokens, gs, tokens', gs', rss) && 1 <= line <= |ctx.lines|
    requires j < |gs| && IsMarked(ctx, gs, line, j)
    requires MovesAway(gs[j], DecisionsAt(ctx, gs, j)) && AsPlanned(gs[j], DecisionsAt(ctx, gs, j), gs'[j])
    ensures HasStart(rss[line - 1], Key(tokens[j]))
  {
    hide TokenReplacement, TokenDecisions, IsGroup, InContext, AllParsed, TokenThen, SwapsOnLine, InOrder, MovesAway, AsPlanned, IsMarked, Key;
    MarkedOnLine(doc, ctx, tokens, gs, line, j);
    MarkedReplaced(ctx, gs, line, j);
    TokenHit(doc, ctx, tokens, gs, j, tokens'[j], gs'[j], rss[line - 1]);
  }

  ghost function DecisionsAt(ctx: Context, gs: seq<Group>, j: nat): seq<Decision>
    requires Groups(ctx, gs) && j < |gs|
  {
    TokenDecisions(ctx, gs[j])
  }

  lemma MarkedReplaced(ctx: Context, gs: seq<Group>, line: nat, j: nat)
    requires Groups(ctx, gs) && j < |gs| && IsMarked(ctx, gs, line, j)
    ensures AllInContext(ctx, gs[j]) && IsGroup(gs[j]) && TokenReplacement(ctx, gs[j]) != []
  {
    hide TokenReplacement, IsGroup, InContext;
  }

  lemma {:induction false} FlattenCount(gs: seq<Group>, gs': seq<Group>)
    requires |gs'| == |gs| && forall j :: 0 <= j < |gs| ==> |gs'[j]| == |gs[j]|
    ensures |Flatten(gs')| == |Flatten(gs)|
  {
    if gs != [] {
      FlattenCount(gs[1..], gs'[1..]);
    }
  }

  lemma FlattenAt(ctx: Context, gs: seq<Group>, gs': seq<Group>)
    requires Groups(ctx, gs) && |gs'| == |gs|
    requires forall j :: 0 <= j < |gs| ==> |gs'[j]| == |gs[j]| == |DecisionsAt(ctx, gs, j)|
    ensures |Flatten(SettledAll(ctx, gs))| == |Flatten(gs)|
    ensures AsPlanned(Flatten(gs), Flatten(SettledAll(ctx, gs)), Flatten(gs')) <==>
            forall j :: 0 <= j < |gs| ==> AsPlanned(gs[j], DecisionsAt(ctx, gs, j), gs'[j])
    ensures MovesAway(Flatten(gs), Flatten(SettledAll(ctx, gs))) <==>
            forall j :: 0 <= j < |gs| ==> MovesAway(gs[j], DecisionsAt(ctx, gs, j))
  {
    hide TokenDecisions, IsGroup, InContext, AsPlanned, MovesAway, Flatten, SettledAll;
    forall j | 0 <= j < |gs| ensures AllInContext(ctx, gs[j]) && DecisionsAt(ctx, gs, j) == TokenDecisions(ctx, gs[j]) {
    }
    FlattenPlanned(ctx, gs, gs');
  }

  lemma DocumentLands(doc: string, tree: Tree, ctx: Context, gs: seq<Group>, now: seq<string>)
    requires Parse(doc, tree, ctx.lines).problems == [] && Groups(ctx, gs) && QuietLines(tree, ctx, gs)
    requires GroupsAre(doc, Parse(doc, tree, ctx.lines).tokens, gs) && LinesRewritten(ctx, gs, now)
    ensures var tokens, after, ds := Parse(doc, tree, ctx.lines).tokens, Parse(doc, tree, now), Flatten(SettledAll(ctx, gs));
      && after.problems == [] && |after.citations| == |Flatten(gs)| == |ds| && |tokens| == |gs|
      && (AllHome(ctx, gs, tokens) ==> AsPlanned(Flatten(gs), ds, after.citations))
      && (MovesAway(Flatten(gs), ds) && AsPlanned(Flatten(gs), ds, after.citations) ==> AllHome(ctx, gs, tokens))
  {
    hide Parse, IsGroup, InContext, LinesRewritten, QuietLines, AllInOrder, SettledAll, Flatten, AllHome, MovesAway, AsPlanned, Reread, AllParsed, LegalList, InOrder, SwapsOnLine;
    CleanTokens(doc, tree, ctx, gs);
    var tokens := Parse(doc, tree, ctx.lines).tokens;
    var rss := AllSwaps(doc, tree, ctx, tokens, gs, now);
    SwappedDocumentReads(doc, tree, ctx.lines, rss);
    var tokens' := Parse(doc, tree, now).tokens;
    var gs' := ParsedInWholeTokens(doc, tree, now);
    AfterTokens(doc, tree, ctx, tokens, gs, tokens', gs', rss, now);
    AllLands(doc, tree, ctx, tokens, gs, tokens', gs', rss);
  }

  lemma AfterTokens(doc: string, tree: Tree, ctx: Context, tokens: seq<Token>, gs: seq<Group>, tokens': seq<Token>, gs': seq<Group>,
                    rss: seq<seq<Region>>, now: seq<string>)
    requires Groups(ctx, gs) && AllParsed(doc, ctx.lines, tokens, gs) && GroupsAre(doc, tokens, gs)
    requires forall t <- tokens :: LegalList(t.spans) && 1 <= t.docLine <= |ctx.lines|
    requires tokens' == Parse(doc, tree, now).tokens && Parse(doc, tree, now).problems == [] && GroupsAre(doc, tokens', gs')
    requires SwapsMade(ctx, gs, rss) && AllInOrder(tree, ctx.lines, rss) && |tokens'| == |tokens|
    requires forall k :: 0 <= k < |tokens| ==> Reread(ctx.lines, rss, |ctx.lines|, tokens[k], tokens'[k])
    ensures AllThen(doc, tree, ctx, tokens, gs, tokens', gs', rss)
  {
    hide Parse, IsGroup, InContext, AllParsed, LegalList, InOrder, SwapsOnLine, ListReread, SameToken, TokenCitations, IsSpanList, GroupLine;
    ParseGood(doc, tree, now);
    forall j | 0 <= j < |gs| ensures 1 <= tokens[j].docLine <= |rss| && TokenThen(doc, ctx, tokens, gs, j, tokens'[j], gs'[j], rss[tokens[j].docLine - 1]) {
      assert tokens[j] in tokens && tokens'[j] in tokens';
      CleanSpans(doc, tree, Parse(doc, tree, now), tokens'[j]);
    }
  }

  // ------------------------------------------------------------------ of a run

  /** The planned document's replacements all land where the parser found their tokens. */
  ghost predicate LandsHome(inputs: Inputs, doc: string, text: string) {
    var ctx := ContextOf(inputs, text);
    exists gs :: InWholeTokens(Parse(doc, inputs.tree, ctx.lines).citations, gs) && HomeIn(inputs, doc, text, gs)
  }

  ghost predicate HomeIn(inputs: Inputs, doc: string, text: string, gs: seq<Group>) {
    var ctx := ContextOf(inputs, text);
    var tokens := Parse(doc, inputs.tree, ctx.lines).tokens;
    Groups(ctx, gs) && |tokens| == |gs| && AllHome(ctx, gs, tokens)
  }

  /** The document's replacements leave the names in front of its colons alone. */
  ghost predicate LeavesNames(inputs: Inputs, doc: string, text: string) {
    var ctx := ContextOf(inputs, text);
    forall gs :: InWholeTokens(Parse(doc, inputs.tree, ctx.lines).citations, gs) && Groups(ctx, gs) ==> QuietLines(inputs.tree, ctx, gs)
  }

  lemma NamesLeft(inputs: Inputs, doc: string, text: string, gs: seq<Group>)
    requires LeavesNames(inputs, doc, text) && Groups(ContextOf(inputs, text), gs)
    requires InWholeTokens(Parse(doc, inputs.tree, SplitLines(text)).citations, gs)
    ensures QuietLines(inputs.tree, ContextOf(inputs, text), gs)
  {
    hide QuietLines, InWholeTokens, Groups, Parse, SplitLines;
  }

  lemma PlanLands(inputs: Inputs, doc: string, text: string, p: DocPlan, now: string, gs: seq<Group>)
    requires var st := Parse(doc, inputs.tree, SplitLines(text)); st.problems == [] && p.citations == st.citations
    requires PlannedWith(inputs, text, p.citations, p.ds, p.edits, gs) && LeavesNames(inputs, doc, text)
    requires (forall e <- p.edits :: e.line >= 1) && Replaced(text, p.edits) == Some(now)
    ensures var after := Parse(doc, inputs.tree, SplitLines(now));
      && after.problems == [] && |after.citations| == |p.citations| == |p.ds|
      && (LandsHome(inputs, doc, text) ==> AsPlanned(p.citations, p.ds, after.citations))
      && (MovesAway(p.citations, p.ds) && AsPlanned(p.citations, p.ds, after.citations) ==> LandsHome(inputs, doc, text))
  {
    hide Parse, SplitLines, IsGroup, InContext, PerLine, Runs, EditsOf, ProblemsOf, SettledAll, AllHome, MovesAway, AsPlanned, LeavesNames, QuietLines, Replaced, LinesRewritten;
    var ctx := ContextOf(inputs, text);
    FlattenInContext(ctx, gs);
    NamesLeft(inputs, doc, text, gs);
    PlannedText(ctx, text, p.citations, gs);
    var own := ParsedInWholeTokens(doc, inputs.tree, ctx.lines);
    GroupsAreUnique(own, gs);
    DocumentLands(doc, inputs.tree, ctx, gs, SplitLines(now));
    forall other | InWholeTokens(p.citations, other) ensures other == gs {
      GroupsAreUnique(other, gs);
    }
  }

  /** With no file named by digits and dashes alone, every plan leaves the names alone. */
  lemma NamesAreLeft(inputs: Inputs, doc: string, text: string)
    requires NoNumberNames(inputs.tree) && Parse(doc, inputs.tree, SplitLines(text)).problems == []
    ensures LeavesNames(inputs, doc, text)
  {
    hide Parse, SplitLines, Groups, QuietLines, NoNumberNames, IsGroup;
    var ctx := ContextOf(inputs, text);
    forall gs | InWholeTokens(Parse(doc, inputs.tree, ctx.lines).citations, gs) && Groups(ctx, gs)
      ensures QuietLines(inputs.tree, ctx, gs)
    {
      var own := ParsedInWholeTokens(doc, inputs.tree, ctx.lines);
      GroupsAreUnique(own, gs);
      CleanTokens(doc, inputs.tree, ctx, gs);
      AllLinesQuiet(doc, inputs.tree, ctx, Parse(doc, inputs.tree, ctx.lines).tokens, gs);
    }
  }

  lemma AllLinesQuiet(doc: string, tree: Tree, ctx: Context, tokens: seq<Token>, gs: seq<Group>)
    requires Groups(ctx, gs) && AllParsed(doc, ctx.lines, tokens, gs) && NoNumberNames(tree)
    ensures QuietLines(tree, ctx, gs)
  {
    hide Groups, AllParsed, LineReps, NoNumberNames, QuietAt, Greedy, AllRespan, Placement;
    forall i | 0 <= i < |ctx.lines| ensures QuietLine(tree, ctx, gs, i) {
      LineRespans(doc, ctx, tokens, gs, i + 1);
      var reps := LineReps(ctx, gs, i + 1);
      var at := Greedy(ctx.lines[i], reps, 0);
      if at.Some? {
        QuietUnlessNumbered(tree, ctx.lines[i], reps, 0, at.value);
      }
    }
  }

  /** A planned document, written and parsed again, has no problem and as many citations as it
      had; they are the old ones, in order, at the ranges decided, when every replaced token is
      met first where the parser found it, and, when every move changes its range, only then. */
  lemma LandsAsPlannedIff(plan: map<string, DocPlan>, docs: map<string, string>, inputs: Inputs, scan: seq<string>, d: string)
    requires IsPlan(plan, docs, inputs, scan) && d in plan && CleanParse(docs, inputs.tree, scan)
    requires LeavesNames(inputs, d, docs[d])
    ensures d in docs
    ensures var after := Parse(d, inputs.tree, SplitLines(After(plan, d, docs[d])));
      && after.problems == [] && |after.citations| == |plan[d].citations| == |plan[d].ds|
      && (LandsHome(inputs, d, docs[d]) ==> AsPlanned(plan[d].citations, plan[d].ds, after.citations))
      && (MovesAway(plan[d].citations, plan[d].ds) ==>
            (AsPlanned(plan[d].citations, plan[d].ds, after.citations) <==> LandsHome(inputs, d, docs[d])))
  {
    hide Parse, SplitLines, Replaced, PlannedWith, LandsHome, AsPlanned, MovesAway, LeavesNames, LineEdits, OnlyEdited, SplitParts;
    PlanEditsLines(plan, docs, inputs, scan, d);
    var p := plan[d];
    var gs :| PlannedWith(inputs, docs[d], p.citations, p.ds, p.edits, gs);
    PlanIsLineEdits(inputs, docs[d], p.citations, p.ds, p.edits, gs);
    PlanLands(inputs, d, docs[d], p, After(plan, d, docs[d]), gs);
  }

  /** In a planned document every move changes the range. */
  lemma PlanMovesAway(plan: map<string, DocPlan>, docs: map<string, string>, inputs: Inputs, scan: seq<string>, d: string)
    requires IsPlan(plan, docs, inputs, scan) && d in plan && AllComparable(inputs)
    ensures MovesAway(plan[d].citations, plan[d].ds)
  {
    hide Parse, SplitLines, PlannedAs, Plain, Comparable, Decided;
    var p := plan[d];
    forall k | 0 <= k < |p.citations| && p.ds[k].status == Shifted
      ensures p.ds[k].placed != Some((p.citations[k].start, p.citations[k].end))
    {
      var c := p.citations[k];
      PlannedShift(inputs, docs[d], p.citations, p.ds, p.edits, k);
      ShiftedMovesAway(inputs.parents, inputs.index[c.target], inputs.links, SplitLines(docs[d])[c.docLine - 1], c);
    }
  }

  /** The written document says what was decided exactly when every replaced token is met first
      where the parser found it. */
  lemma LandsAsDecidedIff(plan: map<string, DocPlan>, docs: map<string, string>, inputs: Inputs, scan: seq<string>, d: string)
    requires IsPlan(plan, docs, inputs, scan) && d in plan && CleanParse(docs, inputs.tree, scan)
    requires AllComparable(inputs) && LeavesNames(inputs, d, docs[d])
    ensures d in docs
    ensures var after := Parse(d, inputs.tree, SplitLines(After(plan, d, docs[d])));
      && after.problems == []
      && (AsPlanned(plan[d].citations, plan[d].ds, after.citations) <==> LandsHome(inputs, d, docs[d]))
  {
    hide Parse, SplitLines, IsPlan, CleanParse, AllComparable, LandsHome, AsPlanned, MovesAway, LeavesNames, After;
    LandsAsPlannedIff(plan, docs, inputs, scan, d);
    PlanMovesAway(plan, docs, inputs, scan, d);
  }

  // ---------------------------------------------------------------- the whole run

  /** Every planned document's replacements land where the parser found their tokens. */
  ghost predicate AllLandHome(plan: map<string, DocPlan>, docs: map<string, string>, inputs: Inputs) {
    forall d <- plan :: d in docs && LeavesNames(inputs, d, docs[d]) && LandsHome(inputs, d, docs[d])
  }

  ghost predicate AllAsPlanned(plan: map<string, DocPlan>, docs: map<string, string>, tree: Tree) {
    forall d <- plan :: d in docs && AsPlanned(plan[d].citations, plan[d].ds, ParsedDoc(docs, tree, d).citations)
  }

  /** When everything lands, the documents as planned say what was decided, citation by citation,
      and the read-back cannot fail. */
  lemma HomeReadsBack(plan: map<string, DocPlan>, docs: map<string, string>, inputs: Inputs, scan: seq<string>)
    requires IsPlan(plan, docs, inputs, scan) && CleanParse(docs, inputs.tree, scan) && AllLandHome(plan, docs, inputs)
    ensures AllAsPlanned(plan, AfterAll(plan, docs), inputs.tree)
    ensures ReadsBack(plan, docs, inputs.tree, scan)
  {
    hide Parse, SplitLines, PlannedAs, LandsHome, AsPlanned, LeavesNames, After, AnchorsOf, ReadsAs;
    var after := AfterAll(plan, docs);
    forall d <- plan
      ensures d in docs && ParsedDoc(after, inputs.tree, d).problems == []
      ensures AsPlanned(plan[d].citations, plan[d].ds, ParsedDoc(after, inputs.tree, d).citations)
    {
      LandsAsPlannedIff(plan, docs, inputs, scan, d);
    }
    forall d <- scan ensures d in after && ParsedDoc(after, inputs.tree, d).problems == [] {
      if d !in plan {
        NotPlanned(plan, d, docs[d]);
      }
    }
    forall a: Anchor | Wanted(plan, a) ensures ReadsAs(after, inputs.tree, scan, a) {
      var d :| d in plan && AnchorsOf(plan[d].citations, plan[d].ds, a);
      OwnDocument(d, inputs.tree, SplitLines(docs[d]));
      AnchorThere(after, inputs.tree, scan, d, plan[d].citations, plan[d].ds, a);
    }
  }

  lemma NotPlanned(plan: map<string, DocPlan>, d: string, text: string)
    requires d !in plan
    ensures After(plan, d, text) == text
  {
  }

  lemma OwnDocument(d: string, tree: Tree, lines: seq<string>)
    ensures forall c <- Parse(d, tree, lines).citations :: c.doc == d
  {
    hide Parse, WellWritten;
    forall c <- Parse(d, tree, lines).citations ensures c.doc == d {
      CitationsAreWritten(d, tree, lines, c);
    }
  }

  lemma AnchorThere(after: map<string, string>, tree: Tree, scan: seq<string>, d: string, cs: seq<Citation>, ds: seq<Decision>, a: Anchor)
    requires d in scan && d in after && AsPlanned(cs, ds, ParsedDoc(after, tree, d).citations) && AnchorsOf(cs, ds, a)
    requires forall c <- cs :: c.doc == d
    ensures ReadsAs(after, tree, scan, a)
  {
    hide Parse, SplitLines;
    var k :| 0 <= k < |cs| && k < |ds| && ds[k].status == Shifted && ds[k].placed == Some((a.start, a.end)) &&
             cs[k].doc == a.doc && cs[k].target == a.target;
    var found := ParsedDoc(after, tree, d).citations;
    assert cs[k] in cs && ReadsAsDecided(cs[k], ds[k], found[k]);
    assert found[k] in found;
  }
}
