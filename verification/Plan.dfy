/** One document's plan: a decision for every citation, and the rewritten lines
    (scripts/relocate-citations.py:795-807, 937-1022). */
module Plan {
  import opened Text
  import opened LineBreaks
  import opened LineIndex
  import opened Citations
  import opened CitationScope
  import opened Relocate
  import opened Decide
  import opened Agreement
  import opened TokenRewrite

  /** What deciding a document's citations reads: the sides, the working files, the working
      tree's symlinks and the document's lines. */
  datatype Context = Context(
    parents: seq<Parent>, index: map<string, SourceIndex>, links: set<string>, lines: seq<string>)

  predicate InContext(ctx: Context, c: Citation) {
    && c.target in ctx.index && ctx.index[c.target].sep != ""
    && 1 <= c.docLine <= |ctx.lines| && 1 <= c.start <= c.end
  }

  predicate AllInContext(ctx: Context, citations: seq<Citation>) {
    forall k :: 0 <= k < |citations| ==> InContext(ctx, citations[k])
  }

  ghost function DecisionOf(ctx: Context, c: Citation): Decision
    requires InContext(ctx, c)
  {
    Decided(ctx.parents, ctx.index[c.target], ctx.links, ctx.lines[c.docLine - 1], c)
  }

  // ------------------------------------------------------------ one token

  ghost function Decisions(ctx: Context, g: seq<Citation>): seq<Decision>
    requires AllInContext(ctx, g)
  {
    seq(|g|, j requires 0 <= j < |g| => DecisionOf(ctx, g[j]))
  }

  predicate Moved(ds: seq<Decision>) {
    exists d <- ds :: d.status == Shifted
  }

  predicate Stuck(ds: seq<Decision>) {
    exists d <- ds :: d.status != Right && d.status != Shifted
  }

  function Demoted(d: Decision): Decision {
    if d.status == Shifted then d.(status := Ambiguous, placed := None) else d
  }

  /** A token with a span that cannot be placed is left whole: its shifts are taken back. */
  function Settled(ds: seq<Decision>): (r: seq<Decision>)
    ensures |r| == |ds|
  {
    if Moved(ds) && Stuck(ds) then seq(|ds|, j requires 0 <= j < |ds| => Demoted(ds[j])) else ds
  }

  function WrittenSpans(g: seq<Citation>): seq<string>
    requires g != []
  {
    Split(SpansOf(g[0].raw), ',')
  }

  function NewSpan(d: Decision, written: string): string {
    if d.status == Shifted && d.placed.Some? then SpanText(d.placed.value.0, d.placed.value.1) else written
  }

  function NewSpans(g: seq<Citation>, ds: seq<Decision>): seq<string>
    requires g != [] && |ds| == |g| == |WrittenSpans(g)|
  {
    seq(|g|, j requires 0 <= j < |g| => NewSpan(ds[j], WrittenSpans(g)[j]))
  }

  function ReplacementOf(g: seq<Citation>, ds: seq<Decision>): seq<Replacement>
    requires g != [] && |ds| == |g| == |WrittenSpans(g)|
  {
    if Moved(ds) && !Stuck(ds) then
      [Replacement(g[0].raw, PathOf(g[0].raw) + ":" + Join(NewSpans(g, ds), ","))]
    else []
  }

  lemma GroupShape(ctx: Context, g: seq<Citation>)
    requires AllInContext(ctx, g) && IsGroup(g)
    ensures g != [] && |Decisions(ctx, g)| == |g| == |WrittenSpans(g)|
  {
    hide IsChunk, ChunkRange, Split, SpansOf, InContext, Decided;
  }

  ghost function TokenDecisions(ctx: Context, g: seq<Citation>): seq<Decision>
    requires AllInContext(ctx, g)
  {
    Settled(Decisions(ctx, g))
  }

  ghost function TokenReplacement(ctx: Context, g: seq<Citation>): seq<Replacement>
    requires AllInContext(ctx, g) && IsGroup(g)
  {
    hide IsGroup, Decisions, WrittenSpans, InContext;
    GroupShape(ctx, g);
    ReplacementOf(g, Decisions(ctx, g))
  }

  method PlanToken(ctx: Context, g: seq<Citation>) returns (ds: seq<Decision>, reps: seq<Replacement>)
    requires AllInContext(ctx, g) && IsGroup(g)
    ensures ds == TokenDecisions(ctx, g) && reps == TokenReplacement(ctx, g)
  {
    hide Decisions, SpansOf, Split, Join, SpanText, IsChunk, ChunkRange, NewSpan;
    var newSpans, moved, stuck;
    ds, newSpans, moved, stuck := DecideSpans(ctx, g);
    reps := [];
    if stuck && moved {
      ds := seq(|ds|, j requires 0 <= j < |ds| => Demoted(ds[j]));
      return;
    }
    if moved {
      reps := [Replacement(g[0].raw, PathOf(g[0].raw) + ":" + Join(newSpans, ","))];
    }
  }

  /** The loop over a token's spans. */
  method DecideSpans(ctx: Context, g: seq<Citation>)
    returns (ds: seq<Decision>, newSpans: seq<string>, moved: bool, stuck: bool)
    requires AllInContext(ctx, g) && IsGroup(g)
    ensures ds == Decisions(ctx, g) && |g| == |WrittenSpans(g)| && newSpans == NewSpans(g, ds)
    ensures moved == Moved(ds) && stuck == Stuck(ds)
  {
    hide Decided, SpansOf, Split, Join, SpanText, IsChunk, ChunkRange;
    var cur := ctx.index[g[0].target];
    var written := WrittenSpans(g);
    ds, newSpans, moved, stuck := [], [], false, false;
    for j := 0 to |g|
      invariant ds == Decisions(ctx, g)[..j] && |newSpans| == j
      invariant moved == Moved(ds) && stuck == Stuck(ds)
      invariant forall k :: 0 <= k < j ==> newSpans[k] == NewSpan(ds[k], written[k])
    {
      var d := DecideCitation(ctx.parents, cur, ctx.links, ctx.lines[g[j].docLine - 1], g[j]);
      PlacedWhenShifted(ctx, g, j, d);
      FlagsStep(ds, d);
      ds := ds + [d];
      if d.status == Shifted {
        moved := true;
        newSpans := newSpans + [SpanText(d.placed.value.0, d.placed.value.1)];
      } else {
        newSpans := newSpans + [written[j]];
        if d.status != Right {
          stuck := true;
        }
      }
    }
    assert ds == Decisions(ctx, g);
  }

  lemma PlacedWhenShifted(ctx: Context, g: seq<Citation>, j: nat, d: Decision)
    requires AllInContext(ctx, g) && IsGroup(g) && j < |g|
    requires d == Decided(ctx.parents, ctx.index[g[0].target], ctx.links, ctx.lines[g[j].docLine - 1], g[j])
    ensures d == DecisionOf(ctx, g[j]) && (d.status == Shifted ==> d.placed.Some?)
  {
    hide Decided;
    UnanimousOrRefused(ctx.parents, ctx.index[g[0].target], ctx.links, ctx.lines[g[j].docLine - 1], g[j]);
  }

  lemma FlagsStep(ds: seq<Decision>, d: Decision)
    ensures Moved(ds + [d]) <==> Moved(ds) || d.status == Shifted
    ensures Stuck(ds + [d]) <==> Stuck(ds) || (d.status != Right && d.status != Shifted)
  {
    forall x ensures x in ds + [d] <==> x in ds || x == d {
    }
  }

  // ------------------------------------------------------------ one line

  type Group = seq<Citation>

  predicate Groups(ctx: Context, gs: seq<Group>) {
    forall k :: 0 <= k < |gs| ==> IsGroup(gs[k]) && AllInContext(ctx, gs[k])
  }

  ghost function SettledAll(ctx: Context, gs: seq<Group>): seq<seq<Decision>>
    requires Groups(ctx, gs)
  {
    if gs == [] then [] else [TokenDecisions(ctx, gs[0])] + SettledAll(ctx, gs[1..])
  }

  ghost function Replacements(ctx: Context, gs: seq<Group>): seq<Replacement>
    requires Groups(ctx, gs)
  {
    if gs == [] then [] else TokenReplacement(ctx, gs[0]) + Replacements(ctx, gs[1..])
  }

  /** The citations of the written token at `index`, counted by the commas in its text. */
  function GroupChunks(citations: seq<Citation>, index: nat): (seq<Citation>, nat)
    requires index < |citations|
  {
    var next := index + |Split(SpansOf(citations[index].raw), ',')|;
    (citations[index..if next <= |citations| then next else |citations|], next)
  }

  lemma GroupChunksTakesToken(citations: seq<Citation>, index: nat, g: Group, rest: seq<Citation>)
    requires index <= |citations| && IsGroup(g) && citations[index..] == g + rest
    ensures index < |citations| && GroupChunks(citations, index) == (g, index + |g|)
    ensures citations[index + |g|..] == rest
  {
    hide IsChunk, ChunkRange, Split, SpansOf;
    assert citations[index..][0] == g[0];
    assert citations[index..index + |g|] == citations[index..][..|g|] == g;
    assert citations[index + |g|..] == citations[index..][|g|..];
  }

  method PlanLine(ctx: Context, cits: seq<Citation>, ghost gs: seq<Group>)
    returns (ds: seq<Decision>, reps: seq<Replacement>)
    requires Groups(ctx, gs) && cits == Flatten(gs)
    ensures ds == Flatten(SettledAll(ctx, gs)) && reps == Replacements(ctx, gs)
  {
    hide IsGroup, TokenDecisions, TokenReplacement, InContext, SettledAll, Replacements, GroupChunks, Flatten;
    ds, reps := [], [];
    var i := 0;
    ghost var m := 0;
    ghost var allDs, allReps := Flatten(SettledAll(ctx, gs)), Replacements(ctx, gs);
    assert gs[0..] == gs && cits[0..] == cits;
    while i < |cits|
      invariant i <= |cits| && m <= |gs| && cits[i..] == Flatten(gs[m..])
      invariant ds + Flatten(SettledAll(ctx, gs[m..])) == allDs
      invariant reps + Replacements(ctx, gs[m..]) == allReps
    {
      NothingLeft(ctx, gs[m..]);
      LineUnfold(ctx, gs, m);
      GroupChunksTakesToken(cits, i, gs[m], Flatten(gs[m + 1..]));
      var (group, next) := GroupChunks(cits, i);
      var groupDs, groupReps := PlanToken(ctx, group);
      ds := ds + groupDs;
      reps := reps + groupReps;
      i := next;
      m := m + 1;
    }
    assert cits[i..] == [];
    NothingLeft(ctx, gs[m..]);
  }

  lemma LineUnfold(ctx: Context, gs: seq<Group>, m: nat)
    requires Groups(ctx, gs) && m < |gs|
    ensures gs[m] != [] && Flatten(gs[m..]) == gs[m] + Flatten(gs[m + 1..])
    ensures Flatten(SettledAll(ctx, gs[m..])) == TokenDecisions(ctx, gs[m]) + Flatten(SettledAll(ctx, gs[m + 1..]))
    ensures Replacements(ctx, gs[m..]) == TokenReplacement(ctx, gs[m]) + Replacements(ctx, gs[m + 1..])
  {
    hide TokenDecisions, TokenReplacement, InContext;
    GroupNotEmpty(gs[m]);
    hide IsGroup;
    assert gs[m..][0] == gs[m] && gs[m..][1..] == gs[m + 1..];
  }

  lemma GroupNotEmpty(g: Group)
    requires IsGroup(g)
    ensures g != []
  {
  }

  lemma NothingLeft(ctx: Context, gs: seq<Group>)
    requires Groups(ctx, gs)
    ensures gs != [] ==> Flatten(gs) != []
    ensures gs == [] ==> Flatten(gs) == [] && Flatten(SettledAll(ctx, gs)) == [] && Replacements(ctx, gs) == []
  {
    hide TokenDecisions, TokenReplacement, InContext;
    if gs != [] {
      GroupNotEmpty(gs[0]);
      assert Flatten(gs) == gs[0] + Flatten(gs[1..]);
    }
  }

  // ------------------------------------------------------------ one document

  /** `by_line`: the citations of each line, in the order their lines first appear. */
  datatype Bucket = Bucket(line: nat, cits: seq<Citation>)

  function BucketOf(byLine: seq<Bucket>, line: nat): (k: nat)
    ensures k <= |byLine| && (k < |byLine| ==> byLine[k].line == line)
    ensures forall j :: 0 <= j < k ==> byLine[j].line != line
  {
    if byLine == [] || byLine[0].line == line then 0 else 1 + BucketOf(byLine[1..], line)
  }

  predicate InLineOrder(citations: seq<Citation>) {
    forall i, j :: 0 <= i < j < |citations| ==> citations[i].docLine <= citations[j].docLine
  }

  predicate Bucketed(byLine: seq<Bucket>) {
    && (forall k :: 0 <= k < |byLine| ==> byLine[k].cits != [])
    && (forall k, c :: 0 <= k < |byLine| && c in byLine[k].cits ==> c.docLine == byLine[k].line)
    && (forall j, k :: 0 <= j < k < |byLine| ==> byLine[j].line < byLine[k].line)
  }

  function AllCits(byLine: seq<Bucket>): seq<Citation> {
    if byLine == [] then [] else byLine[0].cits + AllCits(byLine[1..])
  }

  lemma {:induction false} AllCitsAppend(byLine: seq<Bucket>, b: Bucket)
    ensures AllCits(byLine + [b]) == AllCits(byLine) + b.cits
  {
    if byLine == [] {
      assert [b][1..] == [] && byLine + [b] == [b];
    } else {
      assert (byLine + [b])[1..] == byLine[1..] + [b];
      AllCitsAppend(byLine[1..], b);
    }
  }

  method GroupByLine(citations: seq<Citation>) returns (byLine: seq<Bucket>)
    requires InLineOrder(citations)
    ensures Bucketed(byLine) && AllCits(byLine) == citations
  {
    hide Bucketed, AllCits;
    NoBuckets();
    byLine := [];
    for i := 0 to |citations|
      invariant Bucketed(byLine) && AllCits(byLine) == citations[..i]
      invariant byLine != [] ==> i > 0 && byLine[|byLine| - 1].line == citations[i - 1].docLine
    {
      var c := citations[i];
      assert citations[..i + 1] == citations[..i] + [c];
      LastBucket(byLine, c);
      var k := BucketOf(byLine, c.docLine);
      if k < |byLine| {
        byLine := byLine[k := Bucket(c.docLine, byLine[k].cits + [c])];
      } else {
        byLine := byLine + [Bucket(c.docLine, [c])];
      }
    }
    assert citations[..|citations|] == citations;
  }

  lemma NoBuckets()
    ensures Bucketed([]) && AllCits([]) == []
  {
  }

  /** In line order a citation goes to the last bucket or to a new one. */
  lemma LastBucket(byLine: seq<Bucket>, c: Citation)
    requires Bucketed(byLine) && (byLine != [] ==> byLine[|byLine| - 1].line <= c.docLine)
    ensures var k := BucketOf(byLine, c.docLine);
            var next := if k < |byLine| then byLine[k := Bucket(c.docLine, byLine[k].cits + [c])]
                        else byLine + [Bucket(c.docLine, [c])];
            Bucketed(next) && AllCits(next) == AllCits(byLine) + [c] && next[|next| - 1].line == c.docLine
  {
    var k := BucketOf(byLine, c.docLine);
    if k < |byLine| {
      assert k == |byLine| - 1;
      GrowLast(byLine, c);
    } else {
      AllCitsAppend(byLine, Bucket(c.docLine, [c]));
      assert forall j :: 0 <= j < |byLine| ==> byLine[j].line < c.docLine;
    }
  }

  lemma GrowLast(byLine: seq<Bucket>, c: Citation)
    requires Bucketed(byLine) && byLine != [] && byLine[|byLine| - 1].line == c.docLine
    ensures var k := |byLine| - 1;
            var next := byLine[k := Bucket(c.docLine, byLine[k].cits + [c])];
            Bucketed(next) && AllCits(next) == AllCits(byLine) + [c]
  {
    var k := |byLine| - 1;
    var next := byLine[k := Bucket(c.docLine, byLine[k].cits + [c])];
    assert next == byLine[..k] + [next[k]] && byLine == byLine[..k] + [byLine[k]];
    AllCitsAppend(byLine[..k], next[k]);
    AllCitsAppend(byLine[..k], byLine[k]);
  }

  /** Number of leading tokens written on line `line`. */
  function RunLength(gs: seq<Group>, line: nat): (n: nat)
    ensures n <= |gs| && (n < |gs| ==> GroupLine(gs[n]) != line)
    ensures forall k :: 0 <= k < n ==> GroupLine(gs[k]) == line
  {
    if gs == [] || GroupLine(gs[0]) != line then 0 else 1 + RunLength(gs[1..], line)
  }

  /** The tokens line by line. */
  function Runs(gs: seq<Group>): seq<seq<Group>>
    decreases |gs|
  {
    if gs == [] then []
    else
      var n := RunLength(gs, GroupLine(gs[0]));
      [gs[..n]] + Runs(gs[n..])
  }

  predicate OnLine(cits: seq<Citation>, line: nat) {
    forall c <- cits :: c.docLine == line
  }

  lemma {:induction false} RunOnLine(gs: seq<Group>, line: nat)
    requires forall k :: 0 <= k < |gs| ==> IsGroup(gs[k]) && GroupLine(gs[k]) == line
    ensures OnLine(Flatten(gs), line)
  {
    hide IsChunk, ChunkRange, Split, SpansOf;
    if gs != [] {
      assert forall j :: 0 <= j < |gs[0]| ==> gs[0][j].docLine == gs[0][0].docLine == line;
      RunOnLine(gs[1..], line);
    }
  }

  lemma NotLonger(s: seq<Citation>, a: nat, c: nat, line: nat)
    requires a <= |s| && c <= |s| && OnLine(s[..c], line)
    requires a < |s| ==> s[a].docLine != line
    ensures c <= a
  {
    forall k | 0 <= k < c ensures s[k].docLine == line {
      assert s[k] == s[..c][k];
    }
  }

  lemma SameSplit(a: seq<Citation>, b: seq<Citation>, c: seq<Citation>, d: seq<Citation>, line: nat)
    requires a + b == c + d && OnLine(a, line) && OnLine(c, line)
    requires (b == [] || b[0].docLine != line) && (d == [] || d[0].docLine != line)
    ensures a == c && b == d
  {
    var s := a + b;
    assert s[..|a|] == a && s[|a|..] == b && s[..|c|] == (c + d)[..|c|] == c && s[|c|..] == (c + d)[|c|..] == d;
    assert |a| < |s| ==> s[|a|] == s[|a|..][0];
    assert |c| < |s| ==> s[|c|] == s[|c|..][0];
    NotLonger(s, |a|, |c|, line);
    NotLonger(s, |c|, |a|, line);
  }

  lemma HeadOf(gs: seq<Group>)
    requires forall k :: 0 <= k < |gs| ==> IsGroup(gs[k])
    ensures gs != [] ==> Flatten(gs) != [] && Flatten(gs)[0].docLine == GroupLine(gs[0])
  {
    if gs != [] {
      GroupNotEmpty(gs[0]);
    }
  }

  /** The buckets are the lines' tokens: none is cut by the grouping. */
  lemma {:induction false} RunsAreBuckets(byLine: seq<Bucket>, gs: seq<Group>)
    requires Bucketed(byLine) && AllCits(byLine) == Flatten(gs)
    requires forall k :: 0 <= k < |gs| ==> IsGroup(gs[k])
    ensures |Runs(gs)| == |byLine|
    ensures forall k :: 0 <= k < |byLine| ==>
              byLine[k].cits == Flatten(Runs(gs)[k]) && Runs(gs)[k] != [] && byLine[k].line == GroupLine(Runs(gs)[k][0])
    decreases |byLine|
  {
    hide IsGroup;
    HeadOf(gs);
    if byLine == [] {
      assert gs == [];
    } else {
      assert byLine[0].cits[0] in byLine[0].cits;
      assert AllCits(byLine)[0] == byLine[0].cits[0];
      var line := byLine[0].line;
      FirstRun(byLine, gs, line);
      var n := RunLength(gs, line);
      RunsAreBuckets(byLine[1..], gs[n..]);
      assert Runs(gs) == [gs[..n]] + Runs(gs[n..]);
    }
  }

  lemma FirstRun(byLine: seq<Bucket>, gs: seq<Group>, line: nat)
    requires Bucketed(byLine) && AllCits(byLine) == Flatten(gs) && byLine != [] && byLine[0].line == line
    requires forall k :: 0 <= k < |gs| ==> IsGroup(gs[k])
    requires gs != [] && GroupLine(gs[0]) == line
    ensures var n := RunLength(gs, line);
            n > 0 && Bucketed(byLine[1..]) && AllCits(byLine[1..]) == Flatten(gs[n..]) && byLine[0].cits == Flatten(gs[..n])
  {
    hide IsGroup;
    var n := RunLength(gs, line);
    RunOnLine(gs[..n], line);
    FlattenAppend(gs[..n], gs[n..]);
    assert gs == gs[..n] + gs[n..];
    HeadOf(gs[n..]);
    var rest := AllCits(byLine[1..]);
    if |byLine| > 1 {
      assert byLine[1].cits[0] in byLine[1].cits;
      assert rest[0] == byLine[1].cits[0];
    }
    SameSplit(byLine[0].cits, rest, Flatten(gs[..n]), Flatten(gs[n..]), line);
  }

  // -------------------------------------------------- the plan as a function

  datatype LinePlan = LinePlan(line: nat, reps: seq<Replacement>)

  predicate AllGroups(ctx: Context, runs: seq<seq<Group>>) {
    forall k :: 0 <= k < |runs| ==> runs[k] != [] && Groups(ctx, runs[k])
  }

  ghost function PerLine(ctx: Context, runs: seq<seq<Group>>): seq<LinePlan>
    requires AllGroups(ctx, runs)
  {
    if runs == [] then []
    else
      var reps := Replacements(ctx, runs[0]);
      (if reps == [] then [] else [LinePlan(GroupLine(runs[0][0]), reps)]) + PerLine(ctx, runs[1..])
  }

  function EditOf(was: string, p: LinePlan): seq<Edit> {
    var now := Rewritten(was, p.reps);
    if now.Some? && now.value != was then [Edit(p.line, now.value)] else []
  }

  function EditsOf(lines: seq<string>, plans: seq<LinePlan>): seq<Edit>
    requires forall p <- plans :: 1 <= p.line <= |lines|
  {
    if plans == [] then [] else EditOf(lines[plans[0].line - 1], plans[0]) + EditsOf(lines, plans[1..])
  }

  function ProblemOf(was: string, p: LinePlan): seq<nat> {
    if Rewritten(was, p.reps) == None then [p.line] else []
  }

  /** The lines on which a reported citation cannot be found; any of them stops the run. */
  function ProblemsOf(lines: seq<string>, plans: seq<LinePlan>): seq<nat>
    requires forall p <- plans :: 1 <= p.line <= |lines|
  {
    if plans == [] then [] else ProblemOf(lines[plans[0].line - 1], plans[0]) + ProblemsOf(lines, plans[1..])
  }

  lemma {:induction false} FlattenRuns(gs: seq<Group>)
    ensures Flatten(Runs(gs)) == gs
    decreases |gs|
  {
    if gs != [] {
      var n := RunLength(gs, GroupLine(gs[0]));
      FlattenRuns(gs[n..]);
      assert gs == gs[..n] + gs[n..];
    }
  }

  lemma {:induction false} RunsAreGroups(ctx: Context, gs: seq<Group>)
    requires Groups(ctx, gs)
    ensures AllGroups(ctx, Runs(gs))
    decreases |gs|
  {
    hide IsGroup, InContext;
    if gs != [] {
      RunsAreGroups(ctx, gs[RunLength(gs, GroupLine(gs[0]))..]);
    }
  }

  lemma {:induction false} GroupsInContext(ctx: Context, gs: seq<Group>)
    requires AllInContext(ctx, Flatten(gs)) && forall k :: 0 <= k < |gs| ==> IsGroup(gs[k])
    ensures Groups(ctx, gs)
  {
    hide IsGroup, InContext;
    if gs != [] {
      var all, rest := Flatten(gs), Flatten(gs[1..]);
      assert forall j :: 0 <= j < |gs[0]| ==> gs[0][j] == all[j];
      assert forall j :: 0 <= j < |rest| ==> rest[j] == all[|gs[0]| + j];
      GroupsInContext(ctx, gs[1..]);
    }
  }

  lemma {:induction false} SettledAppend(ctx: Context, a: seq<Group>, b: seq<Group>)
    requires Groups(ctx, a) && Groups(ctx, b)
    ensures Groups(ctx, a + b)
    ensures SettledAll(ctx, a + b) == SettledAll(ctx, a) + SettledAll(ctx, b)
  {
    hide IsGroup, InContext, TokenDecisions;
    if a == [] {
      assert a + b == b;
    } else {
      assert (a + b)[1..] == a[1..] + b;
      SettledAppend(ctx, a[1..], b);
    }
  }

  lemma {:induction false} FlattenGroups(ctx: Context, runs: seq<seq<Group>>)
    requires AllGroups(ctx, runs)
    ensures Groups(ctx, Flatten(runs))
  {
    hide IsGroup, InContext;
    if runs != [] {
      FlattenGroups(ctx, runs[1..]);
    }
  }

  // ------------------------------------------------------ the plan as written

  method PlanDoc(ctx: Context, citations: seq<Citation>, ghost gs: seq<Group>)
    returns (ds: seq<Decision>, edits: seq<Edit>, problems: seq<nat>)
    requires InWholeTokens(citations, gs) && AllInContext(ctx, citations)
    ensures Groups(ctx, gs) && ds == Flatten(SettledAll(ctx, gs))
    ensures AllGroups(ctx, Runs(gs)) && forall p <- PerLine(ctx, Runs(gs)) :: 1 <= p.line <= |ctx.lines|
    ensures edits == EditsOf(ctx.lines, PerLine(ctx, Runs(gs)))
    ensures problems == ProblemsOf(ctx.lines, PerLine(ctx, Runs(gs)))
  {
    hide IsGroup, InContext, TokenDecisions;
    GroupsInContext(ctx, gs);
    RunsAreGroups(ctx, gs);
    TokensInLineOrder(citations, gs);
    var byLine := GroupByLine(citations);
    RunsAreBuckets(byLine, gs);
    FlattenRuns(gs);
    var plans;
    ds, plans := PlanLines(ctx, byLine, Runs(gs));
    LinesInContext(ctx, Runs(gs));
    edits, problems := ApplyPlans(ctx.lines, plans);
  }

  lemma LinesInContext(ctx: Context, runs: seq<seq<Group>>)
    requires AllGroups(ctx, runs)
    ensures forall p <- PerLine(ctx, runs) :: 1 <= p.line <= |ctx.lines|
  {
    hide Replacements;
    if runs != [] {
      LinesInContext(ctx, runs[1..]);
      assert runs[0][0] != [];
      assert InContext(ctx, runs[0][0][0]);
    }
  }

  lemma {:induction false} TokensInLineOrder(citations: seq<Citation>, gs: seq<Group>)
    requires InWholeTokens(citations, gs)
    ensures InLineOrder(citations)
    decreases |gs|
  {
    hide IsGroup;
    if gs != [] {
      var rest := Flatten(gs[1..]);
      assert forall k :: 0 <= k < |gs[1..]| ==> gs[1..][k] == gs[k + 1];
      TokensInLineOrder(rest, gs[1..]);
      LinesFrom(gs[1..]);
      RunOnLine([gs[0]], GroupLine(gs[0]));
      assert Flatten([gs[0]]) == gs[0] + Flatten([gs[0]][1..]) == gs[0];
      forall i, j | 0 <= i < j < |citations| ensures citations[i].docLine <= citations[j].docLine {
        HeadLine(gs, i);
        HeadLine(gs, j);
      }
    }
  }

  lemma HeadLine(gs: seq<Group>, i: nat)
    requires gs != [] && i < |Flatten(gs)| && OnLine(gs[0], GroupLine(gs[0]))
    ensures i < |gs[0]| ==> Flatten(gs)[i].docLine == GroupLine(gs[0])
    ensures i >= |gs[0]| ==> Flatten(gs)[i] == Flatten(gs[1..])[i - |gs[0]|]
  {
    if i < |gs[0]| {
      assert gs[0][i] in gs[0];
    }
  }

  lemma {:induction false} LinesFrom(gs: seq<Group>)
    requires forall k :: 0 <= k < |gs| ==> IsGroup(gs[k])
    requires forall k :: 0 < k < |gs| ==> GroupLine(gs[k - 1]) <= GroupLine(gs[k])
    ensures gs != [] ==> forall c <- Flatten(gs) :: c.docLine >= GroupLine(gs[0])
  {
    hide IsGroup;
    if gs != [] {
      LinesFrom(gs[1..]);
      RunOnLine([gs[0]], GroupLine(gs[0]));
      assert Flatten([gs[0]]) == gs[0] + Flatten([gs[0]][1..]) == gs[0];
    }
  }

  /** The loop over the lines that cite anything. */
  method PlanLines(ctx: Context, byLine: seq<Bucket>, ghost runs: seq<seq<Group>>)
    returns (ds: seq<Decision>, plans: seq<LinePlan>)
    requires AllGroups(ctx, runs) && |runs| == |byLine|
    requires forall k :: 0 <= k < |byLine| ==>
               byLine[k].cits == Flatten(runs[k]) && byLine[k].line == GroupLine(runs[k][0])
    ensures Groups(ctx, Flatten(runs)) && ds == Flatten(SettledAll(ctx, Flatten(runs)))
    ensures plans == PerLine(ctx, runs)
  {
    hide IsGroup, InContext, TokenDecisions, Replacements;
    FlattenGroups(ctx, runs);
    ds, plans := [], [];
    assert runs[0..] == runs;
    for k := 0 to |byLine|
      invariant Groups(ctx, Flatten(runs[k..]))
      invariant ds + Flatten(SettledAll(ctx, Flatten(runs[k..]))) == Flatten(SettledAll(ctx, Flatten(runs)))
      invariant plans + PerLine(ctx, runs[k..]) == PerLine(ctx, runs)
    {
      assert runs[k..][0] == runs[k] && runs[k..][1..] == runs[k + 1..];
      FlattenGroups(ctx, runs[k + 1..]);
      SettledAppend(ctx, runs[k], Flatten(runs[k + 1..]));
      FlattenAppend(SettledAll(ctx, runs[k]), SettledAll(ctx, Flatten(runs[k + 1..])));
      var lineDs, reps := PlanLine(ctx, byLine[k].cits, runs[k]);
      ds := ds + lineDs;
      if reps != [] {
        plans := plans + [LinePlan(byLine[k].line, reps)];
      }
    }
    assert runs[|byLine|..] == [];
  }

  /** The loop over the lines to rewrite. */
  method ApplyPlans(lines: seq<string>, plans: seq<LinePlan>) returns (edits: seq<Edit>, problems: seq<nat>)
    requires forall p <- plans :: 1 <= p.line <= |lines|
    ensures edits == EditsOf(lines, plans) && problems == ProblemsOf(lines, plans)
  {
    hide EditOf, ProblemOf;
    edits, problems := [], [];
    assert plans[0..] == plans;
    ghost var allEdits, allProblems := EditsOf(lines, plans), ProblemsOf(lines, plans);
    for i := 0 to |plans|
      invariant edits + EditsOf(lines, plans[i..]) == allEdits
      invariant problems + ProblemsOf(lines, plans[i..]) == allProblems
    {
      assert plans[i..][0] == plans[i] && plans[i..][1..] == plans[i + 1..];
      assert plans[i] in plans;
      var edit, problem := ApplyPlan(lines[plans[i].line - 1], plans[i]);
      edits, problems := edits + edit, problems + problem;
    }
    assert plans[|plans|..] == [];
  }

  method ApplyPlan(line: string, p: LinePlan) returns (edit: seq<Edit>, problem: seq<nat>)
    ensures edit == EditOf(line, p) && problem == ProblemOf(line, p)
  {
    hide Rewritten;
    edit, problem := [], [];
    var now := RewriteLine(line, p.reps);
    if now == None {
      problem := [p.line];
    } else if now.value != line {
      edit := [Edit(p.line, now.value)];
    }
  }
}
