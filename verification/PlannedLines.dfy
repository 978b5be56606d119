/** A document after its plan, line by line: each planned line has its tokens' span lists swapped
    (scripts/relocate-citations.py:810-866, 937-1022). */
module PlannedLines {
  import opened Text
  import opened LineBreaks
  import opened Citations
  import opened CitationScope
  import opened SpanSwap
  import opened SwapScope
  import opened SwapAll
  import opened Relocate
  import opened Decide
  import opened Agreement
  import opened TokenRewrite
  import opened Plan
  import opened WholeTokens

  // ---------------------------------------------------- replacements as regions

  /** The replacement keeps the token's path and writes as many legal spans as it had. */
  predicate Respans(r: Replacement) {
    && r.token == PathOf(r.token) + ":" + SpansOf(r.token) && IsSpanList(SpansOf(r.token))
    && r.text == PathOf(r.token) + ":" + SpansOf(r.text) && LegalList(SpansOf(r.text))
    && |Split(SpansOf(r.text), ',')| == |Split(SpansOf(r.token), ',')|
  }

  predicate AllRespan(reps: seq<Replacement>) {
    forall r <- reps :: Respans(r)
  }

  function RegionOf(r: Replacement, at: nat): Region {
    Region(at + |PathOf(r.token)| + 1, at + |r.token|, SpansOf(r.text))
  }

  function RegionsOf(reps: seq<Replacement>, at: seq<nat>): (rs: seq<Region>)
    requires |at| == |reps|
  {
    seq(|reps|, k requires 0 <= k < |reps| => RegionOf(reps[k], at[k]))
  }

  lemma PathColonSpans(line: string, path: string, spans: string, at: nat)
    requires OccursAt(line, path + ":" + spans, at)
    ensures var n := at + |path| + 1;
      && n + |spans| <= |line| && line[n - 1] == ':' && line[n..n + |spans|] == spans
      && line[at..n] == path + ":"
  {
    var token, n := path + ":" + spans, at + |path| + 1;
    var there := line[at..at + |token|];
    assert there[|path|] == ':' && there[|path| + 1..] == spans && there[..|path| + 1] == path + ":";
    assert line[n..n + |spans|] == there[|path| + 1..];
    assert line[at..n] == there[..|path| + 1];
  }

  /** No replacement changes what a colon right behind its token makes a name of. */
  predicate QuietAt(tree: Tree, line: string, reps: seq<Replacement>, at: seq<nat>) {
    |at| == |reps| && forall k :: 0 <= k < |reps| ==> Quiet(tree, line, RegionOf(reps[k], at[k]))
  }

  lemma QuietTail(tree: Tree, line: string, reps: seq<Replacement>, at: seq<nat>)
    requires QuietAt(tree, line, reps, at) && reps != []
    ensures |at| == |reps| && Quiet(tree, line, RegionOf(reps[0], at[0])) && QuietAt(tree, line, reps[1..], at[1..])
  {
    hide Quiet, RegionOf;
    forall k | 0 <= k < |reps[1..]| ensures Quiet(tree, line, RegionOf(reps[1..][k], at[1..][k])) {
      assert reps[1..][k] == reps[k + 1] && at[1..][k] == at[k + 1];
    }
  }

  lemma RegionFits(line: string, r: Replacement, at: nat)
    requires Respans(r) && WholeAt(line, r.token, at)
    ensures var x := RegionOf(r, at);
      && Swappable(line, x) && LegalList(x.text)
      && line[x.start..x.end] == SpansOf(r.token) && line[at..x.start] == PathOf(r.token) + ":"
  {
    hide OccursAt, IsPathChar, PathOf, SpansOf, LegalList;
    PathColonSpans(line, PathOf(r.token), SpansOf(r.token), at);
    LegalIsList(SpansOf(r.text));
    NotEmptyList(SpansOf(r.token));
    hide IsSpanList;
  }

  lemma LegalIsList(s: string)
    requires LegalList(s)
    ensures IsSpanList(s)
  {
  }

  lemma NotEmptyList(s: string)
    requires IsSpanList(s)
    ensures s != ""
  {
    ListChars(s);
  }

  lemma RegionsTail(reps: seq<Replacement>, at: seq<nat>)
    requires |at| == |reps| > 0
    ensures RegionsOf(reps, at)[0] == RegionOf(reps[0], at[0])
    ensures RegionsOf(reps, at)[1..] == RegionsOf(reps[1..], at[1..])
  {
    hide RegionOf;
  }

  lemma {:induction false} RegionsInOrder(tree: Tree, line: string, reps: seq<Replacement>, pos: nat, at: seq<nat>)
    requires AllRespan(reps) && Placement(line, reps, pos, at) && QuietAt(tree, line, reps, at)
    ensures |at| == |reps| && InOrder(tree, line, RegionsOf(reps, at))
    ensures reps != [] ==> pos < RegionsOf(reps, at)[0].start
    decreases |reps|
  {
    hide WholeAt, Respans, QuietAt, Swappable, Quiet, LegalList, PathOf, SpansOf;
    if reps != [] {
      var next := at[0] + |reps[0].token|;
      QuietTail(tree, line, reps, at);
      RegionsInOrder(tree, line, reps[1..], next, at[1..]);
      RegionFits(line, reps[0], at[0]);
      RegionsTail(reps, at);
      var rs, rest := RegionsOf(reps, at), RegionsOf(reps[1..], at[1..]);
      assert rs[0].end == next;
      forall k | 0 <= k < |rs| ensures Swappable(line, rs[k]) && Quiet(tree, line, rs[k]) && LegalList(rs[k].text) {
        assert k > 0 ==> rs[k] == rest[k - 1];
      }
      forall k | 0 < k < |rs| ensures rs[k - 1].end < rs[k].start {
        assert rs[k] == rest[k - 1];
        assert k > 1 ==> rs[k - 1] == rest[k - 2];
      }
    }
  }

  /** Splicing the replacements in is swapping their regions. */
  lemma {:induction false} SplicedIsRewoven(tree: Tree, line: string, reps: seq<Replacement>, pos: nat, at: seq<nat>)
    requires pos <= |line| && AllRespan(reps) && Placement(line, reps, pos, at) && QuietAt(tree, line, reps, at)
    ensures |at| == |reps| && InOrder(tree, line, RegionsOf(reps, at))
    ensures var u := Rewoven(tree, line, RegionsOf(reps, at));
            pos <= |u| && u[..pos] == line[..pos] && u[pos..] == Spliced(line, reps, pos, at)
    decreases |reps|
  {
    hide WholeAt, Respans, QuietAt, InOrder, PathOf, SpansOf, IsPathChar, IsSpanList, Rewoven;
    RegionsInOrder(tree, line, reps, pos, at);
    var rs := RegionsOf(reps, at);
    if reps == [] {
      assert rs == [];
      RewovenNothing(tree, line);
    } else {
      var r, next := rs[0], at[0] + |reps[0].token|;
      WholeFits(line, reps[0].token, at[0]);
      RegionsTail(reps, at);
      QuietTail(tree, line, reps, at);
      SplicedIsRewoven(tree, line, reps[1..], next, at[1..]);
      RewovenUnfold(tree, line, rs);
      RegionFits(line, reps[0], at[0]);
      var u := Rewoven(tree, line, rs[1..]);
      RespansText(reps[0]);
      Resliced(line, u, pos, at[0], r, PathOf(reps[0].token), Spliced(line, reps[1..], next, at[1..]));
    }
  }

  lemma RewovenNothing(tree: Tree, line: string)
    ensures InOrder(tree, line, []) && Rewoven(tree, line, []) == line
  {
  }

  lemma RespansText(r: Replacement)
    requires Respans(r)
    ensures r.text == PathOf(r.token) + ":" + SpansOf(r.text)
  {
    hide PathOf, SpansOf, LegalList, IsSpanList;
  }

  lemma Resliced(line: string, u: string, pos: nat, at: nat, r: Region, path: string, tail: string)
    requires pos <= at <= r.start <= r.end <= |line| && r.end <= |u| && u[..r.end] == line[..r.end] && u[r.end..] == tail
    requires line[at..r.start] == path + ":"
    ensures pos <= |Swapped(u, r)| && Swapped(u, r)[..pos] == line[..pos]
    ensures Swapped(u, r)[pos..] == line[pos..at] + (path + ":" + r.text) + tail
  {
    SameSlices(line, u, r.end, 0, pos);
    SameSlices(line, u, r.end, pos, at);
    SameSlices(line, u, r.end, at, r.start);
    var v := Swapped(u, r);
    assert v[..pos] == u[0..pos] && line[..pos] == line[0..pos];
    assert v[pos..] == u[pos..r.start] + r.text + u[r.end..];
    assert u[pos..r.start] == u[pos..at] + u[at..r.start];
  }

  /** When every file's name has a character that no span list has, all replacements are quiet. */
  lemma {:induction false} QuietUnlessNumbered(tree: Tree, line: string, reps: seq<Replacement>, pos: nat, at: seq<nat>)
    requires AllRespan(reps) && Placement(line, reps, pos, at) && NoNumberNames(tree)
    ensures QuietAt(tree, line, reps, at)
    decreases |reps|
  {
    hide WholeAt, Respans, NoNumberNames, PathOf, SpansOf, LastRun, RegionOf;
    if reps != [] {
      QuietUnlessNumbered(tree, line, reps[1..], at[0] + |reps[0].token|, at[1..]);
      QuietHere(tree, line, reps[0], at[0]);
      assert forall k :: 0 < k < |reps| ==> reps[k] == reps[1..][k - 1] && at[k] == at[1..][k - 1];
    }
  }

  lemma QuietHere(tree: Tree, line: string, r: Replacement, at: nat)
    requires Respans(r) && WholeAt(line, r.token, at) && NoNumberNames(tree)
    ensures Quiet(tree, line, RegionOf(r, at))
  {
    RegionFits(line, r, at);
    hide WholeAt, IsPathChar, IsSpanList, PathOf, SpansOf, LegalList, NoNumberNames, LastRun;
    ListNamesNothing(tree, SpansOf(r.token));
    ListNamesNothing(tree, SpansOf(r.text));
  }

  // ------------------------------------------------------ the plan, line by line

  /** The replacements planned on a line, in the order of its tokens. */
  ghost function LineReps(ctx: Context, gs: seq<Group>, line: nat): seq<Replacement>
    requires Groups(ctx, gs)
  {
    if gs == [] then []
    else (if GroupLine(gs[0]) == line then TokenReplacement(ctx, gs[0]) else []) + LineReps(ctx, gs[1..], line)
  }

  lemma {:induction false} LineRepsOfRun(ctx: Context, run: seq<Group>, rest: seq<Group>, line: nat)
    requires Groups(ctx, run) && Groups(ctx, rest)
    requires forall k :: 0 <= k < |run| ==> GroupLine(run[k]) == line
    ensures Groups(ctx, run + rest)
    ensures LineReps(ctx, run + rest, line) == Replacements(ctx, run) + LineReps(ctx, rest, line)
    ensures forall other :: other != line ==> LineReps(ctx, run + rest, other) == LineReps(ctx, rest, other)
    decreases |run|
  {
    hide TokenReplacement, IsGroup, InContext;
    if run == [] {
      assert run + rest == rest;
    } else {
      assert (run + rest)[1..] == run[1..] + rest;
      LineRepsOfRun(ctx, run[1..], rest, line);
    }
  }

  lemma {:induction false} NoRepsElsewhere(ctx: Context, gs: seq<Group>, line: nat)
    requires Groups(ctx, gs) && forall k :: 0 <= k < |gs| ==> GroupLine(gs[k]) != line
    ensures LineReps(ctx, gs, line) == []
  {
    hide TokenReplacement, IsGroup, InContext;
    if gs != [] {
      NoRepsElsewhere(ctx, gs[1..], line);
    }
  }

  ghost predicate PlansLine(ctx: Context, gs: seq<Group>, plans: seq<LinePlan>, line: nat)
    requires Groups(ctx, gs)
  {
    if LineReps(ctx, gs, line) == [] then forall p <- plans :: p.line != line
    else LinePlan(line, LineReps(ctx, gs, line)) in plans && forall p <- plans :: p.line == line ==> p.reps == LineReps(ctx, gs, line)
  }

  lemma RunPlanned(ctx: Context, gs: seq<Group>, rest: seq<Group>, reps: seq<Replacement>, first: nat, plans: seq<LinePlan>, line: nat)
    requires Groups(ctx, gs) && Groups(ctx, rest) && PlansLine(ctx, rest, plans, line)
    requires LineReps(ctx, gs, line) == if line == first then reps else LineReps(ctx, rest, line)
    requires line == first ==> LineReps(ctx, rest, line) == []
    ensures PlansLine(ctx, gs, (if reps == [] then [] else [LinePlan(first, reps)]) + plans, line)
  {
    hide LineReps, IsGroup, InContext;
  }

  lemma NotOnFirst(gs: seq<Group>, n: nat)
    requires LinesGrow(gs) && gs != [] && n == RunLength(gs, GroupLine(gs[0]))
    ensures n <= |gs| && LinesGrow(gs[n..]) && forall k :: 0 <= k < |gs[n..]| ==> GroupLine(gs[n..][k]) != GroupLine(gs[0])
  {
    hide GroupLine;
    var rest := gs[n..];
    assert forall k :: 0 <= k < |rest| ==> rest[k] == gs[n + k];
    AllAfter(rest);
    AllAfter(gs);
  }

  lemma RunsUnfold(ctx: Context, gs: seq<Group>)
    requires Groups(ctx, gs) && gs != []
    ensures var n := RunLength(gs, GroupLine(gs[0])); var reps := Replacements(ctx, gs[..n]);
      && AllGroups(ctx, Runs(gs)) && AllGroups(ctx, Runs(gs[n..]))
      && PerLine(ctx, Runs(gs)) ==
           (if reps == [] then [] else [LinePlan(GroupLine(gs[0]), reps)]) + PerLine(ctx, Runs(gs[n..]))
  {
    hide TokenReplacement, IsGroup, InContext, Replacements, GroupLine;
    RunsAreGroups(ctx, gs);
    var n := RunLength(gs, GroupLine(gs[0]));
    RunsAreGroups(ctx, gs[n..]);
    assert Runs(gs) == [gs[..n]] + Runs(gs[n..]);
    assert Runs(gs)[1..] == Runs(gs[n..]) && gs[..n][0] == gs[0];
  }

  /** The plans are the lines with replacements, each with all of its line's. */
  lemma {:induction false} PlansAreLines(ctx: Context, gs: seq<Group>, line: nat)
    requires Groups(ctx, gs) && LinesGrow(gs)
    ensures AllGroups(ctx, Runs(gs)) && PlansLine(ctx, gs, PerLine(ctx, Runs(gs)), line)
    decreases |gs|
  {
    hide TokenReplacement, IsGroup, InContext, Replacements, GroupLine, LinesGrow, PlansLine;
    if gs == [] {
      NoPlans(ctx, line);
    } else {
      var first := GroupLine(gs[0]);
      var n := RunLength(gs, first);
      var run, rest := gs[..n], gs[n..];
      assert gs == run + rest;
      RunsUnfold(ctx, gs);
      NotOnFirst(gs, n);
      PlansAreLines(ctx, rest, line);
      LineRepsOfRun(ctx, run, rest, first);
      NoRepsElsewhere(ctx, rest, first);
      hide PerLine, Runs, LineReps;
      RunPlanned(ctx, gs, rest, Replacements(ctx, run), first, PerLine(ctx, Runs(rest)), line);
    }
  }

  lemma NoPlans(ctx: Context, line: nat)
    ensures AllGroups(ctx, Runs([])) && PlansLine(ctx, [], PerLine(ctx, Runs([])), line)
  {
  }

  // ------------------------------------------------------------ the lines written

  /** The edit is what the line's plan makes of it, and that is another line. */
  predicate Makes(lines: seq<string>, p: LinePlan, e: Edit) {
    && e.line == p.line && 1 <= p.line <= |lines|
    && Rewritten(lines[p.line - 1], p.reps) == Some(e.text) && e.text != lines[p.line - 1]
  }

  lemma {:induction false} EditsGive(lines: seq<string>, plans: seq<LinePlan>)
    requires forall p <- plans :: 1 <= p.line <= |lines|
    requires ProblemsOf(lines, plans) == []
    ensures forall p <- plans :: Rewritten(lines[p.line - 1], p.reps).Some?
    ensures forall p <- plans :: var now := Rewritten(lines[p.line - 1], p.reps).value;
              now == lines[p.line - 1] || Edit(p.line, now) in EditsOf(lines, plans)
  {
    hide Rewritten;
    if plans != [] {
      var p := plans[0];
      assert plans == [p] + plans[1..];
      EditsGive(lines, plans[1..]);
      var was := lines[p.line - 1];
      assert ProblemsOf(lines, plans) == ProblemOf(was, p) + ProblemsOf(lines, plans[1..]);
      assert EditsOf(lines, plans) == EditOf(was, p) + EditsOf(lines, plans[1..]);
      assert Rewritten(was, p.reps).Some?;
    }
  }

  lemma {:induction false} EditsAreMade(lines: seq<string>, plans: seq<LinePlan>, e: Edit) returns (p: LinePlan)
    requires (forall p <- plans :: 1 <= p.line <= |lines|) && e in EditsOf(lines, plans)
    ensures p in plans && Makes(lines, p, e)
  {
    hide Rewritten;
    p := plans[0];
    if e !in EditOf(lines[p.line - 1], p) {
      p := EditsAreMade(lines, plans[1..], e);
    }
  }

  /** The tokens can be taken in order, apart, each whole. */
  ghost predicate Placeable(line: string, reps: seq<Replacement>) {
    exists at :: Placement(line, reps, 0, at)
  }

  lemma NothingToPlace(line: string)
    ensures Placeable(line, [])
  {
    assert Placement(line, [], 0, []);
  }

  lemma {:induction false} ProblemsIff(lines: seq<string>, plans: seq<LinePlan>)
    requires forall p <- plans :: 1 <= p.line <= |lines|
    ensures ProblemsOf(lines, plans) != [] <==> exists p :: p in plans && !Placeable(lines[p.line - 1], p.reps)
  {
    hide Placeable, Rewritten;
    if plans != [] {
      var p := plans[0];
      assert plans == [p] + plans[1..];
      ProblemsIff(lines, plans[1..]);
      PlaceableIff(lines[p.line - 1], p.reps);
    }
  }

  lemma PlaceableIff(line: string, reps: seq<Replacement>)
    ensures Placeable(line, reps) <==> Rewritten(line, reps) != None
  {
    hide WholeAt;
    RewriteSucceedsIff(line, reps);
    if at :| Placement(line, reps, 0, at) {
      GreedyIsLeftmost(line, reps, 0, 0, at);
    }
  }

  /** Some line's moved tokens have no place on it. */
  ghost predicate LineBlocked(ctx: Context, gs: seq<Group>)
    requires Groups(ctx, gs)
  {
    exists i :: 0 <= i < |ctx.lines| && !Placeable(ctx.lines[i], LineReps(ctx, gs, i + 1))
  }

  /** Planning has problems exactly when some line is blocked. */
  lemma BlockedIff(ctx: Context, gs: seq<Group>)
    requires Groups(ctx, gs) && LinesGrow(gs) && AllGroups(ctx, Runs(gs))
    requires forall p <- PerLine(ctx, Runs(gs)) :: 1 <= p.line <= |ctx.lines|
    ensures ProblemsOf(ctx.lines, PerLine(ctx, Runs(gs))) != [] <==> LineBlocked(ctx, gs)
  {
    hide IsGroup, InContext, PerLine, Runs, ProblemsOf, Placeable, LineReps, LinesGrow;
    var plans := PerLine(ctx, Runs(gs));
    ProblemsIff(ctx.lines, plans);
    if p :| p in plans && !Placeable(ctx.lines[p.line - 1], p.reps) {
      PlansAreLines(ctx, gs, p.line);
      assert !Placeable(ctx.lines[p.line - 1], LineReps(ctx, gs, p.line - 1 + 1));
    }
    if i :| 0 <= i < |ctx.lines| && !Placeable(ctx.lines[i], LineReps(ctx, gs, i + 1)) {
      PlansAreLines(ctx, gs, i + 1);
      NothingToPlace(ctx.lines[i]);
      assert LinePlan(i + 1, LineReps(ctx, gs, i + 1)) in plans;
    }
  }

  lemma NothingToRewrite(line: string)
    ensures Rewritten(line, []) == Some(line)
  {
    assert line[0..] == line;
  }

  /** A planned text's lines: every line with its replacements made. */
  ghost predicate LinesRewritten(ctx: Context, gs: seq<Group>, now: seq<string>)
    requires Groups(ctx, gs)
  {
    && |now| == |ctx.lines|
    && forall i :: 0 <= i < |now| ==> Rewritten(ctx.lines[i], LineReps(ctx, gs, i + 1)) == Some(now[i])
  }

  lemma LineWritten(ctx: Context, gs: seq<Group>, plans: seq<LinePlan>, edits: seq<Edit>, now: seq<string>, i: nat)
    requires Groups(ctx, gs) && i < |ctx.lines| == |now| && PlansLine(ctx, gs, plans, i + 1)
    requires forall p <- plans :: 1 <= p.line <= |ctx.lines|
    requires ProblemsOf(ctx.lines, plans) == [] && edits == EditsOf(ctx.lines, plans)
    requires forall e <- edits :: 1 <= e.line <= |now| && now[e.line - 1] == e.text
    requires (forall e <- edits :: e.line != i + 1) ==> now[i] == ctx.lines[i]
    ensures Rewritten(ctx.lines[i], LineReps(ctx, gs, i + 1)) == Some(now[i])
  {
    hide Rewritten, LineReps, EditsOf, ProblemsOf;
    EditsGive(ctx.lines, plans);
    var reps := LineReps(ctx, gs, i + 1);
    if e :| e in edits && e.line == i + 1 {
      var p := EditsAreMade(ctx.lines, plans, e);
      assert p.reps == reps;
    } else if reps == [] {
      NothingToRewrite(ctx.lines[i]);
    } else {
      var p := LinePlan(i + 1, reps);
      assert p in plans;
    }
  }

  lemma AllLinesWritten(ctx: Context, gs: seq<Group>, edits: seq<Edit>, now: seq<string>)
    requires Groups(ctx, gs) && LinesGrow(gs) && AllGroups(ctx, Runs(gs)) && |now| == |ctx.lines|
    requires forall p <- PerLine(ctx, Runs(gs)) :: 1 <= p.line <= |ctx.lines|
    requires ProblemsOf(ctx.lines, PerLine(ctx, Runs(gs))) == [] && edits == EditsOf(ctx.lines, PerLine(ctx, Runs(gs)))
    requires forall e <- edits :: 1 <= e.line <= |now| && now[e.line - 1] == e.text
    requires forall n :: 0 <= n < |now| && (forall e <- edits :: e.line != n + 1) ==> now[n] == ctx.lines[n]
    ensures LinesRewritten(ctx, gs, now)
  {
    hide IsGroup, InContext, PerLine, Runs, EditsOf, ProblemsOf, Rewritten, LineReps, PlansLine;
    var plans := PerLine(ctx, Runs(gs));
    forall i | 0 <= i < |now| ensures Rewritten(ctx.lines[i], LineReps(ctx, gs, i + 1)) == Some(now[i]) {
      PlansAreLines(ctx, gs, i + 1);
      LineWritten(ctx, gs, plans, edits, now, i);
    }
  }

  lemma EditedSplit(text: string, edits: seq<Edit>)
    requires LineEdits(SplitParts(text), edits) && (forall e <- edits :: e.text != "") && forall e <- edits :: e.line >= 1
    requires Replaced(text, edits).Some? && OnlyEdited(SplitParts(text), edits, SplitParts(Replaced(text, edits).value))
    ensures var was, now := SplitLines(text), SplitLines(Replaced(text, edits).value);
      && |now| == |was| && (forall e <- edits :: 1 <= e.line <= |now| && now[e.line - 1] == e.text)
      && (forall n :: 0 <= n < |now| && (forall e <- edits :: e.line != n + 1) ==> now[n] == was[n])
  {
    hide SplitParts, OnlyEdited, LineEdits, LinesOf, Replaced;
    EditsInRange(SplitParts(text), edits);
    EditedLines(SplitParts(text), edits, SplitParts(Replaced(text, edits).value));
  }

  /** The lines of a planned document's new text. */
  lemma PlannedText(ctx: Context, text: string, citations: seq<Citation>, gs: seq<Group>)
    requires ctx.lines == SplitLines(text) && InWholeTokens(citations, gs) && AllInContext(ctx, citations)
    requires Groups(ctx, gs) && AllGroups(ctx, Runs(gs))
    requires forall p <- PerLine(ctx, Runs(gs)) :: 1 <= p.line <= |ctx.lines|
    requires ProblemsOf(ctx.lines, PerLine(ctx, Runs(gs))) == []
    ensures var edits := EditsOf(ctx.lines, PerLine(ctx, Runs(gs)));
      && (forall e <- edits :: e.line >= 1) && Replaced(text, edits).Some?
      && LinesRewritten(ctx, gs, SplitLines(Replaced(text, edits).value))
  {
    hide IsGroup, InContext, SplitParts, SplitLines, Replaced, PerLine, Runs, EditsOf, ProblemsOf, OnlyEdited, LineEdits, LinesRewritten, Groups, AllGroups;
    LinesGrowInTokens(citations, gs);
    PlannedEditsAreLineEdits(ctx, text, citations, gs);
    var edits := EditsOf(ctx.lines, PerLine(ctx, Runs(gs)));
    EditsInRange(SplitParts(text), edits);
    EditedSplit(text, edits);
    AllLinesWritten(ctx, gs, edits, SplitLines(Replaced(text, edits).value));
  }

  lemma LinesGrowInTokens(citations: seq<Citation>, gs: seq<Group>)
    requires InWholeTokens(citations, gs)
    ensures LinesGrow(gs)
  {
    hide IsGroup, GroupLine;
  }

  lemma EditsInRange(parts: seq<string>, edits: seq<Edit>)
    requires |parts| % 2 == 1 && LineEdits(parts, edits)
    ensures forall e <- edits :: 1 <= e.line <= |LinesOf(parts)|
  {
    hide LinesOf;
  }
}
