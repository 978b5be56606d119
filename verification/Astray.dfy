/** A run that ends well and leaves a citation wrong: the same words stand in the prose before
    the token that is to move, and another line supplies the anchor that is looked for
    (scripts/relocate-citations.py:810-866, 1182-1226). */
module Astray {
  import opened Text
  import opened LineBreaks
  import opened LineIndex
  import opened Citations
  import opened CitationParser
  import opened CitationScope
  import opened Relocate
  import opened Decide
  import opened TokenRewrite
  import opened Plan
  import opened PlannedLines
  import opened Commit

  /** Two lines that write `a/b` at the lines x, y and z, the first time outside a code span. */
  function TwoLines(x: char, y: char, z: char): seq<string> {
    [First(x, y), Second(z)]
  }

  function First(x: char, y: char): string {
    "a/b:" + [x] + " `a/b:" + [y] + "`"
  }

  function Second(z: char): string {
    "`a/b:" + [z] + "`"
  }

  predicate IsCount(c: char) {
    '1' <= c <= '9'
  }

  function Cite(doc: string, docLine: nat, c: char): Citation
    requires IsCount(c)
  {
    Citation(doc, docLine, "a/b:" + [c], "a/b", (c - '0') as nat, (c - '0') as nat)
  }

  // ------------------------------------------------------------ what the parser reads

  lemma DigitList(t: string, i: nat)
    requires i + 1 == |t| && IsDigit(t[i])
    ensures SpanListEnd(t, i) == Some(i + 1)
  {
    assert DigitsEnd(t, i) == i + 1;
  }

  lemma TokenText(c: char)
    requires IsCount(c)
    ensures var t := "a/b:" + [c]; NextMatch(t, 0) == Some(Match(3, 3, 5)) && NextMatch(t, 5) == None
  {
    var t := "a/b:" + [c];
    DigitList(t, 4);
    assert t[3] == ':' && t[0] == 'a' && t[1] == '/' && t[2] == 'b';
    hide SpanListEnd, IsSpanList;
    assert NextColon(t, 3) == Some(3);
    assert NextColon(t, 2) == Some(3);
    assert NextColon(t, 1) == Some(3);
    assert NextColon(t, 0) == Some(3);
    RunOfName(t);
    assert t[0..3] == "a/b";
    NoExt();
  }

  lemma RunOfName(t: string)
    requires |t| == 5 && t[..4] == "a/b:"
    ensures RunStart(t, 0, 3) == 0
  {
    assert t[0] == t[..4][0] && t[1] == t[..4][1] && t[2] == t[..4][2];
    assert RunStart(t, 0, 1) == 0;
    assert RunStart(t, 0, 2) == 0;
  }

  lemma NoExt()
    ensures !EndsInKnownExt("a/b")
  {
    assert forall ext <- CITED_EXTS :: |ext| >= 2;
  }

  lemma OneDigit(c: char)
    requires IsCount(c)
    ensures IsSpanList([c]) && Split([c], ',') == [[c]] && IsChunk([c])
    ensures ChunkRange([c]) == ((c - '0') as nat, (c - '0') as nat)
  {
    SplitNone([c], ',');
    assert [c][..0] == "";
    assert Number([c]) == (c - '0') as nat;
    assert IndexOfChar([c], '-') == 1;
  }

  function TokenOf(docLine: nat, at: int, col: nat, c: char): Token {
    Token(docLine, at, col, "a/b:" + [c], [c], true, "a/b")
  }

  lemma Resolves(doc: string, docLine: nat, at: int, col: nat, c: char, st: State)
    requires IsCount(c)
    ensures IsSpanList([c])
    ensures Resolve(doc, TokenOf(docLine, at, col, c), st) ==
            st.(last := Some("a/b"), tokens := st.tokens + [TokenOf(docLine, at, col, c)],
                citations := st.citations + [Cite(doc, docLine, c)])
  {
    OneDigit(c);
    hide ChunkRange, IsChunk, Split, IsSpanList;
    assert [[c]][1..] == [];
    var token := TokenOf(docLine, at, col, c);
    assert Emitted(doc, token, [[c]]) == [Cite(doc, docLine, c)];
    var problem := Problem(docLine, at, |st.tokens| + 1, IllegalRange);
    assert Illegal(problem, [[c]]) == [];
    assert st.problems + [] == st.problems;
  }

  lemma StepIs(doc: string, tree: Tree, docLine: nat, base: nat, c: char, st: State)
    requires IsCount(c) && "a/b" in tree.files
    ensures var t, m := "a/b:" + [c], Match(3, 3, 5);
      && IsMatch(t, 0, m) && IsSpanList([c])
      && StepMatch(doc, tree, docLine, base, t, m, st) ==
           Resolve(doc, TokenOf(docLine, st.seen, base, c), st.(asked := st.asked + {"a/b"}))
  {
    var t, m := "a/b:" + [c], Match(3, 3, 5);
    OneDigit(c);
    RunOfName(t);
    assert t[0..3] == "a/b" && t[4..5] == [c] && t[0..5] == t && t[..0] == "";
    assert '/' in "a/b";
    hide Resolve, IsSpanList, RunStart, ExtensionOf;
    assert NameStart(t, m) == 0;
    assert !NotACitation(t, m, tree);
  }

  lemma StepToken(doc: string, tree: Tree, docLine: nat, base: nat, c: char, st: State)
    requires IsCount(c) && "a/b" in tree.files
    ensures var after := FoldMatches(doc, tree, docLine, base, "a/b:" + [c], 0, st);
            after.citations == st.citations + [Cite(doc, docLine, c)] && after.problems == st.problems
  {
    var t, m := "a/b:" + [c], Match(3, 3, 5);
    TokenText(c);
    StepIs(doc, tree, docLine, base, c, st);
    Resolves(doc, docLine, st.seen, base, c, st.(asked := st.asked + {"a/b"}));
    hide NextMatch, Resolve, IsSpanList, StepMatch, TokenOf, Cite;
    var after := StepMatch(doc, tree, docLine, base, t, m, st);
    assert FoldMatches(doc, tree, docLine, base, t, 5, after) == after;
  }

  // -------------------------------------------------------------------- code spans

  lemma OneChar(line: string, i: nat)
    requires i < |line|
    ensures line[i..i + 1] == [line[i]]
  {
  }

  lemma TicksOfFirst(x: char, y: char)
    requires IsCount(x) && IsCount(y)
    ensures var line := First(x, y);
      && |line| == 13 && NextSpan(line, 0) == Some(Span(6, 13)) && NextSpan(line, 13) == None && line[7..12] == "a/b:" + [y]
  {
    var line := First(x, y);
    assert line[4] == x && line[11] == y;
    assert line == ['a', '/', 'b', ':', x, ' ', '`', 'a', '/', 'b', ':', y, '`'];
    assert line[7..12] == "a/b:" + [y];
    BacktickThere(line);
    OneChar(line, 6);
    OneChar(line, 12);
    hide IsSpace;
    FindIs(line, "`", 0, 6);
    FindIs(line, "`", 7, 12);
  }

  lemma TicksOfSecond(z: char)
    requires IsCount(z)
    ensures var line := Second(z);
      && |line| == 7 && NextSpan(line, 0) == Some(Span(0, 7)) && NextSpan(line, 7) == None && line[1..6] == "a/b:" + [z]
  {
    var line := Second(z);
    assert line == ['`', 'a', '/', 'b', ':', z, '`'];
    assert line[1..6] == "a/b:" + [z];
    BacktickThere(line);
    OneChar(line, 0);
    OneChar(line, 6);
    FindIs(line, "`", 0, 0);
    FindIs(line, "`", 1, 6);
  }

  /** A line of one code span adds that span's token. */
  lemma OneSpanLine(doc: string, tree: Tree, lines: seq<string>, i: nat, span: Span, c: char, st: State)
    requires i < |lines| && IsCount(c) && "a/b" in tree.files
    requires NextSpan(lines[i], 0) == Some(span) && NextSpan(lines[i], span.end) == None
    requires span.start + 2 < span.end <= |lines[i]| && lines[i][span.start + 1..span.end - 1] == "a/b:" + [c]
    ensures var after := FoldSpans(doc, tree, lines, i, 0, st);
            after.citations == st.citations + [Cite(doc, i + 1, c)] && after.problems == st.problems
  {
    hide NextSpan, FoldMatches, Advance, LineBase, Cite, TokenOf, FoldSpans;
    var here := Advance(lines, st, LineBase(lines, i) + span.start);
    AdvanceKeepsRead(lines, st, LineBase(lines, i) + span.start);
    StepToken(doc, tree, i + 1, span.start + 1, c, here);
    FoldSpansUnfold(doc, tree, lines, i, 0, st);
    FoldSpansUnfold(doc, tree, lines, i, span.end, StepSpan(doc, tree, lines, i, span, st));
  }

  lemma TwoFolds(doc: string, tree: Tree, lines: seq<string>)
    requires |lines| == 2
    ensures Parse(doc, tree, lines) == FoldSpans(doc, tree, lines, 1, 0, FoldSpans(doc, tree, lines, 0, 0, START))
  {
    hide FoldSpans;
    var st1 := FoldSpans(doc, tree, lines, 0, 0, START);
    var st2 := FoldSpans(doc, tree, lines, 1, 0, st1);
    assert FoldLines(doc, tree, lines, 2, st2) == st2;
    assert FoldLines(doc, tree, lines, 1, st1) == st2;
  }

  /** The parser reads the two code spans and nothing of the prose. */
  lemma ReadsTwo(doc: string, tree: Tree, x: char, y: char, z: char)
    requires IsCount(x) && IsCount(y) && IsCount(z) && "a/b" in tree.files
    ensures var st := Parse(doc, tree, TwoLines(x, y, z));
            st.problems == [] && st.citations == [Cite(doc, 1, y), Cite(doc, 2, z)]
  {
    hide NextSpan, Cite, FoldSpans, Parse, First, Second;
    var lines := TwoLines(x, y, z);
    TicksOfFirst(x, y);
    TicksOfSecond(z);
    TwoFolds(doc, tree, lines);
    OneSpanLine(doc, tree, lines, 0, Span(6, 13), y, START);
    OneSpanLine(doc, tree, lines, 1, Span(0, 7), z, FoldSpans(doc, tree, lines, 0, 0, START));
  }

  lemma AdvanceKeepsRead(lines: seq<string>, st: State, at: nat)
    ensures var after := Advance(lines, st, at);
            after.citations == st.citations && after.problems == st.problems
  {
  }

  // ------------------------------------------------------------------ the merge

  /** The cited file had the lines b and c; a line came between them. */
  function OldFile(): SourceIndex {
    IndexOf(["b", "c"])
  }

  function NewFile(): SourceIndex {
    IndexOf(["b", "n", "c"])
  }

  function TheTree(): Tree {
    Tree({"a/b"}, map["b" := ["a/b"]])
  }

  function Side(): Parent {
    Parent("side", TheTree(), {}, map[Claim("d", "a/b:2", 2, 2) := {"a/b"}], map["d" := {"a/b"}],
           map["d" := {First('2', '2'), Second('2')}], map["a/b" := OldFile()])
  }

  function TheInputs(): Inputs {
    Inputs([Side()], map["a/b" := NewFile()], {}, TheTree())
  }

  function TheText(): string {
    First('2', '2') + "\n" + Second('2')
  }

  function TheDocs(): map<string, string> {
    map["d" := TheText()]
  }

  function TheMove(): Decision {
    Decision(Shifted, (2, 2), Some((3, 3)), "side")
  }

  lemma LineMoves()
    ensures NewFile().sep != "" && var d := Locate(OldFile(), NewFile(), 2, 2); d.status == Shifted && d.placed == Some((3, 3))
  {
    var was, now := ["b", "c"], ["b", "n", "c"];
    IndexIsBuilt(was);
    IndexIsBuilt(now);
    CleanIff(was);
    CleanIff(now);
    NulFreeSeparator(was);
    NulFreeSeparator(now);
    hide IndexOf, Built, Locate;
    assert !IsSpace('b') && !IsSpace('c') && !IsSpace('n');
    assert Plain(OldFile()) && Plain(NewFile());
    assert Cited(was, 2, 2) == ["c"];
    assert now[2..3] == ["c"] && now[0..1] == ["b"] && now[1..2] == ["n"];
    assert OnlyAt(now, ["c"], 2) && "c" in ["c"];
    FoundWhenUnique(OldFile(), NewFile(), 2, 2, 2);
  }

  lemma TokenParts()
    ensures PathOf("a/b:2") == "a/b" && SpansOf("a/b:2") == "2" && Split("2", ',') == ["2"] && IsChunk("2") && ChunkRange("2") == (2, 2)
    ensures SpanText(3, 3) == "3" && '/' in "a/b" && "a/b:" + ['2'] == "a/b:2"
  {
    assert "a/b:2" == "a/b" + ":" + "2";
    SpansOfParts("a/b", "2");
    OneDigit('2');
    assert "a/b"[1] == '/';
  }

  lemma BothMove(docLine: nat, line: string)
    ensures Decided([Side()], NewFile(), {}, line, Cite("d", docLine, '2')) == TheMove()
  {
    LineMoves();
    TokenParts();
    hide Locate, OldFile, NewFile, First, Second, PathOf;
    var c, p := Cite("d", docLine, '2'), Side();
    assert ClaimOf(c) == Claim("d", "a/b:2", 2, 2);
    assert VoteOf(p, NewFile(), c) == Move((3, 3));
    assert [p][1..] == [];
    assert Filter(ClaimsIt(c), [p]) == [p];
    assert Deciding([p], line, c) == [p];
    assert !SymlinkRefused([p], {}, "a/b");
    assert !IdentityRefused([p], c);
  }

  function TheContext(): Context {
    ContextOf(TheInputs(), TheText())
  }

  function TheGroups(): seq<Group> {
    [[Cite("d", 1, '2')], [Cite("d", 2, '2')]]
  }

  lemma FreeOfBreaks()
    ensures BreakFree(First('2', '2')) && BreakFree(Second('2')) && IsTerminator("\n") && "\n" != "\r"
  {
  }

  lemma TextParts()
    ensures SplitParts(TheText()) == [First('2', '2'), "\n", Second('2')]
  {
    hide First, Second, SplitParts, BreakFree, LineLength;
    FreeOfBreaks();
    SplitCons(First('2', '2'), "\n", Second('2'));
    OneLineParts(Second('2'));
    assert TheText() == First('2', '2') + ("\n" + Second('2'));
  }

  lemma TwoOfThree(a: string, e: string, b: string)
    requires b != ""
    ensures LinesOf([a, e, b]) == [a, b]
  {
  }

  lemma TextLines()
    ensures SplitLines(TheText()) == TwoLines('2', '2', '2')
  {
    hide First, Second, SplitParts, TheText, LinesOf;
    TextParts();
    SecondNotEmpty();
    TwoOfThree(First('2', '2'), "\n", Second('2'));
  }

  lemma SecondNotEmpty()
    ensures Second('2') != ""
  {
  }

  lemma OneLineParts(c: string)
    requires BreakFree(c)
    ensures SplitParts(c) == [c]
  {
    LineLengthOfPrefix(c, "");
    assert c + "" == c;
  }

  /** Both tokens are replaced whole. */
  lemma TokenPlanned(docLine: nat)
    requires 1 <= docLine <= 2
    ensures var ctx, g := TheContext(), [Cite("d", docLine, '2')];
      && AllInContext(ctx, g) && IsGroup(g) && TokenDecisions(ctx, g) == [TheMove()]
      && TokenReplacement(ctx, g) == [Replacement("a/b:2", "a/b:3")]
  {
    hide Locate, IndexOf, SplitLines, Split, SpansOf, PathOf, IsChunk, ChunkRange, SpanText, Decided;
    LineMoves();
    TokenParts();
    TextLines();
    var ctx, c := TheContext(), Cite("d", docLine, '2');
    var g := [c];
    BothMove(docLine, ctx.lines[docLine - 1]);
    assert DecisionOf(ctx, c) == TheMove();
    var ds := Decisions(ctx, g);
    assert ds == [TheMove()];
    assert WrittenSpans(g) == ["2"];
    assert NewSpans(g, ds) == ["3"];
    assert "a/b" + ":" + Join(["3"], ",") == "a/b:3";
  }

  // -------------------------------------------------------------------- the plan

  function TheReps(): seq<Replacement> {
    [Replacement("a/b:2", "a/b:3")]
  }

  /** The first line's prose is rewritten, and its token is left; the second line's token is. */
  lemma FirstRewritten()
    ensures Rewritten(First('2', '2'), TheReps()) == Some(First('3', '2'))
  {
    var line := First('2', '2');
    assert line == ['a', '/', 'b', ':', '2', ' ', '`', 'a', '/', 'b', ':', '2', '`'];
    assert line[0..5] == "a/b:2" && line[5] == ' ' && !IsPathChar(' ');
    assert WholeAt(line, "a/b:2", 0);
    assert TokenFrom(line, "a/b:2", 0) == 0;
    OneReplaced(line, 0);
    assert line[..0] + "a/b:3" + line[5..] == First('3', '2');
  }

  lemma SecondRewritten()
    ensures Rewritten(Second('2'), TheReps()) == Some(Second('3'))
  {
    var line := Second('2');
    assert line == ['`', 'a', '/', 'b', ':', '2', '`'];
    assert line[1..6] == "a/b:2" && line[0] == '`' && line[6] == '`' && !IsPathChar('`');
    assert WholeAt(line, "a/b:2", 1);
    assert line[0..5][0] == '`' && "a/b:2"[0] == 'a';
    assert TokenFrom(line, "a/b:2", 0) == 1;
    OneReplaced(line, 1);
    assert line[..1] + "a/b:3" + line[6..] == Second('3');
  }

  lemma OneReplaced(line: string, at: nat)
    requires TokenFrom(line, "a/b:2", 0) == at && at + 5 <= |line|
    ensures Rewritten(line, TheReps()) == Some(line[..at] + "a/b:3" + line[at + 5..])
  {
    hide TokenFrom, WholeAt;
    var reps := TheReps();
    assert reps[1..] == [] && Greedy(line, [], at + 5) == Some([]);
    assert [at] + [] == [at];
    assert Greedy(line, reps, 0) == Some([at] + []);
    assert [at][1..] == [] && line[0..at] == line[..at];
    assert Spliced(line, [], at + 5, []) == line[at + 5..];
  }

  lemma TwoGroups(ctx: Context, a: Group, b: Group, reps: seq<Replacement>, ds: seq<Decision>)
    requires AllInContext(ctx, a) && IsGroup(a) && AllInContext(ctx, b) && IsGroup(b)
    requires GroupLine(a) == 1 && GroupLine(b) == 2
    requires TokenReplacement(ctx, a) == reps == TokenReplacement(ctx, b) && TokenDecisions(ctx, a) == ds == TokenDecisions(ctx, b)
    ensures Groups(ctx, [a, b])
    ensures LineReps(ctx, [a, b], 1) == reps == LineReps(ctx, [a, b], 2)
    ensures Flatten(SettledAll(ctx, [a, b])) == ds + ds && Flatten([a, b]) == a + b
  {
    hide TokenReplacement, TokenDecisions, IsGroup, InContext, GroupLine;
    var gs := [a, b];
    assert gs[1..] == [b] && [b][1..] == [];
    assert LineReps(ctx, [], 1) == [] && LineReps(ctx, [], 2) == [];
    assert LineReps(ctx, [b], 1) == [] + [] && LineReps(ctx, [b], 2) == reps + [];
    assert SettledAll(ctx, [b]) == [ds] + [] && SettledAll(ctx, gs) == [ds] + SettledAll(ctx, [b]);
    assert SettledAll(ctx, gs) == [ds, ds] && [ds, ds][1..] == [ds] && [ds][1..] == [];
    assert Flatten([ds]) == ds + [] && Flatten([b]) == b + [];
  }

  ghost predicate BothReplaced(ctx: Context, gs: seq<Group>) {
    && Groups(ctx, gs) && LineReps(ctx, gs, 1) == TheReps() == LineReps(ctx, gs, 2)
    && Flatten(SettledAll(ctx, gs)) == [TheMove(), TheMove()] && Flatten(gs) == [Cite("d", 1, '2'), Cite("d", 2, '2')]
  }

  lemma PlannedReps()
    ensures BothReplaced(TheContext(), TheGroups())
  {
    hide TokenReplacement, TokenDecisions, IsGroup, AllInContext, TheContext, Cite, TheMove, GroupLine, LineReps, Flatten, SettledAll;
    TokenPlanned(1);
    TokenPlanned(2);
    LinesOfGroups();
    TwoGroups(TheContext(), [Cite("d", 1, '2')], [Cite("d", 2, '2')], TheReps(), [TheMove()]);
  }

  lemma LinesOfGroups()
    ensures GroupLine(TheGroups()[0]) == 1 && GroupLine(TheGroups()[1]) == 2
  {
  }

  lemma {:induction false} NoProblems(lines: seq<string>, plans: seq<LinePlan>)
    requires forall p <- plans :: 1 <= p.line <= |lines| && Rewritten(lines[p.line - 1], p.reps).Some?
    ensures ProblemsOf(lines, plans) == []
  {
    hide Rewritten;
    if plans != [] {
      assert plans[0] in plans;
      NoProblems(lines, plans[1..]);
    }
  }

  lemma PlanHolds()
    ensures var ctx, gs := TheContext(), TheGroups();
      && Groups(ctx, gs) && AllGroups(ctx, Runs(gs))
      && (forall p <- PerLine(ctx, Runs(gs)) :: 1 <= p.line <= |ctx.lines|)
      && ProblemsOf(ctx.lines, PerLine(ctx, Runs(gs))) == []
  {
    var ctx, gs := TheContext(), TheGroups();
    PlannedReps();
    TextLines();
    FirstRewritten();
    SecondRewritten();
    hide LineReps, Rewritten, Groups, Runs, PerLine, SplitLines, First, Second, OldFile, NewFile;
    RunsAreGroups(ctx, gs);
    LinesInContext(ctx, Runs(gs));
    LinesOfGroups();
    hide GroupLine;
    forall p <- PerLine(ctx, Runs(gs)) ensures Rewritten(ctx.lines[p.line - 1], p.reps).Some? {
      PlansAreLines(ctx, gs, p.line);
      assert p.line == 1 || p.line == 2;
    }
    NoProblems(ctx.lines, PerLine(ctx, Runs(gs)));
  }

  // ---------------------------------------------------------------- main result

  /** What a run needs to end well, and where it leaves the first citation. */
  ghost predicate EndsWellAstray(plan: map<string, DocPlan>, after: map<string, string>) {
    var tree, scan := TheTree(), ["d"];
    && CleanParse(TheDocs(), tree, scan) && IsPlan(plan, TheDocs(), TheInputs(), scan)
    && "d" in plan && !Stuck(plan["d"].ds) && after == map["d" := After(plan, "d", TheText())]
    && CleanParse(after, tree, scan)
    && (forall a: Anchor :: AnchorsOf(plan["d"].citations, plan["d"].ds, a) ==> ReadsAs(after, tree, scan, a))
    && |plan["d"].citations| == |plan["d"].ds| == |ParsedDoc(after, tree, "d").citations| == 2
    && plan["d"].ds[0].status == Shifted && plan["d"].ds[0].placed == Some((3, 3))
    && ParsedDoc(after, tree, "d").citations[0] == plan["d"].citations[0] && plan["d"].citations[0].start == 2
  }

  function TheCitations(): seq<Citation> {
    [Cite("d", 1, '2'), Cite("d", 2, '2')]
  }

  lemma GroupsHere()
    ensures InWholeTokens(TheCitations(), TheGroups()) && AllInContext(TheContext(), TheCitations())
  {
    hide LineReps, TheContext, Cite, GroupLine, IsGroup, InContext, TokenReplacement, TokenDecisions, SettledAll, Flatten;
    PlannedReps();
    LinesOfGroups();
    TokenPlanned(1);
    TokenPlanned(2);
    InContextOnce(1);
    InContextOnce(2);
  }

  lemma InContextOnce(docLine: nat)
    requires AllInContext(TheContext(), [Cite("d", docLine, '2')])
    ensures InContext(TheContext(), Cite("d", docLine, '2'))
  {
    hide InContext, TheContext, Cite;
    assert [Cite("d", docLine, '2')][0] == Cite("d", docLine, '2');
  }

  lemma PlannedSo() returns (edits: seq<Edit>)
    ensures PlannedAs(TheInputs(), TheText(), TheCitations(), [TheMove(), TheMove()], edits)
    ensures (forall e <- edits :: e.line >= 1) && Replaced(TheText(), edits).Some?
    ensures SplitLines(Replaced(TheText(), edits).value) == TwoLines('3', '2', '3')
  {
    hide LineReps, Groups, Runs, PerLine, SplitLines, TheText, TheInputs, EditsOf, ProblemsOf, Replaced, SettledAll, TheMove;
    hide TheCitations, TheGroups, AllGroups, InWholeTokens, AllInContext, TwoLines, LinesRewritten, TheReps;
    var ctx, gs := TheContext(), TheGroups();
    PlannedReps();
    PlanHolds();
    GroupsHere();
    edits := EditsOf(ctx.lines, PerLine(ctx, Runs(gs)));
    assert PlannedWith(TheInputs(), TheText(), TheCitations(), [TheMove(), TheMove()], edits, gs);
    PlannedText(ctx, TheText(), TheCitations(), gs);
    LinesAre(ctx, gs, SplitLines(Replaced(TheText(), edits).value));
  }

  lemma LinesAre(ctx: Context, gs: seq<Group>, now: seq<string>)
    requires ctx == TheContext() && Groups(ctx, gs) && LinesRewritten(ctx, gs, now)
    requires LineReps(ctx, gs, 1) == TheReps() == LineReps(ctx, gs, 2)
    ensures now == TwoLines('3', '2', '3')
  {
    hide LineReps, Rewritten, Groups, SplitLines, First, Second;
    TextLines();
    FirstRewritten();
    SecondRewritten();
    assert ctx.lines == [First('2', '2'), Second('2')];
    assert Rewritten(ctx.lines[0], LineReps(ctx, gs, 0 + 1)) == Some(now[0]);
    assert Rewritten(ctx.lines[1], LineReps(ctx, gs, 1 + 1)) == Some(now[1]);
  }

  /** The run ends well, and the first citation still says line 2, where the new line stands. */
  lemma GoodEndStaleCitation() returns (plan: map<string, DocPlan>, after: map<string, string>)
    ensures EndsWellAstray(plan, after)
  {
    hide Parse, SplitLines, TheText, PlannedAs, Replaced, TwoLines;
    var citations, ds := TheCitations(), [TheMove(), TheMove()];
    var edits := PlannedSo();
    plan := map["d" := DocPlan(citations, ds, edits)];
    after := map["d" := After(plan, "d", TheText())];
    TextLines();
    ReadsTwo("d", TheTree(), '2', '2', '2');
    ReadsTwo("d", TheTree(), '3', '2', '3');
    var found := ParsedDoc(after, TheTree(), "d").citations;
    assert found == [Cite("d", 1, '2'), Cite("d", 2, '3')];
    forall a: Anchor | AnchorsOf(citations, ds, a) ensures ReadsAs(after, TheTree(), ["d"], a) {
      assert found[1].target == a.target && found[1] in found;
    }
  }
}
