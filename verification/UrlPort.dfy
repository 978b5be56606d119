/** A number behind a URL: it is read as a citation of the file the sentence cited before, and
    moved with that file's lines (scripts/check-citation-drift.py:388-400, 540-575;
    scripts/relocate-citations.py:521-560). */
module UrlPort {
  import opened Text
  import LineBreaks
  import opened LineIndex
  import opened Citations
  import opened CitationParser
  import opened CitationScope
  import opened CitationPlaces
  import opened Relocate
  import opened Decide
  import opened Agreement
  import opened Plan
  import opened Commit
  import opened Astray

  // ------------------------------------------------ what a moved citation names

  /** A citation that is moved and writes a path names that very file, unless the path is what
      follows a URL's colon; then it names the file of its sentence. */
  lemma MovedNamesItsFile(inputs: Inputs, docs: map<string, string>, scan: seq<string>, plan: map<string, DocPlan>, d: string, k: nat)
    requires IsPlan(plan, docs, inputs, scan) && d in plan && k < |plan[d].ds| && plan[d].ds[k].status == Shifted
    requires PathOf(plan[d].citations[k].raw) != ""
    ensures exists t :: NamesOrUrl(inputs.tree, SplitLinesOf(docs, d), d, plan[d].citations[k], t)
  {
    hide Parse, LineBreaks.SplitLines, PlannedAs, WrittenBy, WellWritten, InPlace, IsUrlTail, PathOf, Decided;
    var c := plan[d].citations[k];
    PlannedShift(inputs, docs[d], plan[d].citations, plan[d].ds, plan[d].edits, k);
    UnanimousOrRefused(inputs.parents, inputs.index[c.target], inputs.links, LineBreaks.SplitLines(docs[d])[c.docLine - 1], c);
    assert !IsBare(c.raw);
    CitationsAreWritten(d, inputs.tree, LineBreaks.SplitLines(docs[d]), c);
    var t :| t in Parse(d, inputs.tree, LineBreaks.SplitLines(docs[d])).tokens && WrittenBy(c, d, t);
    WrittenRaw(c, d, t);
    PathNamesFileIff(d, inputs.tree, LineBreaks.SplitLines(docs[d]), t);
    UrlTailSlash(LineBreaks.SplitLines(docs[d])[t.docLine - 1][..t.col], PathOf(c.raw));
    assert NamesOrUrl(inputs.tree, SplitLinesOf(docs, d), d, c, t);
  }

  lemma UrlTailSlash(before: string, token: string)
    requires token != ""
    ensures IsUrlTail(before, token) ==> token[0] == '/'
  {
  }

  function SplitLinesOf(docs: map<string, string>, d: string): seq<string>
    requires d in docs
  {
    LineBreaks.SplitLines(docs[d])
  }

  lemma WrittenRaw(c: Citation, d: string, t: Token)
    requires WrittenBy(c, d, t)
    ensures t.raw == c.raw && t.target == c.target && t.docLine == c.docLine
  {
  }

  /** The citation's token, what stands before it, and the file it names. */
  ghost predicate NamesOrUrl(tree: Tree, lines: seq<string>, doc: string, c: Citation, t: Token) {
    && t in Parse(doc, tree, lines).tokens && WrittenBy(c, doc, t)
    && 1 <= t.docLine <= |lines| && t.col <= |lines[t.docLine - 1]|
    && (t.explicit <==> !IsUrlTail(lines[t.docLine - 1][..t.col], PathOf(c.raw)))
    && (t.explicit ==> PathOf(c.raw) == c.target && c.target in tree.files)
    && (c.target == "" || c.target[0] != '/' ==> (PathOf(c.raw) == c.target <==> t.explicit))
  }

  // ------------------------------------------------------------- a URL that is moved

  function UrlLine(): string {
    "`a/b:2` `s://h/c.ts:2`"
  }

  function UrlText(): string {
    "s://h/c.ts:2"
  }

  function PortCitation(): Citation {
    Citation("d", 1, "//h/c.ts:2", "a/b", 2, 2)
  }

  /** The side parses its own document so: both tokens mean `a/b`. */
  function UrlSide(): Parent {
    Parent("side", TheTree(), {}, map[Claim("d", "a/b:2", 2, 2) := {"a/b"}, Claim("d", "//h/c.ts:2", 2, 2) := {"a/b"}],
           map["d" := {"a/b"}], map["d" := {UrlLine()}], map["a/b" := OldFile()])
  }

  lemma UrlChars()
    ensures UrlText() == ['s', ':', '/', '/', 'h', '/', 'c', '.', 't', 's', ':', '2'] && |UrlText()| == 12
    ensures UrlLine() == ['`', 'a', '/', 'b', ':', '2', '`', ' ', '`', 's', ':', '/', '/', 'h', '/', 'c', '.', 't', 's', ':', '2', '`']
    ensures |UrlLine()| == 22
    ensures UrlLine()[1..6] == "a/b:" + ['2'] && UrlLine()[9..21] == UrlText()
  {
    assert UrlLine()[9..21] == UrlText();
  }

  lemma UrlSpans()
    ensures var line := UrlLine();
      NextSpan(line, 0) == Some(Span(0, 7)) && NextSpan(line, 7) == Some(Span(8, 22)) && NextSpan(line, 22) == None
  {
    var line := UrlLine();
    UrlChars();
    hide UrlLine, NextSpan;
    assert line[7] == ' ';
    SpanAt(line, 0, 0, 6);
    SpanAt(line, 7, 8, 21);
    NoSpanLeft(line);
  }

  lemma SpanAt(line: string, from: nat, a: nat, b: nat)
    requires from <= a && a + 1 < b < |line| && line[a] == '`' && line[b] == '`'
    requires forall k :: from <= k < b && k != a ==> line[k] != '`'
    ensures NextSpan(line, from) == Some(Span(a, b + 1))
  {
    hide OccursAt, Find;
    FindTick(line, from, a);
    FindTick(line, a + 1, b);
  }

  lemma NoSpanLeft(line: string)
    ensures NextSpan(line, |line|) == None
  {
    hide OccursAt;
  }

  lemma FindTick(line: string, from: nat, at: nat)
    requires from <= at < |line| && line[at] == '`' && forall k :: from <= k < at ==> line[k] != '`'
    ensures Find(line, "`", from) == at
  {
    BacktickThere(line);
    assert line[at..at + 1] == "`";
    FindIs(line, "`", from, at);
  }

  lemma {:induction false} NoColonUntil(t: string, c: nat, k: nat)
    requires c <= k <= |t| && forall j :: c <= j < k ==> t[j] != ':'
    ensures NextColon(t, c) == NextColon(t, k)
    decreases k - c
  {
    hide SpanListEnd, IsSpanList;
    if c < k {
      NoColonUntil(t, c + 1, k);
    }
  }

  lemma {:induction false} RunBack(t: string, lo: nat, s: nat, c: nat)
    requires lo <= s <= c <= |t| && forall j :: s <= j < c ==> IsPathChar(t[j])
    ensures RunStart(t, lo, c) == RunStart(t, lo, s)
    decreases c
  {
    hide IsPathChar;
    if s < c {
      RunBack(t, lo, s, c - 1);
    }
  }

  lemma ColonUnlisted(t: string, c: nat)
    requires c < |t| && SpanListEnd(t, c + 1) == None
    ensures NextColon(t, c) == NextColon(t, c + 1)
  {
    hide SpanListEnd, IsSpanList;
  }

  lemma UrlColon()
    ensures |UrlText()| == 12 && NextColon(UrlText(), 0) == Some(10) && NextColon(UrlText(), 12) == None
    ensures SpanListEnd(UrlText(), 11) == Some(12)
  {
    var t := UrlText();
    UrlChars();
    hide UrlText, SpanListEnd, IsSpanList, NextColon;
    DigitList(t, 11);
    NoListAt(t, 2);
    NoColonUntil(t, 0, 1);
    ColonUnlisted(t, 1);
    NoColonUntil(t, 2, 10);
    ColonListed(t, 10);
    NoColonLeft(t);
  }

  lemma NoListAt(t: string, i: nat)
    requires i < |t| && t[i] == '/'
    ensures SpanListEnd(t, i) == None
  {
  }

  lemma ColonListed(t: string, c: nat)
    requires c < |t| && t[c] == ':' && SpanListEnd(t, c + 1).Some?
    ensures NextColon(t, c) == Some(c)
  {
    hide SpanListEnd, IsSpanList;
  }

  lemma NoColonLeft(t: string)
    ensures NextColon(t, |t|) == None
  {
  }

  lemma UrlRun()
    ensures |UrlText()| == 12 && MatchStart(UrlText(), 0, 10) == 2
  {
    var t := UrlText();
    UrlChars();
    RunBack(t, 0, 2, 10);
    assert RunStart(t, 0, 2) == 2;
    var run := t[2..10];
    assert run == "//h/c.ts" && run[|run| - 3..] == "." + "ts" && CITED_EXTS[1] == "ts";
    assert EndsInKnownExt(run);
  }

  lemma UrlMatch()
    ensures var t := UrlText();
      && NextMatch(t, 0) == Some(Match(2, 10, 12)) && |t| == 12 && NextMatch(t, 12) == None && IsMatch(t, 0, Match(2, 10, 12))
  {
    hide NextColon, SpanListEnd, IsSpanList, MatchStart, UrlText, IsMatch;
    UrlColon();
    UrlRun();
  }

  lemma UrlParts()
    ensures var t := UrlText();
      |t| == 12 && t[..2] == "s:" && t[2..10] == "//h/c.ts" && t[2..12] == "//h/c.ts:2" && t[11..12] == "2"
  {
    UrlChars();
  }

  function PortToken(at: int): Token {
    Token(1, at, 11, "//h/c.ts:2", "2", false, "a/b")
  }

  lemma PortInherits(tree: Tree, st: State)
    requires st.last == Some("a/b")
    ensures IsSpanList("2") && IsMatch(UrlText(), 0, Match(2, 10, 12))
    ensures StepMatch("d", tree, 1, 9, UrlText(), Match(2, 10, 12), st) == Resolve("d", PortToken(st.seen), st)
  {
    hide UrlText, IsSpanList, Resolve, RunStart, IsPathShaped, IsMatch;
    OneDigit('2');
    assert ['2'] == "2";
    UrlMatch();
    UrlParts();
    assert NotACitation(UrlText(), Match(2, 10, 12), tree);
  }

  lemma PortResolves(st: State)
    ensures IsSpanList("2")
    ensures var after := Resolve("d", PortToken(st.seen), st);
            after.citations == st.citations + [PortCitation()] && after.problems == st.problems
  {
    OneDigit('2');
    assert ['2'] == "2";
    hide Split, ChunkRange, IsChunk, IsSpanList;
    assert ["2"][1..] == [];
    var token := PortToken(st.seen);
    assert Emitted("d", token, ["2"]) == [PortCitation()];
    assert Illegal(Problem(1, st.seen, |st.tokens| + 1, IllegalRange), ["2"]) == [];
    assert st.problems + [] == st.problems;
  }

  lemma UrlStep(tree: Tree, st: State)
    requires st.last == Some("a/b")
    ensures var after := FoldMatches("d", tree, 1, 9, UrlText(), 0, st);
            after.citations == st.citations + [PortCitation()] && after.problems == st.problems
  {
    hide UrlText, NextMatch, StepMatch, Resolve, PortCitation, IsMatch, IsSpanList;
    UrlMatch();
    PortInherits(tree, st);
    PortResolves(st);
    var after := Resolve("d", PortToken(st.seen), st);
    assert FoldMatches("d", tree, 1, 9, UrlText(), 12, after) == after;
  }

  lemma NoStopIn(line: string, n: nat)
    requires n <= |line| && Strip(line) != ""
    requires forall i :: 0 <= i < n ==> line[i] != '.' && line[i] != '!' && line[i] != '?'
    ensures !Stopped([line], 0, n)
  {
    hide Strip, IsSpace;
    var lines := [line];
    assert Join(lines, "\n") == line;
    forall s: nat | 0 < s <= n ensures !IsStop(lines, s) {
      assert !EndsSentence(line, s - 1);
    }
  }

  lemma NotBlankAt(line: string, k: nat)
    requires k < |line| && line[k] == 'a'
    ensures Strip(line) != ""
  {
    assert line[k] in line && !IsSpace('a');
  }

  lemma NoStopThere()
    ensures !Stopped([UrlLine()], 0, 8)
  {
    UrlChars();
    hide UrlLine, Strip, Stopped;
    NotBlankAt(UrlLine(), 1);
    NoStopIn(UrlLine(), 8);
  }

  /** The port is read as the range of the file cited before. */
  lemma PortIsRead()
    ensures var st := Parse("d", TheTree(), [UrlLine()]);
            st.problems == [] && st.citations == [Cite("d", 1, '2'), PortCitation()]
  {
    var tree, lines := TheTree(), [UrlLine()];
    UrlSpans();
    UrlChars();
    NoStopThere();
    hide NextSpan, FoldMatches, Cite, FoldSpans, UrlLine, UrlText, PortCitation, Stopped;
    var st0 := Advance(lines, START, 0);
    assert LineBase(lines, 0) == 0;
    StepToken("d", tree, 1, 1, '2', st0);
    LastIsNamed(tree, st0);
    var st1 := FoldMatches("d", tree, 1, 1, "a/b:" + ['2'], 0, st0);
    var st2 := Advance(lines, st1, 8);
    UrlStep(tree, st2);
    var st3 := FoldMatches("d", tree, 1, 9, UrlText(), 0, st2);
    FoldSpansUnfold("d", tree, lines, 0, 0, START);
    FoldSpansUnfold("d", tree, lines, 0, 7, st1);
    FoldSpansUnfold("d", tree, lines, 0, 22, st3);
    assert FoldSpans("d", tree, lines, 0, 0, START) == st3;
    assert FoldLines("d", tree, lines, 1, st3) == st3;
  }

  lemma LastIsNamed(tree: Tree, st: State)
    requires "a/b" in tree.files
    ensures var after := FoldMatches("d", tree, 1, 1, "a/b:" + ['2'], 0, st); after.last == Some("a/b") && after.seen == st.seen
  {
    var t, m := "a/b:" + ['2'], Match(3, 3, 5);
    TokenText('2');
    StepIs("d", tree, 1, 1, '2', st);
    Resolves("d", 1, st.seen, 1, '2', st.(asked := st.asked + {"a/b"}));
    hide NextMatch, Resolve, IsSpanList, StepMatch, Cite;
    var after := StepMatch("d", tree, 1, 1, t, m, st);
    assert FoldMatches("d", tree, 1, 1, t, 5, after) == after;
  }

  lemma SideSays()
    ensures var c, p := PortCitation(), UrlSide();
      && ClaimOf(c) in p.tokens && p.tokens[ClaimOf(c)] == {"a/b"} && p.commit == "side" && p.symlinks == {}
      && "a/b" in p.sources && p.sources["a/b"] == OldFile() && "d" in p.written && p.written["d"] == {"a/b"}
  {
    hide OldFile, UrlLine;
    assert ClaimOf(PortCitation()) == Claim("d", "//h/c.ts:2", 2, 2);
  }

  lemma PortPath()
    ensures PathOf(PortCitation().raw) == "//h/c.ts" != "a/b" && '/' in "//h/c.ts"
  {
    assert "//h/c.ts:2" == "//h/c.ts" + ":" + "2";
    SpansOfParts("//h/c.ts", "2");
    assert "//h/c.ts"[0] == '/' && "a/b"[0] == 'a';
  }

  /** And it is moved with the lines of that file, although its path is not that file's. */
  lemma PortIsMoved()
    ensures Decided([UrlSide()], NewFile(), {}, UrlLine(), PortCitation()) == TheMove()
    ensures PathOf(PortCitation().raw) != PortCitation().target
  {
    hide Locate, OldFile, NewFile, UrlLine, PathOf, UrlSide;
    LineMoves();
    SideSays();
    PortPath();
    var c, p := PortCitation(), UrlSide();
    assert VoteOf(p, NewFile(), c) == Move((3, 3));
    assert [p][1..] == [];
    assert Filter(ClaimsIt(c), [p]) == [p];
    assert Deciding([p], UrlLine(), c) == [p];
    assert !SymlinkRefused([p], {}, "a/b");
    assert !ForeignOn(p, c);
    assert !IdentityRefused([p], c);
  }
}
