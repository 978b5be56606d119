/** A cited file that is itself a document of the run: when its own rewrites leave the text that a
    relocated citation pins (scripts/relocate-citations.py:1072-1155,
    scripts/check-citation-drift.py:742-752). */
module CitedDocument {
  import opened Text
  import opened LineBreaks
  import opened LineBlocks
  import opened LineIndex
  import opened Citations
  import opened CitationParser
  import opened CitationScope
  import opened SpanSwap
  import opened SwapScope
  import opened Relocate
  import opened Decide
  import opened Agreement
  import opened TokenRewrite
  import opened Plan
  import opened WholeTokens
  import opened PlannedLines
  import opened Commit
  import opened Landing

  // -------------------------------------------------- a rewrite outlasts stripping

  predicate AllSpace(t: string) {
    forall k :: 0 <= k < |t| ==> IsSpace(t[k])
  }

  lemma {:induction false} LStripOf(pre: string, t: string)
    requires AllSpace(pre) && t != "" && !IsSpace(t[0])
    ensures LStrip(pre + t) == t
  {
    hide IsSpace;
    if pre == "" {
      assert pre + t == t;
    } else {
      assert (pre + t)[1..] == pre[1..] + t;
      LStripOf(pre[1..], t);
    }
  }

  lemma {:induction false} RStripOf(t: string, post: string)
    requires AllSpace(post) && t != "" && !IsSpace(t[|t| - 1])
    ensures RStrip(t + post) == t
    decreases |post|
  {
    hide IsSpace;
    if post == "" {
      assert t + post == t;
    } else {
      var n := |post| - 1;
      assert (t + post)[..|t + post| - 1] == t + post[..n];
      RStripOf(t, post[..n]);
    }
  }

  lemma StripOf(pre: string, mid: string, post: string)
    requires AllSpace(pre) && AllSpace(post) && mid != "" && !IsSpace(mid[0]) && !IsSpace(mid[|mid| - 1])
    ensures Strip(pre + mid + post) == mid
  {
    hide IsSpace;
    assert pre + mid + post == pre + (mid + post);
    LStripOf(pre, mid + post);
    RStripOf(mid, post);
  }

  lemma StripBetween(head: string, x: string, tail: string)
    requires head != "" && !IsSpace(head[|head| - 1]) && x != "" && !IsSpace(x[|x| - 1])
    ensures Strip(head + x + tail) == LStrip(head) + x + RStrip(tail)
  {
    hide IsSpace, Strip, LStrip, RStrip;
    var l, r := LStrip(head), RStrip(tail);
    var pre, post := head[..|head| - |l|], tail[|r|..];
    SpacesAround(head, tail);
    Regroup(pre, l, x, r, post);
    MidEnds(l, x, r);
    StripOf(pre, l + x + r, post);
  }

  lemma SpacesAround(head: string, tail: string)
    requires head != "" && !IsSpace(head[|head| - 1])
    ensures var l, r := LStrip(head), RStrip(tail); var pre, post := head[..|head| - |l|], tail[|r|..];
      l != "" && AllSpace(pre) && AllSpace(post) && head == pre + l && tail == r + post
  {
    hide IsSpace, LStrip, RStrip;
  }

  lemma MidEnds(l: string, x: string, r: string)
    requires l != "" && x != ""
    ensures var mid := l + x + r; mid[0] == l[0] && mid[|mid| - 1] == if r == "" then x[|x| - 1] else r[|r| - 1]
  {
  }

  lemma Regroup(pre: string, l: string, x: string, r: string, post: string)
    ensures (pre + l) + x + (r + post) == pre + (l + x + r) + post
  {
  }

  lemma Cancel(l: string, x: string, y: string, r: string)
    requires l + x + r == l + y + r
    ensures x == y
  {
    assert |x| == |y|;
    assert x == (l + x + r)[|l|..|l| + |x|] && y == (l + y + r)[|l|..|l| + |y|];
  }

  /** Texts with one start and one end, each with something in it, are equal once they are equal
      stripped. */
  lemma SameEnds(head: string, x: string, y: string, tail: string)
    requires head != "" && !IsSpace(head[|head| - 1]) && x != "" && !IsSpace(x[|x| - 1]) && y != "" && !IsSpace(y[|y| - 1])
    requires Strip(head + x + tail) == Strip(head + y + tail)
    ensures x == y
  {
    hide IsSpace, Strip, LStrip, RStrip;
    StripBetween(head, x, tail);
    StripBetween(head, y, tail);
    Cancel(LStrip(head), x, y, RStrip(tail));
  }

  lemma DigitsAreText()
    ensures forall c :: IsDigit(c) ==> !IsSpace(c)
    ensures !IsSpace(':')
  {
  }

  /** `s` starts as the line does from `pos` to `m`, and ends as the line does from `n` on, with a
      digit in front of that in both. */
  predicate Framing(line: string, pos: nat, s: string, m: nat, n: nat) {
    && pos <= m < n <= |line| && IsDigit(line[n - 1])
    && (m - pos) + (|line| - n) < |s| && IsDigit(s[|s| - (|line| - n) - 1])
    && s[..m - pos] == line[pos..m] && s[|s| - (|line| - n)..] == line[n..]
  }

  lemma EndsInDigit(line: string, r: Replacement, at: nat)
    requires Respans(r) && WholeAt(line, r.token, at)
    ensures |PathOf(r.token)| + 1 < |r.token| && at + |r.token| <= |line| && IsDigit(line[at + |r.token| - 1])
    ensures |r.text| > |PathOf(r.token)| + 1 && IsDigit(r.text[|r.text| - 1])
    ensures r.text[..|PathOf(r.token)| + 1] == line[at..at + |PathOf(r.token)| + 1]
    ensures line[at + |PathOf(r.token)|] == ':'
  {
    hide WholeAt, PathOf, SpansOf, IsDigit, IsSpanList, IsListChar;
    WholeFits(line, r.token, at);
    RegionFits(line, r, at);
    ListChars(SpansOf(r.token));
    ListChars(SpansOf(r.text));
    TokenEnds(line, at, PathOf(r.token), SpansOf(r.token), SpansOf(r.text));
  }

  lemma TokenEnds(line: string, at: nat, path: string, was: string, now: string)
    requires was != "" && now != "" && at + |path| + 1 + |was| <= |line|
    requires line[at..at + |path| + 1] == path + ":" && line[at + |path| + 1..at + |path| + 1 + |was|] == was
    ensures line[at + |path| + |was|] == was[|was| - 1] && line[at + |path|] == ':'
    ensures var text := path + ":" + now; text[|text| - 1] == now[|now| - 1] && text[..|path| + 1] == line[at..at + |path| + 1]
  {
    var n := |path|;
    assert line[at + n] == line[at..at + n + 1][n];
    assert line[at + n + |was|] == line[at + n + 1..at + n + 1 + |was|][|was| - 1];
  }

  lemma FramedFirst(line: string, pos: nat, at: nat, m: nat, n: nat, text: string, s: string)
    requires pos <= at <= m < n <= |line| && IsDigit(line[n - 1]) && m - at < |text| && IsDigit(text[|text| - 1])
    requires text[..m - at] == line[at..m] && s == line[pos..at] + text + line[n..]
    ensures Framing(line, pos, s, m, n)
  {
    hide IsDigit;
    var k := |line| - n;
    assert s[|s| - k - 1] == text[|text| - 1];
    assert s[..m - pos] == line[pos..at] + text[..m - at];
  }

  lemma FramedBehind(line: string, pos: nat, at: nat, m: nat, next: nat, m1: nat, n: nat, text: string, s: string, rest: string)
    requires pos <= at <= m < next <= |line| && m - at < |text| && text[..m - at] == line[at..m]
    requires Framing(line, next, rest, m1, n) && s == line[pos..at] + text + rest
    ensures Framing(line, pos, s, m, n)
  {
    hide IsDigit;
    var k := |line| - n;
    assert s[|s| - k - 1] == rest[|rest| - k - 1];
    assert s[..m - pos] == line[pos..at] + text[..m - at];
    assert s[|s| - k..] == rest[|rest| - k..];
  }

  lemma {:induction false} SplicedFrames(line: string, reps: seq<Replacement>, pos: nat, at: seq<nat>) returns (n: nat)
    requires pos <= |line| && AllRespan(reps) && Placement(line, reps, pos, at) && reps != []
    ensures Framing(line, pos, Spliced(line, reps, pos, at), at[0] + |PathOf(reps[0].token)| + 1, n)
    ensures line[at[0] + |PathOf(reps[0].token)|] == ':'
    decreases |reps|
  {
    hide WholeAt, Respans, PathOf, SpansOf, IsDigit, Framing;
    var r, next := reps[0], at[0] + |reps[0].token|;
    var m := at[0] + |PathOf(r.token)| + 1;
    EndsInDigit(line, r, at[0]);
    if |reps| == 1 {
      assert reps[1..] == [];
      n := next;
      FramedFirst(line, pos, at[0], m, n, r.text, Spliced(line, reps, pos, at));
    } else {
      n := SplicedFrames(line, reps[1..], next, at[1..]);
      FramedBehind(line, pos, at[0], m, next, at[1] + |PathOf(reps[1].token)| + 1, n, r.text, Spliced(line, reps, pos, at),
                   Spliced(line, reps[1..], next, at[1..]));
    }
  }

  /** A line that a plan changes is still another line when both are stripped. */
  lemma RewriteOutlastsStrip(line: string, reps: seq<Replacement>, now: string)
    requires AllRespan(reps) && TokenRewrite.Rewritten(line, reps) == Some(now) && now != line
    ensures Strip(now) != Strip(line)
  {
    hide WholeAt, Respans, PathOf, Strip, IsSpace, IsDigit, Greedy, Spliced;
    var at := Greedy(line, reps, 0).value;
    if reps == [] {
      NothingToRewrite(line);
    } else {
      var n := SplicedFrames(line, reps, 0, at);
      DigitsAreText();
      FramedStrip(line, now, at[0] + |PathOf(reps[0].token)| + 1, n);
    }
  }

  lemma FramedStrip(line: string, now: string, m: nat, n: nat)
    requires Framing(line, 0, now, m, n) && m > 0 && line[m - 1] == ':' && now != line
    ensures Strip(now) != Strip(line)
  {
    hide Strip, IsSpace, IsDigit;
    DigitsAreText();
    var k := |now| - (|line| - n);
    var head, x, y, tail := line[..m], line[m..n], now[m..k], line[n..];
    assert head == line[0..m];
    assert line == head + x + tail;
    assert now == now[..m] + y + now[k..];
    assert x[|x| - 1] == line[n - 1] && y[|y| - 1] == now[k - 1] && head[m - 1] == ':';
    if Strip(now) == Strip(line) {
      SameEnds(head, x, y, tail);
    }
  }

  // ---------------------------------------------------------- the lines of the document

  /** Every edit of a planned document changes what its line says, whitespace at the ends aside. */
  ghost predicate EditsShow(lines: seq<string>, edits: seq<Edit>) {
    forall e <- edits :: 1 <= e.line <= |lines| && Strip(e.text) != Strip(lines[e.line - 1])
  }

  lemma PlannedEditsShow(inputs: Inputs, doc: string, text: string, p: DocPlan, gs: seq<Group>)
    requires var st := Parse(doc, inputs.tree, SplitLines(text)); st.problems == [] && p.citations == st.citations
    requires PlannedWith(inputs, text, p.citations, p.ds, p.edits, gs)
    ensures EditsShow(SplitLines(text), p.edits)
  {
    hide Parse, SplitLines, IsGroup, InContext, PerLine, Runs, EditsOf, ProblemsOf, SettledAll;
    hide LineReps, Rewritten, Strip, AllRespan, AllParsed;
    var ctx := ContextOf(inputs, text);
    var plans := PerLine(ctx, Runs(gs));
    var own := ParsedInWholeTokens(doc, inputs.tree, ctx.lines);
    GroupsAreUnique(own, gs);
    CleanTokens(doc, inputs.tree, ctx, gs);
    LinesGrowInTokens(p.citations, gs);
    forall e <- p.edits ensures 1 <= e.line <= |ctx.lines| && Strip(e.text) != Strip(ctx.lines[e.line - 1]) {
      var q := EditsAreMade(ctx.lines, plans, e);
      PlansAreLines(ctx, gs, e.line);
      LineRespans(doc, ctx, Parse(doc, inputs.tree, ctx.lines).tokens, gs, e.line);
      RewriteOutlastsStrip(ctx.lines[e.line - 1], LineReps(ctx, gs, e.line), e.text);
    }
  }

  /** No planned edit is of a line in the range. */
  predicate Untouched(edits: seq<Edit>, start: nat, end: nat) {
    forall e <- edits :: !(start <= e.line <= end)
  }

  lemma PinnedIff(was: seq<string>, now: seq<string>, edits: seq<Edit>, start: nat, end: nat)
    requires |now| == |was| && 1 <= start <= end <= |was| && EditsShow(was, edits)
    requires forall e <- edits :: 1 <= e.line <= |now| && now[e.line - 1] == e.text
    requires forall n :: 0 <= n < |now| && (forall e <- edits :: e.line != n + 1) ==> now[n] == was[n]
    ensures Cited(Normalised(now), start, end) == Cited(Normalised(was), start, end) <==> Untouched(edits, start, end)
  {
    hide Strip;
    var a, b := Cited(Normalised(now), start, end), Cited(Normalised(was), start, end);
    assert forall k :: start - 1 <= k < end ==> a[k - (start - 1)] == Strip(now[k]) && b[k - (start - 1)] == Strip(was[k]);
    if !Untouched(edits, start, end) {
      var e :| e in edits && start <= e.line <= end;
      assert a[e.line - start] != b[e.line - start];
    } else {
      forall k | 0 <= k < |a| ensures a[k] == b[k] {
        assert now[start - 1 + k] == was[start - 1 + k];
      }
    }
  }

  /** The pinned lines of a planned document are the same after the run exactly when the plan
      edits none of them. */
  lemma PinnedStaysIff(plan: map<string, DocPlan>, docs: map<string, string>, inputs: Inputs, scan: seq<string>,
                       f: string, start: nat, end: nat)
    requires IsPlan(plan, docs, inputs, scan) && CleanParse(docs, inputs.tree, scan) && f in plan
    requires 1 <= start <= end <= |SplitLines(docs[f])|
    ensures var was, now := SplitLines(docs[f]), SplitLines(After(plan, f, docs[f]));
      && |now| == |was|
      && (Cited(Normalised(now), start, end) == Cited(Normalised(was), start, end) <==> Untouched(plan[f].edits, start, end))
  {
    hide Parse, SplitLines, PlannedWith, Replaced, LineEdits, OnlyEdited, SplitParts, After, Untouched, EditsShow;
    PlanEditsLines(plan, docs, inputs, scan, f);
    var p := plan[f];
    var gs :| PlannedWith(inputs, docs[f], p.citations, p.ds, p.edits, gs);
    PlannedEditsShow(inputs, f, docs[f], p, gs);
    PlanIsLineEdits(inputs, docs[f], p.citations, p.ds, p.edits, gs);
    EditedSplit(docs[f], p.edits);
    PinnedIff(SplitLines(docs[f]), SplitLines(After(plan, f, docs[f])), p.edits, start, end);
  }

  /** A relocated citation of a file that the run itself rewrites: the new range holds the text
      that was cited exactly when the plan for that file edits no line of it. */
  lemma MovedTextStaysIff(plan: map<string, DocPlan>, docs: map<string, string>, inputs: Inputs, scan: seq<string>,
                          d: string, k: nat, o: Parent)
    requires IsPlan(plan, docs, inputs, scan) && CleanParse(docs, inputs.tree, scan) && d in plan
    requires k < |plan[d].ds| && plan[d].ds[k].status == Shifted
    requires (forall p <- inputs.parents :: NoEmptyClaim(p.tokens)) && AllComparable(inputs)
    requires var c := plan[d].citations[k];
      && c.target in plan && c.target in inputs.index && inputs.index[c.target].norm == Normalised(SplitLines(docs[c.target]))
      && 1 <= c.docLine <= |SplitLines(docs[d])| && o in Deciding(inputs.parents, SplitLines(docs[d])[c.docLine - 1], c)
    ensures var c, to := plan[d].citations[k], plan[d].ds[k].placed;
      && to.Some? && c.target in o.sources && 1 <= c.start <= c.end <= |o.sources[c.target].norm|
      && var now := Normalised(SplitLines(AfterAll(plan, docs)[c.target]));
         && 1 <= to.value.0 <= to.value.1 <= |now|
         && (Cited(now, to.value.0, to.value.1) == Cited(o.sources[c.target].norm, c.start, c.end) <==>
              Untouched(plan[c.target].edits, to.value.0, to.value.1))
  {
    hide Parse, SplitLines, PlannedAs, Plain, Comparable, OnlyAt, Deciding, NoEmptyClaim, After, Untouched, Strip, CleanParse;
    RunKeepsTheText(inputs, docs, scan, plan, d, k);
    var c, to := plan[d].citations[k], plan[d].ds[k].placed;
    assert SameText(o, inputs.index[c.target], c, to.value);
    PinnedStaysIff(plan, docs, inputs, scan, c.target, to.value.0, to.value.1);
  }
}
