/** The whole run: plan every document, write them one by one, put back on failure, and read
    the result back (scripts/relocate-citations.py:907-934, 1072-1255). */
module Commit {
  import opened Text
  import opened LineBreaks
  import opened LineIndex
  import opened Citations
  import opened CitationParser
  import opened CitationScope
  import opened Relocate
  import opened Decide
  import opened Agreement
  import opened TokenRewrite
  import opened Plan
  import opened WholeTokens
  import opened PlannedLines

  /** An anchor as the read-back compares it: document, file, range. */
  datatype Anchor = Anchor(doc: string, target: string, start: nat, end: nat)

  datatype Outcome =
    | Refused                              // nothing was written
    | DryRun(refusals: nat)
    | WriteFailed(stranded: set<string>)   // a write failed; these documents could not be put back
    | NotReadBack(stranded: set<string>)   // the result does not parse to the plan
    | Done(refusals: nat)
  {
    function ExitCode(): nat {
      match this
      case DryRun(n) => if n == 0 then 0 else 1
      case Done(n) => if n == 0 then 0 else 1
      case _ => 1
    }
  }

  /** What a run reads besides the documents. */
  datatype Inputs = Inputs(
    parents: seq<Parent>, index: map<string, SourceIndex>, links: set<string>, tree: Tree)

  // ------------------------------------------------------- the plan of a run

  ghost function ParsedDoc(docs: map<string, string>, tree: Tree, doc: string): State
    requires doc in docs
  {
    Parse(doc, tree, SplitLines(docs[doc]))
  }

  /** Every scanned document is there and parses without a problem. */
  ghost predicate CleanParse(docs: map<string, string>, tree: Tree, scan: seq<string>) {
    forall d <- scan :: d in docs && ParsedDoc(docs, tree, d).problems == []
  }

  /** Some scanned document cites the anchor's file at the anchor's range. */
  ghost predicate ReadsAs(docs: map<string, string>, tree: Tree, scan: seq<string>, a: Anchor) {
    a.doc in scan && a.doc in docs && CitedAs(ParsedDoc(docs, tree, a.doc).citations, a)
  }

  predicate CitedAs(citations: seq<Citation>, a: Anchor) {
    exists c <- citations :: c.target == a.target && c.start == a.start && c.end == a.end
  }

  function ContextOf(inputs: Inputs, text: string): Context {
    Context(inputs.parents, inputs.index, inputs.links, SplitLines(text))
  }

  /** Every cited file can be read in the working tree. */
  ghost predicate Readable(docs: map<string, string>, inputs: Inputs, scan: seq<string>) {
    forall d <- scan :: d in docs ==>
      forall c <- ParsedDoc(docs, inputs.tree, d).citations ::
        c.target in inputs.index && inputs.index[c.target].sep != ""
  }

  /** The decisions and edits that planning the document's citations as whole tokens gives. */
  ghost predicate PlannedAs(inputs: Inputs, text: string, citations: seq<Citation>, ds: seq<Decision>, edits: seq<Edit>) {
    exists gs :: PlannedWith(inputs, text, citations, ds, edits, gs)
  }

  ghost predicate PlannedWith(inputs: Inputs, text: string, citations: seq<Citation>, ds: seq<Decision>,
                              edits: seq<Edit>, gs: seq<Group>) {
    var ctx := ContextOf(inputs, text);
    && InWholeTokens(citations, gs) && Groups(ctx, gs) && AllGroups(ctx, Runs(gs))
    && (forall p <- PerLine(ctx, Runs(gs)) :: 1 <= p.line <= |ctx.lines|)
    && ds == Flatten(SettledAll(ctx, gs))
    && edits == EditsOf(ctx.lines, PerLine(ctx, Runs(gs)))
    && ProblemsOf(ctx.lines, PerLine(ctx, Runs(gs))) == []
  }

  /** Some line of the document has moved tokens that cannot be taken in order, apart and whole. */
  ghost predicate Blocked(inputs: Inputs, text: string, citations: seq<Citation>) {
    exists gs :: InWholeTokens(citations, gs) && Groups(ContextOf(inputs, text), gs) && LineBlocked(ContextOf(inputs, text), gs)
  }

  ghost predicate SomeBlocked(inputs: Inputs, docs: map<string, string>, scan: seq<string>) {
    exists d :: d in scan && d in docs && Blocked(inputs, docs[d], ParsedDoc(docs, inputs.tree, d).citations)
  }

  lemma NothingBlocked(inputs: Inputs, text: string)
    ensures !Blocked(inputs, text, [])
  {
    var ctx := ContextOf(inputs, text);
    if gs :| InWholeTokens([], gs) && Groups(ctx, gs) && LineBlocked(ctx, gs) {
      GroupsAreUnique(gs, []);
      var i :| 0 <= i < |ctx.lines| && !Placeable(ctx.lines[i], LineReps(ctx, gs, i + 1));
      NothingToPlace(ctx.lines[i]);
    }
  }

  lemma BlockedByProblems(inputs: Inputs, text: string, citations: seq<Citation>, gs: seq<Group>)
    requires var ctx := ContextOf(inputs, text);
      && InWholeTokens(citations, gs) && Groups(ctx, gs) && AllGroups(ctx, Runs(gs))
      && forall p <- PerLine(ctx, Runs(gs)) :: 1 <= p.line <= |ctx.lines|
    ensures var ctx := ContextOf(inputs, text);
            Blocked(inputs, text, citations) <==> ProblemsOf(ctx.lines, PerLine(ctx, Runs(gs))) != []
  {
    hide SplitLines, PerLine, ProblemsOf, Runs, IsGroup, LineBlocked, InContext;
    var ctx := ContextOf(inputs, text);
    LinesGrowInTokens(citations, gs);
    BlockedIff(ctx, gs);
    forall other | InWholeTokens(citations, other) ensures other == gs {
      GroupsAreUnique(other, gs);
    }
  }

  /** Some citation was relocated to the anchor. */
  predicate AnchorsOf(citations: seq<Citation>, ds: seq<Decision>, a: Anchor) {
    exists k | 0 <= k < |citations| && k < |ds| ::
      ds[k].status == Shifted && ds[k].placed == Some((a.start, a.end)) &&
      citations[k].doc == a.doc && citations[k].target == a.target
  }

  function ExpectedFrom(citations: seq<Citation>, ds: seq<Decision>): (r: set<Anchor>)
    requires |ds| == |citations|
    ensures forall a :: a in r <==> AnchorsOf(citations, ds, a)
  {
    if ds == [] then {}
    else
      var rest := ExpectedFrom(citations[1..], ds[1..]);
      ExpectedTail(citations, ds);
      if ds[0].status == Shifted && ds[0].placed.Some? then
        {Anchor(citations[0].doc, citations[0].target, ds[0].placed.value.0, ds[0].placed.value.1)} + rest
      else rest
  }

  lemma ExpectedTail(citations: seq<Citation>, ds: seq<Decision>)
    requires |ds| == |citations| > 0
    ensures forall a: Anchor :: AnchorsOf(citations, ds, a) <==>
              AnchorsOf(citations[1..], ds[1..], a) ||
              (ds[0].status == Shifted && ds[0].placed == Some((a.start, a.end)) &&
               citations[0].doc == a.doc && citations[0].target == a.target)
  {
    forall a: Anchor
      ensures AnchorsOf(citations, ds, a) <==>
              AnchorsOf(citations[1..], ds[1..], a) ||
              (ds[0].status == Shifted && ds[0].placed == Some((a.start, a.end)) &&
               citations[0].doc == a.doc && citations[0].target == a.target)
    {
      if AnchorsOf(citations, ds, a) {
        var k :| 0 <= k < |citations| && ds[k].status == Shifted && ds[k].placed == Some((a.start, a.end)) &&
                 citations[k].doc == a.doc && citations[k].target == a.target;
        if k > 0 {
          assert ds[1..][k - 1] == ds[k] && citations[1..][k - 1] == citations[k];
        }
      }
      if AnchorsOf(citations[1..], ds[1..], a) {
        var k :| 0 <= k < |citations[1..]| && ds[1..][k].status == Shifted && ds[1..][k].placed == Some((a.start, a.end)) &&
                 citations[1..][k].doc == a.doc && citations[1..][k].target == a.target;
        assert ds[k + 1] == ds[1..][k] && citations[k + 1] == citations[1..][k];
      }
    }
  }

  function CountRefused(ds: seq<Decision>): (n: nat)
    ensures n == 0 <==> !Stuck(ds)
  {
    if ds == [] then 0
    else
      assert ds == [ds[0]] + ds[1..];
      (if ds[0].status == Right || ds[0].status == Shifted then 0 else 1) + CountRefused(ds[1..])
  }

  /** One document of the run's plan. */
  datatype DocPlan = DocPlan(citations: seq<Citation>, ds: seq<Decision>, edits: seq<Edit>)

  /** The plan of a run: for every scanned document that cites anything, what planning gives. */
  ghost predicate IsPlan(plan: map<string, DocPlan>, docs: map<string, string>, inputs: Inputs, scan: seq<string>) {
    && (forall d <- scan :: d in docs)
    && (forall d <- scan :: d in plan <==> ParsedDoc(docs, inputs.tree, d).citations != [])
    && (forall d <- plan ::
          && d in scan && plan[d].citations == ParsedDoc(docs, inputs.tree, d).citations
          && |plan[d].ds| == |plan[d].citations|
          && PlannedAs(inputs, docs[d], plan[d].citations, plan[d].ds, plan[d].edits))
  }

  /** The document's text after the plan's edits. */
  function After(plan: map<string, DocPlan>, d: string, text: string): string {
    if d !in plan || exists e <- plan[d].edits :: e.line < 1 then text
    else match Replaced(text, plan[d].edits)
      case Some(t) => t
      case None => text
  }

  /** The plan's edits are edits of whole lines, so applying them preserves the rest. */
  lemma PlanEditsLines(plan: map<string, DocPlan>, docs: map<string, string>, inputs: Inputs, scan: seq<string>, d: string)
    requires IsPlan(plan, docs, inputs, scan) && d in plan
    ensures d in docs && LineEdits(SplitParts(docs[d]), plan[d].edits) && forall e <- plan[d].edits :: e.text != ""
    ensures Replaced(docs[d], plan[d].edits) == Some(After(plan, d, docs[d]))
    ensures OnlyEdited(SplitParts(docs[d]), plan[d].edits, SplitParts(After(plan, d, docs[d])))
  {
    hide PlannedWith, LineEdits, OnlyEdited, SplitParts, Replaced, Parse;
    var gs :| PlannedWith(inputs, docs[d], plan[d].citations, plan[d].ds, plan[d].edits, gs);
    PlanIsLineEdits(inputs, docs[d], plan[d].citations, plan[d].ds, plan[d].edits, gs);
  }

  lemma PlanIsLineEdits(inputs: Inputs, text: string, citations: seq<Citation>, ds: seq<Decision>, edits: seq<Edit>, gs: seq<Group>)
    requires PlannedWith(inputs, text, citations, ds, edits, gs)
    ensures LineEdits(SplitParts(text), edits) && forall e <- edits :: e.text != "" && e.line >= 1
    ensures Replaced(text, edits).Some?
    ensures OnlyEdited(SplitParts(text), edits, SplitParts(Replaced(text, edits).value))
  {
    hide SplitParts, OnlyEdited, PerLine, EditsOf, SettledAll, Runs, IsGroup, InContext;
    FlattenInContext(ContextOf(inputs, text), gs);
    PlannedEditsAreLineEdits(ContextOf(inputs, text), text, citations, gs);
  }

  lemma {:induction false} FlattenInContext(ctx: Context, gs: seq<Group>)
    requires Groups(ctx, gs)
    ensures AllInContext(ctx, Flatten(gs))
  {
    hide IsGroup, InContext;
    if gs != [] {
      FlattenInContext(ctx, gs[1..]);
    }
  }

  /** The documents with every planned edit made. */
  function AfterAll(plan: map<string, DocPlan>, docs: map<string, string>): map<string, string> {
    map d | d in docs :: After(plan, d, docs[d])
  }

  /** The documents with edits, in the order of the scan. */
  function Changed(plan: map<string, DocPlan>, docs: map<string, string>, scan: seq<string>): (order: seq<string>)
    ensures forall d :: d in order <==> d in scan && d in docs && d in plan && plan[d].edits != []
  {
    if scan == [] then []
    else
      var d := scan[|scan| - 1];
      Changed(plan, docs, scan[..|scan| - 1]) + if d in docs && d in plan && plan[d].edits != [] then [d] else []
  }

  /** Some planned citation was relocated to the anchor. */
  ghost predicate Wanted(plan: map<string, DocPlan>, a: Anchor) {
    exists d :: d in plan && AnchorsOf(plan[d].citations, plan[d].ds, a)
  }

  /** What the read-back looks for in the documents as planned. */
  ghost predicate ReadsBack(plan: map<string, DocPlan>, docs: map<string, string>, tree: Tree, scan: seq<string>) {
    && CleanParse(AfterAll(plan, docs), tree, scan)
    && forall a: Anchor :: Wanted(plan, a) ==> ReadsAs(AfterAll(plan, docs), tree, scan, a)
  }

  // --------------------------------------------------------------- the state

  /** One attempt to replace a document, and whether it went through. */
  datatype Write = Write(doc: string, text: string, ok: bool)

  function Writes(order: seq<string>, texts: map<string, string>): seq<Write>
    requires forall d <- order :: d in texts
  {
    seq(|order|, i requires 0 <= i < |order| => Write(order[i], texts[order[i]], true))
  }

  /** The attempts put these documents back, but for the stranded ones. */
  predicate PutsBack(log: seq<Write>, written: seq<string>, originals: map<string, string>, stranded: set<string>) {
    && |log| == |written| && (forall d <- stranded :: d in written)
    && forall i :: 0 <= i < |written| ==>
         written[i] in originals && log[i] == Write(written[i], originals[written[i]], written[i] !in stranded)
  }

  /** The attempts went through up to one, and then put back what was written. */
  predicate FailsAt(log: seq<Write>, k: nat, order: seq<string>, texts: map<string, string>, originals: map<string, string>,
                    stranded: set<string>)
    requires forall d <- order :: d in texts
  {
    && k < |order| && k < |log| && log[..k] == Writes(order[..k], texts)
    && log[k] == Write(order[k], texts[order[k]], false)
    && PutsBack(log[k + 1..], order[..k], originals, stranded)
  }

  lemma StrandedWritten(log: seq<Write>, written: seq<string>, originals: map<string, string>, stranded: set<string>)
    requires PutsBack(log, written, originals, stranded)
    ensures forall d <- stranded :: d in written
  {
  }

  lemma FailedThere(was: seq<Write>, mid: seq<Write>, log: seq<Write>, k: nat, order: seq<string>, texts: map<string, string>,
                    originals: map<string, string>, stranded: set<string>)
    requires k < |order| && (forall d <- order :: d in texts)
    requires mid == was + Writes(order[..k], texts) + [Write(order[k], texts[order[k]], false)]
    requires mid <= log && PutsBack(log[|mid|..], order[..k], originals, stranded)
    ensures was <= log && FailsAt(log[|was|..], k, order, texts, originals, stranded)
  {
    hide PutsBack;
    var tried := log[|was|..];
    assert log == mid + log[|mid|..];
    assert |Writes(order[..k], texts)| == k;
    assert tried == Writes(order[..k], texts) + [Write(order[k], texts[order[k]], false)] + log[|mid|..];
    assert tried[k + 1..] == log[|mid|..];
  }

  lemma NothingBack(log: seq<Write>, originals: map<string, string>)
    ensures PutsBack(log[|log|..], [], originals, {})
  {
  }

  lemma OneMoreBack(was: seq<Write>, mid: seq<Write>, log: seq<Write>, written: seq<string>, i: nat, originals: map<string, string>,
                    stranded: set<string>, ok: bool)
    requires i < |written| && Distinct(written) && written[i] in originals && was <= mid
    requires PutsBack(mid[|was|..], written[..i], originals, stranded)
    requires log == mid + [Write(written[i], originals[written[i]], ok)]
    ensures was <= log
    ensures PutsBack(log[|was|..], written[..i + 1], originals, if ok then stranded else stranded + {written[i]})
  {
    assert log[|was|..] == mid[|was|..] + [Write(written[i], originals[written[i]], ok)];
    assert forall j :: 0 <= j < i ==> written[..i + 1][j] == written[..i][j] != written[i];
    assert forall d <- stranded :: d in written[..i] ==> d in written[..i + 1];
    assert written[..i + 1][i] == written[i] && written[i] in written[..i + 1];
  }

  lemma SameWrites(order: seq<string>, a: map<string, string>, b: map<string, string>)
    requires forall d <- order :: d in a && d in b && a[d] == b[d]
    ensures Writes(order, a) == Writes(order, b)
  {
  }

  lemma SameFailure(log: seq<Write>, k: nat, order: seq<string>, texts: map<string, string>, originals: map<string, string>,
                    texts': map<string, string>, originals': map<string, string>, stranded: set<string>)
    requires forall d <- order :: d in texts && d in texts' && texts[d] == texts'[d]
    requires forall d <- order :: d in originals && d in originals' && originals[d] == originals'[d]
    requires FailsAt(log, k, order, texts, originals, stranded)
    ensures FailsAt(log, k, order, texts', originals', stranded)
  {
    SameWrites(order[..k], texts, texts');
  }

  lemma ReadBackUndone(was: seq<Write>, mid: seq<Write>, log: seq<Write>, order: seq<string>, texts: map<string, string>,
                       originals: map<string, string>, docs: map<string, string>, stranded: set<string>)
    requires forall d <- order :: d in texts && d in originals && d in docs && originals[d] == docs[d]
    requires was <= mid <= log && mid[|was|..] == Writes(order, texts) && PutsBack(log[|mid|..], order, originals, stranded)
    ensures was <= log && |order| <= |log[|was|..]|
    ensures log[|was|..][..|order|] == Writes(order, texts) && PutsBack(log[|was|..][|order|..], order, docs, stranded)
  {
    LogSplits(was, mid, log);
    assert |Writes(order, texts)| == |order|;
    hide Writes;
    assert (Writes(order, texts) + log[|mid|..])[|order|..] == log[|mid|..];
  }

  lemma LogSplits(was: seq<Write>, mid: seq<Write>, log: seq<Write>)
    requires was <= mid <= log
    ensures was <= log && log[|was|..] == mid[|was|..] + log[|mid|..]
  {
    assert log == mid + log[|mid|..] && mid == was + mid[|was|..];
  }

  /** Each document is as it was, but for those that could not be put back. */
  predicate LeftAs(plan: map<string, DocPlan>, was: map<string, string>, now: map<string, string>, stranded: set<string>) {
    now.Keys == was.Keys && forall d <- now.Keys :: now[d] == if d in stranded then After(plan, d, was[d]) else was[d]
  }

  /** How a run ends, by what was tried on the disk: nothing is tried before the plan is complete;
      a failed write ends it with the documents put back, and so do documents that do not read
      back; otherwise every document is as planned. */
  ghost predicate EndsAs(out: Outcome, plan: map<string, DocPlan>, was: map<string, string>, now: map<string, string>,
                         tried: seq<Write>, tree: Tree, scan: seq<string>) {
    var order, texts := Changed(plan, was, scan), AfterAll(plan, was);
    match out
    case Refused => now == was && tried == []
    case DryRun(_) => now == was && tried == []
    case WriteFailed(stranded) =>
      LeftAs(plan, was, now, stranded) && exists k: nat :: FailsAt(tried, k, order, texts, was, stranded)
    case NotReadBack(stranded) =>
      && LeftAs(plan, was, now, stranded) && !ReadsBack(plan, was, tree, scan)
      && |order| <= |tried| && tried[..|order|] == Writes(order, texts) && PutsBack(tried[|order|..], order, was, stranded)
    case Done(_) => now == texts && ReadsBack(plan, was, tree, scan) && tried == Writes(order, texts)
  }

  /** The new texts of the documents with edits. */
  ghost predicate TextsOf(plan: map<string, DocPlan>, was: map<string, string>, scan: seq<string>, texts: map<string, string>) {
    forall d <- Changed(plan, was, scan) :: d in texts && texts[d] == After(plan, d, was[d])
  }

  lemma FailedSo(stranded: set<string>, plan: map<string, DocPlan>, was: map<string, string>, now: map<string, string>,
                 tried: seq<Write>, tree: Tree, scan: seq<string>, texts: map<string, string>, originals: map<string, string>)
    requires TextsOf(plan, was, scan, texts) && forall d <- Changed(plan, was, scan) :: d in originals && originals[d] == was[d]
    requires now.Keys == was.Keys && (forall d <- stranded :: d in Changed(plan, was, scan))
    requires forall d <- now.Keys :: now[d] == if d in stranded then texts[d] else was[d]
    requires exists k: nat :: FailsAt(tried, k, Changed(plan, was, scan), texts, originals, stranded)
    ensures EndsAs(WriteFailed(stranded), plan, was, now, tried, tree, scan)
  {
    hide FailsAt, Changed, After;
    var order := Changed(plan, was, scan);
    var k: nat :| FailsAt(tried, k, order, texts, originals, stranded);
    SameFailure(tried, k, order, texts, originals, AfterAll(plan, was), was, stranded);
  }

  lemma NowWritten(plan: map<string, DocPlan>, was: map<string, string>, now: map<string, string>, scan: seq<string>,
                   texts: map<string, string>)
    requires TextsOf(plan, was, scan, texts) && now.Keys == was.Keys
    requires forall d <- plan :: d in scan && d in was && EditsApply(plan, was, d)
    requires forall d <- now.Keys :: now[d] == if d in Changed(plan, was, scan) then texts[d] else was[d]
    ensures now == AfterAll(plan, was) && Writes(Changed(plan, was, scan), texts) == Writes(Changed(plan, was, scan), AfterAll(plan, was))
  {
    AfterNothing(plan, was);
    hide Changed, EditsApply, Replaced;
    SameWrites(Changed(plan, was, scan), texts, AfterAll(plan, was));
  }

  lemma ReadsBackIff(plan: map<string, DocPlan>, was: map<string, string>, tree: Tree, scan: seq<string>, expected: set<Anchor>)
    requires forall a :: a in expected <==> Wanted(plan, a)
    ensures ReadsBack(plan, was, tree, scan) <==>
            CleanParse(AfterAll(plan, was), tree, scan) && forall a <- expected :: ReadsAs(AfterAll(plan, was), tree, scan, a)
  {
    hide CleanParse, ReadsAs, Wanted, AfterAll;
  }

  lemma UndoneSo(stranded: set<string>, plan: map<string, DocPlan>, was: map<string, string>, now: map<string, string>,
                 tried: seq<Write>, tree: Tree, scan: seq<string>, texts: map<string, string>)
    requires now.Keys == was.Keys && !ReadsBack(plan, was, tree, scan) && TextsOf(plan, was, scan, texts)
    requires forall d <- now.Keys :: now[d] == if d in stranded then AfterAll(plan, was)[d] else was[d]
    requires var order := Changed(plan, was, scan);
      |order| <= |tried| && tried[..|order|] == Writes(order, texts) && PutsBack(tried[|order|..], order, was, stranded)
    ensures EndsAs(NotReadBack(stranded), plan, was, now, tried, tree, scan)
  {
    hide ReadsBack, PutsBack, Changed, After;
    SameWrites(Changed(plan, was, scan), texts, AfterAll(plan, was));
  }

  lemma DoneSo(refusals: nat, plan: map<string, DocPlan>, was: map<string, string>, now: map<string, string>,
               tried: seq<Write>, tree: Tree, scan: seq<string>, texts: map<string, string>)
    requires now == AfterAll(plan, was) && ReadsBack(plan, was, tree, scan) && TextsOf(plan, was, scan, texts)
    requires tried == Writes(Changed(plan, was, scan), texts)
    ensures EndsAs(Done(refusals), plan, was, now, tried, tree, scan)
  {
    hide ReadsBack, Changed, After;
    SameWrites(Changed(plan, was, scan), texts, AfterAll(plan, was));
  }

  /** The documents on disk, and what was tried on them. A write replaces one document or leaves it
      exactly as it was; which of the two happens is up to the disk. */
  class Worktree {
    var docs: map<string, string>
    var log: seq<Write>

    constructor (docs: map<string, string>)
      ensures this.docs == docs && log == []
    {
      this.docs := docs;
      log := [];
    }

    /** `write_atomic`: the rename either happened or did not. */
    method WriteAtomic(doc: string, text: string) returns (ok: bool)
      modifies this
      ensures docs == if ok then old(docs)[doc := text] else old(docs)
      ensures log == old(log) + [Write(doc, text, ok)]
    {
      ok := *;
      if ok {
        docs := docs[doc := text];
      }
      log := log + [Write(doc, text, ok)];
    }

    /** Put documents back one by one; the ones that could not be are reported. */
    method Restore(written: seq<string>, originals: map<string, string>) returns (stranded: set<string>)
      requires Distinct(written) && forall d <- written :: d in originals && d in docs
      modifies this
      ensures docs.Keys == old(docs).Keys
      ensures old(log) <= log && PutsBack(log[|old(log)|..], written, originals, stranded)
      ensures forall d <- docs.Keys ::
                docs[d] == if d in written && d !in stranded then originals[d] else old(docs)[d]
    {
      hide PutsBack;
      stranded := {};
      NothingBack(log, originals);
      for i := 0 to |written|
        invariant docs.Keys == old(docs).Keys && old(log) <= log
        invariant PutsBack(log[|old(log)|..], written[..i], originals, stranded) && forall d <- stranded :: d in written[..i]
        invariant forall d <- docs.Keys ::
                    docs[d] == if d in written[..i] && d !in stranded then originals[d] else old(docs)[d]
      {
        assert written[..i + 1] == written[..i] + [written[i]];
        ghost var before, left := log, stranded;
        var ok := WriteAtomic(written[i], originals[written[i]]);
        if !ok {
          stranded := stranded + {written[i]};
        }
        OneMoreBack(old(log), before, log, written, i, originals, left, ok);
      }
      assert written[..|written|] == written;
    }

    /** Write the new texts in order, up to the first write that fails. */
    method WriteAll(order: seq<string>, newText: map<string, string>) returns (written: seq<string>)
      requires Distinct(order) && forall d <- order :: d in newText && d in docs
      modifies this
      ensures written <= order && docs.Keys == old(docs).Keys
      ensures log == old(log) + Writes(written, newText) +
                     (if written == order then [] else [Write(order[|written|], newText[order[|written|]], false)])
      ensures forall d <- docs.Keys :: docs[d] == if d in written then newText[d] else old(docs)[d]
    {
      for i := 0 to |order|
        invariant docs.Keys == old(docs).Keys && log == old(log) + Writes(order[..i], newText)
        invariant forall d <- docs.Keys :: docs[d] == if d in order[..i] then newText[d] else old(docs)[d]
      {
        assert order[..i + 1] == order[..i] + [order[i]];
        assert Writes(order[..i + 1], newText) == Writes(order[..i], newText) + [Write(order[i], newText[order[i]], true)];
        var ok := WriteAtomic(order[i], newText[order[i]]);
        if !ok {
          return order[..i];
        }
      }
      assert order[..|order|] == order;
      return order;
    }

    /** The write phase: every document gets its new text, or the ones already written are put
        back. Afterwards a document is at its new text if it was written and is stranded, or
        if everything was written; any other document is as it was. It fails only where the disk
        did. */
    method WritePhase(order: seq<string>, originals: map<string, string>, newText: map<string, string>)
      returns (ok: bool, stranded: set<string>)
      requires Distinct(order) && forall d <- order :: d in newText && d in docs && d in originals && originals[d] == docs[d]
      modifies this
      ensures docs.Keys == old(docs).Keys && forall d <- stranded :: d in order
      ensures old(log) <= log
      ensures ok ==> stranded == {} && log[|old(log)|..] == Writes(order, newText)
      ensures ok ==> forall d <- docs.Keys :: docs[d] == if d in order then newText[d] else old(docs)[d]
      ensures !ok ==> exists k: nat :: FailsAt(log[|old(log)|..], k, order, newText, originals, stranded)
      ensures !ok ==> forall d <- docs.Keys :: docs[d] == if d in stranded then newText[d] else old(docs)[d]
    {
      var written := WriteAll(order, newText);
      if written == order {
        assert log[|old(log)|..] == Writes(order, newText);
        return true, {};
      }
      hide Writes, FailsAt, PutsBack;
      assert forall d <- written :: d in order;
      ghost var k, before := |written|, log;
      assert written == order[..k];
      stranded := Restore(written, originals);
      ok := false;
      StrandedWritten(log[|before|..], written, originals, stranded);
      FailedThere(old(log), before, log, k, order, newText, originals, stranded);
    }

    /** `parse_docs`: every scanned document's citations, or that something is wrong. */
    method ParseDocs(tree: Tree, scan: seq<string>) returns (clean: bool, found: map<string, seq<Citation>>)
      ensures clean <==> CleanParse(docs, tree, scan)
      ensures forall d <- scan :: d in docs ==> d in found && found[d] == ParsedDoc(docs, tree, d).citations
    {
      hide Parse, SplitLines;
      clean, found := true, map[];
      for i := 0 to |scan|
        invariant clean <==> CleanParse(docs, tree, scan[..i])
        invariant forall d <- scan[..i] :: d in docs ==> d in found && found[d] == ParsedDoc(docs, tree, d).citations
      {
        var d := scan[i];
        assert scan[..i + 1] == scan[..i] + [d];
        if d !in docs {
          clean := false;
        } else {
          var citations, problems, _ := ParseText(d, SplitLines(docs[d]), tree);
          found := found[d := citations];
          clean := clean && problems == [];
        }
      }
      assert scan[..|scan|] == scan;
    }

    /** Plan every document that cites anything. */
    method PlanDocs(inputs: Inputs, scan: seq<string>, found: map<string, seq<Citation>>)
      returns (plan: map<string, DocPlan>, blocked: bool, refusals: nat)
      requires Distinct(scan) && CleanParse(docs, inputs.tree, scan) && Readable(docs, inputs, scan)
      requires forall d <- scan :: d in found && found[d] == ParsedDoc(docs, inputs.tree, d).citations
      ensures blocked <==> SomeBlocked(inputs, docs, scan)
      ensures !blocked ==> IsPlan(plan, docs, inputs, scan)
      ensures !blocked ==> (refusals == 0 <==> forall d <- plan :: !Stuck(plan[d].ds))
    {
      hide Parse, SplitLines, PlannedAs, Stuck, Blocked;
      plan, blocked, refusals := map[], false, 0;
      for i := 0 to |scan|
        invariant blocked <==> SomeBlocked(inputs, docs, scan[..i])
        invariant !blocked ==> IsPlan(plan, docs, inputs, scan[..i])
        invariant !blocked ==> (refusals == 0 <==> forall d <- plan :: !Stuck(plan[d].ds))
      {
        var d := scan[i];
        assert scan[..i + 1] == scan[..i] + [d];
        NothingBlocked(inputs, docs[d]);
        if found[d] != [] {
          var ds, edits, problems := PlanOne(inputs, d, found[d]);
          if problems {
            blocked := true;
          }
          assert d !in scan[..i];
          plan := plan[d := DocPlan(found[d], ds, edits)];
          refusals := refusals + CountRefused(ds);
        }
      }
      assert scan[..|scan|] == scan;
    }

    method PlanOne(inputs: Inputs, d: string, citations: seq<Citation>)
      returns (ds: seq<Decision>, edits: seq<Edit>, problems: bool)
      requires d in docs && citations == ParsedDoc(docs, inputs.tree, d).citations
      requires ParsedDoc(docs, inputs.tree, d).problems == []
      requires forall c <- citations :: c.target in inputs.index && inputs.index[c.target].sep != ""
      ensures |ds| == |citations| && (problems <==> Blocked(inputs, docs[d], citations))
      ensures !problems ==> PlannedAs(inputs, docs[d], citations, ds, edits)
    {
      hide Parse, SplitLines, PerLine, EditsOf, ProblemsOf, SettledAll, Runs, IsGroup, Blocked;
      ghost var gs := ParsedInWholeTokens(d, inputs.tree, SplitLines(docs[d]));
      var ctx := ContextOf(inputs, docs[d]);
      CitationsInContext(ctx, d, inputs.tree);
      var blocked: seq<nat>;
      ds, edits, blocked := PlanDoc(ctx, citations, gs);
      DecisionsAligned(ctx, gs);
      problems := blocked != [];
      BlockedByProblems(inputs, docs[d], citations, gs);
      assert !problems ==> PlannedWith(inputs, docs[d], citations, ds, edits, gs);
    }

    /** Build every new text before anything is written. */
    method BuildTexts(plan: map<string, DocPlan>, scan: seq<string>)
      returns (order: seq<string>, originals: map<string, string>, newText: map<string, string>)
      requires Distinct(scan) && forall d <- plan :: d in docs && EditsApply(plan, docs, d)
      ensures Distinct(order) && order == Changed(plan, docs, scan)
      ensures forall d <- order :: d in originals && originals[d] == docs[d]
      ensures forall d <- order :: d in newText && newText[d] == After(plan, d, docs[d])
    {
      hide Replaced;
      order, originals, newText := [], map[], map[];
      for i := 0 to |scan|
        invariant Distinct(order) && order == Changed(plan, docs, scan[..i])
        invariant forall d <- order :: d in originals && originals[d] == docs[d]
        invariant forall d <- order :: d in newText && newText[d] == After(plan, d, docs[d])
      {
        var d := scan[i];
        assert scan[..i + 1][..i] == scan[..i] && d !in scan[..i];
        if d in plan && plan[d].edits != [] {
          var text := ReplaceLines(docs[d], plan[d].edits);
          newText := newText[d := text.value];
          originals := originals[d := docs[d]];
          order := order + [d];
        }
      }
      assert scan[..|scan|] == scan;
    }

    /** Parse what was written and compare it with the plan. */
    method ReadBack(tree: Tree, scan: seq<string>, expected: set<Anchor>) returns (ok: bool)
      ensures ok <==> CleanParse(docs, tree, scan) && forall a <- expected :: ReadsAs(docs, tree, scan, a)
    {
      hide Parse, SplitLines;
      var clean, found := ParseDocs(tree, scan);
      ok := clean && forall a <- expected :: a.doc in scan && a.doc in found && CitedAs(found[a.doc], a);
    }

    /** Read back what was written, and put the documents back when it is not as expected. */
    method Confirm(tree: Tree, scan: seq<string>, expected: set<Anchor>, order: seq<string>, originals: map<string, string>)
      returns (ok: bool, stranded: set<string>)
      requires Distinct(order) && forall d <- order :: d in originals && d in docs
      modifies this
      ensures ok <==> CleanParse(old(docs), tree, scan) && forall a <- expected :: ReadsAs(old(docs), tree, scan, a)
      ensures ok ==> docs == old(docs) && log == old(log)
      ensures !ok ==> docs.Keys == old(docs).Keys && old(log) <= log && PutsBack(log[|old(log)|..], order, originals, stranded)
      ensures !ok ==> forall d <- docs.Keys ::
                docs[d] == if d in order && d !in stranded then originals[d] else old(docs)[d]
    {
      hide CleanParse, ReadsAs, PutsBack;
      stranded := {};
      ok := ReadBack(tree, scan, expected);
      if !ok {
        stranded := Restore(order, originals);
      }
    }

    /** Write what is planned, read it back, and put it back when that fails. */
    method Land(inputs: Inputs, scan: seq<string>, plan: map<string, DocPlan>, expected: set<Anchor>, refusals: nat)
      returns (out: Outcome)
      requires Distinct(scan) && IsPlan(plan, docs, inputs, scan) && forall a :: a in expected <==> Wanted(plan, a)
      modifies this
      ensures old(log) <= log && EndsAs(out, plan, old(docs), docs, log[|old(log)|..], inputs.tree, scan)
      ensures !out.Refused? && !out.DryRun? && (out.Done? ==> out.refusals == refusals)
    {
      hide IsPlan, CleanParse, ReadsAs, Wanted, FailsAt, PutsBack, EndsAs, Writes, Changed, AfterAll, After, ReadsBack, EditsApply;
      PlanApplies(plan, docs, inputs, scan);
      var order, originals, newText := BuildTexts(plan, scan);
      var ok, stranded := WritePhase(order, originals, newText);
      if !ok {
        FailedSo(stranded, plan, old(docs), docs, log[|old(log)|..], inputs.tree, scan, newText, originals);
        return WriteFailed(stranded);
      }
      NowWritten(plan, old(docs), docs, scan, newText);
      ghost var before := log;
      ok, stranded := Confirm(inputs.tree, scan, expected, order, originals);
      ReadsBackIff(plan, old(docs), inputs.tree, scan, expected);
      if ok {
        DoneSo(refusals, plan, old(docs), docs, log[|old(log)|..], inputs.tree, scan, newText);
        return Done(refusals);
      }
      ReadBackUndone(old(log), before, log, order, newText, originals, old(docs), stranded);
      UndoneSo(stranded, plan, old(docs), docs, log[|old(log)|..], inputs.tree, scan, newText);
      return NotReadBack(stranded);
    }

    /** One run of the tool over the scanned documents. */
    method Run(inputs: Inputs, scan: seq<string>, dryRun: bool)
      returns (out: Outcome, plan: map<string, DocPlan>, expected: set<Anchor>)
      requires Distinct(scan) && Readable(docs, inputs, scan)
      modifies this
      ensures out.Refused? <==> !CleanParse(old(docs), inputs.tree, scan) || SomeBlocked(inputs, old(docs), scan)
      ensures !out.Refused? ==> (out.DryRun? <==> dryRun)
      ensures !out.Refused? ==> IsPlan(plan, old(docs), inputs, scan) && forall a :: a in expected <==> Wanted(plan, a)
      ensures old(log) <= log && EndsAs(out, plan, old(docs), docs, log[|old(log)|..], inputs.tree, scan)
      ensures out.ExitCode() == 0 <==> (out.Done? || out.DryRun?) && forall d <- plan :: !Stuck(plan[d].ds)
    {
      hide Parse, SplitLines, PlannedAs, Wanted, Stuck, CleanParse, ReadsAs, Readable, Replaced, Blocked;
      plan, expected := map[], {};
      var clean, found := ParseDocs(inputs.tree, scan);
      if !clean {
        return Refused, plan, expected;
      }
      CleanScan(docs, inputs.tree, scan);
      var blocked, refusals;
      plan, blocked, refusals := PlanDocs(inputs, scan, found);
      if blocked {
        return Refused, plan, expected;
      }
      expected := Expected(plan, scan);
      if dryRun {
        return DryRun(refusals), plan, expected;
      }
      hide EndsAs, IsPlan;
      out := Land(inputs, scan, plan, expected, refusals);
    }
  }

  /** The edits of a planned document name lines it has. */
  predicate EditsApply(plan: map<string, DocPlan>, docs: map<string, string>, d: string)
    requires d in plan && d in docs
  {
    (forall e <- plan[d].edits :: e.line >= 1) && Replaced(docs[d], plan[d].edits).Some?
  }

  lemma PlanApplies(plan: map<string, DocPlan>, docs: map<string, string>, inputs: Inputs, scan: seq<string>)
    requires IsPlan(plan, docs, inputs, scan)
    ensures forall d <- plan :: d in scan && d in docs && EditsApply(plan, docs, d)
  {
    hide PlannedAs, Replaced, SplitParts, OnlyEdited, Parse;
    forall d <- plan ensures d in docs && EditsApply(plan, docs, d) {
      PlanEditsLines(plan, docs, inputs, scan, d);
    }
  }

  lemma AfterNothing(plan: map<string, DocPlan>, docs: map<string, string>)
    requires forall d <- plan :: d in docs && EditsApply(plan, docs, d)
    ensures forall d <- docs.Keys :: d in plan && plan[d].edits == [] ==> After(plan, d, docs[d]) == docs[d]
  {
    forall d <- docs.Keys | d in plan && plan[d].edits == [] ensures After(plan, d, docs[d]) == docs[d] {
      ReplaceNothing(docs[d]);
    }
  }

  lemma CleanScan(docs: map<string, string>, tree: Tree, scan: seq<string>)
    requires CleanParse(docs, tree, scan)
    ensures forall d <- scan :: d in docs
  {
    hide Parse;
  }

  method Expected(plan: map<string, DocPlan>, scan: seq<string>) returns (expected: set<Anchor>)
    requires forall d <- plan :: d in scan && |plan[d].ds| == |plan[d].citations|
    ensures forall a :: a in expected <==> Wanted(plan, a)
  {
    hide AnchorsOf;
    expected := {};
    for i := 0 to |scan|
      invariant forall a :: a in expected <==>
                  exists d :: d in scan[..i] && d in plan && AnchorsOf(plan[d].citations, plan[d].ds, a)
    {
      assert scan[..i + 1] == scan[..i] + [scan[i]];
      if scan[i] in plan {
        expected := expected + ExpectedFrom(plan[scan[i]].citations, plan[scan[i]].ds);
      }
    }
    assert scan[..|scan|] == scan;
  }

  lemma CitationsInContext(ctx: Context, doc: string, tree: Tree)
    requires forall c <- Parse(doc, tree, ctx.lines).citations :: c.target in ctx.index && ctx.index[c.target].sep != ""
    ensures AllInContext(ctx, Parse(doc, tree, ctx.lines).citations)
  {
    hide Parse, WrittenBy, WellWritten;
    var citations := Parse(doc, tree, ctx.lines).citations;
    forall k | 0 <= k < |citations| ensures InContext(ctx, citations[k]) {
      CitationsAreWritten(doc, tree, ctx.lines, citations[k]);
      CitationPlaced(doc, tree, ctx.lines, citations[k]);
    }
  }

  lemma CitationPlaced(doc: string, tree: Tree, lines: seq<string>, c: Citation)
    requires c in Parse(doc, tree, lines).citations
    ensures 1 <= c.docLine <= |lines| && 1 <= c.start <= c.end
  {
    hide Parse, WellWritten, IsChunk, ChunkRange, Split, Scoped;
    CitationsAreWritten(doc, tree, lines, c);
    ParseGood(doc, tree, lines);
    var t :| t in Parse(doc, tree, lines).tokens && WrittenBy(c, doc, t);
  }

  predicate Distinct(names: seq<string>) {
    forall i, j :: 0 <= i < j < |names| ==> names[i] != names[j]
  }

  /** The sides' decision about a document's citation, as the plan of a run sees it. */
  ghost function SidesDecide(inputs: Inputs, text: string, c: Citation): Decision
    requires InContext(ContextOf(inputs, text), c)
  {
    DecisionOf(ContextOf(inputs, text), c)
  }

  lemma PlannedShift(inputs: Inputs, text: string, citations: seq<Citation>, ds: seq<Decision>, edits: seq<Edit>, k: nat)
    requires PlannedAs(inputs, text, citations, ds, edits) && |ds| == |citations| && k < |ds| && ds[k].status == Shifted
    ensures InContext(ContextOf(inputs, text), citations[k]) && ds[k] == SidesDecide(inputs, text, citations[k])
  {
    hide SplitLines, PerLine, EditsOf, SettledAll, Runs, IsGroup, InContext, DecisionOf;
    var gs :| PlannedWith(inputs, text, citations, ds, edits, gs);
    FlattenInContext(ContextOf(inputs, text), gs);
    ShiftsAreDecided(ContextOf(inputs, text), gs, k);
  }

  /** The indexes a run compares are comparable. */
  ghost predicate AllComparable(inputs: Inputs) {
    forall f <- inputs.index :: Plain(inputs.index[f]) &&
      forall p <- inputs.parents :: f in p.sources ==> Comparable(p.sources[f], inputs.index[f])
  }

  /** A run's relocation pins the text it pinned before: for every citation a plan moves, each
      deciding side has, at the old range of the cited file, the very lines that stand at the
      new range of the working file, and they stand nowhere else in it. */
  lemma RunKeepsTheText(inputs: Inputs, docs: map<string, string>, scan: seq<string>, plan: map<string, DocPlan>, d: string, k: nat)
    requires IsPlan(plan, docs, inputs, scan) && d in plan && k < |plan[d].ds| && plan[d].ds[k].status == Shifted
    requires (forall p <- inputs.parents :: NoEmptyClaim(p.tokens)) && AllComparable(inputs)
    ensures var c, to := plan[d].citations[k], plan[d].ds[k].placed;
            && c.target in inputs.index && to.Some? && !IsBare(c.raw)
            && 1 <= c.docLine <= |SplitLines(docs[d])|
            && var owners := Deciding(inputs.parents, SplitLines(docs[d])[c.docLine - 1], c);
               && owners != []
               && forall o <- owners ::
                    && Claims(o, c) && o.tokens[ClaimOf(c)] == {c.target}
                    && SameText(o, inputs.index[c.target], c, to.value)
                    && OnlyAt(inputs.index[c.target].norm, Cited(o.sources[c.target].norm, c.start, c.end), to.value.0 - 1)
  {
    hide Parse, SplitLines, PlannedAs, Plain, Comparable, SameText, OnlyAt, Deciding, NoEmptyClaim, Decided;
    var c := plan[d].citations[k];
    PlannedShift(inputs, docs[d], plan[d].citations, plan[d].ds, plan[d].edits, k);
    RelocationSound(inputs.parents, inputs.index[c.target], inputs.links, SplitLines(docs[d])[c.docLine - 1], c);
  }
}
