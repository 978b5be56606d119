/** A second run over the same sides: when a citation that was relocated once is relocated again
    (scripts/relocate-citations.py:47-50, 408-430, 681-792). */
module SecondRun {
  import opened Text
  import opened LineBreaks
  import opened LineBlocks
  import opened LineIndex
  import opened Citations
  import opened CitationParser
  import opened Relocate
  import opened Decide
  import opened Agreement
  import opened Plan
  import opened Commit
  import opened Landing
  import opened Astray

  /** The citation as a run leaves it: its file under its path, at another range. */
  predicate Relocated(c: Citation, to: Range, c': Citation) {
    && c'.doc == c.doc && c'.target == c.target && PathOf(c'.raw) == PathOf(c.raw)
    && (c'.start, c'.end) == to
  }

  /** Some side's document writes the rewritten token at the new range, and every side that does
      means this file by it. */
  ghost predicate WrittenThere(parents: seq<Parent>, c': Citation) {
    && (exists p :: p in parents && Claims(p, c'))
    && forall p <- parents :: Claims(p, c') ==> forall t <- p.tokens[ClaimOf(c')] :: t == c'.target
  }

  /** Each side that decides about the citation has its text, and all have it at `there`. */
  ghost predicate AllDisplaced(owners: seq<Parent>, cur: SourceIndex, c': Citation, there: Range) {
    forall o <- owners :: Displaced(o, cur, c', there)
  }

  /** Of the refusals, only that the token is another file's on some side can be new. */
  lemma RefusedAgainIff(parents: seq<Parent>, c: Citation, to: Range, c': Citation)
    requires Relocated(c, to, c') && !IdentityRefused(parents, c)
    ensures IdentityRefused(parents, c') <==>
            exists p :: p in parents && Claims(p, c') && exists t <- p.tokens[ClaimOf(c')] :: t != c'.target
  {
    hide PathOf;
    forall p | p in parents
      ensures ForeignOn(p, c') <==> Claims(p, c') && exists t <- p.tokens[ClaimOf(c')] :: t != c'.target
    {
      assert !ForeignOn(p, c);
    }
  }

  lemma VotesDisplaced(owners: seq<Parent>, cur: SourceIndex, c: Citation, there: Range)
    requires 1 <= c.start <= c.end && Plain(cur) && cur.sep != ""
    requires forall o <- owners :: c.target in o.sources ==> Comparable(o.sources[c.target], cur)
    ensures AllDisplaced(owners, cur, c, there) <==> forall o <- owners :: VoteOf(o, cur, c) == Move(there)
  {
    hide VoteOf, Displaced, Plain, Comparable;
    forall o <- owners ensures Displaced(o, cur, c, there) <==> VoteOf(o, cur, c) == Move(there) {
      MoveIff(o, cur, c, there);
    }
  }

  /** A relocated citation is relocated again by the same sides exactly when some side's document
      writes the new token at the new range, all that do mean the same file, and the text that
      every deciding side has there stands at one same other place, and only there. */
  lemma SecondMoveIff(parents: seq<Parent>, cur: SourceIndex, links: set<string>, line: string, c: Citation,
                      line': string, c': Citation)
    requires 1 <= c.start <= c.end && Plain(cur) && cur.sep != ""
    requires forall p <- parents :: c.target in p.sources ==> Comparable(p.sources[c.target], cur)
    requires Decided(parents, cur, links, line, c).status == Shifted
    requires Decided(parents, cur, links, line, c).placed.Some?
    requires Relocated(c, Decided(parents, cur, links, line, c).placed.value, c') && 1 <= c'.start <= c'.end
    ensures Decided(parents, cur, links, line', c').status == Shifted <==>
            WrittenThere(parents, c') && exists there: Range :: AllDisplaced(Deciding(parents, line', c'), cur, c', there)
    ensures forall there: Range :: WrittenThere(parents, c') && AllDisplaced(Deciding(parents, line', c'), cur, c', there) ==>
              Decided(parents, cur, links, line', c').placed == Some(there)
  {
    hide Decided, Deciding, SymlinkRefused, IdentityRefused, Plain, Comparable;
    hide Displaced, Relocated, Claims, VoteOf, WrittenThere;
    OwnTarget(c, Decided(parents, cur, links, line, c).placed.value, c');
    NotRefusedAgainIff(parents, cur, links, line, c, c');
    DecidingOwn(parents, line', c');
    UnanimousOrRefused(parents, cur, links, line', c');
    var owners := Deciding(parents, line', c');
    forall there: Range
      ensures AllDisplaced(owners, cur, c', there) <==> forall o <- owners :: VoteOf(o, cur, c') == Move(there)
    {
      VotesDisplaced(owners, cur, c', there);
    }
    hide AllDisplaced;
    forall there: Range | WrittenThere(parents, c') && AllDisplaced(owners, cur, c', there)
      ensures Decided(parents, cur, links, line', c').status == Shifted
      ensures Decided(parents, cur, links, line', c').placed == Some(there)
    {
      AllMove(parents, cur, links, line', c', there);
    }
  }

  lemma OwnTarget(c: Citation, to: Range, c': Citation)
    requires Relocated(c, to, c')
    ensures c'.target == c.target && to == (c'.start, c'.end)
  {
    hide PathOf;
  }

  lemma NotRefusedAgainIff(parents: seq<Parent>, cur: SourceIndex, links: set<string>, line: string, c: Citation, c': Citation)
    requires 1 <= c.start <= c.end && cur.sep != "" && Decided(parents, cur, links, line, c).status == Shifted
    requires Relocated(c, (c'.start, c'.end), c')
    ensures !SymlinkRefused(parents, links, c'.target)
    ensures !IdentityRefused(parents, c') && (exists p :: p in parents && Claims(p, c')) <==> WrittenThere(parents, c')
  {
    hide Decided, Deciding, VoteOf, IdentityRefused, SymlinkRefused, PathOf;
    UnanimousOrRefused(parents, cur, links, line, c);
    RefusedAgainIff(parents, c, (c'.start, c'.end), c');
  }

  /** A second relocation always puts the citation on other text than the first found: no side
      that decided the first time has its text at the new place. */
  lemma SecondMoveLosesText(parents: seq<Parent>, cur: SourceIndex, links: set<string>, line: string, c: Citation,
                            line': string, c': Citation, o: Parent)
    requires 1 <= c.start <= c.end && Plain(cur) && cur.sep != ""
    requires forall p <- parents :: c.target in p.sources ==> Comparable(p.sources[c.target], cur)
    requires Decided(parents, cur, links, line, c).status == Shifted
    requires Decided(parents, cur, links, line, c).placed.Some?
    requires Relocated(c, Decided(parents, cur, links, line, c).placed.value, c') && 1 <= c'.start <= c'.end
    requires Decided(parents, cur, links, line', c').status == Shifted && o in Deciding(parents, line, c)
    ensures SameText(o, cur, c, (c'.start, c'.end))
    ensures forall there: Range :: Decided(parents, cur, links, line', c').placed == Some(there) ==> !SameText(o, cur, c, there)
  {
    UnanimousOrRefused(parents, cur, links, line, c);
    DecidingOwn(parents, line, c);
    ShiftedMovesAway(parents, cur, links, line', c');
    hide Decided, Deciding, VoteOf, Plain, Comparable, Claims;
    VoteMeans(o, cur, c);
    forall there: Range | Decided(parents, cur, links, line', c').placed == Some(there) ensures !SameText(o, cur, c, there) {
      OtherPlace(o, cur, c, (c'.start, c'.end), there);
    }
  }

  lemma OtherPlace(o: Parent, cur: SourceIndex, c: Citation, to: Range, there: Range)
    requires SameText(o, cur, c, to) && to.0 != there.0
    requires OnlyAt(cur.norm, Cited(o.sources[c.target].norm, c.start, c.end), to.0 - 1)
    ensures !SameText(o, cur, c, there)
  {
    if SameText(o, cur, c, there) {
      assert BlockAt(cur.norm, Cited(o.sources[c.target].norm, c.start, c.end), there.0 - 1);
    }
  }

  // ----------------------------------------------------- in terms of the documents

  /** Each side holds what reading its commit's documents gives. */
  ghost predicate ReadFrom(parents: seq<Parent>, docs: seq<seq<Document>>) {
    && |docs| == |parents|
    && forall i :: 0 <= i < |parents| ==> Records(parents[i].tokens, parents[i].tree, docs[i]) && NoEmptyClaim(parents[i].tokens)
  }

  /** The document, in the side's own tree, writes this token at this range. */
  ghost predicate Writes(d: Document, tree: Tree, key: Claim) {
    exists target :: Cites(d, tree, key, target)
  }

  lemma ClaimedIff(p: Parent, docs: seq<Document>, c: Citation)
    requires Records(p.tokens, p.tree, docs) && NoEmptyClaim(p.tokens)
    ensures Claims(p, c) <==> exists d :: d in docs && Writes(d, p.tree, ClaimOf(c))
  {
    hide Cites;
    var key := ClaimOf(c);
    if Claims(p, c) {
      var target :| target in p.tokens[key];
      assert Has(p.tokens, key, target);
      var d :| d in docs && Cites(d, p.tree, key, target);
    }
    if d :| d in docs && Writes(d, p.tree, key) {
      var target :| Cites(d, p.tree, key, target);
      assert Has(p.tokens, key, target);
    }
  }

  /** A relocated citation stays where it is unless a side's document already writes the new
      token at the new range. */
  lemma StaysUnlessWritten(parents: seq<Parent>, docs: seq<seq<Document>>, cur: SourceIndex, links: set<string>,
                           line': string, c': Citation)
    requires 1 <= c'.start <= c'.end && cur.sep != "" && ReadFrom(parents, docs)
    requires forall i, d :: 0 <= i < |docs| && d in docs[i] ==> !Writes(d, parents[i].tree, ClaimOf(c'))
    ensures Decided(parents, cur, links, line', c').status != Shifted
  {
    hide Decided, Writes, Claims, Records, NoEmptyClaim;
    forall p | p in parents ensures !Claims(p, c') {
      var i :| 0 <= i < |parents| && parents[i] == p;
      ClaimedIff(p, docs[i], c');
    }
    UnclaimedNeverMoves(parents, cur, links, line', c');
  }

  // ---------------------------------------------------------------- two runs in a row

  /** What a second run over the written documents has planned for a citation the first one moved:
      it is at the range decided, and it moves again only to `there`, away from its text. */
  ghost predicate MovesOn(inputs: Inputs, c: Citation, line: string, c': Citation, line': string, there: Range)
    requires 1 <= c'.start <= c'.end && c.target in inputs.index
  {
    var cur := inputs.index[c.target];
    && WrittenThere(inputs.parents, c') && AllDisplaced(Deciding(inputs.parents, line', c'), cur, c', there)
    && forall o <- Deciding(inputs.parents, line, c) :: SameText(o, cur, c, (c'.start, c'.end)) && !SameText(o, cur, c, there)
  }

  lemma MovesOnAgain(inputs: Inputs, c: Citation, line: string, c': Citation, line': string)
    requires AllComparable(inputs) && c.target in inputs.index && inputs.index[c.target].sep != "" && 1 <= c.start <= c.end
    requires var d := Decided(inputs.parents, inputs.index[c.target], inputs.links, line, c);
             d.status == Shifted && d.placed.Some? && Relocated(c, d.placed.value, c')
    requires 1 <= c'.start <= c'.end
    requires Decided(inputs.parents, inputs.index[c.target], inputs.links, line', c').status == Shifted
    ensures var again := Decided(inputs.parents, inputs.index[c.target], inputs.links, line', c');
            again.placed.Some? && MovesOn(inputs, c, line, c', line', again.placed.value)
  {
    hide Decided, Deciding, WrittenThere, AllDisplaced, Relocated, Plain, Comparable, SameText;
    var cur := inputs.index[c.target];
    SecondMoveIff(inputs.parents, cur, inputs.links, line, c, line', c');
    var there: Range :| AllDisplaced(Deciding(inputs.parents, line', c'), cur, c', there);
    forall o | o in Deciding(inputs.parents, line, c)
      ensures SameText(o, cur, c, (c'.start, c'.end)) && !SameText(o, cur, c, there)
    {
      SecondMoveLosesText(inputs.parents, cur, inputs.links, line, c, line', c', o);
    }
  }

  ghost predicate SecondAbout(inputs: Inputs, text: string, c: Citation, to: Range, text': string, c': Citation,
                              again: Decision) {
    && Relocated(c, to, c') && 1 <= c'.start <= c'.end && c.target in inputs.index
    && 1 <= c.docLine <= |SplitLines(text)| && 1 <= c'.docLine <= |SplitLines(text')|
    && (again.status == Shifted ==>
          again.placed.Some? &&
          MovesOn(inputs, c, SplitLines(text)[c.docLine - 1], c', SplitLines(text')[c'.docLine - 1], again.placed.value))
  }

  /** After a run whose replacements landed, a second one reads each moved citation at its new
      range. It moves that citation again only when a side's document writes the new token at the
      new range, and then to lines that are not the ones it stood for. */
  lemma SecondRunMovesOn(plan: map<string, DocPlan>, again: map<string, DocPlan>, docs: map<string, string>, inputs: Inputs,
                         scan: seq<string>, d: string, k: nat)
    requires IsPlan(plan, docs, inputs, scan) && CleanParse(docs, inputs.tree, scan) && d in plan && AllComparable(inputs)
    requires LeavesNames(inputs, d, docs[d]) && LandsHome(inputs, d, docs[d])
    requires IsPlan(again, AfterAll(plan, docs), inputs, scan)
    requires k < |plan[d].ds| && plan[d].ds[k].status == Shifted
    ensures d in again && |again[d].citations| == |again[d].ds| == |plan[d].citations| && plan[d].ds[k].placed.Some?
    ensures SecondAbout(inputs, docs[d], plan[d].citations[k], plan[d].ds[k].placed.value,
                        AfterAll(plan, docs)[d], again[d].citations[k], again[d].ds[k])
  {
    hide Parse, SplitLines, PlannedAs, LandsHome, LeavesNames, After, MovesOn, AllComparable, Decided, PathOf;
    LandsAsPlannedIff(plan, docs, inputs, scan, d);
    var p, q, text' := plan[d], again[d], AfterAll(plan, docs)[d];
    PlannedShift(inputs, docs[d], p.citations, p.ds, p.edits, k);
    var c, c' := p.citations[k], q.citations[k];
    ShiftIsLegal(ContextOf(inputs, docs[d]), c);
    assert ReadsAsDecided(c, p.ds[k], c');
    CitationPlaced(d, inputs.tree, SplitLines(text'), c');
    if q.ds[k].status == Shifted {
      PlannedShift(inputs, text', q.citations, q.ds, q.edits, k);
      MovesOnAgain(inputs, c, SplitLines(docs[d])[c.docLine - 1], c', SplitLines(text')[c'.docLine - 1]);
    }
  }

  // ------------------------------------------------------------ moved twice, once too often

  function OldLines(): seq<string> {
    ["b", "c", "e"]
  }

  function NewLines(): seq<string> {
    ["b", "n", "c", "e"]
  }

  /** The side's document cites two neighbouring lines; the merged one keeps the first sentence. */
  function TwiceDoc(): Document {
    Document("d", TwoLines('2', '2', '3'))
  }

  function TwiceClaims(): map<Claim, set<string>> {
    map[Claim("d", "a/b:2", 2, 2) := {"a/b"}, Claim("d", "a/b:3", 3, 3) := {"a/b"}]
  }

  function TwiceSide(): Parent {
    Parent("side", TheTree(), {}, TwiceClaims(), map["d" := {"a/b"}], map["d" := set ln | ln in TwiceDoc().lines],
           map["a/b" := IndexOf(OldLines())])
  }

  lemma NulFreeIsPlain(lines: seq<string>)
    requires forall ln <- lines :: IsStripped(ln) && '\0' !in ln
    ensures Plain(IndexOf(lines)) && IndexOf(lines).norm == lines && IndexOf(lines).sep == "\0"
  {
    hide IndexOf, Built, IsStripped, Clean;
    IndexIsBuilt(lines);
    CleanIff(lines);
    NulFreeSeparator(lines);
    forall i | 0 <= i < |lines| ensures NoNulAtEnds(lines[i]) && '\0' !in lines[i] {
      assert lines[i] in lines;
    }
  }

  lemma TwiceIndexes()
    ensures var was, now := IndexOf(OldLines()), IndexOf(NewLines());
      && Comparable(was, now) && was.norm == OldLines() && now.norm == NewLines() && now.sep != ""
  {
    assert !IsSpace('b') && !IsSpace('c') && !IsSpace('n') && !IsSpace('e');
    NulFreeIsPlain(OldLines());
    NulFreeIsPlain(NewLines());
    hide IndexOf;
  }

  /** The side's claims are what reading its document gives. */
  lemma TwiceRead()
    ensures ReadFrom([TwiceSide()], [[TwiceDoc()]])
  {
    hide First, Second, Parse;
    ReadsTwo("d", TheTree(), '2', '2', '3');
    var two, three := Cite("d", 1, '2'), Cite("d", 2, '3');
    var citations := Parse("d", TheTree(), TwiceDoc().lines).citations;
    assert "a/b:" + ['2'] == "a/b:2" && "a/b:" + ['3'] == "a/b:3";
    forall key: Claim, target: string
      ensures Has(TwiceClaims(), key, target) <==> exists d :: d in [TwiceDoc()] && Cites(d, TheTree(), key, target)
    {
      assert two in citations && three in citations;
      assert TwiceDoc() in [TwiceDoc()];
      assert Named(citations, key, target) <==> (ClaimOf(two) == key || ClaimOf(three) == key) && target == "a/b";
    }
  }

  lemma GoneOne(n: nat)
    requires n == 2 || n == 3
    ensures GoneTo(OldLines(), NewLines(), n, n, (n + 1, n + 1))
  {
    var block := Cited(OldLines(), n, n);
    assert block == [OldLines()[n - 1]];
    forall i: nat ensures BlockAt(NewLines(), block, i) <==> i == n {
      if i < 4 {
        assert NewLines()[i..i + 1] == [NewLines()[i]];
      }
    }
    assert OldLines()[n - 1] in block;
  }

  lemma TwiceDecided(line: string, n: nat, c: Citation)
    requires (n == 2 && c == Cite("d", 1, '2')) || (n == 3 && c == Cite("d", 1, '3'))
    ensures IndexOf(NewLines()).sep != ""
    ensures Decided([TwiceSide()], IndexOf(NewLines()), {}, line, c) == Decision(Shifted, (n, n), Some((n + 1, n + 1)), "side")
  {
    hide IndexOf, Locate, GoneTo, OldLines, NewLines, PathOf, TwiceDoc, Plain, VoteOf, IdentityRefused;
    TwiceIndexes();
    GoneOne(n);
    OwnTokenKept(c);
    MoveIff(TwiceSide(), IndexOf(NewLines()), c, (n + 1, n + 1));
    OneSideDecides(TwiceSide(), IndexOf(NewLines()), line, c, (n + 1, n + 1));
  }

  /** The one side that wrote the token decides alone. */
  lemma OneSideDecides(p: Parent, cur: SourceIndex, line: string, c: Citation, there: Range)
    requires 1 <= c.start <= c.end && cur.sep != "" && p.symlinks == {} && !IdentityRefused([p], c)
    requires Claims(p, c) && VoteOf(p, cur, c) == Move(there)
    ensures Decided([p], cur, {}, line, c) == Decision(Shifted, (c.start, c.end), Some(there), p.commit)
  {
    hide VoteOf, IdentityRefused, Claims;
    assert [p][1..] == [];
    assert Filter(ClaimsIt(c), [p]) == [p];
    assert Deciding([p], line, c) == [p];
    assert !SymlinkRefused([p], {}, c.target);
  }

  lemma OwnTokenKept(c: Citation)
    requires c == Cite("d", 1, '2') || c == Cite("d", 1, '3')
    ensures !IdentityRefused([TwiceSide()], c) && Claims(TwiceSide(), c)
  {
    TokenPath('2');
    TokenPath('3');
    hide PathOf, TwiceDoc, OldLines, IndexOf;
    assert "a/b:" + ['2'] == "a/b:2" && "a/b:" + ['3'] == "a/b:3";
    assert !ForeignOn(TwiceSide(), c);
  }

  lemma TokenPath(x: char)
    requires IsCount(x)
    ensures PathOf("a/b:" + [x]) == "a/b" && '/' in "a/b"
  {
    SpansOfParts("a/b", [x]);
    assert "a/b" + ":" + [x] == "a/b:" + [x];
    assert "a/b"[1] == '/';
  }

  /** The first run moves the sentence about `c` from line 2 to line 3, where `c` now stands. The
      side also wrote line 3, about `e`: the second run takes the sentence for that one and moves
      it to line 4, on `e`. */
  lemma MovedTwice()
    ensures ReadFrom([TwiceSide()], [[TwiceDoc()]]) && IndexOf(NewLines()).sep != ""
    ensures Decided([TwiceSide()], IndexOf(NewLines()), {}, Second('2'), Cite("d", 1, '2')) ==
            Decision(Shifted, (2, 2), Some((3, 3)), "side")
    ensures Decided([TwiceSide()], IndexOf(NewLines()), {}, Second('3'), Cite("d", 1, '3')) ==
            Decision(Shifted, (3, 3), Some((4, 4)), "side")
    ensures Cited(OldLines(), 2, 2) == Cited(NewLines(), 3, 3) == ["c"] && Cited(NewLines(), 4, 4) == ["e"]
  {
    TwiceRead();
    hide Decided, IndexOf, Second, TwiceSide, TwiceDoc, ReadFrom;
    TwiceDecided(Second('2'), 2, Cite("d", 1, '2'));
    TwiceDecided(Second('3'), 3, Cite("d", 1, '3'));
    assert OldLines()[1..2] == ["c"] && NewLines()[2..3] == ["c"] && NewLines()[3..4] == ["e"];
  }
}
