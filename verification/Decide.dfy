/** One side of a merge, and the decision the declared sides reach together about a citation
    (scripts/relocate-citations.py:299-441, 521-792). */
module Decide {
  import opened Text
  import opened LineIndex
  import opened Citations
  import opened CitationParser
  import opened Relocate

  /** A written token at a range, which is all a side's claim is about. */
  datatype Claim = Claim(doc: string, raw: string, start: nat, end: nat)

  function ClaimOf(c: Citation): Claim {
    Claim(c.doc, c.raw, c.start, c.end)
  }

  datatype Parent = Parent(
    commit: string,
    tree: Tree,                              // the commit's files, by `git ls-tree`
    symlinks: set<string>,
    tokens: map<Claim, set<string>>,         // what each written token resolved to on this side
    written: map<string, set<string>>,       // document -> names it writes before a colon
    lines: map<string, set<string>>,         // document -> its lines
    sources: map<string, SourceIndex>)       // file -> its lines, for the files git can show

  // ------------------------------------------------------------ reading a side

  /** A commit's documents, those it has, in the scan's order. */
  datatype Document = Document(name: string, lines: seq<string>)

  predicate DistinctNames(docs: seq<Document>) {
    forall i, j :: 0 <= i < j < |docs| ==> docs[i].name != docs[j].name
  }

  /** The side records exactly the citations that parsing its documents in its own tree gives. */
  ghost predicate Records(tokens: map<Claim, set<string>>, tree: Tree, docs: seq<Document>) {
    forall key: Claim, target: string ::
      Has(tokens, key, target) <==> exists d :: d in docs && Cites(d, tree, key, target)
  }

  ghost predicate Cites(d: Document, tree: Tree, key: Claim, target: string) {
    Named(Parse(d.name, tree, d.lines).citations, key, target)
  }

  lemma CitesIs(d: Document, tree: Tree, key: Claim, target: string)
    ensures Cites(d, tree, key, target) <==> Named(Parse(d.name, tree, d.lines).citations, key, target)
  {
    hide Parse;
  }

  ghost predicate Named(citations: seq<Citation>, key: Claim, target: string) {
    exists c :: c in citations && ClaimOf(c) == key && c.target == target
  }

  predicate Has(tokens: map<Claim, set<string>>, key: Claim, target: string) {
    key in tokens && target in tokens[key]
  }

  ghost predicate NoEmptyClaim(tokens: map<Claim, set<string>>) {
    forall key <- tokens :: tokens[key] != {}
  }

  method AddCitations(tokens0: map<Claim, set<string>>, citations: seq<Citation>) returns (tokens: map<Claim, set<string>>)
    requires NoEmptyClaim(tokens0)
    ensures NoEmptyClaim(tokens)
    ensures forall key: Claim, target: string ::
              Has(tokens, key, target) <==> Has(tokens0, key, target) || Named(citations, key, target)
  {
    tokens := tokens0;
    for i := 0 to |citations|
      invariant NoEmptyClaim(tokens)
      invariant forall key: Claim, target: string ::
                  Has(tokens, key, target) <==> Has(tokens0, key, target) || Named(citations[..i], key, target)
    {
      var c := citations[i];
      forall key: Claim, target: string
        ensures Named(citations[..i + 1], key, target) <==>
                Named(citations[..i], key, target) || (ClaimOf(c) == key && c.target == target)
      {
        assert citations[..i + 1] == citations[..i] + [c];
        assert c in citations[..i + 1];
      }
      var targets := if ClaimOf(c) in tokens then tokens[ClaimOf(c)] else {};
      ghost var before := tokens;
      tokens := tokens[ClaimOf(c) := targets + {c.target}];
      forall key: Claim, target: string
        ensures Has(tokens, key, target) <==> Has(before, key, target) || (ClaimOf(c) == key && c.target == target)
      {
      }
    }
    assert citations[..|citations|] == citations;
  }

  method ReadParent(commit: string, tree: Tree, symlinks: set<string>, docs: seq<Document>,
                    sources: map<string, SourceIndex>)
    returns (p: Parent)
    requires DistinctNames(docs)
    ensures p.commit == commit && p.tree == tree && p.symlinks == symlinks && p.sources == sources
    ensures Records(p.tokens, tree, docs) && NoEmptyClaim(p.tokens)
    ensures forall d <- docs :: d.name in p.written && p.written[d.name] == Parse(d.name, tree, d.lines).asked
    ensures forall d <- docs :: d.name in p.lines && p.lines[d.name] == set ln | ln in d.lines
    ensures forall name :: name in p.written || name in p.lines ==> exists d :: d in docs && d.name == name
  {
    hide Parse, Cites;
    var tokens: map<Claim, set<string>> := map[];
    var written: map<string, set<string>> := map[];
    var lines: map<string, set<string>> := map[];
    for i := 0 to |docs|
      invariant Records(tokens, tree, docs[..i]) && NoEmptyClaim(tokens)
      invariant forall k :: 0 <= k < i ==>
                  docs[k].name in written && written[docs[k].name] == Parse(docs[k].name, tree, docs[k].lines).asked
      invariant forall k :: 0 <= k < i ==>
                  docs[k].name in lines && lines[docs[k].name] == set ln | ln in docs[k].lines
      invariant forall name :: name in written || name in lines ==> exists k :: 0 <= k < i && docs[k].name == name
    {
      var d := docs[i];
      var citations, _, asked := ParseText(d.name, d.lines, tree);
      tokens := AddCitations(tokens, citations);
      written := written[d.name := asked];
      lines := lines[d.name := set ln | ln in d.lines];
      forall key: Claim, target: string
        ensures Named(citations, key, target) <==> Cites(d, tree, key, target)
      {
        CitesIs(d, tree, key, target);
      }
      assert docs[..i + 1] == docs[..i] + [d];
      assert d in docs[..i + 1];
    }
    assert docs[..|docs|] == docs;
    p := Parent(commit, tree, symlinks, tokens, written, lines, sources);
  }

  // --------------------------------------------------------------- refusals

  predicate Claims(p: Parent, cit: Citation) {
    ClaimOf(cit) in p.tokens
  }

  predicate WroteThisLine(p: Parent, doc: string, line: string) {
    doc in p.lines && line in p.lines[doc]
  }

  /** Some component of the path is a symlink in the working tree. */
  predicate ThroughLink(links: set<string>, path: string) {
    exists k :: 0 <= k <= |path| && (k == |path| || path[k] == '/') && path[..k] in links
  }

  predicate SymlinkRefused(parents: seq<Parent>, links: set<string>, target: string) {
    ThroughLink(links, target) || exists p <- parents :: target in p.symlinks
  }

  predicate IsBare(raw: string) {
    PathOf(raw) != "" && '/' !in PathOf(raw)
  }

  /** On this side the token means another file, or writes a path that this side never had. */
  predicate ForeignOn(p: Parent, cit: Citation) {
    || (Claims(p, cit) && exists t <- p.tokens[ClaimOf(cit)] :: t != cit.target)
    || ('/' in PathOf(cit.raw) && cit.doc in p.written && PathOf(cit.raw) in p.written[cit.doc] &&
        PathOf(cit.raw) !in p.tree.files)
  }

  predicate IdentityRefused(parents: seq<Parent>, cit: Citation) {
    IsBare(cit.raw) || exists p <- parents :: ForeignOn(p, cit)
  }

  predicate EndsWith(s: string, tail: string) {
    |tail| <= |s| && s[|s| - |tail|..] == tail
  }

  /** On this side the colon of a bare `:N` belongs to another token naming another file. */
  predicate NamedOn(p: Parent, cit: Citation) {
    exists key <- p.tokens :: key.doc == cit.doc && key.start == cit.start && key.end == cit.end &&
      key.raw != cit.raw && EndsWith(key.raw, cit.raw) && exists t <- p.tokens[key] :: t != cit.target
  }

  predicate ContinuationRefused(parents: seq<Parent>, cit: Citation) {
    cit.raw != "" && cit.raw[0] == ':' && exists p <- parents :: NamedOn(p, cit)
  }

  // ------------------------------------------------------------- the decision

  function Filter<T>(f: T -> bool, s: seq<T>): (r: seq<T>)
    ensures forall x <- r :: x in s && f(x)
    ensures forall x <- s :: f(x) ==> x in r
  {
    if s == [] then [] else (if f(s[0]) then [s[0]] else []) + Filter(f, s[1..])
  }

  function ClaimsIt(cit: Citation): Parent -> bool {
    (p: Parent) => Claims(p, cit)
  }

  function WroteIt(doc: string, line: string): Parent -> bool {
    (p: Parent) => WroteThisLine(p, doc, line)
  }

  /** The sides whose own document writes the token; when several do, the one whose document
      also has the line, if there is exactly one. */
  function Deciding(parents: seq<Parent>, line: string, cit: Citation): seq<Parent> {
    var owners := Filter(ClaimsIt(cit), parents);
    var byLine := Filter(WroteIt(cit.doc, line), owners);
    if |owners| > 1 && |byLine| == 1 then byLine else owners
  }

  datatype Vote = Keep | Move(to: Range) | Cannot

  /** What one side says about the range; a side that cannot place it says so. */
  function VoteOf(p: Parent, cur: SourceIndex, cit: Citation): Vote
    requires 1 <= cit.start <= cit.end && cur.sep != ""
  {
    if cit.target !in p.sources then Cannot
    else
      var d := Locate(p.sources[cit.target], cur, cit.start, cit.end);
      if d.status == Right then Keep
      else if d.status == Shifted then Move(d.placed.value)
      else Cannot
  }

  predicate AlreadyRight(p: Parent, cur: SourceIndex, cit: Citation)
    requires 1 <= cit.start <= cit.end
  {
    cit.target in p.sources && IsRight(p.sources[cit.target], cur, cit.start, cit.end)
  }

  /** The owners' decision as a rule about their votes: all keep, all move to one place, none
      can place it, or they do not agree. */
  ghost function Verdict(owners: seq<Parent>, cur: SourceIndex, cit: Citation): Decision
    requires 1 <= cit.start <= cit.end && cur.sep != "" && owners != []
  {
    var first := VoteOf(owners[0], cur, cit);
    if forall o <- owners :: VoteOf(o, cur, cit) == first then
      match first
      case Keep => Stays(cit.start, cit.end)
      case Move(to) => Decision(Shifted, (cit.start, cit.end), Some(to), owners[0].commit)
      case Cannot => Refuse(Missing, cit.start, cit.end)
    else Refuse(Ambiguous, cit.start, cit.end)
  }

  ghost function Decided(parents: seq<Parent>, cur: SourceIndex, links: set<string>, line: string, cit: Citation): Decision
    requires 1 <= cit.start <= cit.end && cur.sep != ""
  {
    var owners := Deciding(parents, line, cit);
    if SymlinkRefused(parents, links, cit.target) then Refuse(Symlink, cit.start, cit.end)
    else if IdentityRefused(parents, cit) then Refuse(Elsewhere, cit.start, cit.end)
    else if owners != [] then Verdict(owners, cur, cit)
    else if ContinuationRefused(parents, cit) then Refuse(Continuation, cit.start, cit.end)
    else if exists p :: p in parents && AlreadyRight(p, cur, cit) then Stays(cit.start, cit.end)
    else Refuse(Unclaimed, cit.start, cit.end)
  }

  lemma Disagreed(owners: seq<Parent>, cur: SourceIndex, cit: Citation, i: nat, j: nat)
    requires 1 <= cit.start <= cit.end && cur.sep != "" && i < |owners| && j < |owners|
    requires VoteOf(owners[i], cur, cit) != VoteOf(owners[j], cur, cit)
    ensures Verdict(owners, cur, cit) == Refuse(Ambiguous, cit.start, cit.end)
  {
    hide VoteOf;
    assert owners[i] in owners && owners[j] in owners;
  }

  lemma Agreed(owners: seq<Parent>, cur: SourceIndex, cit: Citation, vote: Vote)
    requires 1 <= cit.start <= cit.end && cur.sep != "" && owners != []
    requires forall k :: 0 <= k < |owners| ==> VoteOf(owners[k], cur, cit) == vote
    ensures Verdict(owners, cur, cit) ==
            match vote
            case Keep => Stays(cit.start, cit.end)
            case Move(to) => Decision(Shifted, (cit.start, cit.end), Some(to), owners[0].commit)
            case Cannot => Refuse(Missing, cit.start, cit.end)
  {
    hide VoteOf;
    assert forall o <- owners :: VoteOf(o, cur, cit) == vote;
  }

  /** The owners' votes gathered in the three lists and compared in the code's order. */
  method Tally(owners: seq<Parent>, cur: SourceIndex, cit: Citation) returns (d: Decision)
    requires 1 <= cit.start <= cit.end && cur.sep != "" && owners != []
    ensures d == Verdict(owners, cur, cit)
  {
    hide Locate;
    var candidates: seq<(string, Range)> := [];
    var rights, reasons := 0, 0;
    ghost var movers: seq<nat> := [];
    for i := 0 to |owners|
      invariant |movers| == |candidates|
      invariant forall k :: 0 <= k < |movers| ==>
                  movers[k] < i && VoteOf(owners[movers[k]], cur, cit) == Move(candidates[k].1) &&
                  candidates[k].0 == owners[movers[k]].commit
      invariant forall k :: 0 <= k < i && VoteOf(owners[k], cur, cit).Move? ==> k in movers
      invariant candidates != [] && rights + reasons == 0 ==> movers[0] == 0
      invariant rights > 0 <==> exists k :: 0 <= k < i && VoteOf(owners[k], cur, cit) == Keep
      invariant reasons > 0 <==> exists k :: 0 <= k < i && VoteOf(owners[k], cur, cit) == Cannot
      invariant candidates == [] && rights + reasons == 0 ==> i == 0
    {
      var p := owners[i];
      if cit.target !in p.sources {
        reasons := reasons + 1;
        continue;
      }
      var placed := Locate(p.sources[cit.target], cur, cit.start, cit.end);
      PlacedOnlyWhen(p.sources[cit.target], cur, cit.start, cit.end);
      if placed.status == Right {
        rights := rights + 1;
      } else if placed.status == Shifted {
        candidates := candidates + [(p.commit, placed.placed.value)];
        movers := movers + [i];
      } else {
        reasons := reasons + 1;
      }
    }
    hide VoteOf, Verdict;
    if reasons > 0 && (candidates != [] || rights > 0) {
      ghost var i :| 0 <= i < |owners| && VoteOf(owners[i], cur, cit) == Cannot;
      ghost var j :| 0 <= j < |owners| && (if candidates != [] then j == movers[0] else VoteOf(owners[j], cur, cit) == Keep);
      Disagreed(owners, cur, cit, i, j);
      return Refuse(Ambiguous, cit.start, cit.end);
    }
    if rights > 0 && candidates != [] {
      ghost var i :| 0 <= i < |owners| && VoteOf(owners[i], cur, cit) == Keep;
      Disagreed(owners, cur, cit, i, movers[0]);
      return Refuse(Ambiguous, cit.start, cit.end);
    }
    if rights > 0 {
      Agreed(owners, cur, cit, Keep);
      return Stays(cit.start, cit.end);
    }
    if candidates == [] {
      Agreed(owners, cur, cit, Cannot);
      return Refuse(Missing, cit.start, cit.end);
    }
    if k :| 0 <= k < |candidates| && candidates[k].1 != candidates[0].1 {
      Disagreed(owners, cur, cit, movers[k], movers[0]);
      return Refuse(Ambiguous, cit.start, cit.end);
    }
    Agreed(owners, cur, cit, Move(candidates[0].1));
    return Decision(Shifted, (cit.start, cit.end), Some(candidates[0].1), candidates[0].0);
  }

  method DecideCitation(parents: seq<Parent>, cur: SourceIndex, links: set<string>, line: string, cit: Citation)
    returns (d: Decision)
    requires 1 <= cit.start <= cit.end && cur.sep != ""
    ensures d == Decided(parents, cur, links, line, cit)
  {
    if SymlinkRefused(parents, links, cit.target) {
      return Refuse(Symlink, cit.start, cit.end);
    }
    if IdentityRefused(parents, cit) {
      return Refuse(Elsewhere, cit.start, cit.end);
    }
    hide SymlinkRefused, IdentityRefused, Locate;
    var owners := Filter(ClaimsIt(cit), parents);
    if |owners| > 1 {
      var byLine := Filter(WroteIt(cit.doc, line), owners);
      if |byLine| == 1 {
        owners := byLine;
      }
    }
    assert owners == Deciding(parents, line, cit);
    if owners == [] {
      if ContinuationRefused(parents, cit) {
        return Refuse(Continuation, cit.start, cit.end);
      }
      for i := 0 to |parents|
        invariant forall k :: 0 <= k < i ==> !AlreadyRight(parents[k], cur, cit)
      {
        if AlreadyRight(parents[i], cur, cit) {
          return Stays(cit.start, cit.end);
        }
      }
      return Refuse(Unclaimed, cit.start, cit.end);
    }
    d := Tally(owners, cur, cit);
  }
}
