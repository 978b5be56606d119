/** What a parse answers at every place where a span list is written, said over the text, the
    tree's files and names, and the citations before it (scripts/check-citation-drift.py:388-599). */
module ParseMeans {
  import opened Text
  import opened Citations
  import opened CitationParser
  import opened Patterns
  import CitationScope

  // ----------------------------------------------------------------------- sites

  /** A match of the citation pattern: in which line, at which offset its code span starts, at
      which column that span's text starts, the text, and the match in it. */
  datatype Site = Site(line: nat, at: nat, base: nat, text: string, m: Match)

  function TextSites(line: nat, at: nat, base: nat, text: string, from: nat): seq<Site>
    requires from <= |text|
    decreases |text| - from
  {
    match NextMatch(text, from)
    case None => []
    case Some(m) => [Site(line, at, base, text, m)] + TextSites(line, at, base, text, m.end)
  }

  function SpanSites(lines: seq<string>, i: nat, from: nat): seq<Site>
    requires i < |lines|
    decreases |lines[i]| - from
  {
    match NextSpan(lines[i], from)
    case None => []
    case Some(s) =>
      TextSites(i, LineBase(lines, i) + s.start, s.start + 1, lines[i][s.start + 1..s.end - 1], 0) +
      SpanSites(lines, i, s.end)
  }

  function LineSites(lines: seq<string>, i: nat): seq<Site>
    requires i <= |lines|
    decreases |lines| - i
  {
    if i == |lines| then [] else SpanSites(lines, i, 0) + LineSites(lines, i + 1)
  }

  /** Every site of the document, line by line and from left to right. */
  function Sites(lines: seq<string>): seq<Site> {
    LineSites(lines, 0)
  }

  // ---------------------------------------------------------------- written names

  /** The name before the colon starts at `s`: at the recognised path, or at the run of path
      characters that touches the colon; it is empty when there is none. */
  predicate NameAt(text: string, m: Match, s: nat) {
    if m.start < m.colon then s == m.start else PathRun(text, 0, s, m.colon)
  }

  ghost predicate HasKnownExt(name: string) {
    exists ext <- CITED_EXTS :: HasExt(name, ext)
  }

  /** A dot and the extension behind a stem that is not all dots. */
  ghost predicate HasExt(name: string, ext: string) {
    exists stem: string :: name == stem + "." + ext && exists c <- stem :: c != '.'
  }

  /** The site writes the name that starts at `s`, and the name asks for a file: no URL's tail,
      and it has a slash, a known extension, or is some file's name. */
  ghost predicate Names(tree: Tree, text: string, m: Match, s: nat) {
    && NameAt(text, m, s) && s < m.colon <= |text|
    && !(text[s] == '/' && s > 0 && text[s - 1] == ':')
    && var name := text[s..m.colon];
       '/' in name || HasKnownExt(name) || name in tree.basenames
  }

  ghost predicate IsLastPart(path: string, name: string) {
    path == name || exists dir: string :: path == dir + "/" + name
  }

  ghost predicate NamesLast(here: Option<string>, name: string) {
    here.Some? && IsLastPart(here.value, name)
  }

  /** The file a name means where `here` was the file last cited in its sentence. */
  ghost predicate Means(tree: Tree, here: Option<string>, name: string, target: string) {
    if name in tree.files then target == name
    else
      && '/' !in name
      && if NamesLast(here, name) then Some(target) == here
         else name in tree.basenames && tree.basenames[name] == [target]
  }

  // --------------------------------------------------------------------- answers

  datatype Answer = Cited(token: Token) | Refused(kind: ProblemKind) | Silent

  ghost predicate Named(tree: Tree, site: Site) {
    exists s: nat :: Names(tree, site.text, site.m, s)
  }

  /** The token the site writes from `s` on. */
  predicate Writes(site: Site, s: nat, t: Token) {
    && s <= site.m.end <= |site.text| && site.m.colon < site.m.end
    && t.docLine == site.line + 1 && t.at == site.at && t.col == site.base + s
    && t.raw == site.text[s..site.m.end] && t.spans == site.text[site.m.colon + 1..site.m.end]
  }

  ghost predicate CitedThere(tree: Tree, site: Site, here: Option<string>, t: Token) {
    if t.explicit then
      exists s: nat :: Names(tree, site.text, site.m, s) && Writes(site, s, t) &&
                       Means(tree, here, site.text[s..site.m.colon], t.target)
    else !Named(tree, site) && Writes(site, site.m.start, t) && here == Some(t.target)
  }

  ghost predicate Lost(tree: Tree, site: Site, here: Option<string>) {
    exists s: nat :: Names(tree, site.text, site.m, s) &&
                     forall file :: !Means(tree, here, site.text[s..site.m.colon], file)
  }

  /** What is answered at a site where `here` was the file last cited in its sentence. */
  ghost predicate AnswerIs(tree: Tree, site: Site, here: Option<string>, a: Answer) {
    match a
    case Cited(t) => CitedThere(tree, site, here, t)
    case Refused(Unresolvable) => Lost(tree, site, here)
    case Refused(OmitsName) => !Named(tree, site) && here == None && NameAt(site.text, site.m, site.m.colon)
    case Refused(IllegalRange) => false
    case Silent => !Named(tree, site) && here == None && !NameAt(site.text, site.m, site.m.colon)
  }

  function TokensOf(answers: seq<Answer>): seq<Token> {
    if answers == [] then []
    else
      var last := answers[|answers| - 1];
      TokensOf(answers[..|answers| - 1]) + if last.Cited? then [last.token] else []
  }

  /** The file last cited in the sentence that `at` stands in. */
  ghost function Scope(lines: seq<string>, tokens: seq<Token>, at: int): Option<string> {
    if tokens == [] then None
    else
      var t := tokens[|tokens| - 1];
      if Stopped(lines, t.at, at) then None else Some(t.target)
  }

  ghost predicate AnsweredAt(tree: Tree, lines: seq<string>, sites: seq<Site>, answers: seq<Answer>, k: nat)
    requires k < |sites| && k < |answers|
  {
    AnswerIs(tree, sites[k], Scope(lines, TokensOf(answers[..k]), sites[k].at), answers[k])
  }

  /** One answer a site, each given what was cited before it. */
  ghost predicate Answered(tree: Tree, lines: seq<string>, sites: seq<Site>, answers: seq<Answer>) {
    |answers| == |sites| && forall k :: 0 <= k < |sites| ==> AnsweredAt(tree, lines, sites, answers, k)
  }

  // ---------------------------------------------------------- what is handed back

  predicate Legal(chunk: string) {
    IsChunk(chunk) && 1 <= ChunkRange(chunk).0 <= ChunkRange(chunk).1
  }

  /** A citation for every chunk of the token's list that is a range of lines. */
  function ChunkCitations(doc: string, t: Token, chunks: seq<string>): seq<Citation> {
    if chunks == [] then []
    else
      var c := chunks[|chunks| - 1];
      ChunkCitations(doc, t, chunks[..|chunks| - 1]) +
      if Legal(c) then [Citation(doc, t.docLine, t.raw, t.target, ChunkRange(c).0, ChunkRange(c).1)] else []
  }

  function CitationsOf(doc: string, tokens: seq<Token>): seq<Citation> {
    if tokens == [] then []
    else
      var t := tokens[|tokens| - 1];
      CitationsOf(doc, tokens[..|tokens| - 1]) + ChunkCitations(doc, t, Split(t.spans, ','))
  }

  function IllegalCount(chunks: seq<string>): nat {
    if chunks == [] then 0
    else IllegalCount(chunks[..|chunks| - 1]) + if Legal(chunks[|chunks| - 1]) then 0 else 1
  }

  /** One problem for a refusal, and one for every chunk that is no range of lines. */
  function ProblemsAt(site: Site, before: nat, a: Answer): seq<Problem> {
    match a
    case Silent => []
    case Refused(kind) => [Problem(site.line + 1, site.at, before, kind)]
    case Cited(t) =>
      seq(IllegalCount(Split(t.spans, ',')), _ => Problem(site.line + 1, site.at, before + 1, IllegalRange))
  }

  function ProblemsOf(sites: seq<Site>, answers: seq<Answer>): seq<Problem>
    requires |sites| == |answers|
  {
    if sites == [] then []
    else
      var n := |sites| - 1;
      ProblemsOf(sites[..n], answers[..n]) + ProblemsAt(sites[n], |TokensOf(answers[..n])|, answers[n])
  }

  ghost predicate AsksFor(tree: Tree, site: Site, name: string) {
    exists s: nat :: Names(tree, site.text, site.m, s) && name == site.text[s..site.m.colon]
  }

  /** The names whose existence is asked about are those the sites write. */
  ghost predicate AsksWritten(tree: Tree, sites: seq<Site>, asked: set<string>) {
    forall name :: name in asked <==> exists site :: site in sites && AsksFor(tree, site, name)
  }

  /** The parser's state behind the sites answered so far. */
  ghost predicate Reads(doc: string, tree: Tree, lines: seq<string>, sites: seq<Site>, answers: seq<Answer>, st: State) {
    && Answered(tree, lines, sites, answers)
    && st.tokens == TokensOf(answers)
    && st.citations == CitationsOf(doc, st.tokens)
    && st.problems == ProblemsOf(sites, answers)
    && AsksWritten(tree, sites, st.asked)
    && CitationScope.Inherits(lines, st)
  }

  // ------------------------------------------------------------ names and targets

  lemma NameAtIff(text: string, m: Match, s: nat)
    requires IsMatch(text, 0, m)
    ensures NameAt(text, m, s) <==> s == NameStart(text, m)
  {
    hide IsSpanList, IsPathChar;
    RunStartIs(text, 0, s, m.colon);
  }

  lemma ExtensionsPlain()
    ensures forall ext <- CITED_EXTS :: ext != "" && '.' !in ext
  {
  }

  lemma ShapedIff(name: string, tree: Tree)
    ensures IsPathShaped(name, tree) <==> '/' in name || HasKnownExt(name) || name in tree.basenames
  {
    ExtensionsPlain();
    forall ext | ext in CITED_EXTS ensures HasExt(name, ext) <==> ExtensionOf(name) == ext {
      ExtensionIff(name, ext);
    }
    hide CITED_EXTS, ExtensionOf, HasExt;
  }

  lemma NamesIff(tree: Tree, text: string, m: Match, s: nat)
    requires IsMatch(text, 0, m)
    ensures Names(tree, text, m, s) <==> s == NameStart(text, m) && s < m.colon && !NotACitation(text, m, tree)
  {
    hide IsSpanList, IsPathChar, NameAt, NameStart, IsPathShaped, HasKnownExt;
    NameAtIff(text, m, s);
    if s < m.colon {
      ShapedIff(text[s..m.colon], tree);
    }
  }

  lemma MeansIff(tree: Tree, here: Option<string>, name: string, target: string)
    ensures Means(tree, here, name, target) <==> ResolveTarget(name, here, tree) == Some(target)
  {
    hide IsLastPart, Basename;
    if here.Some? && '/' !in name {
      LastPartIff(here.value, name);
    }
  }

  lemma LastPartIff(path: string, name: string)
    requires '/' !in name
    ensures IsLastPart(path, name) <==> Basename(path) == name
  {
    BasenameIff(path, name);
  }

  // ------------------------------------------------------------------- one site

  /** How an answer changes the state. */
  ghost predicate Takes(doc: string, tree: Tree, site: Site, a: Answer, st: State, after: State) {
    && after.seen == st.seen
    && after.tokens == st.tokens + (if a.Cited? then [a.token] else [])
    && after.last == (if a.Cited? then Some(a.token.target) else st.last)
    && after.citations == st.citations + (if a.Cited? then ChunkCitations(doc, a.token, Split(a.token.spans, ',')) else [])
    && after.problems == st.problems + ProblemsAt(site, |st.tokens|, a)
    && forall name :: name in after.asked <==> name in st.asked || AsksFor(tree, site, name)
  }

  lemma {:induction false} ChunkCitationsFrom(doc: string, t: Token, chunks: seq<string>)
    requires chunks != []
    ensures ChunkCitations(doc, t, chunks) == ChunkCitations(doc, t, chunks[..1]) + ChunkCitations(doc, t, chunks[1..])
    ensures IllegalCount(chunks) == IllegalCount(chunks[..1]) + IllegalCount(chunks[1..])
  {
    hide Legal;
    var n := |chunks| - 1;
    if n == 0 {
      assert chunks[..1] == chunks;
    } else {
      ChunkCitationsFrom(doc, t, chunks[..n]);
      assert chunks[..n][..1] == chunks[..1] && chunks[..n][1..] == chunks[1..][..n - 1];
      assert chunks[1..][n - 1] == chunks[n];
    }
  }

  lemma {:induction false} EmittedIs(doc: string, t: Token, p: Problem, chunks: seq<string>)
    requires forall c <- chunks :: IsChunk(c)
    ensures Emitted(doc, t, chunks) == ChunkCitations(doc, t, chunks)
    ensures Illegal(p, chunks) == seq(IllegalCount(chunks), _ => p)
  {
    hide IsChunk, ChunkRange;
    if chunks != [] {
      ChunkCitationsFrom(doc, t, chunks);
      EmittedIs(doc, t, p, chunks[1..]);
      assert chunks[..1] == [chunks[0]] && chunks[..1][..0] == [];
    }
  }

  lemma ResolveTakes(doc: string, tree: Tree, site: Site, t: Token, st: State, asking: State)
    requires IsSpanList(t.spans) && t.docLine == site.line + 1 && t.at == site.at
    requires asking == st.(asked := asking.asked)
    requires forall name :: name in asking.asked <==> name in st.asked || AsksFor(tree, site, name)
    ensures Takes(doc, tree, site, Cited(t), st, Resolve(doc, t, asking))
  {
    hide IsSpanList, Split, Emitted, Illegal, ChunkCitations, IllegalCount, AsksFor;
    CitationScope.ChunksOfSpanList(t.spans);
    EmittedIs(doc, t, Problem(t.docLine, t.at, |st.tokens| + 1, IllegalRange), Split(t.spans, ','));
  }

  lemma SiteAsks(tree: Tree, site: Site, s: nat)
    requires IsMatch(site.text, 0, site.m) && s == NameStart(site.text, site.m)
    ensures Named(tree, site) <==> s < site.m.colon && !NotACitation(site.text, site.m, tree)
    ensures Named(tree, site) ==> Names(tree, site.text, site.m, s)
    ensures forall name :: AsksFor(tree, site, name) <==> Named(tree, site) && name == site.text[s..site.m.colon]
  {
    hide IsSpanList, IsPathChar, Names, NameStart, NotACitation;
    forall s': nat ensures Names(tree, site.text, site.m, s') <==> s' == s && s < site.m.colon && !NotACitation(site.text, site.m, tree) {
      NamesIff(tree, site.text, site.m, s');
    }
    assert Names(tree, site.text, site.m, s) <==> s < site.m.colon && !NotACitation(site.text, site.m, tree);
  }

  lemma NamedStep(doc: string, tree: Tree, site: Site, st: State) returns (a: Answer)
    requires IsMatch(site.text, 0, site.m) && st.seen == site.at && Named(tree, site)
    ensures AnswerIs(tree, site, st.last, a)
    ensures Takes(doc, tree, site, a, st, StepMatch(doc, tree, site.line + 1, site.base, site.text, site.m, st))
  {
    hide IsSpanList, IsPathChar, Names, NameStart, NotACitation, Resolve, Means, ResolveTarget, Named, AsksFor, Takes;
    var text, m := site.text, site.m;
    var s := NameStart(text, m);
    SiteAsks(tree, site, s);
    var name := text[s..m.colon];
    forall file ensures Means(tree, st.last, name, file) <==> ResolveTarget(name, st.last, tree) == Some(file) {
      MeansIff(tree, st.last, name, file);
    }
    var asking := st.(asked := st.asked + {name});
    match ResolveTarget(name, st.last, tree) {
      case None =>
        a := Refused(Unresolvable);
        assert Lost(tree, site, st.last);
        RefusedTakes(doc, tree, site, Unresolvable, st, asking);
      case Some(target) =>
        var t := Token(site.line + 1, st.seen, site.base + s, text[s..m.end], text[m.colon + 1..m.end], true, target);
        a := Cited(t);
        assert Writes(site, s, t);
        ResolveTakes(doc, tree, site, t, st, asking);
    }
  }

  lemma RefusedTakes(doc: string, tree: Tree, site: Site, kind: ProblemKind, st: State, asking: State)
    requires asking == st.(asked := asking.asked) && st.seen == site.at
    requires forall name :: name in asking.asked <==> name in st.asked || AsksFor(tree, site, name)
    ensures Takes(doc, tree, site, Refused(kind), st,
                  asking.(problems := st.problems + [Problem(site.line + 1, st.seen, |st.tokens|, kind)]))
  {
    hide AsksFor;
  }

  lemma BareStep(doc: string, tree: Tree, site: Site, st: State) returns (a: Answer)
    requires IsMatch(site.text, 0, site.m) && st.seen == site.at && !Named(tree, site)
    ensures AnswerIs(tree, site, st.last, a)
    ensures Takes(doc, tree, site, a, st, StepMatch(doc, tree, site.line + 1, site.base, site.text, site.m, st))
  {
    hide IsSpanList, IsPathChar, NameStart, NotACitation, Resolve, Named, AsksFor, NameAt, Takes;
    var text, m := site.text, site.m;
    var s := NameStart(text, m);
    SiteAsks(tree, site, s);
    NameAtIff(text, m, m.colon);
    if st.last.Some? {
      var t := Token(site.line + 1, st.seen, site.base + m.start, text[m.start..m.end], text[m.colon + 1..m.end], false, st.last.value);
      a := Cited(t);
      ResolveTakes(doc, tree, site, t, st, st);
    } else if NotACitation(text, m, tree) {
      a := Silent;
      assert NotACitation(text, m, tree) ==> s < m.colon by {
        NotAtColon(text, m, tree);
      }
      SilentTakes(doc, tree, site, st);
    } else {
      a := Refused(OmitsName);
      RefusedTakes(doc, tree, site, OmitsName, st, st);
    }
  }

  lemma NotAtColon(text: string, m: Match, tree: Tree)
    requires IsMatch(text, 0, m) && NotACitation(text, m, tree)
    ensures NameStart(text, m) < m.colon
  {
    hide NameStart, IsSpanList;
  }

  lemma SilentTakes(doc: string, tree: Tree, site: Site, st: State)
    requires !Named(tree, site)
    ensures Takes(doc, tree, site, Silent, st, st)
  {
    hide Names;
  }

  // ------------------------------------------------------------------- whole runs

  lemma OneMore(answers: seq<Answer>, a: Answer)
    ensures TokensOf(answers + [a]) == TokensOf(answers) + if a.Cited? then [a.token] else []
  {
    assert (answers + [a])[..|answers|] == answers;
  }

  lemma AllAnswered(tree: Tree, lines: seq<string>, sites: seq<Site>, answers: seq<Answer>)
    ensures Answered(tree, lines, sites, answers) ==> |answers| == |sites|
  {
  }

  lemma MoreAnswered(tree: Tree, lines: seq<string>, sites: seq<Site>, answers: seq<Answer>, site: Site, a: Answer)
    requires Answered(tree, lines, sites, answers)
    requires AnswerIs(tree, site, Scope(lines, TokensOf(answers), site.at), a)
    ensures Answered(tree, lines, sites + [site], answers + [a])
  {
    hide AnswerIs, Scope, TokensOf;
    var n := |answers|;
    forall k | 0 <= k <= n ensures AnsweredAt(tree, lines, sites + [site], answers + [a], k) {
      assert (answers + [a])[..k] == answers[..k];
      if k < n {
        assert AnsweredAt(tree, lines, sites, answers, k);
      } else {
        assert answers[..n] == answers;
      }
    }
  }

  lemma MoreAsked(tree: Tree, sites: seq<Site>, asked: set<string>, site: Site, asked': set<string>)
    requires AsksWritten(tree, sites, asked)
    requires forall name :: name in asked' <==> name in asked || AsksFor(tree, site, name)
    ensures AsksWritten(tree, sites + [site], asked')
  {
    hide AsksFor;
  }

  lemma MoreCitations(doc: string, tokens: seq<Token>, t: Token)
    ensures CitationsOf(doc, tokens + [t]) == CitationsOf(doc, tokens) + ChunkCitations(doc, t, Split(t.spans, ','))
  {
    hide ChunkCitations, Split;
    assert (tokens + [t])[..|tokens|] == tokens;
  }

  lemma MoreProblems(sites: seq<Site>, answers: seq<Answer>, site: Site, a: Answer)
    requires |sites| == |answers|
    ensures ProblemsOf(sites + [site], answers + [a]) == ProblemsOf(sites, answers) + ProblemsAt(site, |TokensOf(answers)|, a)
  {
    hide ProblemsAt, TokensOf;
    assert (sites + [site])[..|sites|] == sites && (answers + [a])[..|sites|] == answers;
  }

  lemma TakesReads(doc: string, tree: Tree, lines: seq<string>, sites: seq<Site>, answers: seq<Answer>, site: Site, a: Answer,
                   st: State, after: State)
    requires Reads(doc, tree, lines, sites, answers, st) && st.seen == site.at
    requires AnswerIs(tree, site, st.last, a) && Takes(doc, tree, site, a, st, after)
    requires a.Cited? ==> a.token.at == site.at
    ensures Reads(doc, tree, lines, sites + [site], answers + [a], after)
  {
    hide AnswerIs, Answered, TokensOf, CitationsOf, ProblemsOf, ProblemsAt, AsksWritten, AsksFor, ChunkCitations, Split, Stopped;
    assert Scope(lines, st.tokens, site.at) == st.last;
    AllAnswered(tree, lines, sites, answers);
    OneMore(answers, a);
    MoreAnswered(tree, lines, sites, answers, site, a);
    MoreAsked(tree, sites, st.asked, site, after.asked);
    MoreProblems(sites, answers, site, a);
    if a.Cited? {
      MoreCitations(doc, st.tokens, a.token);
      CitationScope.NotStoppedHere(lines, site.at);
    } else {
      assert after.tokens == st.tokens && after.citations == st.citations;
    }
  }

  lemma StepReads(doc: string, tree: Tree, lines: seq<string>, sites: seq<Site>, answers: seq<Answer>, site: Site, st: State)
    returns (a: Answer)
    requires IsMatch(site.text, 0, site.m) && Reads(doc, tree, lines, sites, answers, st) && st.seen == site.at
    ensures var after := StepMatch(doc, tree, site.line + 1, site.base, site.text, site.m, st);
            Reads(doc, tree, lines, sites + [site], answers + [a], after) && after.seen == st.seen
  {
    hide Reads, StepMatch, IsMatch, Named;
    if Named(tree, site) {
      a := NamedStep(doc, tree, site, st);
    } else {
      a := BareStep(doc, tree, site, st);
    }
    TakesReads(doc, tree, lines, sites, answers, site, a, st, StepMatch(doc, tree, site.line + 1, site.base, site.text, site.m, st));
  }

  lemma {:induction false} MatchesRead(doc: string, tree: Tree, lines: seq<string>, i: nat, base: nat, text: string, from: nat,
                                       sites: seq<Site>, answers: seq<Answer>, st: State) returns (more: seq<Answer>)
    requires from <= |text| && st.seen >= 0 && Reads(doc, tree, lines, sites, answers, st)
    ensures var after := FoldMatches(doc, tree, i + 1, base, text, from, st);
            Reads(doc, tree, lines, sites + TextSites(i, st.seen, base, text, from), more, after) && after.seen == st.seen
    decreases |text| - from
  {
    hide Reads, StepMatch, NextMatch, IsSpanList;
    more := answers;
    match NextMatch(text, from)
    case None =>
      assert sites + [] == sites;
    case Some(m) =>
      var site := Site(i, st.seen, base, text, m);
      var a := StepReads(doc, tree, lines, sites, answers, site, st);
      more := MatchesRead(doc, tree, lines, i, base, text, m.end, sites + [site], answers + [a],
                          StepMatch(doc, tree, i + 1, base, text, m, st));
      assert sites + TextSites(i, st.seen, base, text, from) == (sites + [site]) + TextSites(i, st.seen, base, text, m.end);
  }

  lemma AdvanceReads(doc: string, tree: Tree, lines: seq<string>, sites: seq<Site>, answers: seq<Answer>, st: State, at: nat)
    requires Reads(doc, tree, lines, sites, answers, st) && st.seen <= at
    ensures Reads(doc, tree, lines, sites, answers, Advance(lines, st, at))
  {
    hide Stopped, Answered, AsksWritten;
    if st.tokens != [] {
      CitationScope.StoppedSplits(lines, st.tokens[|st.tokens| - 1].at, st.seen, at);
    }
  }

  lemma {:induction false} SpansRead(doc: string, tree: Tree, lines: seq<string>, i: nat, from: nat,
                                     sites: seq<Site>, answers: seq<Answer>, st: State) returns (more: seq<Answer>)
    requires i < |lines| && from <= |lines[i]| && st.seen <= LineBase(lines, i) + from
    requires Reads(doc, tree, lines, sites, answers, st)
    ensures var after := FoldSpans(doc, tree, lines, i, from, st);
            Reads(doc, tree, lines, sites + SpanSites(lines, i, from), more, after) && after.seen <= LineBase(lines, i) + |lines[i]|
    decreases |lines[i]| - from
  {
    hide Reads, FoldMatches, FoldSpans, TextSites, LineBase;
    FoldSpansUnfold(doc, tree, lines, i, from, st);
    more := answers;
    match NextSpan(lines[i], from)
    case None =>
      assert sites + [] == sites;
    case Some(span) =>
      var at := LineBase(lines, i) + span.start;
      var text := lines[i][span.start + 1..span.end - 1];
      AdvanceReads(doc, tree, lines, sites, answers, st, at);
      var here := TextSites(i, at, span.start + 1, text, 0);
      more := MatchesRead(doc, tree, lines, i, span.start + 1, text, 0, sites, answers, Advance(lines, st, at));
      more := SpansRead(doc, tree, lines, i, span.end, sites + here, more, StepSpan(doc, tree, lines, i, span, st));
      assert sites + (here + SpanSites(lines, i, span.end)) == (sites + here) + SpanSites(lines, i, span.end);
  }

  lemma {:induction false} LinesRead(doc: string, tree: Tree, lines: seq<string>, i: nat,
                                     sites: seq<Site>, answers: seq<Answer>, st: State) returns (more: seq<Answer>)
    requires i <= |lines| && st.seen <= LineBase(lines, i) && Reads(doc, tree, lines, sites, answers, st)
    ensures Reads(doc, tree, lines, sites + LineSites(lines, i), more, FoldLines(doc, tree, lines, i, st))
    decreases |lines| - i
  {
    hide Reads, FoldSpans, SpanSites;
    more := answers;
    if i == |lines| {
      assert sites + [] == sites;
    } else {
      more := SpansRead(doc, tree, lines, i, 0, sites, answers, st);
      var here := SpanSites(lines, i, 0);
      more := LinesRead(doc, tree, lines, i + 1, sites + here, more, FoldSpans(doc, tree, lines, i, 0, st));
      assert sites + (here + LineSites(lines, i + 1)) == (sites + here) + LineSites(lines, i + 1);
    }
  }

  // ----------------------------------------------------------------- main results

  /** A parse answers every site once, in order: by the file the name written there means, by the
      file its sentence last cited, with a problem, or not at all; its tokens, citations, problems
      and questions are those of the answers. */
  lemma ParseAnswers(doc: string, tree: Tree, lines: seq<string>) returns (answers: seq<Answer>)
    ensures Answered(tree, lines, Sites(lines), answers)
    ensures Parse(doc, tree, lines).tokens == TokensOf(answers)
    ensures Parse(doc, tree, lines).citations == CitationsOf(doc, TokensOf(answers))
    ensures Parse(doc, tree, lines).problems == ProblemsOf(Sites(lines), answers)
    ensures AsksWritten(tree, Sites(lines), Parse(doc, tree, lines).asked)
  {
    hide FoldLines, LineSites, Answered, AsksWritten;
    assert Reads(doc, tree, lines, [], [], START) by {
      StartReads(doc, tree, lines);
    }
    answers := LinesRead(doc, tree, lines, 0, [], [], START);
    assert [] + LineSites(lines, 0) == LineSites(lines, 0);
  }

  lemma StartReads(doc: string, tree: Tree, lines: seq<string>)
    ensures Reads(doc, tree, lines, [], [], START)
  {
  }

  // ------------------------------------------------------- an answer is determined

  lemma {:induction false} TextSitesMatch(line: nat, at: nat, base: nat, text: string, from: nat)
    requires from <= |text|
    ensures forall site <- TextSites(line, at, base, text, from) :: IsMatch(site.text, 0, site.m)
    decreases |text| - from
  {
    hide NextMatch, IsSpanList, IsPathChar;
    var m := NextMatch(text, from);
    if m.Some? {
      TextSitesMatch(line, at, base, text, m.value.end);
    }
  }

  lemma {:induction false} SpanSitesMatch(lines: seq<string>, i: nat, from: nat)
    requires i < |lines|
    ensures forall site <- SpanSites(lines, i, from) :: IsMatch(site.text, 0, site.m)
    decreases |lines[i]| - from
  {
    hide IsMatch, TextSites;
    var span := NextSpan(lines[i], from);
    if span.Some? {
      var a, b := span.value.start, span.value.end;
      TextSitesMatch(i, LineBase(lines, i) + a, a + 1, lines[i][a + 1..b - 1], 0);
      SpanSitesMatch(lines, i, b);
    }
  }

  lemma {:induction false} SitesMatch(lines: seq<string>, i: nat)
    requires i <= |lines|
    ensures forall site <- LineSites(lines, i) :: IsMatch(site.text, 0, site.m)
    decreases |lines| - i
  {
    hide IsMatch, SpanSites;
    if i < |lines| {
      SpanSitesMatch(lines, i, 0);
      SitesMatch(lines, i + 1);
    }
  }

  lemma OneFile(tree: Tree, here: Option<string>, name: string, a: string, b: string)
    requires Means(tree, here, name, a) && Means(tree, here, name, b)
    ensures a == b
  {
    hide IsLastPart;
  }

  lemma OneToken(tree: Tree, site: Site, here: Option<string>, a: Token, b: Token)
    requires IsMatch(site.text, 0, site.m)
    requires CitedThere(tree, site, here, a) && CitedThere(tree, site, here, b)
    ensures a == b
  {
    hide IsSpanList, IsPathChar, Names, NameStart, NotACitation, Means, Named;
    var s := NameStart(site.text, site.m);
    SiteAsks(tree, site, s);
    NamesFrom(tree, site);
    SomeName(tree, site, s);
    if a.explicit && b.explicit {
      OneFile(tree, here, site.text[s..site.m.colon], a.target, b.target);
    }
  }

  lemma SomeName(tree: Tree, site: Site, s: nat)
    ensures Names(tree, site.text, site.m, s) ==> Named(tree, site)
  {
    hide Names;
  }

  lemma NamesFrom(tree: Tree, site: Site)
    requires IsMatch(site.text, 0, site.m)
    ensures forall s: nat :: Names(tree, site.text, site.m, s) ==> s == NameStart(site.text, site.m)
  {
    hide IsMatch, Names, NameStart, NotACitation;
    forall s: nat {
      NamesIff(tree, site.text, site.m, s);
    }
  }

  /** What a site writes, the file in scope and the tree leave one answer. */
  lemma OneAnswer(tree: Tree, site: Site, here: Option<string>, a: Answer, b: Answer)
    requires IsMatch(site.text, 0, site.m)
    requires AnswerIs(tree, site, here, a) && AnswerIs(tree, site, here, b)
    ensures a == b
  {
    hide IsMatch, Names, NameStart, Means, NameAt, Writes;
    NamesFrom(tree, site);
    if a.Cited? && b.Cited? {
      OneToken(tree, site, here, a.token, b.token);
    }
  }

  lemma {:induction false} AnswersAreOne(tree: Tree, lines: seq<string>, a: seq<Answer>, b: seq<Answer>, n: nat)
    requires Answered(tree, lines, Sites(lines), a) && Answered(tree, lines, Sites(lines), b) && n <= |a|
    ensures a[..n] == b[..n]
  {
    hide AnswerIs, Scope, TokensOf, IsMatch, LineSites;
    if n > 0 {
      AnswersAreOne(tree, lines, a, b, n - 1);
      SitesMatch(lines, 0);
      assert AnsweredAt(tree, lines, Sites(lines), a, n - 1) && AnsweredAt(tree, lines, Sites(lines), b, n - 1);
      OneAnswer(tree, Sites(lines)[n - 1], Scope(lines, TokensOf(a[..n - 1]), Sites(lines)[n - 1].at), a[n - 1], b[n - 1]);
      assert a[..n] == a[..n - 1] + [a[n - 1]] && b[..n] == b[..n - 1] + [b[n - 1]];
    }
  }

  // ------------------------------------------------------------- written names

  lemma {:induction false} AnswerOfToken(answers: seq<Answer>, k: nat) returns (j: nat)
    requires k < |TokensOf(answers)|
    ensures j < |answers| && answers[j] == Cited(TokensOf(answers)[k]) && TokensOf(answers[..j]) == TokensOf(answers)[..k]
  {
    var n := |answers| - 1;
    var before := TokensOf(answers[..n]);
    if k < |before| {
      j := AnswerOfToken(answers[..n], k);
      assert answers[..n][..j] == answers[..j] && TokensOf(answers)[..k] == before[..k];
    } else {
      j := n;
    }
  }

  lemma LastPartMeans(tree: Tree, here: Option<string>, name: string, file: string)
    ensures Means(tree, here, name, file) && name in tree.files ==> file == name
    ensures Means(tree, here, name, file) && name !in tree.files && NamesLast(here, name) ==> file == here.value
    ensures Means(tree, here, name, file) && name !in tree.files && !NamesLast(here, name) ==>
              name in tree.basenames && tree.basenames[name] == [file]
    ensures Means(tree, here, name, file) && '/' in name ==> name in tree.files
  {
    hide IsLastPart;
  }

  /** An explicit citation means the root file its name is; failing that, and without a slash, the
      file its sentence last named, when that has this base name; failing that, the one file of
      the tree with the name. */
  lemma ExplicitMeans(doc: string, tree: Tree, lines: seq<string>, k: nat)
    requires k < |Parse(doc, tree, lines).tokens| && Parse(doc, tree, lines).tokens[k].explicit
    ensures var tokens := Parse(doc, tree, lines).tokens;
      var name, target, here := PathOf(tokens[k].raw), tokens[k].target, Scope(lines, tokens[..k], tokens[k].at);
      && (name in tree.files ==> target == name)
      && ('/' in name ==> name in tree.files)
      && (name !in tree.files && NamesLast(here, name) ==> target == here.value)
      && (name !in tree.files && !NamesLast(here, name) ==> name in tree.basenames && tree.basenames[name] == [target])
  {
    hide Parse, AnswerIs, Scope, IsMatch, LineSites, ProblemsOf, CitationsOf, AsksWritten, TokensOf, Answered, NamesLast;
    var answers := ParseAnswers(doc, tree, lines);
    var tokens := TokensOf(answers);
    var j := AnswerOfToken(answers, k);
    AllAnswered(tree, lines, Sites(lines), answers);
    AnsweredThere(tree, lines, answers, j);
    var site, here := Sites(lines)[j], Scope(lines, tokens[..k], tokens[k].at);
    NamedMeans(tree, site, here, tokens[k]);
    LastPartMeans(tree, here, PathOf(tokens[k].raw), tokens[k].target);
  }

  lemma AnsweredThere(tree: Tree, lines: seq<string>, answers: seq<Answer>, j: nat)
    requires Answered(tree, lines, Sites(lines), answers) && j < |answers|
    ensures j < |Sites(lines)| && IsMatch(Sites(lines)[j].text, 0, Sites(lines)[j].m)
    ensures AnswerIs(tree, Sites(lines)[j], Scope(lines, TokensOf(answers[..j]), Sites(lines)[j].at), answers[j])
    ensures answers[j].Cited? ==> answers[j].token.at == Sites(lines)[j].at
  {
    hide IsMatch, LineSites, Scope, TokensOf, Names, Means;
    SitesMatch(lines, 0);
    assert AnsweredAt(tree, lines, Sites(lines), answers, j);
  }

  lemma NamedMeans(tree: Tree, site: Site, here: Option<string>, t: Token)
    requires IsMatch(site.text, 0, site.m) && AnswerIs(tree, site, here, Cited(t)) && t.explicit
    ensures Means(tree, here, PathOf(t.raw), t.target)
  {
    hide IsSpanList, Means, Names, PathOf, SpansOf;
    NameBefore(tree, site);
    var s: nat :| Names(tree, site.text, site.m, s) && Writes(site, s, t) && Means(tree, here, site.text[s..site.m.colon], t.target);
    CitationScope.WrittenName(site.text, s, site.m);
  }

  lemma NameBefore(tree: Tree, site: Site)
    ensures forall s: nat :: Names(tree, site.text, site.m, s) ==> s < site.m.colon <= |site.text|
  {
  }

  /** Some file is meant by the name: it is a file, or, without a slash, the base name of the file
      last cited in the sentence, or the name of one file alone. */
  ghost predicate MeansSome(tree: Tree, here: Option<string>, name: string) {
    || name in tree.files
    || ('/' !in name && NamesLast(here, name))
    || ('/' !in name && name in tree.basenames && |tree.basenames[name]| == 1)
  }

  lemma MeansSomeIff(tree: Tree, here: Option<string>, name: string)
    ensures MeansSome(tree, here, name) <==> exists file :: Means(tree, here, name, file)
  {
    hide IsLastPart;
    if name in tree.files {
      assert Means(tree, here, name, name);
    } else if '/' !in name && NamesLast(here, name) {
      assert Means(tree, here, name, here.value);
    } else if '/' !in name && name in tree.basenames && |tree.basenames[name]| == 1 {
      var file := tree.basenames[name][0];
      assert tree.basenames[name] == [file];
      assert Means(tree, here, name, file);
    }
  }

  lemma {:induction false} ProblemListed(sites: seq<Site>, answers: seq<Answer>, k: nat)
    requires |sites| == |answers| && k < |sites|
    ensures forall p <- ProblemsAt(sites[k], |TokensOf(answers[..k])|, answers[k]) :: p in ProblemsOf(sites, answers)
  {
    hide ProblemsAt, TokensOf;
    var n := |sites| - 1;
    if k < n {
      ProblemListed(sites[..n], answers[..n], k);
      assert answers[..n][..k] == answers[..k];
    }
  }

  lemma {:induction false} TokenListed(answers: seq<Answer>, k: nat)
    requires k < |answers| && answers[k].Cited?
    ensures |TokensOf(answers[..k])| < |TokensOf(answers)| && TokensOf(answers)[|TokensOf(answers[..k])|] == answers[k].token
  {
    var n := |answers| - 1;
    if k < n {
      TokenListed(answers[..n], k);
      assert answers[..n][..k] == answers[..k];
    }
  }

  /** A name that asks for a file is an explicit citation when it means one, and a problem when
      it means none; a name shared by two files means none. */
  lemma NameAnswered(doc: string, tree: Tree, lines: seq<string>, answers: seq<Answer>, k: nat, s: nat)
    requires Answered(tree, lines, Sites(lines), answers) && k < |answers|
    requires Names(tree, Sites(lines)[k].text, Sites(lines)[k].m, s)
    ensures var site, before := Sites(lines)[k], TokensOf(answers[..k]);
      var name := site.text[s..site.m.colon];
      if MeansSome(tree, Scope(lines, before, site.at), name) then
        exists t <- Parse(doc, tree, lines).tokens :: Writes(site, s, t) && t.explicit
      else Problem(site.line + 1, site.at, |before|, Unresolvable) in Parse(doc, tree, lines).problems
  {
    hide Parse, Scope, IsMatch, LineSites, ProblemsOf, CitationsOf, AsksWritten, TokensOf, Answered, MeansSome, Means, Names, Writes;
    var parsed := ParseAnswers(doc, tree, lines);
    AllAnswered(tree, lines, Sites(lines), answers);
    AllAnswered(tree, lines, Sites(lines), parsed);
    AnswersAreOne(tree, lines, answers, parsed, |answers|);
    assert answers == parsed[..|answers|] == parsed;
    var site, before := Sites(lines)[k], TokensOf(answers[..k]);
    NameBefore(tree, site);
    var here, name := Scope(lines, before, site.at), site.text[s..site.m.colon];
    AnsweredThere(tree, lines, answers, k);
    NamesFrom(tree, site);
    SomeName(tree, site, s);
    MeansSomeIff(tree, here, name);
    if MeansSome(tree, here, name) {
      TokenListed(answers, k);
    } else {
      ProblemListed(Sites(lines), answers, k);
    }
  }
}
