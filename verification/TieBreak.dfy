/** The decision about a citation, read off the sides themselves: which refusals come first, which
    sides are asked, and when the line decides between two that wrote the same token
    (scripts/relocate-citations.py:521-792). */
module TieBreak {
  import opened Text
  import opened LineIndex
  import opened Citations
  import opened CitationParser
  import opened Relocate
  import opened Decide
  import opened Agreement

  // ----------------------------------------------------------------- who is asked

  lemma {:induction false} FilterNone<T>(f: T -> bool, s: seq<T>)
    requires forall x <- s :: !f(x)
    ensures Filter(f, s) == []
  {
    if s != [] {
      assert s == [s[0]] + s[1..];
      FilterNone(f, s[1..]);
    }
  }

  lemma FilterSplit<T>(f: T -> bool, s: seq<T>, i: nat)
    requires i < |s|
    ensures Filter(f, s) == Filter(f, s[..i]) + (if f(s[i]) then [s[i]] else []) + Filter(f, s[i + 1..])
  {
    hide Filter;
    Pieces(s, i);
    FilterThree(f, s[..i], s[i], s[i + 1..]);
  }

  lemma Pieces<T>(s: seq<T>, i: nat)
    requires i < |s|
    ensures s == s[..i] + ([s[i]] + s[i + 1..])
  {
  }

  lemma FilterThree<T>(f: T -> bool, a: seq<T>, x: T, c: seq<T>)
    ensures Filter(f, a + ([x] + c)) == Filter(f, a) + (if f(x) then [x] else []) + Filter(f, c)
  {
    hide Filter;
    FilterAppend(f, a, [x] + c);
    FilterAppend(f, [x], c);
    FilterOne(f, x);
    Associate(Filter(f, a), Filter(f, [x]), Filter(f, c));
  }

  lemma Associate<T>(a: seq<T>, b: seq<T>, c: seq<T>)
    ensures a + (b + c) == a + b + c
  {
  }

  /** Only one element of the sequence is picked when no other place holds one to pick. */
  lemma FilterOnly<T>(f: T -> bool, s: seq<T>, i: nat)
    requires i < |s| && f(s[i]) && forall j :: 0 <= j < |s| && j != i ==> !f(s[j])
    ensures Filter(f, s) == [s[i]]
  {
    hide Filter;
    FilterSplit(f, s, i);
    forall x <- s[..i] ensures !f(x) {
      var j :| 0 <= j < i && s[..i][j] == x;
      assert s[j] == x;
    }
    forall x <- s[i + 1..] ensures !f(x) {
      var j :| 0 <= j < |s| - i - 1 && s[i + 1..][j] == x;
      assert s[i + 1 + j] == x;
    }
    FilterNone(f, s[..i]);
    FilterNone(f, s[i + 1..]);
    assert [] + [s[i]] + [] == [s[i]];
  }

  function Both<T>(f: T -> bool, g: T -> bool): T -> bool {
    (x: T) => f(x) && g(x)
  }

  lemma {:induction false} FilterTwice<T>(f: T -> bool, g: T -> bool, s: seq<T>)
    ensures Filter(g, Filter(f, s)) == Filter(Both(f, g), s)
  {
    if s != [] {
      FilterTwice(f, g, s[1..]);
      if f(s[0]) {
        assert ([s[0]] + Filter(f, s[1..]))[1..] == Filter(f, s[1..]);
      } else {
        assert [] + Filter(f, s[1..]) == Filter(f, s[1..]);
      }
    }
  }

  lemma {:induction false} FilterTwo<T>(f: T -> bool, s: seq<T>, i: nat, j: nat)
    requires i < j < |s| && f(s[i]) && f(s[j])
    ensures |Filter(f, s)| >= 2
  {
    hide Filter;
    FilterSplit(f, s, i);
    assert s[i + 1..][j - i - 1] == s[j] && s[j] in s[i + 1..];
    assert s[j] in Filter(f, s[i + 1..]);
  }

  lemma FilterAtMostOne<T>(f: T -> bool, s: seq<T>)
    requires |Filter(f, s)| == 1
    ensures exists i :: 0 <= i < |s| && f(s[i]) && forall j :: 0 <= j < |s| && j != i ==> !f(s[j])
  {
    hide Filter;
    var x := Filter(f, s)[0];
    assert x in Filter(f, s);
    var i :| 0 <= i < |s| && s[i] == x;
    forall j | 0 <= j < |s| && j != i ensures !f(s[j]) {
      if f(s[j]) {
        FilterTwo(f, s, if i < j then i else j, if i < j then j else i);
      }
    }
  }

  /** Side `i` wrote the token and the line, another side wrote the token too, and none of the
      others that did wrote the line. */
  predicate BreaksTie(parents: seq<Parent>, line: string, cit: Citation, i: int) {
    && 0 <= i < |parents| && Claims(parents[i], cit) && WroteThisLine(parents[i], cit.doc, line)
    && (exists j :: 0 <= j < |parents| && j != i && Claims(parents[j], cit))
    && forall j :: 0 <= j < |parents| && j != i && Claims(parents[j], cit) ==> !WroteThisLine(parents[j], cit.doc, line)
  }

  lemma TieAsked(parents: seq<Parent>, line: string, cit: Citation, i: nat)
    requires BreaksTie(parents, line, cit, i)
    ensures Deciding(parents, line, cit) == [parents[i]]
  {
    hide Filter, Claims, WroteThisLine;
    var claims, wrote := ClaimsIt(cit), WroteIt(cit.doc, line);
    var j :| 0 <= j < |parents| && j != i && Claims(parents[j], cit);
    assert claims(parents[i]) && claims(parents[j]);
    FilterTwo(claims, parents, if i < j then i else j, if i < j then j else i);
    FilterTwice(claims, wrote, parents);
    FilterOnly(Both(claims, wrote), parents, i);
  }

  lemma AllAsked(parents: seq<Parent>, line: string, cit: Citation)
    requires forall i :: !BreaksTie(parents, line, cit, i)
    ensures Deciding(parents, line, cit) == Filter(ClaimsIt(cit), parents)
  {
    hide Filter, Claims, WroteThisLine;
    var claims, wrote := ClaimsIt(cit), WroteIt(cit.doc, line);
    FilterTwice(claims, wrote, parents);
    var both := Both(claims, wrote);
    if |Filter(claims, parents)| > 1 && |Filter(both, parents)| == 1 {
      FilterAtMostOne(both, parents);
      var i :| 0 <= i < |parents| && both(parents[i]) && forall j :: 0 <= j < |parents| && j != i ==> !both(parents[j]);
      assert !BreaksTie(parents, line, cit, i);
      FilterOnly(claims, parents, i);
    }
  }

  // -------------------------------------------------------------- what is decided

  /** A decision's status and new range are what one vote asks for. */
  predicate Follows(d: Decision, vote: Vote, cit: Citation) {
    match vote
    case Keep => d.status == Right && d.placed == Some((cit.start, cit.end))
    case Move(to) => d.status == Shifted && d.placed == Some(to)
    case Cannot => d.status == Missing && d.placed == None
  }

  lemma AgreedVerdict(owners: seq<Parent>, cur: SourceIndex, cit: Citation)
    requires 1 <= cit.start <= cit.end && cur.sep != "" && owners != []
    ensures forall vote: Vote :: Follows(Verdict(owners, cur, cit), vote, cit) <==> forall o <- owners :: VoteOf(o, cur, cit) == vote
    ensures var d := Verdict(owners, cur, cit);
            (forall vote: Vote :: !Follows(d, vote, cit)) ==> d.status == Ambiguous && d.placed == None
  {
    hide VoteOf;
    assert owners[0] in owners;
    assert Follows(Verdict(owners, cur, cit), VoteOf(owners[0], cur, cit), cit) || Verdict(owners, cur, cit).status == Ambiguous;
  }

  /** Two sides or more wrote the token, and one of them alone the line: that side decides, as it
      would alone, whatever the texts of the others are. */
  lemma LineDecides(parents: seq<Parent>, cur: SourceIndex, links: set<string>, line: string, cit: Citation, i: nat)
    requires 1 <= cit.start <= cit.end && cur.sep != "" && BreaksTie(parents, line, cit, i)
    requires !SymlinkRefused(parents, links, cit.target) && !IdentityRefused(parents, cit)
    ensures Follows(Decided(parents, cur, links, line, cit), VoteOf(parents[i], cur, cit), cit)
    ensures Decided(parents, cur, links, line, cit) == Decided([parents[i]], cur, links, line, cit)
  {
    hide Deciding, VoteOf, Verdict, Claims, WroteThisLine, ThroughLink, ForeignOn, IsBare, Filter, ContinuationRefused, AlreadyRight;
    TieAsked(parents, line, cit, i);
    AgreedVerdict([parents[i]], cur, cit);
    assert parents[i] in parents;
    AloneAsked(parents[i], line, cit);
  }

  lemma AloneAsked(p: Parent, line: string, cit: Citation)
    requires Claims(p, cit)
    ensures Deciding([p], line, cit) == [p]
  {
    hide Claims, WroteThisLine;
    assert [p][1..] == [];
    assert Filter(ClaimsIt(cit), [p]) == [p];
  }

  /** In every other case each side that wrote the token has a vote: a common vote is followed,
      and without one nothing is placed. */
  lemma EveryClaimVotes(parents: seq<Parent>, cur: SourceIndex, links: set<string>, line: string, cit: Citation)
    requires 1 <= cit.start <= cit.end && cur.sep != "" && (forall i :: !BreaksTie(parents, line, cit, i))
    requires exists p :: p in parents && Claims(p, cit)
    requires !SymlinkRefused(parents, links, cit.target) && !IdentityRefused(parents, cit)
    ensures var d := Decided(parents, cur, links, line, cit);
      && (forall vote: Vote :: Follows(d, vote, cit) <==> forall p <- parents :: Claims(p, cit) ==> VoteOf(p, cur, cit) == vote)
      && ((forall vote: Vote :: !Follows(d, vote, cit)) ==> d.status == Ambiguous && d.placed == None)
  {
    hide Deciding, VoteOf, Verdict, Claims, SymlinkRefused, IdentityRefused, Follows, BreaksTie;
    AllAsked(parents, line, cit);
    var owners := Filter(ClaimsIt(cit), parents);
    hide Filter;
    var p :| p in parents && Claims(p, cit);
    assert ClaimsIt(cit)(p) && p in owners;
    AgreedVerdict(owners, cur, cit);
    forall o ensures o in owners <==> o in parents && Claims(o, cit) {
      assert ClaimsIt(cit)(o) == Claims(o, cit);
    }
  }

  // ----------------------------------------------------------------------- refusals

  /** A path goes through a link when the link is the path or a directory above it. */
  lemma ThroughLinkIff(links: set<string>, path: string)
    ensures ThroughLink(links, path) <==> exists l :: l in links && (l == path || l + "/" <= path)
  {
    if k :| 0 <= k <= |path| && (k == |path| || path[k] == '/') && path[..k] in links {
      var l := path[..k];
      if k < |path| {
        assert path[..k + 1] == l + "/";
      }
      assert l in links;
    }
    if l :| l in links && (l == path || l + "/" <= path) {
      var k := |l|;
      assert path[..k] == l;
      assert k < |path| ==> path[k] == (l + "/")[k];
    }
  }

  /** The cited file is a link somewhere. */
  ghost predicate Linked(parents: seq<Parent>, links: set<string>, target: string) {
    || (exists l :: l in links && (l == target || l + "/" <= target))
    || exists p :: p in parents && target in p.symlinks
  }

  /** The token has a name without a path, or some side has it for another file, or some side
      writes its path and has no such file. */
  ghost predicate NotOneFile(parents: seq<Parent>, cit: Citation) {
    var path := PathOf(cit.raw);
    || (path != "" && '/' !in path)
    || (exists p, t :: p in parents && Has(p.tokens, ClaimOf(cit), t) && t != cit.target)
    || ('/' in path && exists p :: p in parents && cit.doc in p.written && path in p.written[cit.doc] && path !in p.tree.files)
  }

  /** Some side reads the bare range as the end of a longer token that names another file. */
  ghost predicate TokenCut(parents: seq<Parent>, cit: Citation) {
    exists p, head: string, target ::
      p in parents && head != "" && target != cit.target &&
      Has(p.tokens, Claim(cit.doc, head + cit.raw, cit.start, cit.end), target)
  }

  lemma IdentityIff(parents: seq<Parent>, cit: Citation)
    ensures IdentityRefused(parents, cit) <==> NotOneFile(parents, cit)
  {
    hide PathOf;
    forall p | p in parents
      ensures (Claims(p, cit) && exists t <- p.tokens[ClaimOf(cit)] :: t != cit.target) <==>
              exists t :: Has(p.tokens, ClaimOf(cit), t) && t != cit.target
    {
      if t :| Has(p.tokens, ClaimOf(cit), t) && t != cit.target {
        assert t in p.tokens[ClaimOf(cit)];
      }
      if Claims(p, cit) && exists t <- p.tokens[ClaimOf(cit)] :: t != cit.target {
        var t :| t in p.tokens[ClaimOf(cit)] && t != cit.target;
        assert Has(p.tokens, ClaimOf(cit), t);
      }
    }
  }

  lemma EndsWithIff(s: string, tail: string)
    ensures EndsWith(s, tail) && s != tail <==> exists head: string :: head != "" && s == head + tail
  {
    if EndsWith(s, tail) && s != tail {
      assert s == s[..|s| - |tail|] + tail;
    }
  }

  lemma CutIff(p: Parent, cit: Citation)
    ensures NamedOn(p, cit) <==>
            exists head: string, target :: head != "" && target != cit.target && Has(p.tokens, Claim(cit.doc, head + cit.raw, cit.start, cit.end), target)
  {
    hide EndsWith;
    if NamedOn(p, cit) {
      var key :| key in p.tokens && key.doc == cit.doc && key.start == cit.start && key.end == cit.end &&
                 key.raw != cit.raw && EndsWith(key.raw, cit.raw) && exists t <- p.tokens[key] :: t != cit.target;
      var target :| target in p.tokens[key] && target != cit.target;
      EndsWithIff(key.raw, cit.raw);
      var head: string :| head != "" && key.raw == head + cit.raw;
      assert Has(p.tokens, Claim(cit.doc, head + cit.raw, cit.start, cit.end), target);
    }
    if head: string, target :| head != "" && target != cit.target && Has(p.tokens, Claim(cit.doc, head + cit.raw, cit.start, cit.end), target) {
      EndsWithIff(head + cit.raw, cit.raw);
    }
  }

  /** The whole decision, refusals first: a linked file, a token that is not one file's, then the
      sides that wrote the token; without any, a token cut in two, a range right on some side as
      it is, and otherwise nobody's numbers. */
  lemma DecisionIff(parents: seq<Parent>, cur: SourceIndex, links: set<string>, line: string, cit: Citation)
    requires 1 <= cit.start <= cit.end && cur.sep != ""
    ensures var s, linked, foreign, owned := Decided(parents, cur, links, line, cit).status, Linked(parents, links, cit.target),
              NotOneFile(parents, cit), exists p :: p in parents && Claims(p, cit);
      var cut, stays := ":" <= cit.raw && TokenCut(parents, cit), exists p :: p in parents && AlreadyRight(p, cur, cit);
      && (s == Symlink <==> linked)
      && (s == Elsewhere <==> !linked && foreign)
      && (s == Shifted || s == Missing || s == Ambiguous ==> !linked && !foreign && owned)
      && (s == Continuation <==> !linked && !foreign && !owned && cut)
      && (s == Unclaimed <==> !linked && !foreign && !owned && !cut && !stays)
      && (s == Right && !owned <==> !linked && !foreign && !owned && !cut && stays)
  {
    hide Deciding, VoteOf, Claims, IdentityRefused, ThroughLink, AlreadyRight, NamedOn;
    ThroughLinkIff(links, cit.target);
    IdentityIff(parents, cit);
    DecidingOwn(parents, line, cit);
    forall p | p in parents ensures NamedOn(p, cit) <==>
            exists head: string, target :: head != "" && target != cit.target && Has(p.tokens, Claim(cit.doc, head + cit.raw, cit.start, cit.end), target) {
      CutIff(p, cit);
    }
    assert ":" <= cit.raw <==> cit.raw != "" && cit.raw[0] == ':';
  }
}
