/** What a decision guarantees: the sides that own a citation agree, the order they are given
    in does not matter, and a relocated citation pins the text it pinned before. */
module Agreement {
  import opened Text
  import opened LineBlocks
  import opened LineIndex
  import opened Citations
  import opened CitationParser
  import opened Relocate
  import opened Decide

  // ------------------------------------------------------ order independence

  lemma {:induction false} FilterAppend<T>(f: T -> bool, a: seq<T>, b: seq<T>)
    ensures Filter(f, a + b) == Filter(f, a) + Filter(f, b)
  {
    if a == [] {
      assert a + b == b;
    } else {
      assert (a + b)[1..] == a[1..] + b;
      FilterAppend(f, a[1..], b);
    }
  }

  lemma {:induction false} FilterPermuted<T>(f: T -> bool, a: seq<T>, b: seq<T>)
    requires multiset(a) == multiset(b)
    ensures multiset(Filter(f, a)) == multiset(Filter(f, b))
  {
    hide Filter;
    if a == [] {
      SameSize(a, b);
    } else {
      var i := PlaceOf(a[0], a, b);
      RestPermuted(a, b, i);
      FilterPermuted(f, a[..0] + a[1..], b[..i] + b[i + 1..]);
      FilterWithoutOne(f, a, 0);
      FilterWithoutOne(f, b, i);
    }
  }

  lemma RestPermuted<T>(a: seq<T>, b: seq<T>, i: nat)
    requires multiset(a) == multiset(b) && a != [] && i < |b| && b[i] == a[0]
    ensures multiset(a[..0] + a[1..]) == multiset(b[..i] + b[i + 1..]) && |a[..0] + a[1..]| < |a|
  {
    WithoutOne(a, 0);
    WithoutOne(b, i);
  }

  lemma SameSize<T>(a: seq<T>, b: seq<T>)
    requires multiset(a) == multiset(b)
    ensures |a| == |b|
  {
    assert |multiset(a)| == |a| && |multiset(b)| == |b|;
  }

  lemma PlaceOf<T>(x: T, a: seq<T>, b: seq<T>) returns (i: nat)
    requires multiset(a) == multiset(b) && x in a
    ensures i < |b| && b[i] == x
  {
    assert x in multiset(a) && x in multiset(b);
    i :| 0 <= i < |b| && b[i] == x;
  }

  lemma WithoutOne<T>(s: seq<T>, i: nat)
    requires i < |s|
    ensures multiset(s[..i] + s[i + 1..]) == multiset(s) - multiset{s[i]}
  {
    assert s == s[..i] + [s[i]] + s[i + 1..];
  }

  lemma FilterWithoutOne<T>(f: T -> bool, s: seq<T>, i: nat)
    requires i < |s|
    ensures multiset(Filter(f, s)) ==
            multiset(Filter(f, s[..i] + s[i + 1..])) + (if f(s[i]) then multiset{s[i]} else multiset{})
  {
    hide Filter;
    assert s == s[..i] + ([s[i]] + s[i + 1..]);
    FilterAppend(f, s[..i], [s[i]] + s[i + 1..]);
    FilterAppend(f, [s[i]], s[i + 1..]);
    FilterAppend(f, s[..i], s[i + 1..]);
    FilterOne(f, s[i]);
  }

  lemma FilterOne<T>(f: T -> bool, x: T)
    ensures Filter(f, [x]) == if f(x) then [x] else []
  {
    assert [x][1..] == [] && Filter(f, []) == [];
  }

  lemma PermutedMembers<T>(a: seq<T>, b: seq<T>)
    requires multiset(a) == multiset(b)
    ensures |a| == |b| && forall x :: x in a <==> x in b
  {
    assert |multiset(a)| == |a| && |multiset(b)| == |b|;
    forall x ensures x in a <==> x in b {
      assert x in multiset(a) <==> x in multiset(b);
    }
  }

  lemma DecidingPermuted(a: seq<Parent>, b: seq<Parent>, line: string, cit: Citation)
    requires multiset(a) == multiset(b)
    ensures multiset(Deciding(a, line, cit)) == multiset(Deciding(b, line, cit))
  {
    hide Filter, ClaimsIt, WroteIt;
    var claims, wrote := ClaimsIt(cit), WroteIt(cit.doc, line);
    FilterPermuted(claims, a, b);
    FilterPermuted(wrote, Filter(claims, a), Filter(claims, b));
    PermutedMembers(Filter(claims, a), Filter(claims, b));
    PermutedMembers(Filter(wrote, Filter(claims, a)), Filter(wrote, Filter(claims, b)));
  }

  lemma VerdictPermuted(a: seq<Parent>, b: seq<Parent>, cur: SourceIndex, cit: Citation)
    requires 1 <= cit.start <= cit.end && cur.sep != ""
    requires multiset(a) == multiset(b) && a != [] && b != []
    ensures Verdict(a, cur, cit).status == Verdict(b, cur, cit).status
    ensures Verdict(a, cur, cit).placed == Verdict(b, cur, cit).placed
  {
    hide VoteOf;
    PermutedMembers(a, b);
    assert a[0] in a && b[0] in b;
  }

  /** Naming the sides of the merge in another order changes neither the status nor the new
      range of any citation. */
  lemma OrderDoesNotMatter(a: seq<Parent>, b: seq<Parent>, cur: SourceIndex, links: set<string>, line: string, cit: Citation)
    requires 1 <= cit.start <= cit.end && cur.sep != "" && multiset(a) == multiset(b)
    ensures Decided(a, cur, links, line, cit).status == Decided(b, cur, links, line, cit).status
    ensures Decided(a, cur, links, line, cit).placed == Decided(b, cur, links, line, cit).placed
  {
    hide Verdict, Deciding, NamedOn, ForeignOn, ThroughLink, AlreadyRight, IsBare;
    PermutedMembers(a, b);
    DecidingPermuted(a, b, line, cit);
    PermutedMembers(Deciding(a, line, cit), Deciding(b, line, cit));
    if Deciding(a, line, cit) != [] {
      VerdictPermuted(Deciding(a, line, cit), Deciding(b, line, cit), cur, cit);
    }
  }

  // ------------------------------------------------------------- unanimity

  lemma DecidingOwn(parents: seq<Parent>, line: string, cit: Citation)
    ensures forall o <- Deciding(parents, line, cit) :: o in parents && Claims(o, cit)
    ensures Deciding(parents, line, cit) == [] <==> forall p <- parents :: !Claims(p, cit)
  {
    hide Claims, WroteThisLine, Filter;
    var owners := Filter(ClaimsIt(cit), parents);
    forall p | p in parents && Claims(p, cit) ensures p in owners {
      assert ClaimsIt(cit)(p);
    }
    assert owners != [] ==> owners[0] in owners && owners[0] in parents;
  }

  /** A move, or "right" for an owned citation, needs the vote of every deciding side: a side
      whose text is missing, ambiguous, blank or unreadable is a veto. */
  lemma UnanimousOrRefused(parents: seq<Parent>, cur: SourceIndex, links: set<string>, line: string, cit: Citation)
    requires 1 <= cit.start <= cit.end && cur.sep != ""
    ensures var d, owners := Decided(parents, cur, links, line, cit), Deciding(parents, line, cit);
            && (d.status == Shifted <==>
                 && !SymlinkRefused(parents, links, cit.target) && !IdentityRefused(parents, cit)
                 && owners != [] && d.placed.Some?
                 && forall o <- owners :: VoteOf(o, cur, cit) == Move(d.placed.value))
            && (d.status == Right && owners != [] ==> forall o <- owners :: VoteOf(o, cur, cit) == Keep)
            && ((exists o :: o in owners && VoteOf(o, cur, cit) == Cannot) ==> d.placed == None)
            && d.status != Blank && d.status != Unknown
            && (d.status == Right || d.status == Shifted <==> d.placed.Some?)
  {
    hide VoteOf, Deciding, SymlinkRefused, IdentityRefused, ContinuationRefused, AlreadyRight;
    var owners := Deciding(parents, line, cit);
    if owners != [] {
      assert owners[0] in owners;
    }
  }

  lemma AllMove(parents: seq<Parent>, cur: SourceIndex, links: set<string>, line: string, cit: Citation, there: Range)
    requires 1 <= cit.start <= cit.end && cur.sep != ""
    requires !SymlinkRefused(parents, links, cit.target) && !IdentityRefused(parents, cit) && Deciding(parents, line, cit) != []
    requires forall o <- Deciding(parents, line, cit) :: VoteOf(o, cur, cit) == Move(there)
    ensures Decided(parents, cur, links, line, cit).status == Shifted
    ensures Decided(parents, cur, links, line, cit).placed == Some(there)
  {
    hide VoteOf, Deciding, SymlinkRefused, IdentityRefused;
    var owners := Deciding(parents, line, cit);
    assert owners[0] in owners;
  }

  /** A citation that no side's document writes is never moved. */
  lemma UnclaimedNeverMoves(parents: seq<Parent>, cur: SourceIndex, links: set<string>, line: string, cit: Citation)
    requires 1 <= cit.start <= cit.end && cur.sep != ""
    requires forall p <- parents :: !Claims(p, cit)
    ensures Decided(parents, cur, links, line, cit).status != Shifted
  {
    hide Claims, Deciding, SymlinkRefused, IdentityRefused, ContinuationRefused, AlreadyRight, VoteOf;
    DecidingOwn(parents, line, cit);
  }

  // ------------------------------------------------------------ soundness

  /** The owner's text for the citation is the lines at `place` of the working file. */
  ghost predicate SameText(o: Parent, cur: SourceIndex, cit: Citation, place: Range) {
    && cit.target in o.sources
    && 1 <= cit.start <= cit.end <= |o.sources[cit.target].norm|
    && 1 <= place.0 <= place.1 <= |cur.norm| && place.1 - place.0 == cit.end - cit.start
    && Cited(cur.norm, place.0, place.1) == Cited(o.sources[cit.target].norm, cit.start, cit.end)
  }

  /** The two indexes can be compared: no line of either has a NUL at an end, and they share
      one separator. */
  ghost predicate Comparable(was: SourceIndex, cur: SourceIndex) {
    Plain(was) && Plain(cur) && was.sep == cur.sep
  }

  lemma VoteMeans(o: Parent, cur: SourceIndex, cit: Citation)
    requires 1 <= cit.start <= cit.end
    requires Plain(cur) && (cit.target in o.sources ==> Comparable(o.sources[cit.target], cur))
    ensures cur.sep != ""
    ensures VoteOf(o, cur, cit) == Keep ==> SameText(o, cur, cit, (cit.start, cit.end))
    ensures VoteOf(o, cur, cit).Move? ==>
              var to := VoteOf(o, cur, cit).to;
              && SameText(o, cur, cit, to)
              && OnlyAt(cur.norm, Cited(o.sources[cit.target].norm, cit.start, cit.end), to.0 - 1)
              && !AllBlank(Cited(o.sources[cit.target].norm, cit.start, cit.end))
  {
    assert cur.sep != "";
    hide Locate, Plain, OnlyAt, AllBlank;
    if cit.target in o.sources {
      var was := o.sources[cit.target];
      match Locate(was, cur, cit.start, cit.end).status
      case Right => RightMeans(was, cur, cit.start, cit.end);
      case Shifted => ShiftedMeans(was, cur, cit.start, cit.end);
      case _ =>
    }
  }

  /** End to end: a relocated citation names one file on every deciding side, each of them
      wrote this very token, its old text on that side is the text of the new range, of the
      same length, and that text occurs nowhere else in the working file. */
  lemma RelocationSound(parents: seq<Parent>, cur: SourceIndex, links: set<string>, line: string, cit: Citation)
    requires 1 <= cit.start <= cit.end && Plain(cur) && cur.sep != ""
    requires forall p <- parents :: NoEmptyClaim(p.tokens) &&
               (cit.target in p.sources ==> Comparable(p.sources[cit.target], cur))
    requires Decided(parents, cur, links, line, cit).status == Shifted
    ensures var d, owners := Decided(parents, cur, links, line, cit), Deciding(parents, line, cit);
            && owners != [] && d.placed.Some? && !IsBare(cit.raw) && !ThroughLink(links, cit.target)
            && forall o <- owners ::
                 && o in parents && Claims(o, cit) && o.tokens[ClaimOf(cit)] == {cit.target}
                 && cit.target !in o.symlinks
                 && SameText(o, cur, cit, d.placed.value)
                 && OnlyAt(cur.norm, Cited(o.sources[cit.target].norm, cit.start, cit.end), d.placed.value.0 - 1)
  {
    UnanimousOrRefused(parents, cur, links, line, cit);
    DecidingOwn(parents, line, cit);
    var d, owners := Decided(parents, cur, links, line, cit), Deciding(parents, line, cit);
    hide Decided, Deciding, VoteOf, SameText, OnlyAt, Plain;
    forall o <- owners
      ensures o.tokens[ClaimOf(cit)] == {cit.target} && cit.target !in o.symlinks
      ensures SameText(o, cur, cit, d.placed.value)
      ensures OnlyAt(cur.norm, Cited(o.sources[cit.target].norm, cit.start, cit.end), d.placed.value.0 - 1)
    {
      OneTarget(parents, o, cit);
      VoteMeans(o, cur, cit);
    }
  }

  lemma OneTarget(parents: seq<Parent>, o: Parent, cit: Citation)
    requires o in parents && Claims(o, cit) && NoEmptyClaim(o.tokens) && !IdentityRefused(parents, cit)
    ensures o.tokens[ClaimOf(cit)] == {cit.target}
  {
    assert !ForeignOn(o, cit);
    var targets := o.tokens[ClaimOf(cit)];
    assert forall t <- targets :: t == cit.target;
    assert targets != {};
    var t :| t in targets;
  }

  /** The side that owns a relocated citation has it, with that file, in one of the documents
      its commit carries. */
  lemma OwnerWroteIt(o: Parent, docs: seq<Document>, cit: Citation)
    requires Records(o.tokens, o.tree, docs) && Claims(o, cit) && o.tokens[ClaimOf(cit)] == {cit.target}
    ensures exists d :: d in docs && Cites(d, o.tree, ClaimOf(cit), cit.target)
  {
    hide Cites;
    assert Has(o.tokens, ClaimOf(cit), cit.target);
  }

  /** The side's text for the citation stands at `there` in the working file and nowhere else,
      and the citation says another line. */
  ghost predicate Displaced(o: Parent, cur: SourceIndex, cit: Citation, there: Range) {
    && cit.target in o.sources && 1 <= cit.start <= cit.end
    && GoneTo(o.sources[cit.target].norm, cur.norm, cit.start, cit.end, there)
  }

  /** A side votes to move a citation exactly when its text has gone to one other place. */
  lemma MoveIff(o: Parent, cur: SourceIndex, cit: Citation, there: Range)
    requires 1 <= cit.start <= cit.end
    requires Plain(cur) && (cit.target in o.sources ==> Comparable(o.sources[cit.target], cur))
    ensures cur.sep != ""
    ensures VoteOf(o, cur, cit) == Move(there) <==> Displaced(o, cur, cit, there)
  {
    assert cur.sep != "";
    hide Locate, Plain, GoneTo;
    if cit.target in o.sources {
      ShiftedIff(o.sources[cit.target], cur, cit.start, cit.end, there);
      PlacedOnlyWhen(o.sources[cit.target], cur, cit.start, cit.end);
    }
  }

  /** A relocated citation says another line than before. */
  lemma ShiftedMovesAway(parents: seq<Parent>, cur: SourceIndex, links: set<string>, line: string, cit: Citation)
    requires 1 <= cit.start <= cit.end && Plain(cur) && cur.sep != ""
    requires forall p <- parents :: cit.target in p.sources ==> Comparable(p.sources[cit.target], cur)
    requires Decided(parents, cur, links, line, cit).status == Shifted
    ensures var d := Decided(parents, cur, links, line, cit); d.placed.Some? && d.placed.value.0 != cit.start
  {
    UnanimousOrRefused(parents, cur, links, line, cit);
    DecidingOwn(parents, line, cit);
    hide Decided, Deciding, VoteOf, Plain, AllBlank, OnlyAt, Cited;
    var o := Deciding(parents, line, cit)[0];
    MoveIff(o, cur, cit, Decided(parents, cur, links, line, cit).placed.value);
  }

  lemma VoteIsLocate(o: Parent, cur: SourceIndex, cit: Citation, to: Range)
    requires 1 <= cit.start <= cit.end && cur.sep != "" && VoteOf(o, cur, cit) == Move(to)
    ensures cit.target in o.sources
    ensures Locate(o.sources[cit.target], cur, cit.start, cit.end).placed == Some(to)
  {
    hide Locate;
    if cit.target in o.sources {
      PlacedOnlyWhen(o.sources[cit.target], cur, cit.start, cit.end);
    }
  }

  /** The lockfile's digest of a relocated citation is the digest it had on each deciding side. */
  lemma RelocationKeepsDigest<T>(hash: string -> T, parents: seq<Parent>, files: map<string, seq<string>>,
                                 curLines: seq<string>, links: set<string>, line: string, cit: Citation, o: Parent)
    requires 1 <= cit.start <= cit.end
    requires o in Deciding(parents, line, cit)
    requires cit.target in o.sources ==>
               cit.target in files && OneSeparator(files[cit.target], curLines) &&
               o.sources[cit.target] == IndexOf(Normalised(files[cit.target]))
    requires Decided(parents, IndexOf(Normalised(curLines)), links, line, cit).status == Shifted
    ensures var placed := Decided(parents, IndexOf(Normalised(curLines)), links, line, cit).placed;
            && placed.Some? && 1 <= placed.value.0 <= placed.value.1 && cit.target in files
            && Digest(hash, files[cit.target], cit.start, cit.end).Some?
            && Digest(hash, curLines, placed.value.0, placed.value.1) ==
               Digest(hash, files[cit.target], cit.start, cit.end)
  {
    var cur := IndexOf(Normalised(curLines));
    UnanimousOrRefused(parents, cur, links, line, cit);
    hide Decided, Deciding, Locate, IndexOf, Digest, OneSeparator, SymlinkRefused, IdentityRefused, VoteOf;
    VoteIsLocate(o, cur, cit, Decided(parents, cur, links, line, cit).placed.value);
    PlacementKeepsDigest(hash, files[cit.target], curLines, cit.start, cit.end,
                         Decided(parents, cur, links, line, cit).placed.value);
  }
}
