/** Applying and checking the whole tree of source pages (scripts/gen-source-pages.py:770-909). */
module PageTree {
  import opened Text
  import opened LineBlocks
  import opened MarkerBlock
  import opened SourcePages

  datatype Source = Source(id: string, page: string, header: string)

  /** How a run of apply ends: an exit code, or an exception that nothing catches. */
  datatype Exit = Code(code: nat) | Raised(error: Error)

  // ------------------------------------------------- one page under one header

  lemma FreshIsFraming(header: string)
    ensures FreshPage(header) == Framing(BEGIN, header, END + ("\n\n" + Skeleton(HEADINGS) + "\n"))
  {
    hide Skeleton, HEADINGS;
    assert END + "\n\n" + Skeleton(HEADINGS) + "\n" == END + ("\n\n" + Skeleton(HEADINGS) + "\n");
  }

  lemma {:induction false} FramedLacks(lines: seq<string>, c: char)
    requires FreeOf(lines, c) && c != '\n'
    ensures Lacks(Framed(lines, "\n"), c)
  {
    if lines != [] {
      assert forall i, k :: 0 <= i < |lines[1..]| && 0 <= k < |lines[1..][i]| ==> lines[1..][i][k] == lines[i + 1][k];
      FramedLacks(lines[1..], c);
      assert forall k :: 0 <= k < |lines[0]| ==> lines[0][k] != c;
    }
  }

  lemma SkeletonLacksMarkers()
    ensures Lacks("\n\n" + Skeleton(HEADINGS) + "\n", '<')
  {
    HeadingsShape();
    hide HEADINGS, Skeleton, BodyLines, FreeOf;
    BodyLinesLack(HEADINGS, '<');
    FreshBody(HEADINGS);
    FramedLacks(BodyLines(HEADINGS), '<');
  }

  /** The page with an empty block: one ordered pair, the start marker first. */
  lemma EmptyPage(rest: string)
    requires Lacks(rest, '<')
    ensures var t := Framing(BEGIN, "", END + rest);
      && ExtractBetween(t, BEGIN, END).Block?
      && Find(t, BEGIN, 0) == 0 && Head(t, BEGIN) == BEGIN && Tail(t, END) == END + rest
  {
    hide Find, Count, OccursAt;
    var t, n := Framing(BEGIN, "", END + rest), |BEGIN| + 2;
    EmptyPlaces(rest);
    EmptyOnly(rest);
    FindIs(t, BEGIN, 0, 0);
    FindIs(t, END, 0, n);
    CountIsOne(t, BEGIN);
    CountIsOne(t, END);
  }

  lemma EmptyPlaces(rest: string)
    ensures var t, n := Framing(BEGIN, "", END + rest), |BEGIN| + 2;
      && t == BEGIN + "\n\n" + END + rest && OccursAt(t, BEGIN, 0) && OccursAt(t, END, n) && |t| == n + |END| + |rest|
  {
    var t, n := Framing(BEGIN, "", END + rest), |BEGIN| + 2;
    assert t == BEGIN + "\n\n" + END + rest;
    assert t[0..|BEGIN|] == BEGIN && t[n..n + |END|] == END;
  }

  lemma EmptyOnly(rest: string)
    requires Lacks(rest, '<')
    ensures var t, n := Framing(BEGIN, "", END + rest), |BEGIN| + 2;
      && (forall k: nat :: k != 0 ==> !OccursAt(t, BEGIN, k)) && (forall k: nat :: k != n ==> !OccursAt(t, END, k))
  {
    var t, n := Framing(BEGIN, "", END + rest), |BEGIN| + 2;
    EmptyPlaces(rest);
    assert forall k :: 0 < k < |t| && k != n ==> t[k] != '<';
    assert BEGIN[0] == '<' && BEGIN[5] == 'B' && END[0] == '<' && END[5] == 'E' && t[n + 5] == 'E' && t[5] == 'B';
    forall k: nat | k != 0 ensures !OccursAt(t, BEGIN, k) {
      OccursChars(t, BEGIN, k);
    }
    forall k: nat | k != n ensures !OccursAt(t, END, k) {
      OccursChars(t, END, k);
    }
  }

  /** A freshly created page passes the check exactly when its header holds no marker. */
  lemma FreshPagePassesIff(header: string)
    ensures PageFailures(FreshPage(header), header) == {} <==> !Contains(header, BEGIN) && !Contains(header, END)
  {
    hide BEGIN, END, HEADINGS, Skeleton, Find, Count, Framing, Opens, BodyFailures, Normalize, StripNewlines;
    var rest := "\n\n" + Skeleton(HEADINGS) + "\n";
    var empty, page := Framing(BEGIN, "", END + rest), FreshPage(header);
    SkeletonLacksMarkers();
    EmptyPage(rest);
    BeginShape();
    FreshIsFraming(header);
    StartCountedOnce(empty, BEGIN, END, header);
    EndCountedOnce(empty, BEGIN, END, header);
    MarkersAfter(empty, BEGIN, END, header);
    if !Contains(header, BEGIN) && !Contains(header, END) {
      FreshOpens(header);
      FreshBlock(header);
      SkeletonHasHeadings();
      UnstrippedNormalizes(header);
    }
  }

  lemma FreshOpens(header: string)
    requires Find(FreshPage(header), BEGIN, 0) == 0
    ensures Opens(FreshPage(header))
  {
    hide BEGIN, END, Skeleton, HEADINGS, Find, Opens;
    var rest := header + "\n" + END + "\n\n" + Skeleton(HEADINGS) + "\n";
    assert FreshPage(header) == "" + BEGIN + ("\n" + rest);
    OpensIff("", rest);
  }

  lemma FreshBlock(header: string)
    requires Find(FreshPage(header), BEGIN, 0) == 0 && Find(FreshPage(header), END, 0) == |BEGIN| + 2 + |header|
    ensures FreshPage(header)[|BEGIN|..|BEGIN| + 2 + |header|] == "\n" + header + "\n"
    ensures BodyOf(FreshPage(header)) == "\n\n" + Skeleton(HEADINGS) + "\n"
  {
    hide BEGIN, END, Skeleton, HEADINGS, Find;
    FreshIsFraming(header);
    var tail := END + ("\n\n" + Skeleton(HEADINGS) + "\n");
    FramingParts(BEGIN, header, tail);
    assert FreshPage(header)[|BEGIN| + 2 + |header|..][|END|..] == tail[|END|..];
    assert FreshPage(header) == BEGIN + ("\n" + header + "\n") + tail;
  }

  lemma UnstrippedNormalizes(header: string)
    ensures Normalize("\n" + header + "\n") == Normalize(header)
  {
    hide RStripAll, Split, Join;
    assert "\n" + header + "\n" == "\n" + (header + "\n");
    LStripOfPrefixed(header + "\n");
    LStripKeepsEnd(header);
    var l := LStripNewlines(header);
    assert (l + "\n")[..|l|] == l;
  }

  lemma {:induction false} LStripKeepsEnd(t: string)
    ensures StripNewlines(t + "\n") == StripNewlines(t)
  {
    if t == "" {
      assert t + "\n" == "\n" && "\n"[1..] == "";
    } else if t[0] == '\n' {
      assert (t + "\n")[1..] == t[1..] + "\n";
      LStripKeepsEnd(t[1..]);
    } else {
      assert LStripNewlines(t + "\n") == t + "\n" && (t + "\n")[..|t|] == t;
    }
  }

  // ---------------------------------------------- a page that already exists

  /** A replaced page keeps its hand-written body, and opens with the block exactly when only
      blanks stood before its start marker. */
  lemma ReplacedPage(text: string, header: string)
    requires Ordered(text, BEGIN, END) && !Contains(StripNewlines(header), END)
    ensures var r := ReplaceBetween(text, BEGIN, END, header);
      && r.Ok? && Contains(r.value, END) && BodyOf(r.value) == BodyOf(text)
      && (Opens(r.value) <==> Blank(text[..Find(text, BEGIN, 0)]))
  {
    hide BEGIN, END, Find, StripNewlines, Opens, Blank;
    var c, h, l := StripNewlines(header), Head(text, BEGIN), Tail(text, END);
    BeginShape();
    ReplacedIsFraming(text, BEGIN, END, header);
    MarkersAfter(text, BEGIN, END, c);
    var t := Framing(h, c, l);
    FramingParts(h, c, l);
    assert BodyOf(t) == t[|h| + 2 + |c|..][|END|..] == l[|END|..] == BodyOf(text);
    var pre := text[..Find(text, BEGIN, 0)];
    BeginAtFirst(text);
    assert t == pre + BEGIN + ("\n" + (c + "\n" + l));
    OpensIff(pre, c + "\n" + l);
  }

  lemma BeginAtFirst(text: string)
    requires Contains(text, BEGIN)
    ensures Head(text, BEGIN) == text[..Find(text, BEGIN, 0)] + BEGIN
  {
    hide BEGIN, Find;
    var at := Find(text, BEGIN, 0);
    assert text[..at + |BEGIN|] == text[..at] + text[at..at + |BEGIN|];
  }

  /** Applying to a page with one marker pair leaves exactly the failures a header cannot mend:
      text before the block, and what the hand-written body lacks. */
  lemma ReplacedPageFailures(text: string, header: string)
    requires ExtractBetween(text, BEGIN, END).Block?
    requires !Contains(StripNewlines(header), BEGIN) && !Contains(StripNewlines(header), END)
    ensures ReplaceBetween(text, BEGIN, END, header).Ok?
    ensures PageFailures(ReplaceBetween(text, BEGIN, END, header).value, header) ==
            (if Blank(text[..Find(text, BEGIN, 0)]) then {} else {NotFirst}) + BodyFailures(BodyOf(text))
  {
    hide BEGIN, END, Find, Count, StripNewlines, Opens, Blank, BodyFailures, Normalize, ReplaceBetween;
    BeginShape();
    assert Ordered(text, BEGIN, END);
    ReplacedPage(text, header);
    ReadsBackIff(text, BEGIN, END, header);
  }

  /** A page created by a run is left as it is by the next one exactly when its header has no
      outer newlines and no end marker. */
  lemma FreshRenderedAgainIff(header: string)
    ensures RenderPage(header, Some(FreshPage(header))) == Ok(FreshPage(header)) <==>
              StripNewlines(header) == header && !Contains(header, END)
  {
    hide BEGIN, END, HEADINGS, Skeleton, Find, Framing, StripNewlines, OccursAt;
    var rest := "\n\n" + Skeleton(HEADINGS) + "\n";
    var page, c := FreshPage(header), StripNewlines(header);
    SkeletonLacksMarkers();
    EmptyPage(rest);
    BeginShape();
    FreshIsFraming(header);
    MarkersAfter(Framing(BEGIN, "", END + rest), BEGIN, END, header);
    FramingParts(BEGIN, header, END + rest);
    assert Head(page, BEGIN) == BEGIN;
    ReplacedIsFraming(page, BEGIN, END, header);
    if !Contains(header, END) {
      FramingParts(BEGIN, c, END + rest);
      assert Tail(page, END) == END + rest;
    } else {
      FramingParts(BEGIN, c, Tail(page, END));
      EndMarkerMoves(header, END + rest);
    }
  }

  /** A header that holds the end marker is cut there by the next run. */
  lemma EndMarkerMoves(header: string, tail: string)
    requires Contains(header, END) && Contains(Framing(BEGIN, header, tail), END)
    requires |BEGIN| < Find(Framing(BEGIN, header, tail), END, 0) < |BEGIN| + 2 + |header|
    ensures Framing(BEGIN, StripNewlines(header), Tail(Framing(BEGIN, header, tail), END)) != Framing(BEGIN, header, tail)
  {
    BeginShape();
    hide BEGIN, END, StripNewlines, Find, Framing, OccursAt;
    var page, c := Framing(BEGIN, header, tail), StripNewlines(header);
    var at := Find(page, END, 0);
    FramingParts(BEGIN, header, tail);
    FramingParts(BEGIN, c, Tail(page, END));
    FirstInHeader(header, tail, at);
    var g := at - |BEGIN| - 1;
    var a, b := StripKeepsInside(header, END, g);
    if a > 0 {
      assert header[0] == '\n' && c[0] != '\n';
      assert page[|BEGIN| + 1..|BEGIN| + 1 + |header|][0] == '\n';
      assert Framing(BEGIN, c, Tail(page, END))[|BEGIN| + 1..|BEGIN| + 1 + |c|][0] != '\n';
    }
  }

  lemma FirstInHeader(header: string, tail: string, at: nat)
    requires at == Find(Framing(BEGIN, header, tail), END, 0) && |BEGIN| < at < |BEGIN| + 2 + |header|
    ensures at >= |BEGIN| + 1 && OccursAt(header, END, at - |BEGIN| - 1)
  {
    BeginShape();
    hide BEGIN, END, Find, OccursAt;
    OccursInOnePart(BEGIN, header, tail, END, at);
    BeginTooShort(at);
  }

  lemma BeginTooShort(at: nat)
    ensures at > |BEGIN| ==> !OccursAt(BEGIN, END, at)
  {
    hide BEGIN;
  }

  // -------------------------------------------------------------- the tree

  datatype Outcome = Write(text: string) | Stop(exit: Exit)

  function Existing(files: map<string, string>, page: string): Option<string> {
    if page in files then Some(files[page]) else None
  }

  /** What apply does with one source: an existing file that does not name the source is refused. */
  function Rendered(files: map<string, string>, s: Source): Outcome {
    if s.page in files && !Contains(files[s.page], s.id) then Stop(Code(2))
    else
      match RenderPage(s.header, Existing(files, s.page))
      case Ok(text) => Write(text)
      case Err(error) => Stop(Raised(error))
  }

  function Applied(files: map<string, string>, sources: seq<Source>): (map<string, string>, Option<Exit>)
    decreases |sources|
  {
    if sources == [] then (files, None)
    else
      match Rendered(files, sources[0])
      case Stop(exit) => (files, Some(exit))
      case Write(text) => Applied(files[sources[0].page := text], sources[1..])
  }

  datatype TreeFailure = IndexMissing | IndexStale | PageMissing(page: string) | Unowned(page: string) | OfPage(page: string, failure: Failure)

  predicate IsPageName(name: string) {
    |name| >= 3 && name[|name| - 3..] == ".md" && name != INDEX
  }

  /** What building the sources guarantees: one page a source, under a page's name. */
  predicate WellFormed(sources: seq<Source>) {
    && (forall i, j :: 0 <= i < j < |sources| ==> sources[i].page != sources[j].page)
    && (forall i :: 0 <= i < |sources| ==> IsPageName(sources[i].page))
  }

  function IndexFailures(files: map<string, string>, index: string): set<TreeFailure> {
    if INDEX !in files then {IndexMissing}
    else if Normalize(files[INDEX]) != Normalize(index) then {IndexStale}
    else {}
  }

  function SourceFailures(files: map<string, string>, s: Source): set<TreeFailure> {
    if s.page !in files then {PageMissing(s.page)}
    else set f | f in PageFailures(files[s.page], s.header) :: OfPage(s.page, f)
  }

  function SourcesFailures(files: map<string, string>, sources: seq<Source>): set<TreeFailure> {
    if sources == [] then {} else SourceFailures(files, sources[0]) + SourcesFailures(files, sources[1..])
  }

  function Pages(sources: seq<Source>): set<string> {
    set s | s in sources :: s.page
  }

  function UnownedPages(files: map<string, string>, sources: seq<Source>): set<TreeFailure> {
    set p | p in files && IsPageName(p) && p !in Pages(sources) :: Unowned(p)
  }

  function TreeFailures(files: map<string, string>, sources: seq<Source>, index: string): set<TreeFailure> {
    IndexFailures(files, index) + UnownedPages(files, sources) + SourcesFailures(files, sources)
  }

  class Tree {
    var files: map<string, string>

    constructor (files: map<string, string>)
      ensures this.files == files
    {
      this.files := files;
    }

    /** Pages are written one by one; a refusal or an exception leaves those written before it,
        and the index is written last. */
    method Apply(sources: seq<Source>, index: string) returns (exit: Exit)
      modifies this
      ensures var (after, stop) := Applied(old(files), sources);
        match stop
        case None => exit == Code(0) && files == after[INDEX := index]
        case Some(x) => exit == x && files == after
    {
      hide RenderPage, IndexFailures;
      assert sources[0..] == sources;
      for i := 0 to |sources|
        invariant Applied(files, sources[i..]) == Applied(old(files), sources)
      {
        var s := sources[i];
        assert sources[i..][0] == s && sources[i..][1..] == sources[i + 1..];
        if s.page in files && !Contains(files[s.page], s.id) {
          return Code(2);
        }
        var existing := Existing(files, s.page);
        match RenderPage(s.header, existing) {
          case Err(error) =>
            return Raised(error);
          case Ok(text) =>
            SameWrite(files, s.page, text);
            if existing != Some(text) {
              files := files[s.page := text];
            }
        }
      }
      assert sources[|sources|..] == [];
      files := files[INDEX := index];
      exit := Code(0);
    }

    /** The whole check: the index, the pages no source owns, and each source's page in turn.
        Nothing is reported exactly when the tree is sound. */
    method Check(sources: seq<Source>, index: string) returns (failures: set<TreeFailure>)
      requires WellFormed(sources)
      ensures failures == TreeFailures(files, sources, index)
      ensures failures == {} <==> SoundTree(files, sources, index)
    {
      hide PageFailures, Normalize, IsPageName, SoundTree;
      failures := {};
      if INDEX !in files {
        failures := {IndexMissing};
      } else if Normalize(files[INDEX]) != Normalize(index) {
        failures := {IndexStale};
      }
      failures := failures + UnownedPages(files, sources);
      assert sources[0..] == sources;
      for i := 0 to |sources|
        invariant failures + SourcesFailures(files, sources[i..]) == TreeFailures(files, sources, index)
      {
        var s := sources[i];
        assert sources[i..][0] == s && sources[i..][1..] == sources[i + 1..];
        if s.page !in files {
          failures := failures + {PageMissing(s.page)};
        } else {
          var found := CheckPage(files[s.page], s.header);
          failures := failures + set f | f in found :: OfPage(s.page, f);
        }
      }
      assert sources[|sources|..] == [];
      QuietTreeIff(files, sources, index);
    }
  }

  /** The index is the generated one, the Markdown pages on disk are exactly the sources' pages,
      and each of them is sound. */
  ghost predicate SoundTree(files: map<string, string>, sources: seq<Source>, index: string) {
    && INDEX in files && Normalize(files[INDEX]) == Normalize(index)
    && (forall p :: p in files && IsPageName(p) <==> p in Pages(sources))
    && (forall s <- sources :: s.page in files && SoundPage(files[s.page], s.header))
  }

  lemma QuietSourceIff(files: map<string, string>, s: Source)
    ensures SourceFailures(files, s) == {} <==> s.page in files && SoundPage(files[s.page], s.header)
  {
    hide PageFailures, SoundPage;
    if s.page in files {
      QuietPageIff(files[s.page], s.header);
      if f :| f in PageFailures(files[s.page], s.header) {
        assert OfPage(s.page, f) in SourceFailures(files, s);
      }
    }
  }

  lemma {:induction false} QuietSourcesIff(files: map<string, string>, sources: seq<Source>)
    ensures SourcesFailures(files, sources) == {} <==> forall s <- sources :: s.page in files && SoundPage(files[s.page], s.header)
  {
    hide SourceFailures, SoundPage;
    if sources != [] {
      QuietSourceIff(files, sources[0]);
      QuietSourcesIff(files, sources[1..]);
      assert sources == [sources[0]] + sources[1..];
    }
  }

  /** The check of the tree is quiet exactly when the tree is sound. */
  lemma QuietTreeIff(files: map<string, string>, sources: seq<Source>, index: string)
    requires WellFormed(sources)
    ensures TreeFailures(files, sources, index) == {} <==> SoundTree(files, sources, index)
  {
    hide SourcesFailures, SoundPage, Normalize, IsPageName;
    QuietSourcesIff(files, sources);
    forall p | p in Pages(sources) ensures IsPageName(p) {
      var s :| s in sources && s.page == p;
      var i :| 0 <= i < |sources| && sources[i] == s;
    }
    if p :| p in files && IsPageName(p) && p !in Pages(sources) {
      assert Unowned(p) in UnownedPages(files, sources);
    }
    forall s | s in sources ensures s.page in Pages(sources) {
    }
  }

  lemma SameWrite(files: map<string, string>, page: string, text: string)
    ensures Existing(files, page) == Some(text) ==> files[page := text] == files
  {
  }

  // ------------------------------------------------- what applying establishes

  /** The first `k` sources' pages are as rendered from the tree before; nothing else moved. */
  ghost predicate WrittenUpTo(files: map<string, string>, after: map<string, string>, sources: seq<Source>, k: nat)
    requires k <= |sources|
  {
    && (forall i :: 0 <= i < k ==> sources[i].page in after && Rendered(files, sources[i]) == Write(after[sources[i].page]))
    && (forall p :: (forall i :: 0 <= i < k ==> sources[i].page != p) ==> Existing(after, p) == Existing(files, p))
  }

  /** How far apply comes: every source before the one that stops it has its page, rendered from
      what was there before the run; the one that stops it, and all after it, are untouched. */
  lemma {:induction false} AppliedMeans(files: map<string, string>, sources: seq<Source>) returns (k: nat)
    requires WellFormed(sources)
    ensures k <= |sources| && WrittenUpTo(files, Applied(files, sources).0, sources, k)
    ensures match Applied(files, sources).1
            case None => k == |sources|
            case Some(exit) => k < |sources| && Rendered(files, sources[k]) == Stop(exit)
    decreases |sources|
  {
    hide RenderPage, Contains, IsPageName;
    k := 0;
    if sources != [] {
      var s := sources[0];
      if Rendered(files, s).Write? {
        var next := files[s.page := Rendered(files, s).text];
        var rest := AppliedMeans(next, sources[1..]);
        k := rest + 1;
        OneWritten(files, sources, rest);
        if rest < |sources[1..]| {
          assert sources[k] == sources[1..][rest];
          OtherPage(files, s, sources[k]);
        }
      }
    }
  }

  lemma OtherPage(files: map<string, string>, s: Source, other: Source)
    requires s.page != other.page && Rendered(files, s).Write?
    ensures Rendered(files[s.page := Rendered(files, s).text], other) == Rendered(files, other)
  {
  }

  lemma OneWritten(files: map<string, string>, sources: seq<Source>, rest: nat)
    requires WellFormed(sources) && sources != [] && rest < |sources|
    requires Rendered(files, sources[0]).Write?
    requires var next := files[sources[0].page := Rendered(files, sources[0]).text];
      WrittenUpTo(next, Applied(next, sources[1..]).0, sources[1..], rest)
    ensures WrittenUpTo(files, Applied(files, sources).0, sources, rest + 1)
  {
    hide Rendered, IsPageName;
    var s := sources[0];
    var next := files[s.page := Rendered(files, s).text];
    var after := Applied(next, sources[1..]).0;
    assert after == Applied(files, sources).0;
    hide Applied;
    assert Existing(after, s.page) == Existing(next, s.page) by {
      assert forall i :: 0 <= i < rest ==> sources[1..][i].page != s.page;
    }
    forall i | 0 <= i < rest + 1
      ensures sources[i].page in after && Rendered(files, sources[i]) == Write(after[sources[i].page])
    {
      if i > 0 {
        assert sources[1..][i - 1] == sources[i];
        OtherPage(files, s, sources[i]);
      }
    }
    forall p | forall i :: 0 <= i < rest + 1 ==> sources[i].page != p
      ensures Existing(after, p) == Existing(files, p)
    {
      assert forall i :: 0 <= i < rest ==> sources[1..][i].page == sources[i + 1].page;
      assert Existing(after, p) == Existing(next, p);
      assert sources[0].page != p;
    }
  }

  /** What the generated headers are: no outer newlines, no end marker, and the source's id in plain text. */
  predicate GoodHeader(s: Source) {
    StripNewlines(s.header) == s.header && !Contains(s.header, END) && Contains(s.header, s.id)
  }

  /** A header that names the source makes its page name it. */
  lemma HeaderNames(files: map<string, string>, s: Source)
    requires GoodHeader(s)
    ensures WillName(files, s)
  {
    hide BEGIN, END, HEADINGS, Skeleton, Find, StripNewlines;
  }

  lemma {:induction false} NothingToWrite(files: map<string, string>, sources: seq<Source>)
    requires forall s <- sources :: s.page in files && Rendered(files, s) == Write(files[s.page])
    ensures Applied(files, sources) == (files, None)
  {
    hide Rendered;
    if sources != [] {
      assert sources[0] in sources;
      assert files[sources[0].page := files[sources[0].page]] == files;
      NothingToWrite(files, sources[1..]);
    }
  }

  /** The page that apply writes for a source will name it: the id stands in what is kept of the
      page that is there, or in a new page's fixed text, or in the header. */
  predicate WillName(files: map<string, string>, s: Source) {
    if s.page in files then
      var text := files[s.page];
      || (Contains(text, BEGIN) && Contains(Head(text, BEGIN), s.id))
      || Contains(StripNewlines(s.header), s.id)
      || (Contains(text, END) && Contains(Tail(text, END), s.id))
    else
      || Contains(BEGIN, s.id) || Contains(s.header, s.id)
      || Contains(END + ("\n\n" + Skeleton(HEADINGS) + "\n"), s.id)
  }

  lemma WillNameIff(files: map<string, string>, s: Source, text: string)
    requires Rendered(files, s) == Write(text) && Lacks(s.id, '\n')
    ensures Contains(text, s.id) <==> WillName(files, s)
  {
    hide BEGIN, END, HEADINGS, Skeleton, Find, Framing, StripNewlines, ReplaceBetween, FreshPage;
    if s.page in files {
      var before := files[s.page];
      ReplacedIsFraming(before, BEGIN, END, s.header);
      FramingContainsIff(Head(before, BEGIN), StripNewlines(s.header), Tail(before, END), s.id);
    } else {
      FreshIsFraming(s.header);
      FramingContainsIff(BEGIN, s.header, END + ("\n\n" + Skeleton(HEADINGS) + "\n"), s.id);
    }
  }

  /** Applying again changes nothing exactly when each page will name its source and no header
      holds the end marker, and the headers of new pages have no outer newlines: all of it is
      known before the first run. */
  lemma ApplySettlesIff(files: map<string, string>, sources: seq<Source>, index: string)
    requires WellFormed(sources) && (forall s <- sources :: Lacks(s.id, '\n')) && Applied(files, sources).1 == None
    ensures var again := Applied(files, sources).0[INDEX := index];
      Applied(again, sources) == (again, None) <==>
        forall s <- sources ::
          && WillName(files, s) && !Contains(StripNewlines(s.header), END)
          && (s.page !in files ==> StripNewlines(s.header) == s.header)
  {
    hide WillName;
    hide Rendered, Applied, IsPageName, Contains, StripNewlines;
    var k := AppliedMeans(files, sources);
    var after := Applied(files, sources).0;
    var again := after[INDEX := index];
    IndexIsNoPage();
    forall s | s in sources
      ensures s.page in again && Rendered(files, s) == Write(again[s.page])
      ensures Rendered(again, s) == Write(again[s.page]) <==>
                && WillName(files, s) && !Contains(StripNewlines(s.header), END)
                && (s.page !in files ==> StripNewlines(s.header) == s.header)
    {
      var i :| 0 <= i < |sources| && sources[i] == s;
      assert IsPageName(s.page) && again[s.page] == after[s.page];
      WillNameIff(files, s, again[s.page]);
      RenderedAgainIff(files, s, again);
    }
    if forall s <- sources :: Rendered(again, s) == Write(again[s.page]) {
      NothingToWrite(again, sources);
    }
    if Applied(again, sources) == (again, None) {
      var n := AppliedMeans(again, sources);
      assert forall s <- sources :: exists i :: 0 <= i < |sources| && sources[i] == s;
    }
  }

  lemma RenderedAgainIff(files: map<string, string>, s: Source, again: map<string, string>)
    requires s.page in again && Rendered(files, s) == Write(again[s.page])
    ensures Rendered(again, s) == Write(again[s.page]) <==>
              && Contains(again[s.page], s.id) && !Contains(StripNewlines(s.header), END)
              && (s.page !in files ==> StripNewlines(s.header) == s.header)
  {
    hide BEGIN, END, HEADINGS, Skeleton, Find, Contains, StripNewlines, ReplaceBetween, FreshPage;
    BeginShape();
    if s.page in files {
      ReplacedIsFraming(files[s.page], BEGIN, END, s.header);
      ReplaceIsIdempotentIff(files[s.page], BEGIN, END, s.header);
    } else {
      FreshRenderedAgainIff(s.header);
    }
  }

  /** With the headers that are generated, applying twice is applying once. */
  lemma ApplyTwiceIsOnce(files: map<string, string>, sources: seq<Source>, index: string)
    requires WellFormed(sources) && forall s <- sources :: GoodHeader(s) && Lacks(s.id, '\n')
    requires Applied(files, sources).1 == None
    ensures var again := Applied(files, sources).0[INDEX := index];
      Applied(again, sources) == (again, None)
  {
    hide Rendered, Applied, Contains, StripNewlines, IsPageName;
    var k := AppliedMeans(files, sources);
    var again := Applied(files, sources).0[INDEX := index];
    IndexIsNoPage();
    forall s | s in sources ensures WillName(files, s) {
      var i :| 0 <= i < |sources| && sources[i] == s;
      assert IsPageName(s.page);
      HeaderNames(files, s);
    }
    ApplySettlesIff(files, sources, index);
  }

  lemma {:induction false} NoSourceFails(files: map<string, string>, sources: seq<Source>)
    requires forall s <- sources :: SourceFailures(files, s) == {}
    ensures SourcesFailures(files, sources) == {}
  {
    hide SourceFailures;
    if sources != [] {
      assert sources[0] in sources;
      NoSourceFails(files, sources[1..]);
    }
  }

  /** In a tree with no pages, apply creates them all and the check then passes. */
  lemma FreshTreePasses(files: map<string, string>, sources: seq<Source>, index: string)
    requires WellFormed(sources) && forall s <- sources :: !Contains(s.header, BEGIN) && !Contains(s.header, END)
    requires forall p <- files :: !IsPageName(p)
    ensures Applied(files, sources).1 == None
    ensures TreeFailures(Applied(files, sources).0[INDEX := index], sources, index) == {}
  {
    hide BEGIN, END, Contains, FreshPage, PageFailures, Applied, Normalize, IsPageName, SourcesFailures;
    var k := AppliedMeans(files, sources);
    var after := Applied(files, sources).0;
    var end := after[INDEX := index];
    forall i | 0 <= i < |sources| ensures Rendered(files, sources[i]) == Write(FreshPage(sources[i].header)) {
      assert IsPageName(sources[i].page);
    }
    assert k == |sources|;
    IndexIsNoPage();
    forall s | s in sources ensures SourceFailures(end, s) == {} {
      var i :| 0 <= i < |sources| && sources[i] == s;
      assert IsPageName(s.page);
      FreshPagePassesIff(s.header);
    }
    NoSourceFails(end, sources);
    forall p | p in end && IsPageName(p) ensures p in Pages(sources) {
      assert p in after && Existing(after, p) != Existing(files, p);
      var i :| 0 <= i < |sources| && sources[i].page == p;
      assert sources[i] in sources;
    }
  }

  lemma IndexIsNoPage()
    ensures !IsPageName(INDEX)
  {
  }
}
