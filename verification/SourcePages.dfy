/** The source pages: a generated header between markers and a hand-written body under fixed
    headings, how they are applied and how they are checked
    (scripts/gen-source-pages.py:111-138, 641-655, 770-909). */
module SourcePages {
  import opened Text
  import opened LineBreaks
  import opened LineBlocks
  import opened MarkerBlock

  const BEGIN := "<!-- BEGIN GENERATED -->"
  const END := "<!-- END GENERATED -->"
  const NOT_WRITTEN := "Not written yet."
  const INDEX := "README.md"
  const HEADINGS := [
    "What it is", "What we collect", "Coverage and completeness", "Quirks", "Known issues",
    "How to check it yourself", "Changelog"
  ]

  // ------------------------------------------------------------- a fresh page

  function Section(name: string): seq<string> {
    ["## " + name, "", NOT_WRITTEN, ""]
  }

  function Sections(names: seq<string>): (parts: seq<string>)
    ensures |parts| == 4 * |names|
  {
    if names == [] then [] else Section(names[0]) + Sections(names[1..])
  }

  function Skeleton(names: seq<string>): string {
    RStripNewlines(Join(Sections(names), "\n"))
  }

  lemma {:induction false} SectionsAppend(names: seq<string>, name: string)
    ensures Sections(names + [name]) == Sections(names) + Section(name)
  {
    if names == [] {
      assert names + [name] == [name] && [name][1..] == [];
    } else {
      assert (names + [name])[1..] == names[1..] + [name];
      SectionsAppend(names[1..], name);
    }
  }

  method SkeletonBody() returns (body: string)
    ensures body == Skeleton(HEADINGS)
  {
    hide Section, RStripNewlines, Join;
    var parts: seq<string> := [];
    for i := 0 to |HEADINGS|
      invariant parts == Sections(HEADINGS[..i])
    {
      var name := HEADINGS[i];
      SectionsAppend(HEADINGS[..i], name);
      assert HEADINGS[..i + 1] == HEADINGS[..i] + [name];
      parts := parts + Section(name);
    }
    assert HEADINGS[..|HEADINGS|] == HEADINGS;
    body := RStripNewlines(Join(parts, "\n"));
  }

  function FreshPage(header: string): string {
    BEGIN + "\n" + header + "\n" + END + "\n\n" + Skeleton(HEADINGS) + "\n"
  }

  function RenderPage(header: string, existing: Option<string>): Result<string> {
    match existing
    case None => Ok(FreshPage(header))
    case Some(text) => ReplaceBetween(text, BEGIN, END, header)
  }

  // --------------------------------------------------------- checking one page

  datatype Failure = NotFirst | BadPair(problem: Problem) | NoPair | Stale | HeadingMissing(name: string) | OutOfOrder

  /** The first of the lines that is as asked, or "". */
  function FirstThat(lines: seq<string>, wanted: string -> bool): string {
    if lines == [] then ""
    else if wanted(lines[0]) then lines[0]
    else FirstThat(lines[1..], wanted)
  }

  function HasText(): string -> bool {
    line => Strip(line) != ""
  }

  /** The first line that is not blank. */
  function FirstText(lines: seq<string>): string {
    FirstThat(lines, HasText())
  }

  /** The generated block opens the page. */
  predicate Opens(text: string) {
    Strip(FirstText(SplitLines(text))) == BEGIN
  }

  /** Where a heading's line stands in the body, or -1. */
  function HeadingAt(body: string, name: string): int {
    var at := Find(body, "\n## " + name + "\n", 0);
    if at == -1 && OccursAt(body, "## " + name + "\n", 0) then 0 else at
  }

  function Known(body: string, names: seq<string>): seq<int> {
    if names == [] then []
    else
      var at := HeadingAt(body, names[0]);
      (if at == -1 then [] else [at]) + Known(body, names[1..])
  }

  predicate Sorted(s: seq<int>) {
    forall i, j :: 0 <= i < j < |s| ==> s[i] <= s[j]
  }

  function MissingHeadings(body: string, names: seq<string>): set<Failure> {
    set name | name in names && HeadingAt(body, name) == -1 :: HeadingMissing(name)
  }

  function BodyFailures(body: string): set<Failure> {
    MissingHeadings(body, HEADINGS) + (if Sorted(Known(body, HEADINGS)) then {} else {OutOfOrder})
  }

  /** The hand-written part: what follows the first end marker. */
  function BodyOf(text: string): string
    requires Contains(text, END)
  {
    text[Find(text, END, 0) + |END|..]
  }

  function PageFailures(text: string, header: string): set<Failure> {
    (if Opens(text) then {} else {NotFirst}) +
    match ExtractBetween(text, BEGIN, END)
    case Refused(problem) => {BadPair(problem)}
    case NoMarkers => {NoPair}
    case Block(content) =>
      (if Normalize(content) == Normalize(header) then {} else {Stale}) + BodyFailures(BodyOf(text))
  }

  /** The check of one page, with its early ends: no readable block, nothing more to say. */
  method CheckPage(text: string, header: string) returns (failures: set<Failure>)
    ensures failures == PageFailures(text, header)
  {
    hide Opens, BodyFailures, Normalize, Count, BEGIN, END, OccursAt;
    failures := {};
    if !Opens(text) {
      failures := {NotFirst};
    }
    MarkersThere();
    var content;
    match ExtractBetween(text, BEGIN, END) {
      case Refused(problem) =>
        failures := failures + {BadPair(problem)};
        return;
      case NoMarkers =>
        failures := failures + {NoPair};
        return;
      case Block(c) =>
        content := c;
    }
    if Normalize(content) != Normalize(header) {
      failures := failures + {Stale};
    }
    var offset := Find(text, END, 0);
    if offset == -1 {
      return;
    }
    OccursBounds(text, END, offset);
    var more := CheckBody(text[offset + |END|..]);
    failures := failures + more;
  }

  lemma MarkersThere()
    ensures BEGIN != "" && END != ""
  {
  }

  lemma {:induction false} KnownAppend(body: string, names: seq<string>, name: string)
    ensures Known(body, names + [name]) ==
            Known(body, names) + (if HeadingAt(body, name) == -1 then [] else [HeadingAt(body, name)])
  {
    hide HeadingAt;
    if names == [] {
      assert names + [name] == [name] && [name][1..] == [];
    } else {
      assert (names + [name])[1..] == names[1..] + [name] && (names + [name])[0] == names[0];
      KnownAppend(body, names[1..], name);
      assert Known(body, names + [name]) ==
             (if HeadingAt(body, names[0]) == -1 then [] else [HeadingAt(body, names[0])]) + Known(body, names[1..] + [name]);
    }
  }

  /** The check of the headings: the loop over the fixed headings and the sortedness of those found. */
  method CheckBody(body: string) returns (failures: set<Failure>)
    ensures failures == BodyFailures(body)
  {
    hide HeadingAt, Sorted;
    failures := {};
    var known: seq<int> := [];
    for i := 0 to |HEADINGS|
      invariant known == Known(body, HEADINGS[..i]) && failures == MissingHeadings(body, HEADINGS[..i])
    {
      var name := HEADINGS[i];
      var at := HeadingAt(body, name);
      KnownAppend(body, HEADINGS[..i], name);
      MissingAppend(body, HEADINGS[..i], name);
      assert HEADINGS[..i + 1] == HEADINGS[..i] + [name];
      if at == -1 {
        failures := failures + {HeadingMissing(name)};
      } else {
        known := known + [at];
      }
    }
    assert HEADINGS[..|HEADINGS|] == HEADINGS;
    if !Sorted(known) {
      failures := failures + {OutOfOrder};
    }
  }

  // ------------------------------------------------------- what a sound page is

  /** Every fixed heading has its line in the body, and they stand in their order. */
  ghost predicate HeadingsStand(body: string) {
    && (forall name <- HEADINGS :: HeadingAt(body, name) != -1)
    && (forall i, j :: 0 <= i < j < |HEADINGS| ==> HeadingAt(body, HEADINGS[i]) <= HeadingAt(body, HEADINGS[j]))
  }

  /** The page opens with its one pair of markers, the header between them is the one that would
      be generated, and the hand-written body has its headings. */
  ghost predicate SoundPage(text: string, header: string) {
    Opens(text) && exists a: nat, b: nat :: SoundBetween(text, header, a, b)
  }

  ghost predicate SoundBetween(text: string, header: string, a: nat, b: nat) {
    && StandsOnce(text, BEGIN, a) && StandsOnce(text, END, b) && a + |BEGIN| <= b && b + |END| <= |text|
    && Normalize(text[a + |BEGIN|..b]) == Normalize(header)
    && HeadingsStand(text[b + |END|..])
  }

  lemma BodyStandsIff(body: string)
    ensures BodyFailures(body) == {} <==> HeadingsStand(body)
  {
    hide HeadingAt, HEADINGS;
    if forall name <- HEADINGS :: HeadingAt(body, name) != -1 {
      AllKnown(body, HEADINGS);
      assert forall i :: 0 <= i < |HEADINGS| ==> HEADINGS[i] in HEADINGS;
    } else {
      var name :| name in HEADINGS && HeadingAt(body, name) == -1;
      assert HeadingMissing(name) in BodyFailures(body);
    }
  }

  lemma MarkerShapes()
    ensures NoOverlap(BEGIN) && NoOverlap(END)
  {
  }

  /** The check of a page is quiet exactly when the page is sound. */
  lemma QuietPageIff(text: string, header: string)
    ensures PageFailures(text, header) == {} <==> SoundPage(text, header)
  {
    hide BEGIN, END, Opens, Normalize, BodyFailures, HeadingsStand, Count, OccursAt, StandsOnce;
    MarkerShapes();
    MarkersThere();
    if PageFailures(text, header) == {} {
      var content := ExtractBetween(text, BEGIN, END).content;
      ExtractedIff(text, BEGIN, END, content);
      var a: nat, b: nat :| StandsOnce(text, BEGIN, a) && StandsOnce(text, END, b) && a + |BEGIN| <= b <= |text| &&
                            content == text[a + |BEGIN|..b];
      CountedOnceIff(text, END);
      BodyStandsIff(BodyOf(text));
      assert SoundBetween(text, header, a, b);
    }
    if SoundPage(text, header) {
      var a: nat, b: nat :| SoundBetween(text, header, a, b);
      ExtractedIff(text, BEGIN, END, text[a + |BEGIN|..b]);
      CountedOnceIff(text, END);
      BodyStandsIff(BodyOf(text));
    }
  }

  lemma MissingAppend(body: string, names: seq<string>, name: string)
    ensures MissingHeadings(body, names + [name]) ==
            MissingHeadings(body, names) + (if HeadingAt(body, name) == -1 then {HeadingMissing(name)} else {})
  {
    hide HeadingAt;
    forall x ensures x in names + [name] <==> x in names || x == name {
    }
  }

  // ------------------------------------------------------ which line opens a page

  lemma {:induction false} LStripSkips(a: string, b: string)
    requires forall k :: 0 <= k < |a| ==> IsSpace(a[k])
    ensures LStrip(a + b) == LStrip(b)
  {
    hide IsSpace;
    if a == "" {
      assert a + b == b;
    } else {
      assert (a + b)[1..] == a[1..] + b;
      LStripSkips(a[1..], b);
    }
  }

  lemma {:induction false} LStripStops(a: string, b: string)
    requires exists k :: 0 <= k < |a| && !IsSpace(a[k])
    ensures LStrip(a + b) == LStrip(a) + b && LStrip(a) != ""
  {
    hide IsSpace;
    if IsSpace(a[0]) {
      assert (a + b)[1..] == a[1..] + b;
      var k :| 0 <= k < |a| && !IsSpace(a[k]);
      assert a[1..][k - 1] == a[k];
      LStripStops(a[1..], b);
    }
  }

  /** The first line with text, seen from the text itself. */
  function FirstTextOf(t: string): string {
    var l := LStrip(t);
    RStrip(l[..LineLength(l)])
  }

  lemma {:induction false} FirstDropsLast(lines: seq<string>, wanted: string -> bool)
    ensures FirstThat(lines + [""], wanted) == FirstThat(lines, wanted)
  {
    if lines == [] {
      assert [""][1..] == [];
    } else {
      assert (lines + [""])[1..] == lines[1..] + [""];
      FirstDropsLast(lines[1..], wanted);
    }
  }

  lemma {:induction false} FirstTextIs(t: string)
    ensures Strip(FirstText(Contents(SplitParts(t)))) == FirstTextOf(t)
    decreases |t|
  {
    hide IsSpace, IsBreak, Strip, LineLength, TerminatorLength, Contents, FirstText, FirstTextOf, SplitParts, BreakFree;
    var n := LineLength(t);
    BlankHasNoText();
    if n == |t| {
      LastPart(t);
      assert t[..n] == t && t + ("" + "") == t;
      LineDecides(t, "", "");
    } else {
      TerminatorIsSpace(t[n..]);
      var m := TerminatorLength(t[n..]);
      var terminator, rest := t[n..n + m], t[n + m..];
      FirstPart(t, n, m);
      FirstTextIs(rest);
      LineDecides(t[..n], terminator, rest);
      assert t == t[..n] + (terminator + rest);
    }
  }

  lemma LastPart(t: string)
    requires LineLength(t) == |t|
    ensures FirstText(Contents(SplitParts(t))) == if Strip(t) != "" then t else ""
  {
    assert Contents(SplitParts(t)) == [t];
    FirstOf(t, HasText());
  }

  lemma FirstPart(t: string, n: nat, m: nat)
    requires n == LineLength(t) < |t| && m == TerminatorLength(t[n..]) && 0 < m && n + m <= |t|
    ensures FirstText(Contents(SplitParts(t))) ==
            if Strip(t[..n]) != "" then t[..n] else FirstText(Contents(SplitParts(t[n + m..])))
  {
    hide Strip, Contents, LineLength, TerminatorLength, SplitParts;
    SplitUnfolds(t, n, m);
    ContentsOfTwo(t[..n], t[n..n + m], SplitParts(t[n + m..]));
    assert ([t[..n]] + Contents(SplitParts(t[n + m..])))[1..] == Contents(SplitParts(t[n + m..]));
  }

  lemma SplitUnfolds(t: string, n: nat, m: nat)
    requires n == LineLength(t) < |t| && m == TerminatorLength(t[n..]) && 0 < m && n + m <= |t|
    ensures SplitParts(t) == [t[..n], t[n..n + m]] + SplitParts(t[n + m..])
  {
    hide LineLength, TerminatorLength;
  }

  /** A line that is not blank is the first text; a blank one leaves it to the rest. */
  lemma LineDecides(line: string, terminator: string, rest: string)
    requires BreakFree(line) && Blank(terminator)
    requires if terminator == "" then rest == "" else IsBreak(terminator[0])
    ensures FirstTextOf(line + (terminator + rest)) == if Strip(line) == "" then FirstTextOf(rest) else Strip(line)
  {
    hide IsSpace, IsBreak, Strip, RStrip, LStrip, LineLength, FirstTextOf, BreakFree;
    StripIs(line);
    if Strip(line) == "" {
      LStripSkips(line, terminator + rest);
      LStripSkips(terminator, rest);
      SameFirstText(line + (terminator + rest), rest);
    } else {
      assert !Blank(line);
      hide Blank;
      NotBlank(line);
      LStripStops(line, terminator + rest);
      NonblankLine(line, terminator + rest);
    }
  }

  lemma NotBlank(t: string)
    requires !Blank(t)
    ensures exists k :: 0 <= k < |t| && !IsSpace(t[k])
  {
  }

  predicate Blank(t: string) {
    forall k :: 0 <= k < |t| ==> IsSpace(t[k])
  }

  lemma StripIs(line: string)
    ensures Strip(line) == RStrip(LStrip(line))
    ensures Strip(line) == "" <==> Blank(line)
  {
    hide IsSpace, RStrip, LStrip;
    assert forall k :: 0 <= k < |line| ==> line[k] in line;
  }

  lemma BlankHasNoText()
    ensures LStrip("") == "" && Strip("") == "" && FirstTextOf("") == ""
  {
  }

  lemma TerminatorIsSpace(t: string)
    requires t != "" && IsBreak(t[0])
    ensures TerminatorLength(t) <= |t| && TerminatorLength(t) > 0
    ensures forall k :: 0 <= k < TerminatorLength(t) ==> IsSpace(t[k])
  {
  }

  /** A line that is not blank, then a break or the end. */
  lemma NonblankLine(line: string, rest: string)
    requires BreakFree(line) && (rest == "" || IsBreak(rest[0]))
    requires LStrip(line + rest) == LStrip(line) + rest
    ensures FirstTextOf(line + rest) == RStrip(LStrip(line))
  {
    hide IsBreak, LStrip, RStrip, LineLength;
    var l := LStrip(line);
    assert forall k :: 0 <= k < |l| ==> l[k] == line[|line| - |l| + k];
    LineLengthOfPrefix(l, rest);
    assert (l + rest)[..|l|] == l;
  }

  lemma FirstOf(line: string, wanted: string -> bool)
    ensures FirstThat([line], wanted) == if wanted(line) then line else ""
  {
    assert [line][1..] == [] && FirstThat([], wanted) == "";
  }

  lemma ContentsOfTwo(line: string, terminator: string, rest: seq<string>)
    requires |rest| % 2 == 1
    ensures Contents([line, terminator] + rest) == [line] + Contents(rest)
  {
    assert forall i :: 0 <= i < |Contents(rest)| ==> ([line, terminator] + rest)[2 * (i + 1)] == rest[2 * i];
  }

  lemma SplitLinesFirst(t: string)
    ensures FirstText(SplitLines(t)) == FirstText(Contents(SplitParts(t)))
  {
    hide SplitParts, FirstThat, Contents;
    var lines := Contents(SplitParts(t));
    if lines[|lines| - 1] == "" {
      FirstDropsLast(lines[..|lines| - 1], HasText());
      assert lines[..|lines| - 1] + [""] == lines;
    }
  }

  lemma BeginShape()
    ensures BEGIN[0] == '<' && BEGIN[|BEGIN| - 1] == '>' && BreakFree(BEGIN) && IsStripped(BEGIN)
    ensures Lacks(BEGIN, '\n') && Lacks(END, '\n') && Markers(BEGIN, END)
  {
  }

  /** A page whose first start marker ends its line opens with it exactly when only blanks stand before it. */
  lemma OpensIff(pre: string, rest: string)
    requires Find(pre + BEGIN + ("\n" + rest), BEGIN, 0) == |pre|
    ensures Opens(pre + BEGIN + ("\n" + rest)) <==> Blank(pre)
  {
    hide Find, IsSpace, BEGIN, IsBreak, BreakFree, FirstTextOf, LStrip, Strip, FirstText, SplitLines, Contents, SplitParts;
    var t := pre + BEGIN + ("\n" + rest);
    FirstTextIs(t);
    SplitLinesFirst(t);
    assert t == pre + (BEGIN + ("\n" + rest));
    if Blank(pre) {
      LStripSkips(pre, BEGIN + ("\n" + rest));
      AtOnce(rest);
      SameFirstText(t, BEGIN + ("\n" + rest));
    } else {
      NotBlank(pre);
      LStripStops(pre, BEGIN + ("\n" + rest));
      OpensInside(t);
    }
  }

  lemma SameFirstText(a: string, b: string)
    requires LStrip(a) == LStrip(b)
    ensures FirstTextOf(a) == FirstTextOf(b)
  {
  }

  /** A page that opens with the marker has it where its text starts. */
  lemma OpensInside(t: string)
    ensures FirstTextOf(t) == BEGIN ==> OccursAt(t, BEGIN, |t| - |LStrip(t)|)
  {
    hide IsSpace, BEGIN, IsBreak, LineLength, LStrip, RStrip;
    var l := LStrip(t);
    var at := |t| - |l|;
    if FirstTextOf(t) == BEGIN {
      assert BEGIN <= l;
      assert t[at..at + |BEGIN|] == l[..|BEGIN|] by {
        assert t[at..] == l;
      }
    }
  }

  lemma AtOnce(rest: string)
    ensures LStrip(BEGIN + ("\n" + rest)) == BEGIN + ("\n" + rest)
    ensures FirstTextOf(BEGIN + ("\n" + rest)) == BEGIN
  {
    BeginShape();
    hide BEGIN;
    var t := BEGIN + ("\n" + rest);
    assert t[0] == BEGIN[0];
    assert LStrip(t) == t;
    LineLengthOfPrefix(BEGIN, "\n" + rest);
    assert t[..|BEGIN|] == BEGIN;
  }

  // ------------------------------------------------ the headings of a fresh page

  lemma {:induction false} JoinAppend(lines: seq<string>, last: string, sep: string)
    requires lines != []
    ensures Join(lines + [last], sep) == Join(lines, sep) + sep + last
  {
    if |lines| == 1 {
      assert lines + [last] == [lines[0], last] && [lines[0], last][1..] == [last];
    } else {
      assert (lines + [last])[1..] == lines[1..] + [last];
      JoinAppend(lines[1..], last, sep);
      assert lines[0] + sep + (Join(lines[1..], sep) + sep + last) == (lines[0] + sep + Join(lines[1..], sep)) + sep + last;
    }
  }

  lemma {:induction false} SectionLine(names: seq<string>, i: nat)
    requires i < 4 * |names|
    ensures Sections(names)[i] == Section(names[i / 4])[i % 4]
  {
    if i >= 4 {
      SectionLine(names[1..], i - 4);
      assert Sections(names)[i] == Sections(names[1..])[i - 4];
      assert (i - 4) / 4 == i / 4 - 1 && (i - 4) % 4 == i % 4;
    }
  }

  /** The lines of the skeleton, after the empty line that follows the header. */
  function BodyLines(names: seq<string>): seq<string>
    requires names != []
  {
    [""] + Sections(names)[..4 * |names| - 1]
  }

  lemma FreshBody(names: seq<string>)
    requires names != []
    ensures "\n\n" + Skeleton(names) + "\n" == Framed(BodyLines(names), "\n")
  {
    hide Framed, Join, Section, Sections, Skeleton;
    var lines := Sections(names)[..4 * |names| - 1];
    SkeletonText(names);
    FramedIsJoin([""] + lines, "\n");
    JoinCons("", lines);
    assert ['\n'] == "\n";
  }

  lemma SkeletonText(names: seq<string>)
    requires names != []
    ensures Skeleton(names) == Join(Sections(names)[..4 * |names| - 1], "\n")
  {
    hide Join, Section, Sections, RStripNewlines, NOT_WRITTEN;
    var head := SectionsEnd(names);
    JoinAppend(head + [NOT_WRITTEN], "", "\n");
    JoinAppend(head, NOT_WRITTEN, "\n");
    NotWrittenShape();
    TrailingNewline(Join(head + [NOT_WRITTEN], "\n"));
  }

  lemma NotWrittenShape()
    ensures NOT_WRITTEN != "" && NOT_WRITTEN[|NOT_WRITTEN| - 1] == '.'
  {
  }

  lemma SectionsEnd(names: seq<string>) returns (head: seq<string>)
    requires names != []
    ensures head != [] && Sections(names) == head + [NOT_WRITTEN] + [""]
    ensures Sections(names)[..4 * |names| - 1] == head + [NOT_WRITTEN]
  {
    hide Section, Sections, NOT_WRITTEN;
    var n := 4 * |names|;
    SectionLine(names, n - 1);
    SectionLine(names, n - 2);
    LastLines(names[|names| - 1]);
    assert (n - 1) / 4 == |names| - 1 && (n - 2) / 4 == |names| - 1;
    head := Sections(names)[..n - 2];
  }

  lemma LastLines(name: string)
    ensures Section(name)[3] == "" && Section(name)[2] == NOT_WRITTEN
  {
  }

  lemma TrailingNewline(text: string)
    requires text != "" && text[|text| - 1] != '\n'
    ensures RStripNewlines(text + "\n") == text && RStripNewlines(text + "\n" + "") == text
  {
    assert text + "\n" + "" == text + "\n";
    assert (text + "\n")[..|text|] == text;
  }

  lemma JoinCons(first: string, lines: seq<string>)
    requires lines != []
    ensures Join([first] + lines, "\n") == first + "\n" + Join(lines, "\n")
  {
    assert ([first] + lines)[1..] == lines;
  }

  predicate Distinct(names: seq<string>) {
    forall i, j :: 0 <= i < j < |names| ==> names[i] != names[j]
  }

  /** A heading's line stands once in the skeleton. */
  lemma HeadingLine(names: seq<string>, k: nat, i: nat)
    requires Distinct(names) && k < |names| && i < 4 * |names|
    ensures BodyLines(names)[i] == "## " + names[k] <==> i == 4 * k + 1
  {
    if i > 0 {
      SectionLine(names, i - 1);
      var name := names[(i - 1) / 4];
      assert BodyLines(names)[i] == Section(name)[(i - 1) % 4];
      if (i - 1) % 4 == 0 {
        assert ("## " + name)[3..] == name && ("## " + names[k])[3..] == names[k];
      } else {
        assert ("## " + names[k])[0] == '#';
      }
    }
  }

  lemma BodyLinesLack(names: seq<string>, c: char)
    requires names != [] && c != '#' && c != ' ' && Lacks(NOT_WRITTEN, c) && forall name <- names :: Lacks(name, c)
    ensures FreeOf(BodyLines(names), c)
  {
    hide Sections;
    forall i, k | 0 <= i < |BodyLines(names)| && 0 <= k < |BodyLines(names)[i]| ensures BodyLines(names)[i][k] != c {
      SectionLine(names, i - 1);
      var name := names[(i - 1) / 4];
      assert BodyLines(names)[i] == Section(name)[(i - 1) % 4];
      assert name in names;
      assert k >= 3 && (i - 1) % 4 == 0 ==> ("## " + name)[k] == name[k - 3];
    }
  }

  /** Each heading of the skeleton is found at its own line. */
  lemma HeadingFound(names: seq<string>, k: nat)
    requires Distinct(names) && k < |names| && FreeOf(BodyLines(names), '\n')
    ensures HeadingAt(Framed(BodyLines(names), "\n"), names[k]) == Offset(BodyLines(names), "\n", 4 * k + 1)
  {
    hide Framed, Offset, BodyLines, Sections, FreeOf;
    var lines, block, at := BodyLines(names), ["## " + names[k]], 4 * k + 1;
    LinesCount(names);
    HeadingLine(names, k, at);
    assert lines[at..at + 1] == block;
    HeadingLineFree(lines, at);
    FreeIsClean(lines, '\n');
    FreeIsClean(block, '\n');
    assert ['\n'] == "\n";
    hide Clean;
    var body, needle := Framed(lines, "\n"), Framed(block, "\n");
    FramedHeading(names[k]);
    FramedOccurs(lines, block, "\n", at);
    forall p | 0 <= p < Offset(lines, "\n", at) ensures !OccursAt(body, needle, p) {
      if OccursAt(body, needle, p) {
        var i := FramedOccursOnlyThere(lines, block, "\n", p);
        assert lines[i..i + 1][0] == lines[i] == block[0];
        HeadingLine(names, k, i);
      }
    }
    FindIs(body, needle, 0, Offset(lines, "\n", at));
  }

  lemma LinesCount(names: seq<string>)
    requires names != []
    ensures |BodyLines(names)| == 4 * |names|
  {
  }

  lemma HeadingLineFree(lines: seq<string>, at: nat)
    requires FreeOf(lines, '\n') && at < |lines|
    ensures FreeOf([lines[at]], '\n')
  {
  }

  lemma FramedHeading(name: string)
    ensures Framed(["## " + name], "\n") == "\n## " + name + "\n"
  {
    var block := ["## " + name];
    assert Framed(block[1..], "\n") == ['\n'];
    assert Framed(block, "\n") == ['\n'] + block[0] + ['\n'];
    assert ['\n'] + ("## " + name) == "\n## " + name;
  }

  lemma {:induction false} AllKnown(body: string, names: seq<string>)
    requires forall i :: 0 <= i < |names| ==> HeadingAt(body, names[i]) != -1
    ensures |Known(body, names)| == |names|
    ensures forall i :: 0 <= i < |names| ==> Known(body, names)[i] == HeadingAt(body, names[i])
  {
    hide HeadingAt;
    if names != [] {
      AllKnown(body, names[1..]);
    }
  }

  lemma HeadingsShape()
    ensures Distinct(HEADINGS) && |HEADINGS| == 7
    ensures forall name <- HEADINGS :: Lacks(name, '\n') && Lacks(name, '<')
    ensures Lacks(NOT_WRITTEN, '\n') && Lacks(NOT_WRITTEN, '<')
  {
    HeadingsDiffer();
    HeadingsLack('\n');
    HeadingsLack('<');
  }

  lemma HeadingsDiffer()
    ensures Distinct(HEADINGS) && |HEADINGS| == 7
  {
    var lengths := [10, 15, 25, 6, 12, 24, 9];
    assert forall i :: 0 <= i < 7 ==> |HEADINGS[i]| == lengths[i];
  }

  lemma HeadingsLack(c: char)
    requires c == '\n' || c == '<'
    ensures forall name <- HEADINGS :: Lacks(name, c)
    ensures Lacks(NOT_WRITTEN, c)
  {
    assert forall i :: 0 <= i < 4 ==> Lacks(HEADINGS[i], c);
    assert forall i :: 4 <= i < 7 ==> Lacks(HEADINGS[i], c);
    hide Lacks;
  }

  /** The skeleton has every fixed heading, in order. */
  lemma SkeletonHasHeadings()
    ensures BodyFailures("\n\n" + Skeleton(HEADINGS) + "\n") == {}
  {
    HeadingsShape();
    hide HEADINGS, Skeleton, HeadingAt, Framed, Offset, BodyLines, FreeOf;
    BodyLinesLack(HEADINGS, '\n');
    FreshBody(HEADINGS);
    var lines := BodyLines(HEADINGS);
    var body := Framed(lines, "\n");
    LinesCount(HEADINGS);
    forall k: nat | k < |HEADINGS| ensures HeadingAt(body, HEADINGS[k]) == Offset(lines, "\n", 4 * k + 1) {
      HeadingFound(HEADINGS, k);
    }
    AllKnown(body, HEADINGS);
    forall i, j | 0 <= i < j < |HEADINGS| ensures Known(body, HEADINGS)[i] <= Known(body, HEADINGS)[j] {
      OffsetIncreases(lines, "\n", 4 * i + 1, 4 * j + 1);
    }
    assert forall name <- HEADINGS :: exists k :: 0 <= k < |HEADINGS| && HEADINGS[k] == name;
  }
}
