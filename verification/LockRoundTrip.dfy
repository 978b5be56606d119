/** Reading back a rendered lockfile gives the entries it was rendered from, so a check right
    after an update passes. */
module LockRoundTrip {
  import opened Text
  import opened LineBreaks
  import opened Lockfile

  // --------------------------------------------------- what may be written

  predicate Solid(s: string) {
    s != "" && forall k :: 0 <= k < |s| ==> !IsSpace(s[k])
  }

  /** A key that can be read back: one word, which starts no comment. */
  predicate GoodKey(key: string) {
    Solid(key) && key[0] != '#'
  }

  /** A document position that can be read back: no comma, nothing to strip. */
  predicate GoodCiter(c: string) {
    c != "" && IsStripped(c) && Lacks(c, ',')
  }

  const SEPARATOR := "  :: "

  /** What stands behind the arrow of an entry's second line. */
  function Told(e: Entry): string {
    Join(e.citedBy, ", ") + SEPARATOR + e.snippet
  }

  /** The separator does not occur before its place. */
  predicate Separates(e: Entry) {
    Find(Told(e), SEPARATOR, 0) == |Join(e.citedBy, ", ")|
  }

  /** The entry's second line is one line, and its digest is a word. */
  predicate OneLined(e: Entry) {
    Solid(e.digest) && (forall c <- e.citedBy :: BreakFree(c)) && BreakFree(e.snippet)
  }

  /** The entry's citers and snippet can be told apart again. */
  predicate Tellable(e: Entry) {
    Separates(e) && forall c <- e.citedBy :: GoodCiter(c)
  }

  predicate CommentLines(header: seq<string>) {
    forall h <- header :: "#" <= h && BreakFree(h)
  }

  // ------------------------------------------------------------ line splitting

  lemma {:induction false} SplitTextLines(lines: seq<string>)
    requires forall ln <- lines :: BreakFree(ln)
    ensures SplitLines(Join(lines + [""], "\n")) == lines
  {
    hide IsBreak;
    if lines == [] {
      assert Join([""], "\n") == "" && SplitParts("") == [""];
      assert [] + [""] == [""];
    } else {
      SplitTextLines(lines[1..]);
      var rest := Join(lines[1..] + [""], "\n");
      assert (lines + [""])[1..] == lines[1..] + [""];
      assert Join(lines + [""], "\n") == lines[0] + ("\n" + rest);
      LineFeedTerminates();
      SplitCons(lines[0], "\n", rest);
      LinesOfCons(lines[0], "\n", SplitParts(rest));
      assert lines == [lines[0]] + lines[1..];
    }
  }

  lemma LineFeedTerminates()
    ensures IsTerminator("\n")
  {
  }

  lemma LinesOfCons(c: string, e: string, parts: seq<string>)
    requires |parts| % 2 == 1
    ensures LinesOf([c, e] + parts) == [c] + LinesOf(parts)
  {
    var longer := [c, e] + parts;
    assert longer[|longer| - 1] == parts[|parts| - 1];
    assert |LinesOf(longer)| == 1 + |LinesOf(parts)|;
    forall i | 0 <= i < |LinesOf(longer)| ensures LinesOf(longer)[i] == ([c] + LinesOf(parts))[i] {
      assert i > 0 ==> longer[2 * i] == parts[2 * (i - 1)];
    }
  }

  // ------------------------------------------------------------- the key line

  lemma RunIs(s: string, rest: string, space: bool)
    requires forall k :: 0 <= k < |s| ==> IsSpace(s[k]) == space
    requires rest == "" || IsSpace(rest[0]) != space
    ensures RunOf(s + rest, space) == |s|
  {
    var n := RunOf(s + rest, space);
    assert forall k :: 0 <= k < |s| ==> (s + rest)[k] == s[k];
    assert rest != "" ==> (s + rest)[|s|] == rest[0];
  }

  lemma WordFirst(gap: string, w: string, rest: string)
    requires Solid(w) && forall k :: 0 <= k < |gap| ==> IsSpace(gap[k])
    requires rest == "" || IsSpace(rest[0])
    ensures Words(gap + (w + rest)) == [w] + Words(rest)
  {
    hide IsSpace;
    RunIs(gap, w + rest, true);
    RunIs(w, rest, false);
    assert (gap + (w + rest))[|gap|..] == w + rest;
    assert (w + rest)[..|w|] == w && (w + rest)[|w|..] == rest;
  }

  lemma NoWords()
    ensures Words("") == []
  {
  }

  lemma DigitsSolid(s: string)
    requires AllDigits(s)
    ensures forall k :: 0 <= k < |s| ==> !IsSpace(s[k])
  {
  }

  lemma CountWord(n: int)
    ensures Solid("lines=" + IntText(n)) && LineCount("lines=" + IntText(n)) == Some(n)
  {
    hide IsSpace, IntOf;
    IntTextSolid(n);
    IntReadsBack(n);
    var w := "lines=" + IntText(n);
    assert w == "lines" + ("=" + IntText(n));
    IndexOfCharIs("lines", '=', "=" + IntText(n));
    assert w[6..] == IntText(n);
    LinesSolid();
    forall k | 0 <= k < |w| ensures !IsSpace(w[k]) {
      assert if k >= 6 then w[k] == IntText(n)[k - 6] else w[k] == "lines="[k];
    }
  }

  lemma LinesSolid()
    ensures forall k :: 0 <= k < 6 ==> !IsSpace("lines="[k])
  {
  }

  lemma IntTextSolid(n: int)
    ensures forall k :: 0 <= k < |IntText(n)| ==> !IsSpace(IntText(n)[k])
  {
    DigitsSolid(Decimal(if n < 0 then -n else n));
  }

  /** `int` reads what `str` wrote. */
  lemma IntReadsBack(n: int)
    ensures IntOf(IntText(n)) == Some(n)
  {
    var d := Decimal(if n < 0 then -n else n);
    NumberOfDecimal(if n < 0 then -n else n);
    DigitsOfDecimal(d);
    hide Decimal, Number, DigitsOf;
    if n < 0 {
      assert IntText(n)[1..] == d;
    } else {
      assert IsDigit(d[0]);
    }
  }

  lemma DigitsOfDecimal(d: string)
    requires d != "" && AllDigits(d)
    ensures DigitsOf(d) == Some(d)
  {
    assert Lacks(d, '_');
    SplitNone(d, '_');
  }

  lemma KeyLineWords(key: string, e: Entry)
    requires Solid(key) && Solid(e.digest)
    ensures Words(KeyLine(key, e)) == [key, e.digest, "lines=" + IntText(e.lines)]
  {
    hide Words, Solid, IntText, LineCount;
    var count := "lines=" + IntText(e.lines);
    CountWord(e.lines);
    NoWords();
    WordFirst("  ", count, "");
    WordFirst("  ", e.digest, "  " + (count + ""));
    WordFirst("", key, "  " + (e.digest + ("  " + (count + ""))));
    assert KeyLine(key, e) == "" + (key + ("  " + (e.digest + ("  " + (count + "")))));
  }

  lemma SolidStarts(key: string, rest: string)
    requires Solid(key) && key[0] != '#'
    ensures Strip(key + rest) != "" && !("#" <= LStrip(key + rest)) && !("  <- " <= key + rest)
  {
    assert (key + rest)[0] == key[0] && key[0] in key + rest;
    assert LStrip(key + rest) == key + rest;
    assert "#"[0] == '#';
    assert "  <- "[0] == ' ';
  }

  lemma ReadsKeyLine(key: string, e: Entry, entries: map<string, Entry>, pending: Option<string>)
    requires GoodKey(key) && Solid(e.digest)
    ensures StepLine(KeyLine(key, e), Reading(entries, pending)) ==
            Reading(entries[key := Entry(e.digest, e.lines, [], "")], Some(key))
  {
    hide Words, Strip, LStrip, LineCount, IntText, Solid, StepLine, KeyLine;
    KeyLineWords(key, e);
    CountWord(e.lines);
    KeyLineStarts(key, e);
    StepOnWords(KeyLine(key, e), Reading(entries, pending), key, e.digest, "lines=" + IntText(e.lines), e.lines);
  }

  lemma KeyLineStarts(key: string, e: Entry)
    requires Solid(key) && key[0] != '#'
    ensures var line := KeyLine(key, e);
            Strip(line) != "" && !("#" <= LStrip(line)) && !("  <- " <= line)
  {
    hide Strip, LStrip, AfterKey, Solid;
    SolidStarts(key, AfterKey(e));
  }

  lemma StepOnWords(line: string, r: Reading, a: string, b: string, c: string, n: int)
    requires r.Reading? && Strip(line) != "" && !("#" <= LStrip(line)) && !("  <- " <= line)
    requires Words(line) == [a, b, c] && LineCount(c) == Some(n)
    ensures StepLine(line, r) == Reading(r.entries[a := Entry(b, n, [], "")], Some(a))
  {
    hide Words, Strip, LStrip, LineCount;
  }

  // ------------------------------------------------------------ the cite line

  lemma StripSpaced(c: string)
    requires IsStripped(c) && c != ""
    ensures Strip(" " + c) == c
  {
    assert (" " + c)[1..] == c;
    assert LStrip(" " + c) == LStrip(c) == c;
  }

  /** The pieces between the commas, each stripped, are the citers. */
  lemma {:induction false} CitersReadBack(citers: seq<string>, gap: string)
    requires citers != [] && (gap == "" || gap == " ") && forall c <- citers :: GoodCiter(c)
    ensures Cleaned(Split(gap + Join(citers, ", "), ',')) == citers
  {
    hide Strip, GoodCiter, Split;
    var first := gap + citers[0];
    CiterPiece(citers[0], gap);
    if |citers| == 1 {
      assert gap + Join(citers, ", ") == first;
      SplitNone(first, ',');
      assert [first][1..] == [];
    } else {
      CitersReadBack(citers[1..], " ");
      var rest := " " + Join(citers[1..], ", ");
      assert gap + Join(citers, ", ") == first + [','] + rest;
      SplitFirst(first, ',', rest);
      assert ([first] + Split(rest, ','))[1..] == Split(rest, ',');
      assert citers == [citers[0]] + citers[1..];
    }
  }

  lemma CiterPiece(c: string, gap: string)
    requires GoodCiter(c) && (gap == "" || gap == " ")
    ensures c != "" && Strip(gap + c) == c && Lacks(gap + c, ',')
  {
    hide IsBreak, IsSpace, Strip;
    StripSpaced(c);
    StripOfStripped(c);
    assert gap == "" ==> gap + c == c;
  }

  /** The list and the snippet come apart again exactly when the separator is not met early. */
  lemma PartitionIff(cited: string, snippet: string)
    ensures var t := cited + SEPARATOR + snippet;
      && 0 <= Find(t, SEPARATOR, 0) <= |cited|
      && (Partition(t, SEPARATOR) == (cited, snippet) <==> Find(t, SEPARATOR, 0) == |cited|)
      && (Partition(t, SEPARATOR).1 == snippet ==> Find(t, SEPARATOR, 0) == |cited|)
  {
    var t := cited + SEPARATOR + snippet;
    assert t[|cited|..|cited| + 5] == SEPARATOR && t[..|cited|] == cited && t[|cited| + 5..] == snippet;
    assert OccursAt(t, SEPARATOR, |cited|);
  }

  lemma CiteLineStarts(e: Entry)
    ensures var line := CiteLine(e);
            Strip(line) != "" && !("#" <= LStrip(line)) && "  <- " <= line
            && line[5..] == Told(e)
  {
    hide Join, Strip, LStrip;
    ArrowStarts(Told(e));
    assert CiteLine(e) == "  <- " + Told(e);
  }

  lemma ArrowStarts(rest: string)
    ensures Strip("  <- " + rest) != "" && !("#" <= LStrip("  <- " + rest)) && ("  <- " + rest)[5..] == rest
  {
    var line := "  <- " + rest;
    assert line[2] == '<' && line[2] in line && !IsSpace('<');
    var l := LStrip(line);
    assert |line| - |l| <= 2;
    assert l[0] == line[|line| - |l|];
    assert "#"[0] == '#';
  }

  /** An entry as its two lines are read. */
  function AsRead(e: Entry): Entry {
    var (cited, snippet) := Partition(Told(e), SEPARATOR);
    e.(citedBy := Cleaned(Split(cited, ',')), snippet := snippet)
  }

  lemma {:induction false} PiecesCleaned(pieces: seq<string>)
    requires forall p <- pieces :: Lacks(p, ',')
    ensures forall c <- Cleaned(pieces) :: GoodCiter(c)
  {
    hide Strip, IsSpace;
    if pieces != [] {
      assert pieces == [pieces[0]] + pieces[1..];
      PiecesCleaned(pieces[1..]);
      StrippedPiece(pieces[0]);
    }
  }

  lemma StrippedPiece(p: string)
    requires Lacks(p, ',')
    ensures IsStripped(Strip(p)) && Lacks(Strip(p), ',')
  {
    var s := Strip(p);
    forall k | 0 <= k < |s| ensures s[k] != ',' {
      assert s[k] in s;
    }
  }

  /** The citers come back exactly when each has nothing to strip and no comma. */
  lemma CitersBackIff(citers: seq<string>)
    ensures Cleaned(Split(Join(citers, ", "), ',')) == citers <==> forall c <- citers :: GoodCiter(c)
  {
    hide GoodCiter, Split, Join, Cleaned;
    PiecesCleaned(Split(Join(citers, ", "), ','));
    if forall c <- citers :: GoodCiter(c) {
      CitedReadBack(citers);
    }
  }

  lemma AsReadIff(e: Entry)
    ensures AsRead(e) == e <==> Tellable(e)
  {
    hide Join, Split, GoodCiter, Partition, Cleaned;
    PartitionIff(Join(e.citedBy, ", "), e.snippet);
    CitersBackIff(e.citedBy);
  }

  lemma ReadsCiteLine(key: string, e: Entry, entries: map<string, Entry>)
    ensures StepLine(CiteLine(e), Reading(entries[key := Entry(e.digest, e.lines, [], "")], Some(key))) ==
            Reading(entries[key := AsRead(e)], None)
  {
    hide Strip, LStrip, Join, Split, StepLine, CiteLine, Partition, Cleaned, Told;
    CiteLineStarts(e);
    var before := entries[key := Entry(e.digest, e.lines, [], "")];
    var (cited, snippet) := Partition(Told(e), SEPARATOR);
    StepOnArrow(CiteLine(e), before, key, cited, snippet);
    assert before[key := AsRead(e)] == entries[key := AsRead(e)];
  }

  lemma StepOnArrow(line: string, entries: map<string, Entry>, key: string, cited: string, snippet: string)
    requires key in entries && Strip(line) != "" && !("#" <= LStrip(line)) && "  <- " <= line
    requires Partition(line[5..], "  :: ") == (cited, snippet)
    ensures StepLine(line, Reading(entries, Some(key))) ==
            Reading(entries[key := entries[key].(citedBy := Cleaned(Split(cited, ',')), snippet := snippet)], None)
  {
    hide Strip, LStrip, Partition, Cleaned, Split;
  }

  lemma CitedReadBack(citers: seq<string>)
    requires forall c <- citers :: GoodCiter(c)
    ensures Cleaned(Split(Join(citers, ", "), ',')) == citers
  {
    hide GoodCiter, Strip;
    if citers == [] {
      SplitNone("", ',');
      assert Cleaned([""][1..]) == [] && Strip("") == "";
    } else {
      CitersReadBack(citers, "");
      assert "" + Join(citers, ", ") == Join(citers, ", ");
    }
  }

  // ------------------------------------------------------------- the whole file

  lemma {:induction false} SkipsComments(header: seq<string>, rest: seq<string>, r: Reading)
    requires CommentLines(header)
    ensures ReadLines(header + [""] + rest, r) == ReadLines(rest, r)
  {
    hide StepLine;
    if header == [] {
      BlankSkipped(r);
      assert [] + [""] + rest == [""] + rest && ([""] + rest)[1..] == rest;
    } else {
      assert header[0] in header;
      CommentSkipped(header[0], r);
      assert (header + [""] + rest)[1..] == header[1..] + [""] + rest;
      assert forall h <- header[1..] :: h in header;
      SkipsComments(header[1..], rest, r);
    }
  }

  lemma BlankSkipped(r: Reading)
    ensures StepLine("", r) == r
  {
    assert Strip("") == "";
  }

  lemma CommentSkipped(h: string, r: Reading)
    requires "#" <= h
    ensures StepLine(h, r) == r
  {
    assert h[0] == "#"[0] == '#' && !IsSpace('#');
  }

  function AllAsRead(entries: map<string, Entry>, keys: seq<string>): map<string, Entry> {
    map k | k in entries && k in keys :: AsRead(entries[k])
  }

  lemma {:induction false} BodyReadsBack(entries: map<string, Entry>, done: map<string, Entry>, order: seq<string>)
    requires forall k <- order :: k in entries
    requires forall k <- entries :: GoodKey(k) && OneLined(entries[k])
    ensures ReadLines(Body(entries, order), Reading(done, None)) == Reading(done + AllAsRead(entries, order), None)
    decreases |order|
  {
    hide StepLine, GoodKey, OneLined, AsRead, ReadLines, Body;
    if order == [] {
      NothingToRead(entries, done);
    } else {
      EntryReadsBack(entries, done, order);
      BodyReadsBack(entries, done[order[0] := AsRead(entries[order[0]])], order[1..]);
      OneMoreRead(entries, done, order);
    }
  }

  lemma NothingToRead(entries: map<string, Entry>, done: map<string, Entry>)
    ensures ReadLines(Body(entries, []), Reading(done, None)) == Reading(done, None) && done + AllAsRead(entries, []) == done
  {
  }

  lemma EntryReadsBack(entries: map<string, Entry>, done: map<string, Entry>, order: seq<string>)
    requires order != [] && (forall k <- order :: k in entries) && GoodKey(order[0]) && OneLined(entries[order[0]])
    ensures ReadLines(Body(entries, order), Reading(done, None)) ==
            ReadLines(Body(entries, order[1..]), Reading(done[order[0] := AsRead(entries[order[0]])], None))
  {
    hide StepLine, KeyLine, CiteLine, GoodKey, AsRead;
    var key := order[0];
    ReadsKeyLine(key, entries[key], done, None);
    ReadsCiteLine(key, entries[key], done);
    var body, rest := Body(entries, order), Body(entries, order[1..]);
    assert body[0] == KeyLine(key, entries[key]) && body[1..][0] == CiteLine(entries[key]) && body[1..][1..] == rest;
  }

  lemma OneMoreRead(entries: map<string, Entry>, done: map<string, Entry>, order: seq<string>)
    requires order != [] && order[0] in entries
    ensures done[order[0] := AsRead(entries[order[0]])] + AllAsRead(entries, order[1..]) == done + AllAsRead(entries, order)
  {
    hide AsRead;
    assert order == [order[0]] + order[1..];
  }

  lemma SolidBreakFree(s: string)
    requires Solid(s)
    ensures BreakFree(s)
  {
  }

  lemma {:induction false} CitersBreakFree(citers: seq<string>)
    requires forall c <- citers :: BreakFree(c)
    ensures BreakFree(Join(citers, ", "))
  {
    if citers != [] {
      assert BreakFree(citers[0]);
      if |citers| > 1 {
        CitersBreakFree(citers[1..]);
      }
    }
  }

  lemma EntryLinesBreakFree(key: string, e: Entry)
    requires GoodKey(key) && OneLined(e)
    ensures BreakFree(KeyLine(key, e)) && BreakFree(CiteLine(e))
  {
    hide IsSpace, Solid, GoodCiter, Join, IntText, LineCount, IsBreak;
    SolidBreakFree(key);
    SolidBreakFree(e.digest);
    CountWord(e.lines);
    var count := "lines=" + IntText(e.lines);
    SolidBreakFree(count);
    CitersBreakFree(e.citedBy);
    FixedBreakFree();
    assert KeyLine(key, e) == key + "  " + e.digest + "  " + count;
  }

  lemma FixedBreakFree()
    ensures BreakFree("  ") && BreakFree("  <- ") && BreakFree("  :: ")
  {
  }

  lemma {:induction false} BodyBreakFree(entries: map<string, Entry>, order: seq<string>)
    requires forall k <- order :: k in entries
    requires forall k <- entries :: GoodKey(k) && OneLined(entries[k])
    ensures forall ln <- Body(entries, order) :: BreakFree(ln)
  {
    hide BreakFree, GoodKey, OneLined, KeyLine, CiteLine;
    if order != [] {
      BodyBreakFree(entries, order[1..]);
      EntryLinesBreakFree(order[0], entries[order[0]]);
    }
  }

  // ------------------------------------------------------------- what can be a key

  lemma {:induction false} WordsSolid(s: string)
    ensures forall w <- Words(s) :: Solid(w)
    decreases |s|
  {
    hide IsSpace;
    var from := RunOf(s, true);
    if from < |s| {
      var rest := s[from..];
      var n := RunOf(rest, false);
      assert rest[0] == s[from];
      WordsSolid(rest[n..]);
      assert Solid(rest[..n]);
    }
  }

  lemma {:induction false} LStripIsRun(s: string)
    ensures LStrip(s) == s[RunOf(s, true)..]
  {
    hide IsSpace;
    if s != "" && IsSpace(s[0]) {
      LStripIsRun(s[1..]);
    }
  }

  /** A line's first word starts no comment if the line does not. */
  lemma FirstWordIsKey(line: string)
    requires Words(line) != [] && !("#" <= LStrip(line))
    ensures GoodKey(Words(line)[0])
  {
    WordsSolid(line);
    LStripIsRun(line);
    hide IsSpace, LStrip, Solid;
    var word, rest := Words(line)[0], LStrip(line);
    assert word[0] == rest[0];
    assert rest[0] == '#' ==> "#" <= rest;
  }

  predicate GoodKeys(r: Reading) {
    r.Reading? ==> forall k <- r.entries :: GoodKey(k)
  }

  lemma StepKeepsKeys(line: string, r: Reading)
    requires GoodKeys(r)
    ensures GoodKeys(StepLine(line, r))
  {
    hide Words, Strip, LStrip, LineCount, Partition, Cleaned, Split, GoodKey;
    if Words(line) != [] && !("#" <= LStrip(line)) {
      FirstWordIsKey(line);
    }
  }

  /** Nothing but good keys is ever read. */
  lemma {:induction false} GoodKeysRead(lines: seq<string>, r: Reading)
    requires GoodKeys(r)
    ensures GoodKeys(ReadLines(lines, r))
  {
    hide StepLine, GoodKeys;
    if lines != [] {
      StepKeepsKeys(lines[0], r);
      GoodKeysRead(lines[1..], StepLine(lines[0], r));
    }
  }

  // ---------------------------------------------------------------- main results

  lemma EmptyBreakFree()
    ensures BreakFree("")
  {
  }

  lemma GoodLockRead(header: seq<string>, entries: map<string, Entry>, order: seq<string>)
    requires CommentLines(header)
    requires forall k :: k in order <==> k in entries
    requires forall k <- entries :: GoodKey(k) && OneLined(entries[k])
    ensures ReadLock(RenderLock(header, entries, order)) == Reading(AllAsRead(entries, order), None)
    ensures AllAsRead(entries, order).Keys == entries.Keys
  {
    hide StepLine, GoodKey, OneLined, BreakFree, AsRead, SplitLines, ReadLines;
    BodyBreakFree(entries, order);
    var lines := header + [""] + Body(entries, order);
    assert forall ln <- lines :: BreakFree(ln) by {
      EmptyBreakFree();
    }
    SplitTextLines(lines);
    SkipsComments(header, Body(entries, order), Reading(map[], None));
    BodyReadsBack(entries, map[], order);
    assert map[] + AllAsRead(entries, order) == AllAsRead(entries, order);
  }

  /** A lock just written matches its entries, whatever the order of its keys and whatever its
      comment header, exactly when every key is one word that starts no comment. */
  lemma LockMatchesIff(header: seq<string>, entries: map<string, Entry>, order: seq<string>)
    requires CommentLines(header) && (forall k :: k in order <==> k in entries) && forall k <- entries :: OneLined(entries[k])
    ensures var read := ReadLock(RenderLock(header, entries, order));
            read.Reading? && Matches(entries, read.entries) <==> forall k <- entries :: GoodKey(k)
  {
    hide ReadLines, RenderLock, OneLined, GoodKey, SplitLines;
    GoodKeysRead(SplitLines(RenderLock(header, entries, order)), Reading(map[], None));
    if forall k <- entries :: GoodKey(k) {
      GoodLockRead(header, entries, order);
    }
  }

  /** Reading it gives the whole entries back exactly when, besides, no entry's list of citers
      lets the separator occur early, and no citer has a comma or anything to strip. */
  lemma LockReadsBackIff(header: seq<string>, entries: map<string, Entry>, order: seq<string>)
    requires CommentLines(header) && (forall k :: k in order <==> k in entries) && forall k <- entries :: OneLined(entries[k])
    ensures ReadLock(RenderLock(header, entries, order)) == Reading(entries, None) <==>
            forall k <- entries :: GoodKey(k) && Tellable(entries[k])
  {
    hide ReadLock, RenderLock, OneLined, GoodKey, Tellable, AsRead;
    LockMatchesIff(header, entries, order);
    if forall k <- entries :: GoodKey(k) {
      GoodLockRead(header, entries, order);
      var read := AllAsRead(entries, order);
      forall k <- entries ensures read[k] == entries[k] <==> Tellable(entries[k]) {
        AsReadIff(entries[k]);
      }
      assert read == entries <==> forall k <- entries :: read[k] == entries[k];
    }
  }

  /** A check right after an update of the same entries passes exactly when there was no problem
      and every key is good, whether or not the citers read back. */
  method UpdateThenCheck(lock: Lock, header: seq<string>, entries: map<string, Entry>, order: seq<string>, problems: nat)
    returns (exit: nat)
    requires CommentLines(header) && (forall k :: k in order <==> k in entries) && forall k <- entries :: OneLined(entries[k])
    modifies lock
    ensures problems == 0 ==> (exit == 0 <==> forall k <- entries :: GoodKey(k))
    ensures problems > 0 ==> exit != 0 && lock.text == old(lock.text)
  {
    hide ReadLock, RenderLock, OneLined, GoodKey;
    var _ := lock.Update(header, entries, order, problems);
    LockMatchesIff(header, entries, order);
    exit := lock.Check(entries, problems);
  }
}
