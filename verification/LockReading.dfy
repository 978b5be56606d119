/** What reading a lockfile gives, whatever its text is: line by line, over words, arrows and
    counts (scripts/check-citation-drift.py:824-846). */
module LockReading {
  import opened Text
  import opened Lockfile
  import opened LockRoundTrip

  // ---------------------------------------------------------------------- words

  predicate Blank(s: string) {
    forall k :: 0 <= k < |s| ==> IsSpace(s[k])
  }

  /** White space and words in turn, ending in white space, with some between any two words. */
  ghost predicate Spaced(line: string, words: seq<string>)
    decreases |words|
  {
    if words == [] then Blank(line)
    else exists gap: string, rest: string ::
           && line == gap + (words[0] + rest) && Blank(gap) && Solid(words[0])
           && (rest == "" || IsSpace(rest[0])) && Spaced(rest, words[1..])
  }

  lemma {:induction false} BlankWords(line: string)
    requires Blank(line)
    ensures Words(line) == []
  {
    RunIs(line, "", true);
    assert line + "" == line;
  }

  lemma {:induction false} SpacedWords(line: string, words: seq<string>)
    ensures Spaced(line, words) ==> Words(line) == words
    decreases |words|
  {
    if Spaced(line, words) {
      if words == [] {
        BlankWords(line);
      } else {
        var gap, rest :|
          && line == gap + (words[0] + rest) && Blank(gap) && Solid(words[0])
          && (rest == "" || IsSpace(rest[0])) && Spaced(rest, words[1..]);
        SpacedWords(rest, words[1..]);
        WordFirst(gap, words[0], rest);
      }
    }
  }

  lemma {:induction false} WordsSpaced(line: string)
    ensures Spaced(line, Words(line))
    decreases |line|
  {
    hide Spaced, IsSpace;
    var from := RunOf(line, true);
    if from == |line| {
      NoneSpaced(line);
    } else {
      var n := RunOf(line[from..], false);
      var gap, word, rest := line[..from], line[from..][..n], line[from..][n..];
      assert line == gap + (word + rest);
      WordsSpaced(rest);
      FirstSpaced(gap, word, rest, Words(rest));
    }
  }

  lemma NoneSpaced(line: string)
    requires Blank(line)
    ensures Spaced(line, [])
  {
  }

  lemma FirstSpaced(gap: string, word: string, rest: string, words: seq<string>)
    requires Blank(gap) && Solid(word) && (rest == "" || IsSpace(rest[0])) && Spaced(rest, words)
    ensures Spaced(gap + (word + rest), [word] + words)
  {
    hide IsSpace;
    assert ([word] + words)[1..] == words;
  }

  /** The words of a line are what stands between its white space. */
  lemma WordsIff(line: string, words: seq<string>)
    ensures Words(line) == words <==> Spaced(line, words)
  {
    WordsSpaced(line);
    SpacedWords(line, words);
  }

  // --------------------------------------------------------------------- counts

  /** Digits in groups joined by single underscores, as `int` allows. */
  ghost predicate Numeral(s: string, n: nat) {
    exists groups: seq<string> ::
      groups != [] && (forall g <- groups :: g != "" && AllDigits(g)) && s == Join(groups, "_") &&
      AllDigits(Join(groups, "")) && n == Number(Join(groups, ""))
  }

  lemma NumeralIff(s: string, n: nat)
    ensures Numeral(s, n) <==> DigitsOf(s).Some? && AllDigits(DigitsOf(s).value) && Number(DigitsOf(s).value) == n
  {
    hide Number;
    if DigitsOf(s).Some? {
      JoinedDigits(Split(s, '_'));
      JoinSplit(s, '_');
    }
    if groups: seq<string> :|
      groups != [] && (forall g <- groups :: g != "" && AllDigits(g)) && s == Join(groups, "_") &&
      AllDigits(Join(groups, "")) && n == Number(Join(groups, ""))
    {
      forall g <- groups ensures Lacks(g, '_') {
        assert AllDigits(g);
      }
      SplitOfJoin(groups, '_');
    }
  }

  lemma {:induction false} JoinSplit(s: string, c: char)
    ensures Join(Split(s, c), [c]) == s
    decreases |s|
  {
    var k := IndexOfChar(s, c);
    if k < |s| {
      JoinSplit(s[k + 1..], c);
      assert s == s[..k] + [c] + s[k + 1..];
    }
  }

  /** A numeral, maybe with a sign. */
  ghost predicate Counts(s: string, n: int) {
    || (n >= 0 && Numeral(s, n))
    || (n >= 0 && "+" <= s && Numeral(s[1..], n))
    || (n <= 0 && "-" <= s && Numeral(s[1..], -n))
  }

  lemma SignedIsNone(s: string)
    requires s != "" && (s[0] == '-' || s[0] == '+')
    ensures DigitsOf(s) == None
  {
    var parts, k := Split(s, '_'), IndexOfChar(s, '_');
    assert parts[0] in parts;
    assert k > 0 && parts[0] == s[..k] && parts[0][0] == s[0];
  }

  lemma SignIs(s: string)
    ensures "+" <= s <==> s != "" && s[0] == '+'
    ensures "-" <= s <==> s != "" && s[0] == '-'
  {
    assert s != "" ==> s[..1] == [s[0]];
    assert "+" <= s ==> s[0] == "+"[0];
    assert "-" <= s ==> s[0] == "-"[0];
  }

  lemma CountIff(s: string, n: int)
    ensures Counts(s, n) <==> IntOf(s) == Some(n)
  {
    hide Numeral, DigitsOf, AllDigits, Number;
    SignIs(s);
    var signed := s != "" && (s[0] == '-' || s[0] == '+');
    if signed {
      SignedIsNone(s);
      Numerals(s[1..]);
    }
    Numerals(s);
  }

  lemma Numerals(s: string)
    ensures DigitsOf(s).Some? ==> AllDigits(DigitsOf(s).value)
    ensures forall n: nat :: Numeral(s, n) <==> DigitsOf(s).Some? && Number(DigitsOf(s).value) == n
  {
    hide Numeral, Number;
    if DigitsOf(s).Some? {
      JoinedDigits(Split(s, '_'));
    }
    forall n: nat ensures Numeral(s, n) <==> DigitsOf(s).Some? && Number(DigitsOf(s).value) == n {
      NumeralIff(s, n);
    }
  }

  /** The number behind a word's first equals sign. */
  ghost predicate WordCounts(word: string, n: int) {
    exists head: string, s: string :: word == head + "=" + s && '=' !in head && Counts(s, n)
  }

  lemma WordCountIff(word: string, n: int)
    ensures WordCounts(word, n) <==> LineCount(word) == Some(n)
  {
    hide Counts, IntOf;
    var k := IndexOfChar(word, '=');
    if k < |word| {
      var head, s := word[..k], word[k + 1..];
      assert word == head + "=" + s && '=' !in head;
      CountIff(s, n);
    }
    if head: string, s: string :| word == head + "=" + s && '=' !in head && Counts(s, n) {
      assert word == head + ("=" + s);
      IndexOfCharIs(head, '=', "=" + s);
      assert word[k + 1..] == s;
    }
  }

  // --------------------------------------------------------------------- citers

  /** The first separator parts a text; without one there is nothing behind. */
  lemma PartitionMeans(s: string, sep: string)
    ensures var (head, tail) := Partition(s, sep);
      if Contains(s, sep) then s == head + sep + tail && forall k :: 0 <= k < |head| ==> !OccursAt(s, sep, k)
      else head == s && tail == ""
  {
  }

  /** Each piece between the commas is a citer, stripped, unless it is blank. */
  lemma {:induction false} CleanedAround(a: seq<string>, piece: string, b: seq<string>)
    ensures Cleaned(a + [piece] + b) == Cleaned(a) + (if Blank(piece) then [] else [Strip(piece)]) + Cleaned(b)
  {
    hide Strip, Blank;
    BlankIff(piece);
    if a == [] {
      assert a + [piece] + b == [piece] + b && ([piece] + b)[1..] == b;
    } else {
      assert a + [piece] + b == [a[0]] + (a[1..] + [piece] + b);
      CleanedAround(a[1..], piece, b);
    }
  }

  // ---------------------------------------------------------------- kinds of line

  /** Only white space, or a comment behind it. */
  ghost predicate Ignored(line: string) {
    Blank(line) || exists gap: string, rest: string :: Blank(gap) && line == gap + ("#" + rest)
  }

  ghost predicate Arrow(line: string) {
    !Ignored(line) && "  <- " <= line
  }

  ghost predicate Key(line: string) {
    !Ignored(line) && !("  <- " <= line)
  }

  ghost predicate Short(line: string) {
    Key(line) && |Words(line)| < 3
  }

  ghost predicate Countless(line: string) {
    Key(line) && |Words(line)| >= 3 && forall n :: !WordCounts(Words(line)[2], n)
  }

  lemma IgnoredIff(line: string)
    ensures Ignored(line) <==> Strip(line) == "" || "#" <= LStrip(line)
  {
    hide Blank, Strip, LStrip, IsSpace;
    BlankIff(line);
    CommentSplits(line);
    if gap: string, rest: string :| Blank(gap) && line == gap + ("#" + rest) {
      assert !IsSpace('#') by {
        HashIsSolid();
      }
      LStripGap(gap, "#" + rest);
    }
  }

  lemma HashIsSolid()
    ensures !IsSpace('#')
  {
  }

  lemma BlankIff(line: string)
    ensures Blank(line) <==> Strip(line) == ""
  {
    hide IsSpace;
    assert Blank(line) <==> forall c <- line :: IsSpace(c);
  }

  lemma CommentSplits(line: string)
    ensures "#" <= LStrip(line) ==> exists gap: string, rest: string :: Blank(gap) && line == gap + ("#" + rest)
  {
    hide IsSpace;
    var l := LStrip(line);
    if "#" <= l {
      var gap := line[..|line| - |l|];
      assert line == gap + ("#" + l[1..]) && Blank(gap);
    }
  }

  lemma {:induction false} LStripGap(gap: string, rest: string)
    requires Blank(gap) && rest != "" && !IsSpace(rest[0])
    ensures LStrip(gap + rest) == rest
  {
    if gap == "" {
      assert gap + rest == rest;
    } else {
      assert (gap + rest)[1..] == gap[1..] + rest;
      LStripGap(gap[1..], rest);
    }
  }

  // -------------------------------------------------------------------- one entry

  /** Line `i` is the last of the first `n` to lock the key. */
  ghost predicate LastKey(lines: seq<string>, n: nat, key: string, i: nat) {
    && i < n <= |lines| && Locks(lines[i], key)
    && forall j :: i < j < n ==> !Locks(lines[j], key)
  }

  ghost predicate Locks(line: string, key: string) {
    Key(line) && Words(line) != [] && Words(line)[0] == key
  }

  /** Line `c` is the first behind line `i` that says something, and it is an arrow. */
  ghost predicate Told(lines: seq<string>, n: nat, i: nat, c: nat) {
    i < c < n <= |lines| && Arrow(lines[c]) && forall j :: i < j < c ==> Ignored(lines[j])
  }

  /** Behind the arrow, the citers up to the first separator and the snippet behind it. */
  predicate Says(line: string, citedBy: seq<string>, snippet: string)
    requires |line| >= 5
  {
    citedBy == Cleaned(Split(Partition(line[5..], "  :: ").0, ',')) && snippet == Partition(line[5..], "  :: ").1
  }

  /** The entry of a key that line `i` was the last to lock. */
  ghost predicate EntryIs(lines: seq<string>, n: nat, i: nat, e: Entry)
    requires i < n <= |lines|
  {
    var words := Words(lines[i]);
    && |words| >= 3 && e.digest == words[1] && WordCounts(words[2], e.lines)
    && (forall c: nat :: Told(lines, n, i, c) ==> |lines[c]| >= 5 && Says(lines[c], e.citedBy, e.snippet))
    && ((forall c: nat :: !Told(lines, n, i, c)) ==> e.citedBy == [] && e.snippet == "")
  }

  ghost predicate EntryOf(lines: seq<string>, n: nat, key: string, e: Entry) {
    n <= |lines| && exists i: nat :: LastKey(lines, n, key, i) && EntryIs(lines, n, i, e)
  }

  /** The key line that still waits for its arrow. */
  ghost predicate Waits(lines: seq<string>, n: nat, key: string) {
    exists i: nat :: i < n <= |lines| && Locks(lines[i], key) && forall j :: i < j < n ==> Ignored(lines[j])
  }

  /** What is read of the first `n` lines. */
  ghost predicate ReadSo(lines: seq<string>, n: nat, r: Reading)
    requires n <= |lines|
  {
    match r
    case Died => exists i :: 0 <= i < n && Short(lines[i]) && Fine(lines, i)
    case Raised => exists i :: 0 <= i < n && Countless(lines[i]) && Fine(lines, i)
    case Reading(entries, pending) =>
      && Fine(lines, n)
      && (forall key :: key in entries <==> exists i :: 0 <= i < n && Locks(lines[i], key))
      && (forall key <- entries :: EntryOf(lines, n, key, entries[key]))
      && (forall key :: pending == Some(key) <==> Waits(lines, n, key))
  }

  ghost predicate Fine(lines: seq<string>, n: nat)
    requires n <= |lines|
  {
    forall i :: 0 <= i < n ==> !Short(lines[i]) && !Countless(lines[i])
  }

  // ---------------------------------------------------------------- one line more

  lemma KindsApart(line: string)
    ensures Ignored(line) ==> !Arrow(line) && !Key(line) && forall key :: !Locks(line, key)
    ensures Arrow(line) ==> |line| >= 5 && !Key(line) && forall key :: !Locks(line, key)
    ensures !Key(line) ==> !Short(line) && !Countless(line)
    ensures Ignored(line) || Arrow(line) || Key(line)
  {
    hide Ignored;
  }

  lemma LaterFine(lines: seq<string>, n: nat)
    requires n < |lines| && Fine(lines, n) && !Short(lines[n]) && !Countless(lines[n])
    ensures Fine(lines, n + 1)
  {
    hide Short, Countless;
  }

  /** A line that tells nothing of the key leaves its entry. */
  lemma EntryStays(lines: seq<string>, n: nat, key: string, e: Entry)
    requires n < |lines| && EntryOf(lines, n, key, e) && !Locks(lines[n], key)
    requires Arrow(lines[n]) ==> !Waits(lines, n, key)
    ensures EntryOf(lines, n + 1, key, e)
  {
    hide Ignored, Arrow, Locks, Words, WordCounts, Says;
    var i: nat :| LastKey(lines, n, key, i) && EntryIs(lines, n, i, e);
    assert LastKey(lines, n + 1, key, i);
    var m := n + 1;
    assert Told(lines, m, i, n) ==> Waits(lines, n, key);
    assert forall c: nat :: Told(lines, m, i, c) <==> Told(lines, n, i, c);
    assert EntryIs(lines, n + 1, i, e);
  }

  lemma IgnoredStep(lines: seq<string>, n: nat, r: Reading)
    requires n < |lines| && r.Reading? && ReadSo(lines, n, r) && Ignored(lines[n])
    ensures ReadSo(lines, n + 1, r)
  {
    hide Ignored, Arrow, Key, Short, Countless, Locks, EntryOf;
    KindsApart(lines[n]);
    LaterFine(lines, n);
    forall key | key in r.entries ensures EntryOf(lines, n + 1, key, r.entries[key]) {
      EntryStays(lines, n, key, r.entries[key]);
    }
    var m := n + 1;
    assert forall key :: Waits(lines, m, key) <==> Waits(lines, n, key);
  }

  lemma StrayStep(lines: seq<string>, n: nat, r: Reading)
    requires n < |lines| && r.Reading? && ReadSo(lines, n, r) && Arrow(lines[n]) && r.pending == None
    ensures ReadSo(lines, n + 1, r)
  {
    hide Short, Countless, Locks, EntryOf, Key;
    KindsApart(lines[n]);
    LaterFine(lines, n);
    hide Ignored;
    forall key | key in r.entries ensures EntryOf(lines, n + 1, key, r.entries[key]) {
      EntryStays(lines, n, key, r.entries[key]);
    }
    var m := n + 1;
    assert forall key :: !Waits(lines, m, key);
  }

  lemma OneLast(lines: seq<string>, n: nat, key: string, i: nat, j: nat)
    requires LastKey(lines, n, key, i) && LastKey(lines, n, key, j)
    ensures i == j
  {
    hide Locks;
  }

  lemma WaitsLast(lines: seq<string>, n: nat, key: string) returns (i: nat)
    requires Waits(lines, n, key)
    ensures LastKey(lines, n, key, i) && forall j :: i < j < n ==> Ignored(lines[j]) && !Arrow(lines[j])
  {
    i :| i < n <= |lines| && Locks(lines[i], key) && forall j :: i < j < n ==> Ignored(lines[j]);
    hide Ignored, Arrow, Key, Locks;
    forall j | i < j < n ensures !Locks(lines[j], key) && !Arrow(lines[j]) {
      KindsApart(lines[j]);
    }
  }

  lemma ToldEntry(lines: seq<string>, n: nat, key: string, e: Entry, citedBy: seq<string>, snippet: string)
    requires n < |lines| && EntryOf(lines, n, key, e) && Waits(lines, n, key) && Arrow(lines[n])
    requires |lines[n]| >= 5 && Says(lines[n], citedBy, snippet)
    ensures EntryOf(lines, n + 1, key, e.(citedBy := citedBy, snippet := snippet))
  {
    hide Ignored, Arrow, Key, Locks, Words, WordCounts, Says;
    KindsApart(lines[n]);
    var i := WaitsLast(lines, n, key);
    var k: nat :| LastKey(lines, n, key, k) && EntryIs(lines, n, k, e);
    OneLast(lines, n, key, i, k);
    var m := n + 1;
    assert LastKey(lines, m, key, i);
    assert Told(lines, m, i, n);
    assert forall c: nat :: Told(lines, m, i, c) ==> c == n;
    assert EntryIs(lines, m, i, e.(citedBy := citedBy, snippet := snippet));
  }

  lemma OneWaits(lines: seq<string>, n: nat, a: string, b: string)
    requires Waits(lines, n, a) && Waits(lines, n, b)
    ensures a == b
  {
    var i: nat :| i < n <= |lines| && Locks(lines[i], a) && forall j :: i < j < n ==> Ignored(lines[j]);
    var k: nat :| k < n <= |lines| && Locks(lines[k], b) && forall j :: k < j < n ==> Ignored(lines[j]);
    KindsApart(lines[i]);
    KindsApart(lines[k]);
    hide Ignored, Words, Key;
  }

  lemma ArrowStep(lines: seq<string>, n: nat, r: Reading, key: string, citedBy: seq<string>, snippet: string)
    requires n < |lines| && r.Reading? && ReadSo(lines, n, r) && Arrow(lines[n]) && r.pending == Some(key)
    requires |lines[n]| >= 5 && Says(lines[n], citedBy, snippet)
    ensures key in r.entries
    ensures ReadSo(lines, n + 1, Reading(r.entries[key := r.entries[key].(citedBy := citedBy, snippet := snippet)], None))
  {
    hide Short, Countless, Locks, EntryOf, Key, Says;
    assert Waits(lines, n, key);
    KindsApart(lines[n]);
    LaterFine(lines, n);
    hide Ignored;
    var e := r.entries[key].(citedBy := citedBy, snippet := snippet);
    var after := r.entries[key := e];
    ToldEntry(lines, n, key, r.entries[key], citedBy, snippet);
    forall k | k in after ensures EntryOf(lines, n + 1, k, after[k]) {
      if k != key {
        EntryStays(lines, n, k, r.entries[k]);
      }
    }
    var m := n + 1;
    assert forall k :: !Waits(lines, m, k);
  }

  lemma KeyStep(lines: seq<string>, n: nat, r: Reading, count: int)
    requires n < |lines| && r.Reading? && ReadSo(lines, n, r) && Key(lines[n])
    requires |Words(lines[n])| >= 3 && WordCounts(Words(lines[n])[2], count)
    ensures var w := Words(lines[n]);
            ReadSo(lines, n + 1, Reading(r.entries[w[0] := Entry(w[1], count, [], "")], Some(w[0])))
  {
    hide WordCounts, EntryOf;
    KindsApart(lines[n]);
    var w := Words(lines[n]);
    LaterFine(lines, n);
    assert forall key :: Locks(lines[n], key) <==> key == w[0];
    assert !Arrow(lines[n]) && !Ignored(lines[n]);
    hide Words, Locks, Ignored, Arrow, Key, Fine;
    var e := Entry(w[1], count, [], "");
    NewEntry(lines, n, w, e);
    var after := r.entries[w[0] := e];
    forall k | k in after ensures EntryOf(lines, n + 1, k, after[k]) {
      if k != w[0] {
        EntryStays(lines, n, k, r.entries[k]);
      }
    }
    var m := n + 1;
    assert forall k :: Waits(lines, m, k) <==> k == w[0];
  }

  lemma NewEntry(lines: seq<string>, n: nat, w: seq<string>, e: Entry)
    requires n < |lines| && w == Words(lines[n]) && |w| >= 3 && Key(lines[n])
    requires e == Entry(w[1], e.lines, [], "") && WordCounts(w[2], e.lines)
    ensures EntryOf(lines, n + 1, w[0], e)
  {
    hide Words, WordCounts, Ignored;
    assert LastKey(lines, n + 1, w[0], n) && EntryIs(lines, n + 1, n, e);
  }

  /** What a line does, by its kind. */
  lemma LineKinds(line: string, r: Reading)
    requires r.Reading?
    ensures Ignored(line) ==> StepLine(line, r) == r
    ensures Short(line) ==> StepLine(line, r) == Died
    ensures Countless(line) ==> StepLine(line, r) == Raised
    ensures Key(line) && |Words(line)| >= 3 ==> forall n :: WordCounts(Words(line)[2], n) ==>
              StepLine(line, r) == Reading(r.entries[Words(line)[0] := Entry(Words(line)[1], n, [], "")], Some(Words(line)[0]))
  {
    hide Words, WordCounts, LineCount, Partition, Cleaned, Split, Strip, LStrip, Ignored;
    IgnoredIff(line);
    if |Words(line)| >= 3 {
      forall n ensures WordCounts(Words(line)[2], n) <==> LineCount(Words(line)[2]) == Some(n) {
        WordCountIff(Words(line)[2], n);
      }
    }
  }

  /** The waiting entry with its citers and snippet. */
  function Tells(r: Reading, citedBy: seq<string>, snippet: string): Reading
    requires r.Reading? && r.pending.Some? && r.pending.value in r.entries
  {
    Reading(r.entries[r.pending.value := r.entries[r.pending.value].(citedBy := citedBy, snippet := snippet)], None)
  }

  lemma ArrowKind(line: string, r: Reading)
    requires r.Reading? && Arrow(line)
    ensures r.pending == None ==> StepLine(line, r) == r
    ensures r.pending.Some? && r.pending.value in r.entries ==>
              |line| >= 5 && exists citedBy, snippet :: Says(line, citedBy, snippet) && StepLine(line, r) == Tells(r, citedBy, snippet)
  {
    hide Words, Cleaned, Split, Strip, LStrip, Ignored;
    IgnoredIff(line);
    if r.pending.Some? && r.pending.value in r.entries {
      var told := Partition(line[5..], "  :: ");
      assert Says(line, Cleaned(Split(told.0, ',')), told.1);
    }
  }

  lemma StepReads(lines: seq<string>, n: nat, r: Reading)
    requires n < |lines| && ReadSo(lines, n, r)
    ensures ReadSo(lines, n + 1, StepLine(lines[n], r))
  {
    hide ReadSo, StepLine, Ignored, Short, Countless, Words, WordCounts, Says, Partition;
    if !r.Reading? {
      StoppedStep(lines, n, r);
      return;
    }
    KindsApart(lines[n]);
    LineKinds(lines[n], r);
    if Ignored(lines[n]) {
      IgnoredStep(lines, n, r);
    } else if Arrow(lines[n]) {
      ArrowKind(lines[n], r);
      if r.pending == None {
        StrayStep(lines, n, r);
      } else {
        PendingKnown(lines, n, r);
        var citedBy, snippet :| Says(lines[n], citedBy, snippet) && StepLine(lines[n], r) == Tells(r, citedBy, snippet);
        ArrowStep(lines, n, r, r.pending.value, citedBy, snippet);
      }
    } else {
      KeyLineStep(lines, n, r);
    }
  }

  lemma StoppedStep(lines: seq<string>, n: nat, r: Reading)
    requires n < |lines| && ReadSo(lines, n, r) && !r.Reading?
    ensures StepLine(lines[n], r) == r && ReadSo(lines, n + 1, r)
  {
    hide Short, Countless, Fine;
  }

  lemma PendingKnown(lines: seq<string>, n: nat, r: Reading)
    requires n <= |lines| && ReadSo(lines, n, r) && r.Reading? && r.pending.Some?
    ensures r.pending.value in r.entries
  {
    hide Locks, Ignored, Fine, EntryOf;
    assert Waits(lines, n, r.pending.value);
  }

  lemma KeyLineStep(lines: seq<string>, n: nat, r: Reading)
    requires n < |lines| && ReadSo(lines, n, r) && r.Reading? && Key(lines[n])
    ensures ReadSo(lines, n + 1, StepLine(lines[n], r))
  {
    hide ReadSo, StepLine, Ignored, Words, WordCounts;
    LineKinds(lines[n], r);
    if Short(lines[n]) || Countless(lines[n]) {
      BadStep(lines, n, r);
    } else {
      var count :| WordCounts(Words(lines[n])[2], count);
      KeyStep(lines, n, r, count);
    }
  }

  lemma BadStep(lines: seq<string>, n: nat, r: Reading)
    requires n < |lines| && ReadSo(lines, n, r) && r.Reading?
    ensures Short(lines[n]) ==> ReadSo(lines, n + 1, Died)
    ensures Countless(lines[n]) ==> ReadSo(lines, n + 1, Raised)
  {
    hide Short, Countless, Fine, EntryOf, Waits, Locks;
  }

  lemma {:induction false} ReadLast(lines: seq<string>, line: string, r: Reading)
    ensures ReadLines(lines + [line], r) == StepLine(line, ReadLines(lines, r))
  {
    hide StepLine;
    if lines == [] {
      assert [] + [line] == [line] && [line][1..] == [];
    } else {
      assert (lines + [line])[1..] == lines[1..] + [line];
      ReadLast(lines[1..], line, StepLine(lines[0], r));
    }
  }

  lemma {:induction false} PrefixReads(lines: seq<string>, n: nat)
    requires n <= |lines|
    ensures ReadSo(lines, n, ReadLines(lines[..n], Reading(map[], None)))
  {
    hide StepLine, ReadSo;
    if n == 0 {
      NothingRead(lines);
    } else {
      PrefixReads(lines, n - 1);
      StepReads(lines, n - 1, ReadLines(lines[..n - 1], Reading(map[], None)));
      ReadLast(lines[..n - 1], lines[n - 1], Reading(map[], None));
      assert lines[..n] == lines[..n - 1] + [lines[n - 1]];
    }
  }

  lemma NothingRead(lines: seq<string>)
    ensures ReadSo(lines, 0, Reading(map[], None))
  {
    hide Locks, Short, Countless;
  }

  /** Reading a lock: it stops at the first key line of too few words or without a count; else
      every key locked is read from its last key line, with the arrow behind it. */
  lemma LockReads(lines: seq<string>)
    ensures ReadSo(lines, |lines|, ReadLines(lines, Reading(map[], None)))
  {
    hide ReadSo;
    PrefixReads(lines, |lines|);
    assert lines[..|lines|] == lines;
  }
}
