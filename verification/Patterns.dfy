/** What the parser's patterns match, said of the text (scripts/check-citation-drift.py:75-111,
    388-430). */
module Patterns {
  import opened Text
  import opened Citations

  // ------------------------------------------------------------------ characters

  /** Where the character classes begin and end. */
  lemma CharClasses(c: char)
    ensures IsPathChar(c) <==> 'a' <= c <= 'z' || 'A' <= c <= 'Z' || '0' <= c <= '9' || c in "_./-"
    ensures Continues(c) <==> 'a' <= c <= 'z' || 'A' <= c <= 'Z' || '0' <= c <= '9' || c in "./-"
  {
    assert "_./-" == ['_', '.', '/', '-'] && "./-" == ['.', '/', '-'];
  }

  // ------------------------------------------------------------------ span lists

  predicate Digits(t: string, i: nat, e: nat) {
    i <= e <= |t| && forall k :: i <= k < e ==> IsDigit(t[k])
  }

  lemma {:induction false} DigitsEndIs(t: string, i: nat, e: nat)
    requires Digits(t, i, e) && (e < |t| ==> !IsDigit(t[e]))
    ensures DigitsEnd(t, i) == e
    decreases e - i
  {
    if i < e {
      DigitsEndIs(t, i + 1, e);
    }
  }

  lemma NumberIs(t: string, i: nat, e: nat)
    requires i <= e <= |t|
    ensures IsNumberText(t[i..e]) <==> i < e && Digits(t, i, e)
  {
    assert forall k :: i <= k < e ==> t[i..e][k - i] == t[k];
  }

  /** A number, or two with a dash between. */
  lemma ChunkIff(t: string, i: nat, e: nat)
    requires i <= e <= |t|
    ensures IsChunk(t[i..e]) <==>
            || (i < e && Digits(t, i, e))
            || exists m :: i < m < e - 1 && t[m] == '-' && Digits(t, i, m) && Digits(t, m + 1, e)
  {
    var s := t[i..e];
    var k := IndexOfChar(s, '-');
    assert forall j :: i <= j < e ==> s[j - i] == t[j];
    NumberIs(t, i, e);
    if k < |s| {
      var m := i + k;
      assert s[..k] == t[i..m] && s[k + 1..] == t[m + 1..e];
      NumberIs(t, i, m);
      NumberIs(t, m + 1, e);
      assert t[m] == '-';
      if m' :| i < m' < e - 1 && t[m'] == '-' && Digits(t, i, m') && Digits(t, m' + 1, e) {
        assert m' == m;
      }
    }
  }

  lemma ChunkEndIs(t: string, i: nat, e: nat)
    requires i < e <= |t| && IsChunk(t[i..e]) && (e < |t| ==> !IsDigit(t[e]) && t[e] != '-')
    ensures IsDigit(t[i]) && ChunkEnd(t, i) == e
  {
    hide IsChunk;
    ChunkIff(t, i, e);
    if Digits(t, i, e) {
      DigitsEndIs(t, i, e);
    } else {
      var m :| i < m < e - 1 && t[m] == '-' && Digits(t, i, m) && Digits(t, m + 1, e);
      DigitsEndIs(t, i, m);
      DigitsEndIs(t, m + 1, e);
    }
  }

  /** The pattern accepts a list that ends at `e`: numbers and pairs joined by commas, with nothing
      behind that would make the numbers part of something else. */
  predicate Accepts(t: string, i: nat, e: nat) {
    i < e <= |t| && IsSpanList(t[i..e]) && (e < |t| ==> !Continues(t[e]))
  }

  /** A list is its first chunk, or that, a comma and a list. */
  lemma ListHead(t: string, i: nat, e: nat) returns (c: nat)
    requires i < e <= |t| && IsSpanList(t[i..e])
    ensures i < c <= e && IsChunk(t[i..c]) && (c < e ==> t[c] == ',' && c + 1 < e && IsSpanList(t[c + 1..e]))
  {
    var s := t[i..e];
    var k := IndexOfChar(s, ',');
    var parts := Split(s, ',');
    assert parts[0] in parts;
    c := i + k;
    assert s[..k] == t[i..c];
    if k < |s| {
      assert s[k + 1..] == t[c + 1..e] && s[k] == t[c];
      assert parts == [s[..k]] + Split(s[k + 1..], ',');
      assert forall p <- Split(s[k + 1..], ',') :: p in parts;
      NotEmptyChunks(t[c + 1..e]);
    } else {
      assert s == s[..k];
    }
    NotEmptyChunk(t[i..c]);
  }

  lemma NotEmptyChunk(s: string)
    requires IsChunk(s)
    ensures s != ""
  {
  }

  lemma NotEmptyChunks(s: string)
    requires IsSpanList(s)
    ensures s != ""
  {
    if s == "" {
      SplitNone(s, ',');
      assert "" in Split(s, ',');
      NotEmptyChunk("");
    }
  }

  lemma NotGoingOn(c: char)
    requires !Continues(c)
    ensures !IsDigit(c) && c != '-'
  {
  }

  lemma CommaEnds()
    ensures !Continues(',') && !IsDigit(',') && ',' != '-'
  {
  }

  /** Every list accepted at `i` begins with the chunk there and ends with it, or goes on behind a
      comma. */
  lemma AcceptsStep(t: string, i: nat, e: nat)
    requires Accepts(t, i, e)
    ensures IsDigit(t[i]) && var k := ChunkEnd(t, i); e == k || (k < |t| && t[k] == ',' && Accepts(t, k + 1, e))
  {
    hide IsSpanList, Continues, IsChunk, IsDigit;
    CommaEnds();
    var c := ListHead(t, i, e);
    if c == e && e < |t| {
      NotGoingOn(t[e]);
    }
    ChunkEndIs(t, i, c);
  }

  /** The list found is the longest that the pattern accepts; none is found when it accepts none. */
  lemma {:induction false} SpanListEndIff(t: string, i: nat)
    requires i <= |t|
    ensures var end := SpanListEnd(t, i);
      && (end.Some? ==> Accepts(t, i, end.value) && forall e: nat :: Accepts(t, i, e) ==> e <= end.value)
      && (end == None ==> forall e: nat :: !Accepts(t, i, e))
    decreases |t| - i
  {
    hide IsSpanList, Continues, IsChunk, ChunkEnd, Accepts;
    forall e: nat | Accepts(t, i, e)
      ensures i < |t| && IsDigit(t[i]) && (e == ChunkEnd(t, i) || (ChunkEnd(t, i) < |t| && t[ChunkEnd(t, i)] == ',' && Accepts(t, ChunkEnd(t, i) + 1, e)))
    {
      AcceptsInside(t, i, e);
      AcceptsStep(t, i, e);
    }
    if i < |t| && IsDigit(t[i]) {
      var k := ChunkEnd(t, i);
      if k < |t| && t[k] == ',' {
        SpanListEndIff(t, k + 1);
        CommaEnds();
        AcceptsComma(t, i);
      } else {
        AcceptsChunk(t, i);
      }
    }
  }

  lemma AcceptsInside(t: string, i: nat, e: nat)
    requires Accepts(t, i, e)
    ensures i < e <= |t|
  {
  }

  lemma AcceptsChunk(t: string, i: nat)
    requires i < |t| && IsDigit(t[i])
    ensures var k := ChunkEnd(t, i); Accepts(t, i, k) <==> k == |t| || !Continues(t[k])
  {
    hide Continues, IsChunk, IsSpanList;
    OneChunk(t[i..ChunkEnd(t, i)]);
  }

  lemma AcceptsComma(t: string, i: nat)
    requires i < |t| && IsDigit(t[i]) && ChunkEnd(t, i) < |t| && t[ChunkEnd(t, i)] == ','
    ensures Accepts(t, i, ChunkEnd(t, i))
    ensures forall e: nat :: Accepts(t, ChunkEnd(t, i) + 1, e) ==> Accepts(t, i, e)
  {
    hide Continues, IsChunk, IsSpanList;
    var k := ChunkEnd(t, i);
    CommaEnds();
    OneChunk(t[i..k]);
    forall e: nat | Accepts(t, k + 1, e) ensures Accepts(t, i, e) {
      MoreChunks(t[i..k], t[k + 1..e]);
      assert t[i..e] == t[i..k] + [','] + t[k + 1..e];
    }
  }

  // ------------------------------------------------------------------- citations

  predicate ListTo(t: string, c: nat, e: nat) {
    Accepts(t, c + 1, e)
  }

  /** At `c` stands a colon with a list behind it that ends at `e`, the longest there. */
  predicate ColonTo(t: string, c: nat, e: nat) {
    && c < |t| && t[c] == ':' && ListTo(t, c, e)
    && forall f :: e < f <= |t| ==> !ListTo(t, c, f)
  }

  lemma ColonToIff(t: string, c: nat, e: nat)
    requires c < |t|
    ensures ColonTo(t, c, e) <==> t[c] == ':' && SpanListEnd(t, c + 1) == Some(e)
  {
    hide Accepts, SpanListEnd;
    SpanListEndIff(t, c + 1);
    var end := SpanListEnd(t, c + 1);
    forall f: nat | ListTo(t, c, f) ensures end.Some? && f <= end.value && f <= |t| {
      assert Accepts(t, c + 1, f);
      AcceptsInside(t, c + 1, f);
    }
    assert end.Some? ==> ListTo(t, c, end.value);
  }

  ghost predicate SomeColon(t: string, c: nat) {
    exists e: nat :: ColonTo(t, c, e)
  }

  lemma {:induction false} NextColonIff(t: string, from: nat)
    requires from <= |t|
    ensures var c := NextColon(t, from);
      && (c.Some? ==> from <= c.value && SomeColon(t, c.value) && forall d: nat :: from <= d < c.value ==> !SomeColon(t, d))
      && (c == None ==> forall d: nat :: from <= d ==> !SomeColon(t, d))
    decreases |t| - from
  {
    hide ColonTo, SpanListEnd;
    forall d: nat | SomeColon(t, d) ensures d < |t| {
      var e: nat :| ColonTo(t, d, e);
      ColonInside(t, d, e);
    }
    if from < |t| {
      if SomeColon(t, from) {
        var e: nat :| ColonTo(t, from, e);
        ColonToIff(t, from, e);
      } else {
        if t[from] == ':' && SpanListEnd(t, from + 1).Some? {
          ColonToIff(t, from, SpanListEnd(t, from + 1).value);
        }
        NextColonIff(t, from + 1);
      }
    }
  }

  lemma ColonInside(t: string, c: nat, e: nat)
    ensures ColonTo(t, c, e) ==> c < |t|
  {
  }

  lemma Extensions(ext: string)
    ensures ext in CITED_EXTS <==>
            ext in {"rs", "ts", "tsx", "js", "mjs", "json", "toml", "sh", "py", "md", "html", "css", "yml", "yaml"}
  {
  }

  /** The run of path characters in front of `c`, from `s` on; it does not reach back over `lo`. */
  predicate PathRun(t: string, lo: nat, s: nat, c: nat) {
    lo <= s <= c <= |t| && (forall k :: s <= k < c ==> IsPathChar(t[k])) && (s > lo ==> !IsPathChar(t[s - 1]))
  }

  lemma {:induction false} RunStartIs(t: string, lo: nat, s: nat, c: nat)
    requires lo <= c <= |t|
    ensures PathRun(t, lo, s, c) <==> s == RunStart(t, lo, c)
    decreases c
  {
    hide IsPathChar;
    if c > lo && IsPathChar(t[c - 1]) {
      RunStartIs(t, lo, s, c - 1);
    }
  }

  /** A name and one of the known extensions. */
  ghost predicate Recognised(run: string) {
    exists stem: string, ext :: stem != "" && ext in CITED_EXTS && run == stem + "." + ext
  }

  predicate TailIs(run: string, ext: string) {
    |run| > |ext| + 1 && run[|run| - |ext| - 1..] == "." + ext
  }

  lemma TailIff(run: string, ext: string)
    ensures TailIs(run, ext) <==> exists stem: string :: stem != "" && run == stem + "." + ext
  {
    if TailIs(run, ext) {
      assert run == run[..|run| - |ext| - 1] + "." + ext;
    }
    if stem: string :| stem != "" && run == stem + "." + ext {
      assert run == stem + ("." + ext);
    }
  }

  lemma KnownTail(run: string)
    ensures EndsInKnownExt(run) <==> exists ext :: ext in CITED_EXTS && TailIs(run, ext)
  {
    hide CITED_EXTS;
    if EndsInKnownExt(run) {
      var ext :| ext in CITED_EXTS && |run| > |ext| + 1 && run[|run| - |ext| - 1..] == "." + ext;
      assert TailIs(run, ext);
    }
  }

  lemma RecognisedIff(run: string)
    ensures Recognised(run) <==> EndsInKnownExt(run)
  {
    hide CITED_EXTS, TailIs;
    if EndsInKnownExt(run) {
      KnownTail(run);
      var ext :| ext in CITED_EXTS && TailIs(run, ext);
      TailIff(run, ext);
    }
    if stem: string, ext :| stem != "" && ext in CITED_EXTS && run == stem + "." + ext {
      TailIff(run, ext);
      KnownTail(run);
    }
  }

  /** One match from `from` on: the first colon with a list behind it, that list, and the path in
      front, if the run of path characters there ends in a known extension. */
  ghost predicate FirstMatch(t: string, from: nat, m: Match) {
    && from <= m.start <= m.colon && ColonTo(t, m.colon, m.end)
    && (forall d: nat :: from <= d < m.colon ==> !SomeColon(t, d))
    && exists s: nat :: PathRun(t, from, s, m.colon) && m.start == if Recognised(t[s..m.colon]) then s else m.colon
  }

  lemma NextMatchIff(t: string, from: nat)
    requires from <= |t|
    ensures forall m: Match :: NextMatch(t, from) == Some(m) <==> FirstMatch(t, from, m)
    ensures NextMatch(t, from) == None <==> forall d: nat :: from <= d ==> !SomeColon(t, d)
  {
    hide Recognised, EndsInKnownExt, IsPathChar, ColonTo, PathRun, SpanListEnd, NextColon, IsMatch, Accepts;
    NextColonIff(t, from);
    var c := NextColon(t, from);
    if c.Some? {
      var k := c.value;
      forall e: nat ensures ColonTo(t, k, e) <==> SpanListEnd(t, k + 1) == Some(e) {
        ColonToIff(t, k, e);
      }
      var run := RunStart(t, from, k);
      forall s: nat ensures PathRun(t, from, s, k) <==> s == run {
        RunStartIs(t, from, s, k);
      }
      RecognisedIff(t[run..k]);
    }
    forall m: Match | FirstMatch(t, from, m) ensures NextMatch(t, from) == Some(m) {
      assert SomeColon(t, m.colon);
      assert c.Some? && c.value == m.colon;
    }
    if m :| NextMatch(t, from) == Some(m) {
      assert SomeColon(t, m.colon);
      assert PathRun(t, from, RunStart(t, from, m.colon), m.colon);
      assert FirstMatch(t, from, m);
    }
  }

  // ------------------------------------------------------------------ code spans

  /** Backticks at `a` and before `b`, something between, and no backtick in it. */
  predicate CodeAt(line: string, a: nat, b: nat) {
    a + 2 < b <= |line| && line[a] == '`' && line[b - 1] == '`' && forall k :: a < k < b - 1 ==> line[k] != '`'
  }

  lemma TickFound(line: string, from: nat)
    ensures var a := Find(line, "`", from);
      && (a >= 0 ==> from <= a < |line| && line[a] == '`' && forall k :: from <= k < a ==> line[k] != '`')
      && (a < 0 ==> forall k :: from <= k < |line| ==> line[k] != '`')
  {
    BacktickThere(line);
    forall k | 0 <= k < |line| && line[k] == '`' ensures OccursAt(line, "`", k) {
      assert line[k..k + 1] == [line[k]];
    }
    hide OccursAt;
  }

  /** The next code span is the first one from there on. */
  lemma {:induction false} NextSpanIff(line: string, from: nat)
    ensures var s := NextSpan(line, from); s.Some? ==> from <= s.value.start && CodeAt(line, s.value.start, s.value.end)
    ensures var s := NextSpan(line, from); s.Some? ==> forall a: nat, b: nat :: from <= a < s.value.start ==> !CodeAt(line, a, b)
    ensures NextSpan(line, from) == None ==> forall a: nat, b: nat :: from <= a ==> !CodeAt(line, a, b)
    decreases |line| - from
  {
    hide Find, OccursAt;
    TickFound(line, from);
    var a := Find(line, "`", from);
    if a >= 0 {
      TickFound(line, a + 1);
      var b := Find(line, "`", a + 1);
      if b == a + 1 {
        NextSpanIff(line, a + 1);
      }
    }
  }

  lemma OneCode(line: string, a: nat, b: nat, c: nat)
    ensures CodeAt(line, a, b) && CodeAt(line, a, c) ==> b == c
  {
  }

  // ----------------------------------------------------------------------- names

  /** The last part of a path: all of it, or what stands behind its last slash. */
  lemma BasenameIff(path: string, name: string)
    requires '/' !in name
    ensures Basename(path) == name <==> path == name || exists dir: string :: path == dir + "/" + name
  {
    NoSlash(path);
    hide LastIndexOf;
    var k := LastIndexOf(path, '/');
    if Basename(path) == name && k >= 0 {
      assert path == path[..k] + "/" + name;
    }
    if dir: string :| path == dir + "/" + name {
      BehindSlash(dir, name);
    }
  }

  lemma BehindSlash(dir: string, name: string)
    requires '/' !in name
    ensures Basename(dir + "/" + name) == name
  {
    LastIndexIs(dir, '/', name);
    assert dir + "/" + name == dir + ['/'] + name;
  }

  lemma NoSlash(path: string)
    ensures '/' !in path ==> Basename(path) == path
  {
  }

  /** A name without a slash has an extension when something other than dots stands before its last
      dot. */
  lemma ExtensionIff(name: string, ext: string)
    requires ext != "" && '.' !in ext
    ensures ExtensionOf(name) == ext <==> exists stem: string :: name == stem + "." + ext && exists c <- stem :: c != '.'
  {
    var dot := LastIndexOf(name, '.');
    if ExtensionOf(name) == ext {
      var stem := name[..dot];
      assert name == stem + "." + ext;
      var k :| 0 <= k < dot && name[k] != '.';
      assert stem[k] in stem;
    }
    if stem: string :| name == stem + "." + ext && exists c <- stem :: c != '.' {
      LastIndexIs(stem, '.', ext);
      assert name == stem + ['.'] + ext;
      var c :| c in stem && c != '.';
      var k :| 0 <= k < |stem| && stem[k] == c;
      assert name[k] == c;
      assert name[|stem| + 1..] == ext;
    }
  }
}
