/** What a citation is: the shapes the parser's patterns recognise and the file a token names
    (scripts/check-citation-drift.py:75-111, 335-509). */
module Citations {
  import opened Text

  datatype Citation = Citation(doc: string, docLine: nat, raw: string, target: string, start: nat, end: nat)

  /** The tree tokens are resolved in: its files, and its names with the paths carrying them. */
  datatype Tree = Tree(files: set<string>, basenames: map<string, seq<string>>)

  // --------------------------------------------------------------- characters

  predicate IsLetter(c: char) {
    'a' <= c <= 'z' || 'A' <= c <= 'Z'
  }

  predicate IsPathChar(c: char) {
    IsLetter(c) || IsDigit(c) || c == '_' || c == '.' || c == '/' || c == '-'
  }

  /** What may not follow a span list: it would make the numbers part of something else. */
  predicate Continues(c: char) {
    IsLetter(c) || IsDigit(c) || c == '.' || c == '/' || c == '-'
  }

  // --------------------------------------------------------------- span lists

  predicate IsNumberText(s: string) {
    s != "" && AllDigits(s)
  }

  predicate IsChunk(s: string) {
    var k := IndexOfChar(s, '-');
    if k == |s| then IsNumberText(s) else IsNumberText(s[..k]) && IsNumberText(s[k + 1..])
  }

  function ChunkRange(s: string): (nat, nat)
    requires IsChunk(s)
  {
    var k := IndexOfChar(s, '-');
    if k == |s| then (Number(s), Number(s)) else (Number(s[..k]), Number(s[k + 1..]))
  }

  predicate IsSpanList(s: string) {
    forall p <- Split(s, ',') :: IsChunk(p)
  }

  predicate LegalRange(r: (nat, nat)) {
    1 <= r.0 <= r.1
  }

  function DigitsEnd(t: string, i: nat): (e: nat)
    requires i <= |t|
    ensures i <= e <= |t| && AllDigits(t[i..e])
    ensures e < |t| ==> !IsDigit(t[e])
    decreases |t| - i
  {
    if i == |t| || !IsDigit(t[i]) then i
    else
      var e := DigitsEnd(t, i + 1);
      assert forall k :: 0 < k < e - i ==> t[i..e][k] == t[i + 1..e][k - 1];
      e
  }

  /** Where the chunk at `i` ends: digits, and a dash with digits when they follow. */
  function ChunkEnd(t: string, i: nat): (e: nat)
    requires i < |t| && IsDigit(t[i])
    ensures i < e <= |t| && IsChunk(t[i..e]) && Lacks(t[i..e], ',')
  {
    var j := DigitsEnd(t, i);
    assert j > i;
    if j + 1 < |t| && t[j] == '-' && IsDigit(t[j + 1]) then
      var e := DigitsEnd(t, j + 1);
      assert t[i..e] == t[i..j] + ("-" + t[j + 1..e]);
      IndexOfCharIs(t[i..j], '-', "-" + t[j + 1..e]);
      e
    else
      assert t[i..j] == t[i..j] + "";
      IndexOfCharIs(t[i..j], '-', "");
      j
  }

  /** The end of the longest span list at `i` that the pattern accepts, with its backtracking
      over commas: a comma that starts no acceptable continuation ends the list before it. */
  function SpanListEnd(t: string, i: nat): (e: Option<nat>)
    requires i <= |t|
    ensures e.Some? ==> i < e.value <= |t| && IsSpanList(t[i..e.value])
    decreases |t| - i
  {
    if i == |t| || !IsDigit(t[i]) then None
    else
      var k := ChunkEnd(t, i);
      OneChunk(t[i..k]);
      if k == |t| then Some(k)
      else if t[k] == ',' then
        match SpanListEnd(t, k + 1)
        case Some(e) => MoreChunks(t[i..k], t[k + 1..e]); assert t[i..e] == t[i..k] + [','] + t[k + 1..e]; Some(e)
        case None => Some(k)
      else if Continues(t[k]) then None
      else Some(k)
  }

  lemma OneChunk(chunk: string)
    requires IsChunk(chunk) && Lacks(chunk, ',')
    ensures IsSpanList(chunk)
  {
    SplitNone(chunk, ',');
  }

  lemma MoreChunks(chunk: string, rest: string)
    requires IsChunk(chunk) && Lacks(chunk, ',') && IsSpanList(rest)
    ensures IsSpanList(chunk + [','] + rest)
  {
    SplitFirst(chunk, ',', rest);
  }

  // ------------------------------------------------------- matches in a span

  /** Start of the run of path characters of `t` that ends at `c`, not before `lo`. */
  function RunStart(t: string, lo: nat, c: nat): (s: nat)
    requires lo <= c <= |t|
    ensures lo <= s <= c
    ensures forall k :: s <= k < c ==> IsPathChar(t[k])
  {
    if c > lo && IsPathChar(t[c - 1]) then RunStart(t, lo, c - 1) else c
  }

  const CITED_EXTS: seq<string> :=
    ["rs", "ts", "tsx", "js", "mjs", "json", "toml", "sh", "py", "md", "html", "css", "yml", "yaml"]

  predicate EndsInKnownExt(run: string) {
    exists ext <- CITED_EXTS :: |run| > |ext| + 1 && run[|run| - |ext| - 1..] == "." + ext
  }

  /** One match of the citation pattern: an optional path, the colon, the span list. */
  datatype Match = Match(start: nat, colon: nat, end: nat)

  predicate IsMatch(t: string, from: nat, m: Match) {
    && from <= m.start <= m.colon < m.end <= |t| && t[m.colon] == ':'
    && IsSpanList(t[m.colon + 1..m.end])
    && forall k :: m.start <= k < m.colon ==> IsPathChar(t[k])
  }

  /** Where the match whose colon is at `c` starts: at a recognised path, or at the colon. */
  function MatchStart(t: string, from: nat, c: nat): (s: nat)
    requires from <= c <= |t|
    ensures from <= s <= c && forall k :: s <= k < c ==> IsPathChar(t[k])
  {
    var s := RunStart(t, from, c);
    if EndsInKnownExt(t[s..c]) then s else c
  }

  /** The first colon at or after `c` that an acceptable span list follows. */
  function NextColon(t: string, c: nat): (k: Option<nat>)
    requires c <= |t|
    ensures k.Some? ==> c <= k.value < |t| && t[k.value] == ':' && SpanListEnd(t, k.value + 1).Some?
    decreases |t| - c
  {
    if c == |t| then None
    else if t[c] == ':' && SpanListEnd(t, c + 1).Some? then Some(c)
    else NextColon(t, c + 1)
  }

  function NextMatch(t: string, from: nat): (m: Option<Match>)
    requires from <= |t|
    ensures m.Some? ==> IsMatch(t, from, m.value)
  {
    hide SpanListEnd, NextColon, IsMatch, MatchStart;
    match NextColon(t, from)
    case None => None
    case Some(c) => MatchThere(t, from, c); Some(Match(MatchStart(t, from, c), c, SpanListEnd(t, c + 1).value))
  }

  lemma MatchThere(t: string, from: nat, c: nat)
    requires from <= c < |t| && t[c] == ':' && SpanListEnd(t, c + 1).Some?
    ensures IsMatch(t, from, Match(MatchStart(t, from, c), c, SpanListEnd(t, c + 1).value))
  {
    hide SpanListEnd, IsSpanList, MatchStart, IsPathChar;
  }

  lemma BacktickThere(line: string)
    ensures forall a :: OccursAt(line, "`", a) ==> 0 <= a < |line| && line[a] == '`'
  {
    forall a | OccursAt(line, "`", a) ensures 0 <= a < |line| && line[a] == '`' {
      OccursChars(line, "`", a);
      assert "`"[0] == '`';
    }
  }

  /** A code span by its backticks: line[start] opens it and line[end - 1] closes it. */
  datatype Span = Span(start: nat, end: nat)

  function NextSpan(line: string, from: nat): (s: Option<Span>)
    ensures s.Some? ==> from <= s.value.start && s.value.start + 2 < s.value.end <= |line|
    ensures s.Some? ==> line[s.value.start] == '`' && line[s.value.end - 1] == '`'
    decreases |line| - from
  {
    BacktickThere(line);
    hide OccursAt;
    var a := Find(line, "`", from);
    if a < 0 then None
    else
      var b := Find(line, "`", a + 1);
      if b < 0 then None
      else if b == a + 1 then NextSpan(line, a + 1)
      else Some(Span(a, b + 1))
  }

  // --------------------------------------------------------- naming a file

  predicate IsUrlTail(before: string, token: string) {
    token != "" && token[0] == '/' && before != "" && before[|before| - 1] == ':'
  }

  /** The extension `os.path.splitext` sees in a name without a slash, without its dot. */
  function ExtensionOf(name: string): string {
    var dot := LastIndexOf(name, '.');
    if exists k :: 0 <= k < dot && name[k] != '.' then name[dot + 1..] else ""
  }

  predicate IsPathShaped(token: string, tree: Tree) {
    '/' in token || ExtensionOf(token) in CITED_EXTS || token in tree.basenames
  }

  function Basename(path: string): string {
    path[LastIndexOf(path, '/') + 1..]
  }

  /** The file a token names in `tree`, or None: an unresolved token is never a fallback. */
  function ResolveTarget(token: string, last: Option<string>, tree: Tree): Option<string> {
    if token in tree.files then Some(token)
    else if '/' in token then None
    else if last.Some? && Basename(last.value) == token then last
    else if token in tree.basenames && |tree.basenames[token]| == 1 then Some(tree.basenames[token][0])
    else None
  }

  // ------------------------------------------------------- ranges as written

  /** How the rewriter writes a range. */
  function SpanText(start: nat, end: nat): string {
    if start == end then Decimal(start) else Decimal(start) + "-" + Decimal(end)
  }

  lemma DigitsLack(s: string, c: char)
    requires AllDigits(s) && !IsDigit(c)
    ensures Lacks(s, c)
  {
  }

  lemma SpanTextReadsBack(start: nat, end: nat)
    ensures IsChunk(SpanText(start, end)) && Lacks(SpanText(start, end), ',') && Lacks(SpanText(start, end), ':')
    ensures ChunkRange(SpanText(start, end)) == (start, end)
  {
    var a, b := Decimal(start), Decimal(end);
    NumberOfDecimal(start);
    NumberOfDecimal(end);
    DigitsLack(a, '-');
    if start == end {
      IndexOfCharIs(a, '-', "");
      assert a + "" == a;
    } else {
      IndexOfCharIs(a, '-', "-" + b);
      assert a + "-" + b == a + ("-" + b);
      assert (a + ("-" + b))[|a| + 1..] == b;
    }
  }

  /** The text after a token's last colon, and before it (`raw.rpartition(":")`). */
  function SpansOf(raw: string): string {
    raw[LastIndexOf(raw, ':') + 1..]
  }

  function PathOf(raw: string): string {
    var k := LastIndexOf(raw, ':');
    if k < 0 then "" else raw[..k]
  }

  lemma SpansOfParts(path: string, spans: string)
    requires Lacks(spans, ':')
    ensures SpansOf(path + ":" + spans) == spans && PathOf(path + ":" + spans) == path
  {
    LastIndexIs(path, ':', spans);
    assert path + ":" + spans == path + [':'] + spans;
  }

  lemma ChunkLacksColon(s: string)
    requires IsChunk(s)
    ensures Lacks(s, ':')
  {
    var k := IndexOfChar(s, '-');
    forall i | 0 <= i < |s| ensures s[i] != ':' {
      if k < |s| {
        assert i < k ==> s[i] == s[..k][i];
        assert i > k ==> s[i] == s[k + 1..][i - k - 1];
      }
    }
  }

  lemma {:induction false} SpanListLacksColon(s: string)
    requires IsSpanList(s)
    ensures Lacks(s, ':')
    decreases |s|
  {
    var parts := Split(s, ',');
    var k := IndexOfChar(s, ',');
    ChunkLacksColon(parts[0]);
    if k < |s| {
      assert forall p <- parts[1..] :: p in parts;
      SpanListLacksColon(s[k + 1..]);
      forall i | 0 <= i < |s| ensures s[i] != ':' {
        assert i < k ==> s[i] == s[..k][i];
        assert i > k ==> s[i] == s[k + 1..][i - k - 1];
      }
    }
  }
}
