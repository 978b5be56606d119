/** Where a swapped span list sends the lines, the code spans and the sentence ends of its
    document (scripts/check-citation-drift.py:101-109, 512-538). */
module SwapStops {
  import opened Text
  import opened Citations
  import opened CitationParser
  import opened SpanSwap

  /** The region of line `i`. */
  datatype Site = Site(i: nat, r: Region)

  predicate SwappableIn(lines: seq<string>, x: Site) {
    x.i < |lines| && Swappable(lines[x.i], x.r)
  }

  function SwappedIn(lines: seq<string>, x: Site): seq<string>
    requires x.i < |lines| && x.r.start <= x.r.end <= |lines[x.i]|
  {
    lines[x.i := Swapped(lines[x.i], x.r)]
  }

  function Grow(r: Region): int {
    |r.text| - (r.end - r.start)
  }

  function ColumnTo(x: Site, docLine: nat, p: int): int {
    if docLine == x.i + 1 then To(x.r, p) else p
  }

  /** Where an offset of the document goes when the region ends at offset `cut`. */
  function OffsetTo(x: Site, cut: int, p: int): int {
    if p < cut then p else p + Grow(x.r)
  }

  function Cut(lines: seq<string>, x: Site): nat
    requires x.i <= |lines|
  {
    LineBase(lines, x.i) + x.r.end
  }

  // ------------------------------------------------------------- lines in the text

  lemma {:induction false} LineBaseTail(lines: seq<string>, k: nat)
    requires 0 < k <= |lines|
    ensures LineBase(lines, k) == |lines[0]| + 1 + LineBase(lines[1..], k - 1)
  {
    if k > 1 {
      LineBaseTail(lines, k - 1);
      assert lines[1..][k - 2] == lines[k - 1];
    }
  }

  lemma {:induction false} LineBaseGrows(lines: seq<string>, j: nat, k: nat)
    requires j < k <= |lines|
    ensures LineBase(lines, j) + |lines[j]| + 1 <= LineBase(lines, k)
  {
    if j + 1 < k {
      LineBaseGrows(lines, j, k - 1);
    }
  }

  lemma {:induction false} LineBaseMoves(lines: seq<string>, x: Site, k: nat)
    requires SwappableIn(lines, x) && k <= |lines|
    ensures LineBase(SwappedIn(lines, x), k) == if k <= x.i then LineBase(lines, k) else LineBase(lines, k) + Grow(x.r)
  {
    SwappedChars(lines[x.i], x.r);
    hide Swappable, Swapped;
    if k > 0 {
      LineBaseMoves(lines, x, k - 1);
    }
  }

  lemma JoinHead(lines: seq<string>)
    requires lines != []
    ensures |lines| == 1 ==> Join(lines, "\n") == lines[0]
    ensures |lines| > 1 ==> Join(lines, "\n") == (lines[0] + "\n") + Join(lines[1..], "\n")
  {
  }

  lemma JoinFirst(lines: seq<string>, now: string)
    requires lines != []
    ensures var t := Join(lines, "\n");
      && LineBase(lines, 0) == 0 && |lines[0]| <= |t| && t[0..|lines[0]|] == lines[0]
      && Join(lines[0 := now], "\n") == t[..0] + now + t[|lines[0]|..]
  {
    JoinHead(lines);
    JoinHead(lines[0 := now]);
    assert |lines| > 1 ==> lines[0 := now][1..] == lines[1..];
    hide Join;
    assert lines == [lines[0]] + lines[1..];
  }

  /** A line stands at its base in the joined text, and the text around it is the other lines'. */
  lemma {:induction false} JoinAround(lines: seq<string>, i: nat, now: string)
    requires i < |lines|
    ensures var t, a := Join(lines, "\n"), LineBase(lines, i);
      && a + |lines[i]| <= |t| && t[a..a + |lines[i]|] == lines[i]
      && Join(lines[i := now], "\n") == t[..a] + now + t[a + |lines[i]|..]
    decreases i
  {
    hide Join, LineBase;
    if i == 0 {
      JoinFirst(lines, now);
    } else {
      JoinHead(lines);
      JoinHead(lines[i := now]);
      var rest := lines[1..];
      JoinAround(rest, i - 1, now);
      LineBaseTail(lines, i);
      assert lines[i := now][1..] == rest[i - 1 := now];
      Prefixed(lines[0] + "\n", Join(rest, "\n"), LineBase(rest, i - 1), |lines[i]|, now);
    }
  }

  lemma Prefixed(head: string, tail: string, a: nat, n: nat, now: string)
    requires a + n <= |tail|
    ensures (head + tail)[|head| + a..|head| + a + n] == tail[a..a + n]
    ensures head + (tail[..a] + now + tail[a + n..]) == (head + tail)[..|head| + a] + now + (head + tail)[|head| + a + n..]
  {
  }

  /** The region as a stretch of the whole text. */
  function Whole(lines: seq<string>, x: Site): Region
    requires x.i <= |lines|
  {
    Region(LineBase(lines, x.i) + x.r.start, Cut(lines, x), x.r.text)
  }

  lemma JoinSwapped(lines: seq<string>, x: Site)
    requires SwappableIn(lines, x)
    ensures var t, w := Join(lines, "\n"), Whole(lines, x);
            w.start <= w.end <= |t| && Join(SwappedIn(lines, x), "\n") == Swapped(t, w)
  {
    hide IsSpanList, IsPathChar, Join, LineBase, Swapped;
    var t, a, line := Join(lines, "\n"), LineBase(lines, x.i), lines[x.i];
    JoinAround(lines, x.i, Swapped(line, x.r));
    Reassembled(t, a, line, x.r);
  }

  lemma JoinedChars(lines: seq<string>, x: Site)
    requires SwappableIn(lines, x)
    ensures var t, w := Join(lines, "\n"), Whole(lines, x);
            1 <= w.start <= w.end <= |t| && forall k :: w.start - 1 <= k < w.end ==> t[k] == ':' || IsListChar(t[k])
  {
    hide IsSpanList, IsPathChar, Join, LineBase, IsListChar;
    var t, a, line := Join(lines, "\n"), LineBase(lines, x.i), lines[x.i];
    JoinAround(lines, x.i, line);
    RegionChars(line, x.r);
    CharsThere(t, a, line, x.r);
  }

  lemma CharsThere(t: string, a: nat, line: string, r: Region)
    requires a + |line| <= |t| && t[a..a + |line|] == line && Swappable(line, r)
    requires forall k :: r.start <= k < r.end ==> IsListChar(line[k])
    ensures forall k :: a + r.start - 1 <= k < a + r.end ==> t[k] == ':' || IsListChar(t[k])
  {
    hide IsSpanList, IsPathChar, IsListChar;
    forall k | a + r.start - 1 <= k < a + r.end ensures t[k] == ':' || IsListChar(t[k]) {
      assert t[k] == t[a..a + |line|][k - a] == line[k - a];
    }
  }

  lemma Reassembled(t: string, a: nat, line: string, r: Region)
    requires a + |line| <= |t| && t[a..a + |line|] == line && r.start <= r.end <= |line|
    ensures t[..a] + Swapped(line, r) + t[a + |line|..] == Swapped(t, Region(a + r.start, a + r.end, r.text))
  {
    assert t[..a + r.start] == t[..a] + line[..r.start];
    assert t[a + r.end..] == line[r.end..] + t[a + |line|..];
  }

  // -------------------------------------------------------------------- stops

  lemma SentenceMoves(t: string, w: Region, s: nat)
    requires 1 <= w.start <= w.end <= |t| && 1 <= s <= |t| && EndsSentence(t, s - 1)
    requires w.start < w.end && w.text != ""
    requires forall k :: w.start - 1 <= k < w.end ==> t[k] == ':' || IsListChar(t[k])
    ensures s < w.start || w.end < s
    ensures var s' := To(w, s); 1 <= s' <= |Swapped(t, w)| && EndsSentence(Swapped(t, w), s' - 1)
  {
    SwappedChars(t, w);
    hide Swapped;
  }

  lemma BlankMoves(lines: seq<string>, x: Site, k: nat)
    requires SwappableIn(lines, x) && k < |lines| && Strip(lines[k]) == ""
    ensures k != x.i && SwappedIn(lines, x)[k] == lines[k]
    ensures LineBase(SwappedIn(lines, x), k) == OffsetTo(x, Cut(lines, x), LineBase(lines, k))
    ensures LineBase(lines, k) < LineBase(lines, x.i) + x.r.start || Cut(lines, x) < LineBase(lines, k)
  {
    hide IsSpanList, IsPathChar, Strip, LineBase, Swapped;
    NotBlank(lines[x.i], x.r);
    LineBaseMoves(lines, x, k);
    if k < x.i {
      LineBaseGrows(lines, k, x.i);
    } else {
      LineBaseGrows(lines, x.i, k);
    }
  }

  lemma NotBlank(line: string, r: Region)
    requires Swappable(line, r)
    ensures Strip(line) != ""
  {
    hide IsSpanList, IsPathChar;
    assert line[r.start - 1] in line && !IsSpace(':');
  }

  lemma StopMoves(lines: seq<string>, x: Site, s: nat)
    requires SwappableIn(lines, x) && IsStop(lines, s)
    ensures s < LineBase(lines, x.i) + x.r.start || Cut(lines, x) < s
    ensures OffsetTo(x, Cut(lines, x), s) >= 0 && IsStop(SwappedIn(lines, x), OffsetTo(x, Cut(lines, x), s))
  {
    ListChars(x.r.text);
    hide IsSpanList, IsPathChar, IsListChar, Join, LineBase, EndsSentence, Strip, Swapped;
    var t, u := Join(lines, "\n"), Join(SwappedIn(lines, x), "\n");
    if 1 <= s <= |t| && EndsSentence(t, s - 1) {
      JoinSwapped(lines, x);
      JoinedChars(lines, x);
      SentenceMoves(t, Whole(lines, x), s);
    } else {
      var k :| 0 <= k < |lines| && Strip(lines[k]) == "" && s == LineBase(lines, k);
      BlankMoves(lines, x, k);
      assert Strip(SwappedIn(lines, x)[k]) == "";
    }
  }

  /** The site that swaps the document back. */
  function BackIn(lines: seq<string>, x: Site): Site
    requires x.i < |lines| && x.r.start <= x.r.end <= |lines[x.i]|
  {
    Site(x.i, Back(lines[x.i], x.r))
  }

  lemma SwapBackIn(lines: seq<string>, x: Site)
    requires SwappableIn(lines, x)
    ensures var lines', y := SwappedIn(lines, x), BackIn(lines, x);
      && SwappableIn(lines', y) && SwappedIn(lines', y) == lines
      && LineBase(lines', x.i) == LineBase(lines, x.i) && Cut(lines', y) == Cut(lines, x) + Grow(x.r) && Grow(y.r) == -Grow(x.r)
  {
    SwapBack(lines[x.i], x.r);
    LineBaseMoves(lines, x, x.i);
    hide Swappable;
  }

  /** The offset is not inside the region nor at its colon's end. */
  predicate Outside(lines: seq<string>, x: Site, p: int)
    requires x.i <= |lines|
  {
    p < LineBase(lines, x.i) + x.r.start || Cut(lines, x) <= p
  }

  lemma StoppedMoves(lines: seq<string>, x: Site, a: int, b: int)
    requires SwappableIn(lines, x) && Outside(lines, x, a) && Outside(lines, x, b) && Stopped(lines, a, b)
    ensures Stopped(SwappedIn(lines, x), OffsetTo(x, Cut(lines, x), a), OffsetTo(x, Cut(lines, x), b))
  {
    ListChars(x.r.text);
    hide IsSpanList, IsPathChar, IsStop, IsListChar, LineBase;
    var s: nat :| a < s <= b && IsStop(lines, s);
    StopMoves(lines, x, s);
  }

  /** A stop lies between two places exactly when one did. */
  lemma StoppedAlike(lines: seq<string>, x: Site, a: int, b: int)
    requires SwappableIn(lines, x) && Outside(lines, x, a) && Outside(lines, x, b)
    ensures var cut := Cut(lines, x);
            Stopped(SwappedIn(lines, x), OffsetTo(x, cut, a), OffsetTo(x, cut, b)) <==> Stopped(lines, a, b)
  {
    var lines', y, cut := SwappedIn(lines, x), BackIn(lines, x), Cut(lines, x);
    var a', b' := OffsetTo(x, cut, a), OffsetTo(x, cut, b);
    SwapBackIn(lines, x);
    ListChars(x.r.text);
    hide IsSpanList, IsPathChar, Stopped, SwappableIn, SwappedIn, LineBase, IsListChar;
    if Stopped(lines, a, b) {
      StoppedMoves(lines, x, a, b);
    }
    if Stopped(lines', a', b') {
      StoppedMoves(lines', y, a', b');
    }
  }
}
