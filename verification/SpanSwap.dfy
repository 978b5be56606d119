/** A text in which one span list stands in another's place: which matches the citation pattern
    finds in it, and what the parser reads in them (scripts/check-citation-drift.py:80-99,
    388-429, 540-575). */
module SpanSwap {
  import opened Text
  import opened Citations
  import opened CitationParser
  import opened CitationScope

  /** The span list text[start..end] is to make room for `text`. */
  datatype Region = Region(start: nat, end: nat, text: string)

  /** A span list behind a colon, with no path character behind it, and the list to put there. */
  predicate Swappable(t: string, r: Region) {
    && 1 <= r.start < r.end <= |t| && t[r.start - 1] == ':'
    && IsSpanList(t[r.start..r.end]) && IsSpanList(r.text)
    && (r.end < |t| ==> !IsPathChar(t[r.end]))
  }

  function Swapped(t: string, r: Region): string
    requires r.start <= r.end <= |t|
  {
    t[..r.start] + r.text + t[r.end..]
  }

  /** Where a position outside the region goes. */
  function To(r: Region, p: int): int {
    if p < r.end then p else p + |r.text| - (r.end - r.start)
  }

  /** Neither inside the region nor between its colon and it. */
  predicate Past(r: Region, p: int) {
    r.end <= p || p < r.start
  }

  predicate IsListChar(c: char) {
    IsDigit(c) || c == ',' || c == '-'
  }

  // ------------------------------------------------------- what span lists are

  lemma ChunkChars(s: string)
    requires IsChunk(s)
    ensures s != "" && IsDigit(s[0]) && IsDigit(s[|s| - 1]) && forall k :: 0 <= k < |s| ==> IsListChar(s[k])
  {
    var k := IndexOfChar(s, '-');
    forall i | 0 <= i < |s| ensures IsListChar(s[i]) && (i == 0 || i == |s| - 1 ==> IsDigit(s[i])) {
      if k < |s| {
        assert i < k ==> s[i] == s[..k][i];
        assert i > k ==> s[i] == s[k + 1..][i - k - 1];
      }
    }
  }

  lemma {:induction false} ListChars(s: string)
    requires IsSpanList(s)
    ensures s != "" && IsDigit(s[0]) && IsDigit(s[|s| - 1]) && forall k :: 0 <= k < |s| ==> IsListChar(s[k])
    decreases |s|
  {
    hide IsChunk, IsListChar, IsDigit;
    FirstChunk(s);
    var k := IndexOfChar(s, ',');
    ChunkChars(s[..k]);
    if k < |s| {
      ListChars(s[k + 1..]);
      CommaIsListChar();
      forall i | 0 <= i < |s| ensures IsListChar(s[i]) {
        assert i < k ==> s[i] == s[..k][i];
        assert i > k ==> s[i] == s[k + 1..][i - k - 1];
      }
    }
  }

  lemma CommaIsListChar()
    ensures IsListChar(',')
  {
  }

  /** A list is a chunk, or a chunk, a comma and a list. */
  lemma FirstChunk(s: string)
    requires IsSpanList(s)
    ensures var k := IndexOfChar(s, ',');
            IsChunk(s[..k]) && (k == |s| ==> s[..k] == s) && (k < |s| ==> IsSpanList(s[k + 1..]))
  {
    hide IsChunk;
    var k := IndexOfChar(s, ',');
    assert Split(s, ',')[0] in Split(s, ',');
    if k < |s| {
      var rest := Split(s[k + 1..], ',');
      assert Split(s, ',') == [s[..k]] + rest;
    } else {
      assert s[..k] == s;
    }
  }

  // ------------------------------------------- the pattern looks no further back

  /** The texts agree from `i` and `j` on, to both ends or as far as a colon. */
  predicate SameAhead(t: string, i: nat, u: string, j: nat, n: nat) {
    && i + n <= |t| && j + n <= |u| && t[i..i + n] == u[j..j + n]
    && ((i + n == |t| && j + n == |u|) || (n > 0 && t[i + n - 1] == ':'))
  }

  lemma Ahead(t: string, i: nat, u: string, j: nat, n: nat)
    requires SameAhead(t, i, u, j, n)
    ensures i + n <= |t| && j + n <= |u|
    ensures n > 0 ==> t[i] == u[j] && (t[i] != ':' ==> SameAhead(t, i + 1, u, j + 1, n - 1))
    ensures n == 0 ==> i == |t| && j == |u|
  {
    if n > 0 {
      assert t[i] == t[i..i + n][0] == u[j..j + n][0] == u[j];
      assert t[i + 1..i + n] == t[i..i + n][1..] == u[j..j + n][1..] == u[j + 1..j + n];
    }
  }

  lemma {:induction false} DigitsLocal(t: string, i: nat, u: string, j: nat, n: nat)
    requires SameAhead(t, i, u, j, n)
    ensures i <= |t| && j <= |u| && DigitsEnd(t, i) - i == DigitsEnd(u, j) - j <= n
    ensures SameAhead(t, DigitsEnd(t, i), u, DigitsEnd(u, j), n - (DigitsEnd(t, i) - i))
    decreases n
  {
    hide SameAhead;
    Ahead(t, i, u, j, n);
    if n > 0 && IsDigit(t[i]) {
      DigitsLocal(t, i + 1, u, j + 1, n - 1);
    }
  }

  lemma ChunkLocal(t: string, i: nat, u: string, j: nat, n: nat)
    requires SameAhead(t, i, u, j, n) && i < |t| && IsDigit(t[i])
    ensures j < |u| && IsDigit(u[j])
    ensures ChunkEnd(t, i) - i == ChunkEnd(u, j) - j <= n
    ensures SameAhead(t, ChunkEnd(t, i), u, ChunkEnd(u, j), n - (ChunkEnd(t, i) - i))
  {
    hide SameAhead, DigitsEnd, IsDigit, IsChunk, Lacks, AllDigits;
    Ahead(t, i, u, j, n);
    DigitsLocal(t, i, u, j, n);
    var e, f := DigitsEnd(t, i), DigitsEnd(u, j);
    var m := n - (e - i);
    Ahead(t, e, u, f, m);
    if m > 0 && t[e] == '-' {
      Ahead(t, e + 1, u, f + 1, m - 1);
      DigitsLocal(t, e + 1, u, f + 1, m - 1);
    }
  }

  /** Where a list ends when a list stands up to `b` and nothing of it may follow: at `b`, or
      where the list behind a comma at `b` ends. */
  function EndFrom(t: string, b: nat): (e: nat)
    requires b <= |t|
    ensures b <= e <= |t|
  {
    hide IsSpanList;
    if b < |t| && t[b] == ',' && SpanListEnd(t, b + 1).Some? then SpanListEnd(t, b + 1).value else b
  }

  lemma ListUnfold(t: string, i: nat)
    requires i < |t| && IsDigit(t[i])
    ensures var k := ChunkEnd(t, i);
            SpanListEnd(t, i) == if k < |t| && t[k] != ',' && Continues(t[k]) then None else Some(EndFrom(t, k))
  {
    hide ChunkEnd, IsChunk, IsSpanList, Continues, IsDigit;
  }

  lemma EndLocal(t: string, i: nat, u: string, j: nat, n: nat)
    requires SameAhead(t, i, u, j, n) && i <= |t| && j <= |u|
    requires n > 0 && t[i] == ',' ==>
               && i + 1 <= |t| && j + 1 <= |u| && (SpanListEnd(t, i + 1).Some? <==> SpanListEnd(u, j + 1).Some?)
               && var e, f := SpanListEnd(t, i + 1), SpanListEnd(u, j + 1);
                  e.Some? ==> e.value - i == f.value - j <= n && SameAhead(t, e.value, u, f.value, n - (e.value - i))
    ensures EndFrom(t, i) - i == EndFrom(u, j) - j <= n
    ensures SameAhead(t, EndFrom(t, i), u, EndFrom(u, j), n - (EndFrom(t, i) - i))
  {
    hide SameAhead, SpanListEnd, IsSpanList;
    Ahead(t, i, u, j, n);
  }

  lemma {:induction false} ListLocal(t: string, i: nat, u: string, j: nat, n: nat)
    requires SameAhead(t, i, u, j, n)
    ensures i <= |t| && j <= |u| && (SpanListEnd(t, i).Some? <==> SpanListEnd(u, j).Some?)
    ensures var e, f := SpanListEnd(t, i), SpanListEnd(u, j);
            e.Some? ==> e.value - i == f.value - j <= n && SameAhead(t, e.value, u, f.value, n - (e.value - i))
    decreases n
  {
    hide SameAhead, IsDigit, ChunkEnd, IsSpanList, Continues, EndFrom, SpanListEnd;
    Ahead(t, i, u, j, n);
    if n > 0 && IsDigit(t[i]) {
      ListUnfold(t, i);
      ListUnfold(u, j);
      ChunkLocal(t, i, u, j, n);
      var e, f := ChunkEnd(t, i), ChunkEnd(u, j);
      var m := n - (e - i);
      Ahead(t, e, u, f, m);
      if m > 0 && t[e] == ',' {
        CommaNotColon();
        ListLocal(t, e + 1, u, f + 1, m - 1);
      }
      EndLocal(t, e, u, f, m);
    } else {
      NoList(t, i);
      NoList(u, j);
    }
  }

  lemma CommaNotColon()
    ensures ',' != ':'
  {
  }

  lemma NoList(t: string, i: nat)
    requires i <= |t| && (i == |t| || !IsDigit(t[i]))
    ensures SpanListEnd(t, i) == None
  {
  }

  // ------------------------------------------------- a list with its end in sight

  lemma {:induction false} DigitsThen(t: string, a: nat, k: nat)
    requires a <= k <= |t| && AllDigits(t[a..k]) && (k < |t| ==> !IsDigit(t[k]))
    ensures DigitsEnd(t, a) == k
    decreases k - a
  {
    if a < k {
      assert t[a] == t[a..k][0];
      assert t[a + 1..k] == t[a..k][1..];
      DigitsThen(t, a + 1, k);
    }
  }

  lemma ChunkThen(t: string, a: nat, k: nat)
    requires a <= k <= |t| && IsChunk(t[a..k]) && (k < |t| ==> !IsDigit(t[k]) && t[k] != '-')
    ensures a < k && IsDigit(t[a]) && ChunkEnd(t, a) == k
  {
    hide DigitsEnd;
    var s := t[a..k];
    ChunkChars(s);
    hide IsListChar;
    assert t[a] == s[0];
    var dash := IndexOfChar(s, '-');
    if dash == |s| {
      DigitsThen(t, a, k);
    } else {
      assert t[a..a + dash] == s[..dash];
      assert t[a + dash] == s[dash];
      DigitsThen(t, a, a + dash);
      assert t[a + dash + 1..k] == s[dash + 1..];
      assert t[a + dash + 1] == s[dash + 1..][0];
      DigitsThen(t, a + dash + 1, k);
    }
  }

  lemma CommaIsNoDigit()
    ensures !IsDigit(',')
  {
  }

  lemma NotInPath(t: string, b: nat)
    ensures b < |t| && !IsPathChar(t[b]) ==> !IsDigit(t[b]) && t[b] != '-' && !Continues(t[b])
  {
  }

  /** The list in t[a..b]: its first chunk, and behind a comma the rest. */
  lemma ListParts(t: string, a: nat, b: nat) returns (k: nat)
    requires a <= b <= |t| && IsSpanList(t[a..b])
    ensures a <= k <= b && IsChunk(t[a..k]) && (k < b ==> t[k] == ',' && IsSpanList(t[k + 1..b]))
  {
    hide IsSpanList, IsChunk;
    var s := t[a..b];
    FirstChunk(s);
    var i := IndexOfChar(s, ',');
    hide IndexOfChar, Lacks;
    k := a + i;
    assert t[a..k] == s[..i];
    if i < |s| {
      assert t[k] == s[i] && t[k + 1..b] == s[i + 1..];
    }
  }

  lemma {:induction false} ListThen(t: string, a: nat, b: nat)
    requires a <= b <= |t| && IsSpanList(t[a..b]) && (b < |t| ==> !IsPathChar(t[b]))
    ensures SpanListEnd(t, a) == Some(EndFrom(t, b))
    decreases b - a
  {
    hide ChunkEnd, IsChunk, SpanListEnd, IsDigit, IsSpanList, IsPathChar, Continues;
    var k := ListParts(t, a, b);
    CommaIsNoDigit();
    NotInPath(t, b);
    ChunkThen(t, a, k);
    ListUnfold(t, a);
    if k < b {
      ListThen(t, k + 1, b);
    }
  }

  // ------------------------------------------------------------ colons and lists

  lemma SwappedChars(t: string, r: Region)
    requires r.start <= r.end <= |t|
    ensures var u, d := Swapped(t, r), |r.text| - (r.end - r.start);
            && |u| == |t| + d
            && (forall k :: 0 <= k < r.start ==> u[k] == t[k])
            && (forall k :: r.start <= k < r.start + |r.text| ==> u[k] == r.text[k - r.start])
            && (forall k :: r.start + |r.text| <= k < |u| ==> u[k] == t[k - d])
  {
  }

  lemma CharMoves(t: string, r: Region, p: nat)
    requires r.start <= r.end <= |t| && p < |t| && (p < r.start || r.end <= p)
    ensures 0 <= To(r, p) < |Swapped(t, r)| && Swapped(t, r)[To(r, p)] == t[p]
  {
  }

  lemma SwappedSize(t: string, r: Region)
    requires r.start <= r.end <= |t|
    ensures |Swapped(t, r)| == |t| + |r.text| - (r.end - r.start)
  {
  }

  lemma SwappedSlices(t: string, r: Region, a: nat, b: nat)
    requires r.start <= r.end <= |t| && a <= b <= |t|
    ensures b <= r.start ==> Swapped(t, r)[a..b] == t[a..b]
    ensures r.end <= a ==> var d := |r.text| - (r.end - r.start);
              0 <= a + d && b + d <= |Swapped(t, r)| && Swapped(t, r)[a + d..b + d] == t[a..b]
    ensures Swapped(t, r)[r.start..r.start + |r.text|] == r.text
  {
  }

  /** Swapped back, the text is the old one. */
  function Back(t: string, r: Region): Region
    requires r.start <= r.end <= |t|
  {
    Region(r.start, r.start + |r.text|, t[r.start..r.end])
  }

  lemma SwapBack(t: string, r: Region)
    requires Swappable(t, r)
    ensures Swappable(Swapped(t, r), Back(t, r)) && Swapped(Swapped(t, r), Back(t, r)) == t
  {
    hide IsSpanList, IsPathChar, IsListChar;
    ListChars(r.text);
    var u, b := Swapped(t, r), Back(t, r);
    assert u[b.start..b.end] == r.text && u[..b.start] == t[..r.start] && u[b.end..] == t[r.end..];
    assert u[b.start - 1] == t[r.start - 1];
    assert r.end < |t| ==> u[b.end] == t[r.end];
    assert t == t[..r.start] + t[r.start..r.end] + t[r.end..];
  }

  lemma RegionChars(t: string, r: Region)
    requires Swappable(t, r)
    ensures forall k :: r.start <= k < r.end ==> IsListChar(t[k])
    ensures IsDigit(t[r.end - 1])
  {
    ListChars(t[r.start..r.end]);
    hide IsSpanList, IsListChar;
    forall k | r.start <= k < r.end ensures IsListChar(t[k]) && (k == r.end - 1 ==> IsDigit(t[k])) {
      assert t[k] == t[r.start..r.end][k - r.start];
    }
  }

  lemma ColonOutside(t: string, r: Region, c: nat)
    requires Swappable(t, r) && c < |t| && t[c] == ':'
    ensures Past(r, c)
  {
    RegionChars(t, r);
    hide IsSpanList;
  }

  /** A colon keeps its place between the others, and the list behind it ends where it did. */
  lemma ColonMoves(t: string, r: Region, c: nat)
    requires Swappable(t, r) && c < |t| && t[c] == ':'
    ensures Past(r, c) && 0 <= To(r, c) < |Swapped(t, r)| && Swapped(t, r)[To(r, c)] == ':'
    ensures var e, f := SpanListEnd(t, c + 1), SpanListEnd(Swapped(t, r), To(r, c) + 1);
            (e.Some? <==> f.Some?) && (e.Some? ==> f.value == To(r, e.value) && Past(r, e.value))
  {
    hide Swapped, SpanListEnd, IsSpanList, IsPathChar, EndFrom;
    ColonOutside(t, r, c);
    CharMoves(t, r, c);
    if c >= r.end {
      SuffixList(t, r, c + 1);
    } else if c + 1 == r.start {
      HeadList(t, r);
    } else {
      ColonBefore(t, r, c);
    }
  }

  lemma ColonBefore(t: string, r: Region, c: nat)
    requires Swappable(t, r) && c + 1 < r.start
    ensures c < |Swapped(t, r)|
    ensures var e, f := SpanListEnd(t, c + 1), SpanListEnd(Swapped(t, r), c + 1);
            (e.Some? <==> f.Some?) && (e.Some? ==> f.value == e.value < r.start)
  {
    hide Swapped, SpanListEnd, IsSpanList, SameAhead, IsPathChar;
    var u, n := Swapped(t, r), r.start - (c + 1);
    PrefixAhead(t, r, c + 1);
    ListLocal(t, c + 1, u, c + 1, n);
    var e := SpanListEnd(t, c + 1);
    if e.Some? {
      Ahead(t, e.value, u, e.value, n - (e.value - (c + 1)));
    }
  }

  lemma PrefixAhead(t: string, r: Region, p: nat)
    requires p < r.start <= r.end <= |t| && t[r.start - 1] == ':'
    ensures SameAhead(t, p, Swapped(t, r), p, r.start - p)
  {
    SwappedSlices(t, r, p, r.start);
    SwappedSize(t, r);
    hide Swapped;
  }

  lemma SuffixAhead(t: string, r: Region, p: nat)
    requires r.start <= r.end <= p <= |t|
    ensures 0 <= To(r, p) && SameAhead(t, p, Swapped(t, r), To(r, p), |t| - p)
  {
    SwappedSlices(t, r, p, |t|);
    SwappedSize(t, r);
    hide Swapped;
  }

  lemma SuffixList(t: string, r: Region, p: nat)
    requires r.start <= r.end <= p <= |t|
    ensures 0 <= To(r, p) <= |Swapped(t, r)|
    ensures var e, f := SpanListEnd(t, p), SpanListEnd(Swapped(t, r), To(r, p));
            (e.Some? <==> f.Some?) && (e.Some? ==> f.value == To(r, e.value))
  {
    hide Swapped, SpanListEnd, IsSpanList, SameAhead;
    SuffixAhead(t, r, p);
    ListLocal(t, p, Swapped(t, r), To(r, p), |t| - p);
  }

  /** The list of the region itself: the new one, with what followed a comma behind the old. */
  lemma HeadList(t: string, r: Region)
    requires Swappable(t, r)
    ensures SpanListEnd(t, r.start) == Some(EndFrom(t, r.end))
    ensures r.start <= |Swapped(t, r)| && SpanListEnd(Swapped(t, r), r.start) == Some(To(r, EndFrom(t, r.end)))
  {
    hide SpanListEnd, IsSpanList, EndFrom, IsPathChar, Swapped;
    SwapBack(t, r);
    BackSlice(t, r);
    ListThen(t, r.start, r.end);
    ListThen(Swapped(t, r), r.start, To(r, r.end));
    EndMoves(t, r);
  }

  lemma BackSlice(t: string, r: Region)
    requires r.start <= r.end <= |t|
    ensures To(r, r.end) == Back(t, r).end <= |Swapped(t, r)| && Swapped(t, r)[r.start..To(r, r.end)] == r.text
  {
  }

  lemma EndMoves(t: string, r: Region)
    requires r.start <= r.end <= |t|
    ensures 0 <= To(r, r.end) <= |Swapped(t, r)| && EndFrom(Swapped(t, r), To(r, r.end)) == To(r, EndFrom(t, r.end))
  {
    hide SpanListEnd, IsSpanList, Swapped;
    SwappedSize(t, r);
    if r.end < |t| {
      CharMoves(t, r, r.end);
      SuffixList(t, r, r.end + 1);
    }
  }

  // ---------------------------------------------------------------- the next match

  predicate ListAt(t: string, c: nat) {
    c < |t| && t[c] == ':' && SpanListEnd(t, c + 1).Some?
  }

  lemma {:induction false} NextColonFirst(t: string, from: nat)
    requires from <= |t|
    ensures var c := NextColon(t, from);
            && (c.Some? ==> ListAt(t, c.value) && forall k :: from <= k < c.value ==> !ListAt(t, k))
            && (c.None? ==> forall k :: from <= k ==> !ListAt(t, k))
    decreases |t| - from
  {
    hide SpanListEnd, IsSpanList;
    if from < |t| && !ListAt(t, from) {
      NextColonFirst(t, from + 1);
    }
  }

  lemma NextColonIs(t: string, from: nat, c: Option<nat>)
    requires from <= |t|
    requires c.Some? ==> from <= c.value && ListAt(t, c.value) && forall k :: from <= k < c.value ==> !ListAt(t, k)
    requires c.None? ==> forall k :: from <= k ==> !ListAt(t, k)
    ensures NextColon(t, from) == c
  {
    hide NextColon, ListAt, IsSpanList;
    NextColonFirst(t, from);
  }

  lemma ToThere(t: string, r: Region, p: nat)
    requires Swappable(t, r) && Past(r, p) && p <= |t|
    ensures 0 <= To(r, p) <= |Swapped(t, r)| && Past(Back(t, r), To(r, p)) && To(Back(t, r), To(r, p)) == p
  {
    hide IsSpanList, IsPathChar;
  }

  lemma ToOrdered(t: string, r: Region, p: nat, q: nat)
    requires Swappable(t, r) && Past(r, p) && Past(r, q)
    ensures p < q <==> To(r, p) < To(r, q)
  {
    hide IsSpanList, IsPathChar;
  }

  lemma ListAtMoves(t: string, r: Region, c: nat)
    requires Swappable(t, r) && ListAt(t, c)
    ensures Past(r, c) && ListAt(Swapped(t, r), To(r, c))
  {
    ColonMoves(t, r, c);
    hide IsSpanList, SpanListEnd, Swapped, Swappable;
  }

  lemma NextColonMoves(t: string, r: Region, from: nat)
    requires Swappable(t, r) && Past(r, from) && from <= |t|
    ensures 0 <= To(r, from) <= |Swapped(t, r)|
    ensures var c, d := NextColon(t, from), NextColon(Swapped(t, r), To(r, from));
            && (c.Some? <==> d.Some?)
            && (c.Some? ==> Past(r, c.value) && d.value == To(r, c.value) && (from < r.start ==> c.value < r.start))
  {
    hide IsSpanList, NextColon, ListAt, IsPathChar;
    var u, back := Swapped(t, r), Back(t, r);
    SwapBack(t, r);
    ToThere(t, r, from);
    NextColonFirst(t, from);
    var c := NextColon(t, from);
    hide Swapped, Swappable, Back;
    forall k: nat | To(r, from) <= k && ListAt(u, k)
      ensures Past(back, k) && from <= To(back, k) && ListAt(t, To(back, k))
    {
      ListAtMoves(u, back, k);
      ToOrdered(u, back, k, To(r, from));
    }
    if c.Some? {
      ListAtMoves(t, r, c.value);
      ToThereList(t, r, c.value);
      ToOrdered(t, r, c.value, from);
      forall k: nat | To(r, from) <= k < To(r, c.value) ensures !ListAt(u, k) {
        if ListAt(u, k) {
          ToOrdered(u, back, k, To(r, c.value));
        }
      }
      NextColonIs(u, To(r, from), Some(To(r, c.value)));
      if from < r.start {
        RegionListed(t, r);
      }
    } else {
      NextColonIs(u, To(r, from), None);
    }
  }

  lemma ToThereList(t: string, r: Region, c: nat)
    requires Swappable(t, r) && ListAt(t, c) && Past(r, c)
    ensures 0 <= To(r, c) && Past(Back(t, r), To(r, c)) && To(Back(t, r), To(r, c)) == c
  {
    ToThere(t, r, c);
  }

  /** The region's own colon is one the pattern accepts. */
  lemma RegionListed(t: string, r: Region)
    requires Swappable(t, r)
    ensures r.start >= 1 && ListAt(t, r.start - 1)
  {
    HeadList(t, r);
    hide SpanListEnd, IsSpanList;
  }

  lemma {:induction false} RunLocal(t: string, lo: nat, c: nat, u: string, lo': nat, c': nat)
    requires lo <= c <= |t| && lo' <= c' <= |u| && t[lo..c] == u[lo'..c']
    ensures RunStart(t, lo, c) - lo == RunStart(u, lo', c') - lo'
    decreases c
  {
    hide IsPathChar;
    assert c - lo == |t[lo..c]| == c' - lo';
    if lo < c {
      assert t[c - 1] == t[lo..c][c - 1 - lo] == u[lo'..c'][c' - 1 - lo'] == u[c' - 1];
      assert t[lo..c - 1] == t[lo..c][..c - 1 - lo] == u[lo'..c' - 1];
      RunLocal(t, lo, c - 1, u, lo', c' - 1);
    }
  }

  lemma {:induction false} RunStops(t: string, lo: nat, k: nat, c: nat)
    requires lo <= k < c <= |t| && !IsPathChar(t[k])
    ensures RunStart(t, lo, c) == RunStart(t, k + 1, c)
    decreases c
  {
    hide IsPathChar;
    if k + 1 < c {
      RunStops(t, lo, k, c - 1);
    }
  }

  lemma RunClear(t: string, r: Region, lo: nat, c: nat)
    requires Swappable(t, r) && lo <= c <= |t| && (c < r.start || r.end <= lo)
    ensures 0 <= To(r, lo) <= To(r, c) <= |Swapped(t, r)|
    ensures RunStart(Swapped(t, r), To(r, lo), To(r, c)) == To(r, RunStart(t, lo, c))
  {
    SliceMoves(t, r, lo, c);
    hide Swapped, RunStart, Swappable;
    RunLocal(t, lo, c, Swapped(t, r), To(r, lo), To(r, c));
  }

  lemma RunBehind(t: string, r: Region, lo: nat, c: nat)
    requires Swappable(t, r) && lo < r.start && r.end < c <= |t|
    ensures To(r, lo) == lo && To(r, c) <= |Swapped(t, r)|
    ensures r.end <= RunStart(t, lo, c) && RunStart(Swapped(t, r), lo, To(r, c)) == To(r, RunStart(t, lo, c))
  {
    var d := |r.text| - (r.end - r.start);
    SwappedChars(t, r);
    ToThere(t, r, c);
    RunStops(t, lo, r.end, c);
    RunStops(Swapped(t, r), lo, r.end + d, c + d);
    hide Swapped, RunStart;
    RunClear(t, r, r.end + 1, c);
  }

  /** The run of path characters before a colon moves as it is, unless the colon stands right
      behind the region and the run may reach back into it. */
  lemma RunMoves(t: string, r: Region, lo: nat, c: nat)
    requires Swappable(t, r) && lo <= c < |t| && t[c] == ':' && Past(r, lo)
    requires r.end <= lo || c != r.end
    ensures 0 <= To(r, lo) <= To(r, c) <= |Swapped(t, r)|
    ensures var s := RunStart(t, lo, c); Past(r, s) && RunStart(Swapped(t, r), To(r, lo), To(r, c)) == To(r, s)
    ensures c < r.start || r.end <= RunStart(t, lo, c)
  {
    ColonOutside(t, r, c);
    hide Swapped, RunStart, Swappable;
    if c < r.start || r.end <= lo {
      RunClear(t, r, lo, c);
    } else {
      RunBehind(t, r, lo, c);
    }
  }

  lemma MatchStartMoves(t: string, r: Region, from: nat, c: nat)
    requires Swappable(t, r) && from <= c < |t| && t[c] == ':' && Past(r, from)
    requires r.end <= from || c < r.start
    ensures 0 <= To(r, from) <= To(r, c) <= |Swapped(t, r)|
    ensures var s := MatchStart(t, from, c);
            Past(r, s) && MatchStart(Swapped(t, r), To(r, from), To(r, c)) == To(r, s) && (c < r.start || r.end <= s)
  {
    RunMoves(t, r, from, c);
    SliceMoves(t, r, RunStart(t, from, c), c);
    ColonOutside(t, r, c);
    hide Swapped, RunStart, Swappable, EndsInKnownExt, IsPathChar;
  }

  lemma NextMatchAt(t: string, from: nat, c: nat)
    requires from <= |t| && NextColon(t, from) == Some(c)
    ensures from <= c < |t| && SpanListEnd(t, c + 1).Some?
    ensures NextMatch(t, from) == Some(Match(MatchStart(t, from, c), c, SpanListEnd(t, c + 1).value))
  {
    hide IsSpanList, SpanListEnd, NextColon, MatchStart, IsPathChar, IsMatch;
  }

  lemma NextMatchEnds(t: string, from: nat)
    requires from <= |t| && NextMatch(t, from).Some?
    ensures var m := NextMatch(t, from).value;
            IsMatch(t, 0, m) && from < m.end && SpanListEnd(t, m.colon + 1) == Some(m.end)
  {
    hide IsSpanList, SpanListEnd, NextColon, MatchStart, IsPathChar;
  }

  lemma NextMatchMoves(t: string, r: Region, from: nat)
    requires Swappable(t, r) && Past(r, from) && from <= |t|
    ensures 0 <= To(r, from) <= |Swapped(t, r)|
    ensures var m, n := NextMatch(t, from), NextMatch(Swapped(t, r), To(r, from));
            && (m.Some? <==> n.Some?)
            && (m.Some? ==> MovesTo(r, m.value, n.value))
  {
    NextColonMoves(t, r, from);
    hide Swapped, IsSpanList, SpanListEnd, NextColon, MatchStart, Swappable, IsPathChar, IsMatch, Follows, To;
    if NextColon(t, from).Some? {
      NextMatchThere(t, r, from, NextColon(t, from).value);
    }
  }

  lemma NextMatchThere(t: string, r: Region, from: nat, c: nat)
    requires Swappable(t, r) && Past(r, from) && from <= |t| && NextColon(t, from) == Some(c)
    requires from < r.start ==> c < r.start
    requires 0 <= To(r, from) <= |Swapped(t, r)| && 0 <= To(r, c) && NextColon(Swapped(t, r), To(r, from)) == Some(To(r, c))
    ensures NextMatch(t, from).Some? && NextMatch(Swapped(t, r), To(r, from)).Some?
    ensures MovesTo(r, NextMatch(t, from).value, NextMatch(Swapped(t, r), To(r, from)).value)
  {
    hide Swapped, IsSpanList, SpanListEnd, NextColon, MatchStart, IsPathChar, IsMatch, To;
    NextMatchAt(t, from, c);
    NextMatchAt(Swapped(t, r), To(r, from), To(r, c));
    ColonMoves(t, r, c);
    MatchStartMoves(t, r, from, c);
  }

  /** The match at the moved places. */
  predicate MovesTo(r: Region, m: Match, n: Match) {
    && Past(r, m.start) && Past(r, m.colon) && Past(r, m.end)
    && n.start == To(r, m.start) && n.colon == To(r, m.colon) && n.end == To(r, m.end)
  }

  lemma SliceMoves(t: string, r: Region, a: nat, b: nat)
    requires Swappable(t, r) && a <= b <= |t| && (b < r.start || r.end <= a)
    ensures 0 <= To(r, a) <= To(r, b) <= |Swapped(t, r)| && Swapped(t, r)[To(r, a)..To(r, b)] == t[a..b]
  {
    SwappedSlices(t, r, a, b);
    ToThere(t, r, a);
    ToThere(t, r, b);
    hide Swapped;
  }

  // ------------------------------------------------------------- what is read there

  /** What a match says: whether it names a file itself, whether it is no citation on its own,
      the path and the span list it writes. */
  datatype Reading = Reading(named: bool, skip: bool, path: string, spans: string)

  function Read(t: string, m: Match, tree: Tree): Reading
    requires IsMatch(t, 0, m)
  {
    var s, skip := NameStart(t, m), NotACitation(t, m, tree);
    var named := s < m.colon && !skip;
    Reading(named, skip, t[if named then s else m.start..m.colon], t[m.colon + 1..m.end])
  }

  /** The number, or the pair of numbers, that ends a span list. */
  function LastRun(s: string): string {
    s[RunStart(s, 0, |s|)..]
  }

  /** What a colon right behind the region makes a name of: either it stays the same, or no file
      has it for a name, before or after. */
  predicate Quiet(tree: Tree, t: string, r: Region) {
    r.start <= r.end < |t| && t[r.end] == ':' ==>
      var was, now := LastRun(t[r.start..r.end]), LastRun(r.text);
      was == now || (was !in tree.basenames && now !in tree.basenames)
  }

  predicate IsNumberName(name: string) {
    forall k :: 0 <= k < |name| ==> IsDigit(name[k]) || name[k] == '-'
  }

  predicate NoNumberNames(tree: Tree) {
    forall name <- tree.basenames :: !IsNumberName(name)
  }

  lemma ListNamesNothing(tree: Tree, s: string)
    requires IsSpanList(s) && NoNumberNames(tree)
    ensures LastRun(s) !in tree.basenames
  {
    ListChars(s);
    hide IsSpanList;
    RunInList(s, 0, 0, |s|);
    assert IsNumberName(LastRun(s));
  }

  lemma NumberShaped(tree: Tree, name: string)
    requires IsNumberName(name)
    ensures IsPathShaped(name, tree) <==> name in tree.basenames
  {
    assert '/' !in name && '.' !in name;
    assert LastIndexOf(name, '.') == -1;
  }

  lemma {:induction false} RunInList(t: string, lo: nat, a: nat, c: nat)
    requires lo <= a <= c <= |t| && (forall k :: a <= k < c ==> IsListChar(t[k]))
    requires a > lo ==> t[a - 1] == ':'
    ensures RunStart(t, lo, c) >= a
    ensures forall k :: RunStart(t, lo, c) <= k < c ==> IsDigit(t[k]) || t[k] == '-'
    decreases c
  {
    if c > a {
      RunInList(t, lo, a, c - 1);
    }
  }

  lemma {:induction false} RunInSlice(t: string, a: nat, c: nat)
    requires a <= c <= |t| && RunStart(t, 0, c) >= a
    ensures RunStart(t[a..], 0, c - a) == RunStart(t, 0, c) - a
    decreases c
  {
    hide IsPathChar;
    if c > a {
      assert t[a..][c - a - 1] == t[c - 1];
      if IsPathChar(t[c - 1]) {
        RunInSlice(t, a, c - 1);
      }
    }
  }

  lemma LastRunIs(t: string, r: Region)
    requires Swappable(t, r)
    ensures var s := RunStart(t, 0, r.end);
      && r.start <= s < r.end && LastRun(t[r.start..r.end]) == t[s..r.end] && IsNumberName(t[s..r.end])
  {
    RegionChars(t, r);
    hide IsSpanList, IsDigit;
    RunInList(t, 0, r.start, r.end);
    DigitIsPathChar(t[r.end - 1]);
    RunNotEmpty(t, 0, r.end);
    hide IsPathChar;
    var list := t[..r.end];
    RunInSlice(list, r.start, r.end);
    RunOfPrefix(t, list, r.end);
    assert list[r.start..] == t[r.start..r.end];
  }

  lemma DigitIsPathChar(c: char)
    requires IsDigit(c)
    ensures IsPathChar(c)
  {
  }

  lemma {:induction false} RunOfPrefix(t: string, u: string, c: nat)
    requires c <= |t| && c <= |u| && t[..c] == u[..c]
    ensures RunStart(t, 0, c) == RunStart(u, 0, c)
    decreases c
  {
    hide IsPathChar;
    if c > 0 {
      assert t[c - 1] == t[..c][c - 1] == u[..c][c - 1] == u[c - 1];
      assert t[..c - 1] == t[..c][..c - 1] && u[..c - 1] == u[..c][..c - 1];
      RunOfPrefix(t, u, c - 1);
    }
  }

  /** The colon right behind a span list: the list's last run is a name there, if a file has it. */
  lemma NumberReads(tree: Tree, t: string, r: Region, m: Match)
    requires Swappable(t, r) && IsMatch(t, 0, m) && m.colon == r.end && Past(r, m.start)
    ensures var name, rd := LastRun(t[r.start..r.end]), Read(t, m, tree);
      && (rd.named <==> name in tree.basenames) && rd.skip == !rd.named
      && rd.path == if rd.named then name else ""
  {
    LastRunIs(t, r);
    hide IsSpanList, IsPathShaped, LastRun, RunStart;
    StartClear(t, r, m);
    var s := RunStart(t, 0, r.end);
    assert t[s..r.end][0] == t[s] != '/';
    NumberShaped(tree, t[s..r.end]);
  }

  lemma RunNotEmpty(t: string, lo: nat, c: nat)
    requires lo < c <= |t| && IsPathChar(t[c - 1])
    ensures RunStart(t, lo, c) < c
  {
    hide IsPathChar;
  }

  lemma NameMoves(t: string, r: Region, m: Match, n: Match)
    requires Swappable(t, r) && IsMatch(t, 0, m) && IsMatch(Swapped(t, r), 0, n) && MovesTo(r, m, n) && m.colon != r.end
    ensures var s := NameStart(t, m);
      && Past(r, s) && NameStart(Swapped(t, r), n) == To(r, s) && (m.colon < r.start || r.end <= s)
      && (m.colon < r.start || r.end <= m.start)
  {
    hide IsSpanList, Swapped, RunStart, IsPathChar;
    ColonOutside(t, r, m.colon);
    StartClear(t, r, m);
    RunMoves(t, r, 0, m.colon);
    ToOrdered(t, r, m.start, m.colon);
  }

  lemma ColonNotInPath(t: string, k: nat)
    requires k < |t| && t[k] == ':'
    ensures !IsPathChar(t[k])
  {
  }

  lemma StartClear(t: string, r: Region, m: Match)
    requires Swappable(t, r) && IsMatch(t, 0, m) && Past(r, m.start) && Past(r, m.colon)
    ensures m.colon < r.start || r.end <= m.start
  {
    hide IsSpanList;
    ColonNotInPath(t, r.start - 1);
  }

  lemma UrlMoves(t: string, r: Region, s: nat, c: nat)
    requires Swappable(t, r) && s < c <= |t| && IsPathChar(t[s]) && Past(r, s) && (c < r.start || r.end <= s)
    ensures 0 <= To(r, s) < To(r, c) <= |Swapped(t, r)| && Swapped(t, r)[To(r, s)..To(r, c)] == t[s..c]
    ensures IsUrlTail(Swapped(t, r)[..To(r, s)], t[s..c]) <==> IsUrlTail(t[..s], t[s..c])
  {
    SliceMoves(t, r, s, c);
    SwappedChars(t, r);
    hide IsSpanList, Swapped, IsPathChar;
    assert s != r.end;
    if s > 0 {
      assert Swapped(t, r)[To(r, s) - 1] == t[s - 1];
    }
  }

  lemma SpansMove(t: string, r: Region, m: Match, n: Match)
    requires Swappable(t, r) && IsMatch(t, 0, m) && IsMatch(Swapped(t, r), 0, n) && MovesTo(r, m, n)
    requires SpanListEnd(t, m.colon + 1) == Some(m.end)
    ensures var spans, spans' := t[m.colon + 1..m.end], Swapped(t, r)[n.colon + 1..n.end];
            if m.colon + 1 == r.start then Respanned(t[r.start..r.end], r.text, spans, spans') else spans' == spans
  {
    hide IsSpanList, IsPathChar, SpanListEnd;
    if m.colon + 1 == r.start {
      HeadList(t, r);
      HeadSlices(t, r, m.end);
    } else if m.colon + 1 < r.start {
      ColonBefore(t, r, m.colon);
      SliceMoves(t, r, m.colon + 1, m.end);
    } else {
      ColonOutside(t, r, m.colon);
      SliceMoves(t, r, m.colon + 1, m.end);
    }
  }

  /** The list starts with `text` where it started with `old`. */
  predicate Respanned(was: string, text: string, spans: string, spans': string) {
    && was <= spans
    && var rest := spans[|was|..];
       spans' == text + rest && (rest != "" ==> rest[0] == ',' && IsSpanList(rest[1..]))
  }

  lemma RestIsList(t: string, b: nat)
    requires b <= |t| && b < EndFrom(t, b)
    ensures t[b] == ',' && IsSpanList(t[b + 1..EndFrom(t, b)])
  {
    hide IsSpanList;
  }

  lemma HeadSlices(t: string, r: Region, e: nat)
    requires Swappable(t, r) && e == EndFrom(t, r.end)
    ensures e <= |t| && To(r, e) <= |Swapped(t, r)|
    ensures Respanned(t[r.start..r.end], r.text, t[r.start..e], Swapped(t, r)[r.start..To(r, e)])
  {
    SliceMoves(t, r, r.end, e);
    SwappedSlices(t, r, 0, 0);
    if e > r.end {
      RestIsList(t, r.end);
    }
    hide Swapped, SpanListEnd, EndFrom, IsSpanList;
    TwoSlices(t, r.start, r.end, e);
    TwoSlices(Swapped(t, r), r.start, To(r, r.end), To(r, e));
  }

  lemma TwoSlices(t: string, a: nat, b: nat, e: nat)
    requires a <= b <= e <= |t|
    ensures t[a..e] == t[a..b] + t[b..e] && t[a..e][b - a..] == t[b..e] && t[a..b] <= t[a..e]
    ensures e > b ==> t[a..e][b - a..][0] == t[b] && t[a..e][b - a..][1..] == t[b + 1..e]
  {
  }

  lemma ReadSpans(t: string, m: Match, tree: Tree)
    requires IsMatch(t, 0, m)
    ensures Read(t, m, tree).spans == t[m.colon + 1..m.end]
  {
  }

  /** A match reads the same at its new place, but for the region's own list. */
  lemma ReadMoves(t: string, r: Region, m: Match, n: Match, tree: Tree)
    requires Swappable(t, r) && Quiet(tree, t, r)
    requires IsMatch(t, 0, m) && IsMatch(Swapped(t, r), 0, n) && MovesTo(r, m, n)
    requires SpanListEnd(t, m.colon + 1) == Some(m.end)
    ensures var rd, rd' := Read(t, m, tree), Read(Swapped(t, r), n, tree);
      && rd' == rd.(spans := rd'.spans)
      && if m.colon + 1 == r.start then Respanned(t[r.start..r.end], r.text, rd.spans, rd'.spans) else rd'.spans == rd.spans
  {
    hide IsSpanList, SpanListEnd, Respanned, NotACitation, Swapped, NameStart, Quiet, IsPathChar, IsMatch, Read;
    SpansMove(t, r, m, n);
    ReadSpans(t, m, tree);
    ReadSpans(Swapped(t, r), n, tree);
    if m.colon == r.end {
      QuietIff(tree, t, r, m, n);
    } else {
      NameMoves(t, r, m, n);
      NamedAlike(t, r, m, n, tree);
    }
  }

  /** The match at the colon right behind the list reads the same exactly when the region is quiet. */
  lemma QuietIff(tree: Tree, t: string, r: Region, m: Match, n: Match)
    requires Swappable(t, r) && IsMatch(t, 0, m) && IsMatch(Swapped(t, r), 0, n) && MovesTo(r, m, n) && m.colon == r.end
    ensures r.end < |t| && t[r.end] == ':'
    ensures var rd, rd' := Read(t, m, tree), Read(Swapped(t, r), n, tree);
      rd' == rd.(spans := rd'.spans) <==> Quiet(tree, t, r)
  {
    hide IsSpanList, Swapped, IsPathChar, Read, LastRun;
    SwapBack(t, r);
    SwappedSlices(t, r, 0, 0);
    NumberReads(tree, t, r, m);
    NumberReads(tree, Swapped(t, r), Back(t, r), n);
    ListChars(r.text);
  }

  lemma NamedAlike(t: string, r: Region, m: Match, n: Match, tree: Tree)
    requires Swappable(t, r) && IsMatch(t, 0, m) && IsMatch(Swapped(t, r), 0, n) && MovesTo(r, m, n)
    requires var s := NameStart(t, m);
      && Past(r, s) && NameStart(Swapped(t, r), n) == To(r, s) && (m.colon < r.start || r.end <= s)
      && (m.colon < r.start || r.end <= m.start)
    ensures NotACitation(t, m, tree) == NotACitation(Swapped(t, r), n, tree)
    ensures var rd, rd' := Read(t, m, tree), Read(Swapped(t, r), n, tree);
      rd'.named == rd.named && rd'.skip == rd.skip && rd'.path == rd.path
  {
    hide IsSpanList, IsPathShaped, IsUrlTail, Swapped, IsPathChar, RunStart;
    var s := NameStart(t, m);
    SliceMoves(t, r, m.start, m.colon);
    ToOrdered(t, r, s, m.colon);
    if s < m.colon {
      NameIsRun(t, m);
      UrlMoves(t, r, s, m.colon);
    }
  }

  lemma NameIsRun(t: string, m: Match)
    requires IsMatch(t, 0, m) && NameStart(t, m) < m.colon
    ensures IsPathChar(t[NameStart(t, m)])
  {
    hide IsSpanList, IsPathChar;
  }

  /** With a file named by a number, swapping a list before a colon takes that name away. */
  lemma NumberNameTurns()
    ensures var t, r, m, tree := "a/b:5:7", Region(4, 5, "6"), Match(5, 5, 7), Tree({"5"}, map["5" := ["5"]]);
      && Swappable(t, r) && IsMatch(t, 0, m) && IsMatch(Swapped(t, r), 0, m)
      && Read(t, m, tree).named && Read(t, m, tree).path == "5" && !Read(Swapped(t, r), m, tree).named
  {
    var t, r, m, tree := "a/b:5:7", Region(4, 5, "6"), Match(5, 5, 7), Tree({"5"}, map["5" := ["5"]]);
    var u := Swapped(t, r);
    assert t == ['a', '/', 'b', ':', '5', ':', '7'] && u == ['a', '/', 'b', ':', '6', ':', '7'];
    OneDigitList("5");
    OneDigitList("6");
    OneDigitList("7");
    assert t[4..5] == "5" && u[4..5] == "6" && t[6..7] == "7" == u[6..7];
    assert RunStart(t, 0, 5) == 4 == RunStart(u, 0, 5);
    assert LastIndexOf("6", '.') == -1 && '/' !in "6";
  }

  lemma OneDigitList(s: string)
    requires |s| == 1 && IsDigit(s[0])
    ensures IsSpanList(s)
  {
    SplitNone(s, ',');
    assert IndexOfChar(s, '-') == 1;
  }

  // ---------------------------------------------------------------- code spans

  lemma TickMoves(t: string, r: Region, p: nat)
    requires Swappable(t, r) && OccursAt(t, "`", p)
    ensures Past(r, p) && Past(r, p + 1) && To(r, p + 1) == To(r, p) + 1 && OccursAt(Swapped(t, r), "`", To(r, p))
  {
    BacktickThere(t);
    RegionChars(t, r);
    SwappedChars(t, r);
    hide Swapped, IsSpanList, IsPathChar;
    var u, q := Swapped(t, r), To(r, p);
    assert u[q..q + 1] == [u[q]];
  }

  /** `find` lands at the moved place. */
  lemma FindMoves(t: string, r: Region, from: nat)
    requires Swappable(t, r) && Past(r, from) && from <= |t|
    ensures 0 <= To(r, from) <= |Swapped(t, r)|
    ensures var a, b := Find(t, "`", from), Find(Swapped(t, r), "`", To(r, from));
            if a < 0 then b < 0 else a < |t| && Past(r, a) && Past(r, a + 1) && To(r, a + 1) == To(r, a) + 1 && b == To(r, a) >= 0
  {
    hide OccursAt, IsSpanList, IsPathChar, Swapped, Past, To;
    var u, back := Swapped(t, r), Back(t, r);
    ToThere(t, r, from);
    SwapBack(t, r);
    BacktickThere(t);
    var a, b := Find(t, "`", from), Find(u, "`", To(r, from));
    if a >= 0 {
      TickMoves(t, r, a);
      ToThere(t, r, a);
      ToOrdered(t, r, a, from);
    }
    if b >= 0 {
      TickMoves(u, back, b);
      ToOrdered(u, back, b, To(r, from));
      if a >= 0 {
        ToOrdered(u, back, b, To(r, a));
      }
    }
  }

  predicate SpanMovesTo(r: Region, s: Span, s': Span) {
    && Past(r, s.start) && Past(r, s.start + 1) && Past(r, s.end - 1) && Past(r, s.end)
    && s'.start == To(r, s.start) && s'.start + 1 == To(r, s.start + 1)
    && s'.end - 1 == To(r, s.end - 1) && s'.end == To(r, s.end)
  }

  lemma NextSpanUnfold(line: string, from: nat)
    ensures NextSpan(line, from) ==
            var a := Find(line, "`", from);
            if a < 0 then None
            else
              var b := Find(line, "`", a + 1);
              if b < 0 then None else if b == a + 1 then NextSpan(line, a + 1) else Some(Span(a, b + 1))
  {
    hide OccursAt, Find;
  }

  lemma {:induction false} NextSpanMoves(t: string, r: Region, from: nat)
    requires Swappable(t, r) && Past(r, from) && from <= |t|
    ensures 0 <= To(r, from) <= |Swapped(t, r)|
    ensures var s, s' := NextSpan(t, from), NextSpan(Swapped(t, r), To(r, from));
            (s.Some? <==> s'.Some?) && (s.Some? ==> SpanMovesTo(r, s.value, s'.value))
    decreases |t| - from
  {
    hide OccursAt, IsSpanList, IsPathChar, Swapped, Past, To, Find, NextSpan;
    var u := Swapped(t, r);
    FindMoves(t, r, from);
    NextSpanUnfold(t, from);
    NextSpanUnfold(u, To(r, from));
    var a := Find(t, "`", from);
    if a >= 0 {
      FindMoves(t, r, a + 1);
      var b, a' := Find(t, "`", a + 1), Find(u, "`", To(r, from));
      assert a' == To(r, a) && a' + 1 == To(r, a + 1);
      if b == a + 1 {
        NextSpanMoves(t, r, a + 1);
      } else if b >= 0 {
        ToOrdered(t, r, a + 1, b);
        assert (b + 1) - 1 == b;
      }
    }
  }

  /** The region in the columns of the stretch that starts at `a`. */
  function Within(r: Region, a: nat): Region
    requires a <= r.start <= r.end
  {
    Region(r.start - a, r.end - a, r.text)
  }

  lemma InSlice(t: string, a: nat, b: nat, x: nat, y: nat)
    requires a <= x <= y <= b <= |t|
    ensures t[a..b][x - a..y - a] == t[x..y] && (x < b ==> t[a..b][x - a] == t[x])
  {
    var u, v := t[a..b][x - a..y - a], t[x..y];
    assert |u| == |v|;
    forall k | 0 <= k < |v| ensures u[k] == v[k] {
      assert u[k] == t[a..b][x - a + k] == t[x + k];
    }
    assert u == v;
  }

  lemma WindowSwappable(tree: Tree, t: string, r: Region, a: nat, b: nat)
    requires Swappable(t, r) && Quiet(tree, t, r) && a < r.start && r.end <= b <= |t|
    ensures var s, w := t[a..b], Within(r, a);
            Swappable(s, w) && Quiet(tree, s, w) && s[w.start..w.end] == t[r.start..r.end]
  {
    hide IsSpanList, IsPathChar, LastRun;
    InSlice(t, a, b, r.start, r.end);
    InSlice(t, a, b, r.start - 1, r.start);
    InSlice(t, a, b, r.end, b);
  }

  lemma WindowSwapped(t: string, r: Region, a: nat, b: nat)
    requires a < r.start <= r.end <= b <= |t|
    ensures a <= To(r, b) <= |Swapped(t, r)| && Swapped(t[a..b], Within(r, a)) == Swapped(t, r)[a..To(r, b)]
  {
    var s, w, n := t[a..b], Within(r, a), To(r, b);
    assert s[..w.start] == t[a..r.start] && s[w.end..] == t[r.end..b];
    var u := Swapped(t, r);
    assert u[a..n] == u[a..r.start] + u[r.start..r.start + |r.text|] + u[r.start + |r.text|..n];
    SwappedSlices(t, r, a, r.start);
    SwappedSlices(t, r, r.end, b);
    hide Swapped;
  }
}
