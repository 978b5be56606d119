/** The block between two markers in a document: reading it, replacing it, and what
    a replacement leaves alone (scripts/gen-support-matrix.py:1219-1250). */
module MarkerBlock {
  import opened Text

  datatype Problem = Incomplete | Repeated | EndFirst

  datatype Extract = NoMarkers | Block(content: string) | Refused(problem: Problem)

  /** What `replace_between` raises: a marker that is not there, or the pair out of order. */
  datatype Error = MarkerAbsent | EndBeforeStart

  datatype Result<+T> = Ok(value: T) | Err(error: Error)

  function LStripNewlines(t: string): (r: string)
    ensures r == "" || r[0] != '\n'
  {
    if t != "" && t[0] == '\n' then LStripNewlines(t[1..]) else t
  }

  function RStripNewlines(t: string): (r: string)
    ensures r == "" || r[|r| - 1] != '\n'
    ensures r <= t
  {
    if t != "" && t[|t| - 1] == '\n' then RStripNewlines(t[..|t| - 1]) else t
  }

  /** `t.strip("\n")` */
  function StripNewlines(t: string): (r: string)
    ensures r == "" || (r[0] != '\n' && r[|r| - 1] != '\n')
  {
    RStripNewlines(LStripNewlines(t))
  }

  function RStripAll(lines: seq<string>): (r: seq<string>)
    ensures |r| == |lines|
  {
    if lines == [] then [] else [RStrip(lines[0])] + RStripAll(lines[1..])
  }

  /** Contents that differ only in outer newlines and line-end blanks normalise alike. */
  function Normalize(t: string): string {
    Join(RStripAll(Split(StripNewlines(t), '\n')), "\n")
  }

  function ExtractBetween(text: string, s: string, e: string): Extract
    requires s != "" && e != ""
  {
    var hasStart, hasEnd := Contains(text, s), Contains(text, e);
    if !hasStart && !hasEnd then NoMarkers
    else if hasStart != hasEnd then Refused(Incomplete)
    else if Count(text, s) != 1 || Count(text, e) != 1 then Refused(Repeated)
    else
      var start, end := Find(text, s, 0) + |s|, Find(text, e, 0);
      if end < start then Refused(EndFirst) else Block(text[start..end])
  }

  function ReplaceBetween(text: string, s: string, e: string, content: string): Result<string> {
    var at, end := Find(text, s, 0), Find(text, e, 0);
    if at < 0 || end < 0 then Err(MarkerAbsent)
    else if end < at + |s| then Err(EndBeforeStart)
    else Ok(text[..at + |s|] + "\n" + StripNewlines(content) + "\n" + text[end..])
  }

  // ---------------------------------------------------- where a string occurs

  lemma NotFound(t: string, p: string)
    ensures !Contains(t, p) <==> forall k :: 0 <= k ==> !OccursAt(t, p, k)
  {
  }

  /** Exactly one occurrence is counted when none starts after the first one's end. */
  lemma {:induction false} CountFirst(t: string, p: string)
    requires p != ""
    ensures Count(t, p) == 0 <==> !Contains(t, p)
    ensures Contains(t, p) ==> Count(t, p) == 1 + Count(t[Find(t, p, 0) + |p|..], p)
  {
    if |t| >= |p| && t[..|p|] != p {
      CountFirst(t[1..], p);
      assert t[0..0 + |p|] == t[..|p|];
      forall k | 0 < k ensures OccursAt(t[1..], p, k - 1) <==> OccursAt(t, p, k) {
        OccursInTail(t, p, 1, k - 1);
      }
      var at := Find(t[1..], p, 0);
      if at >= 0 {
        assert OccursAt(t, p, at + 1);
        FindIs(t, p, 0, at + 1);
        assert t[1..][at + |p|..] == t[at + 1 + |p|..];
      }
    } else if |t| >= |p| {
      assert t[0..|p|] == p;
    }
  }

  lemma CountIsOne(t: string, p: string)
    requires p != "" && Contains(t, p)
    ensures Count(t, p) == 1 <==> forall k :: Find(t, p, 0) + |p| <= k ==> !OccursAt(t, p, k)
  {
    var a := Find(t, p, 0) + |p|;
    CountFirst(t, p);
    CountFirst(t[a..], p);
    NotFound(t[a..], p);
    assert a <= |t|;
    hide Count, Find, OccursAt, Contains;
    forall k: nat ensures OccursAt(t[a..], p, k) <==> OccursAt(t, p, a + k) {
      OccursInTail(t, p, a, k);
    }
    forall k | a <= k ensures OccursAt(t, p, k) <==> OccursAt(t[a..], p, k - a) {
      assert OccursAt(t[a..], p, k - a) <==> OccursAt(t, p, a + (k - a));
    }
  }

  /** The pattern occurs at one place only. */
  ghost predicate StandsOnce(t: string, p: string, at: int) {
    OccursAt(t, p, at) && forall k :: OccursAt(t, p, k) ==> k == at
  }

  /** The pattern cannot overlap itself. */
  predicate NoOverlap(p: string) {
    p != "" && forall j :: 0 < j < |p| ==> p[j] != p[0]
  }

  lemma OccurApart(t: string, p: string, a: int, b: int)
    requires NoOverlap(p) && OccursAt(t, p, a) && OccursAt(t, p, b)
    ensures a <= b < a + |p| ==> b == a
  {
    OccursChars(t, p, a);
    OccursChars(t, p, b);
    var j := b - a;
    if 0 <= j < |p| {
      assert t[a + j] == p[j] && t[b + 0] == p[0];
    }
  }

  /** Counted once is standing at one place only, for a pattern that does not overlap itself. */
  lemma CountedOnceIff(t: string, p: string)
    requires NoOverlap(p)
    ensures Contains(t, p) && Count(t, p) == 1 <==> exists at :: StandsOnce(t, p, at)
    ensures Contains(t, p) && Count(t, p) == 1 ==> StandsOnce(t, p, Find(t, p, 0))
    ensures forall at :: StandsOnce(t, p, at) ==> 0 <= at == Find(t, p, 0) && at + |p| <= |t|
  {
    hide Count, OccursAt;
    forall at | StandsOnce(t, p, at) ensures 0 <= at == Find(t, p, 0) && Count(t, p) == 1 && at + |p| <= |t| {
      OccursBounds(t, p, at);
      CountIsOne(t, p);
    }
    if Contains(t, p) && Count(t, p) == 1 {
      CountIsOne(t, p);
      var first := Find(t, p, 0);
      forall k | OccursAt(t, p, k) ensures k == first {
        OccursBounds(t, p, k);
        OccurApart(t, p, first, k);
      }
      assert StandsOnce(t, p, first);
    }
  }

  // --------------------------------------- a pattern around an inserted block

  /** `head` + newline + `c` + newline + `tail` */
  function Framing(head: string, c: string, tail: string): string {
    head + "\n" + c + "\n" + tail
  }

  lemma FramingParts(head: string, c: string, tail: string)
    ensures |Framing(head, c, tail)| == |head| + |c| + |tail| + 2
    ensures Framing(head, c, tail)[..|head|] == head
    ensures Framing(head, c, tail)[|head|] == '\n'
    ensures Framing(head, c, tail)[|head| + 1..|head| + 1 + |c|] == c
    ensures Framing(head, c, tail)[|head| + 1 + |c|] == '\n'
    ensures Framing(head, c, tail)[|head| + 2 + |c|..] == tail
  {
  }

  lemma NoStraddle(t: string, p: string, n: nat, k: nat)
    requires Lacks(p, '\n') && k <= n < k + |p| && n < |t| && t[n] == '\n'
    ensures !OccursAt(t, p, k)
  {
    OccursChars(t, p, k);
    assert p[n - k] != '\n';
  }

  /** A pattern without a newline occurs in the framing only inside the head, the block or the tail. */
  lemma OccursInOnePart(head: string, c: string, tail: string, p: string, k: nat)
    requires p != "" && Lacks(p, '\n')
    ensures OccursAt(Framing(head, c, tail), p, k) <==>
              || OccursAt(head, p, k)
              || (|head| + 1 <= k && OccursAt(c, p, k - |head| - 1))
              || (|head| + 2 + |c| <= k && OccursAt(tail, p, k - |head| - 2 - |c|))
  {
    var t := Framing(head, c, tail);
    FramingParts(head, c, tail);
    var n, m := |head|, |head| + 1 + |c|;
    if k + |p| <= n {
      OccursInPart(t, p, 0, n, k);
      assert t[0..n] == head;
    }
    if n + 1 <= k && k + |p| <= m {
      OccursInPart(t, p, n + 1, m, k);
    }
    if m + 1 <= k {
      OccursInTail(t, p, m + 1, k - m - 1);
    }
    if k <= n < k + |p| {
      NoStraddle(t, p, n, k);
    }
    if k <= m < k + |p| {
      NoStraddle(t, p, m, k);
    }
  }

  // --------------------------------------------- what a replacement establishes

  /** A block is read exactly when each marker stands at one place, the start before the end. */
  lemma ExtractedIff(text: string, s: string, e: string, content: string)
    requires NoOverlap(s) && NoOverlap(e)
    ensures ExtractBetween(text, s, e) == Block(content) <==>
              exists a: nat, b: nat :: StandsOnce(text, s, a) && StandsOnce(text, e, b) && a + |s| <= b <= |text| && content == text[a + |s|..b]
  {
    hide Count, StandsOnce, OccursAt;
    CountedOnceIff(text, s);
    CountedOnceIff(text, e);
    if ExtractBetween(text, s, e) == Block(content) {
      var a, b := Find(text, s, 0), Find(text, e, 0);
      OccursBounds(text, e, b);
      assert StandsOnce(text, s, a) && StandsOnce(text, e, b);
    }
  }

  /** The pair a replacement works on: the first start marker and the first end marker, in order. */
  predicate Ordered(text: string, s: string, e: string) {
    Contains(text, s) && Contains(text, e) && Find(text, s, 0) + |s| <= Find(text, e, 0)
  }

  function Head(text: string, s: string): (h: string)
    requires Contains(text, s)
    ensures |h| == Find(text, s, 0) + |s|
  {
    text[..Find(text, s, 0) + |s|]
  }

  function Tail(text: string, e: string): (l: string)
    requires Contains(text, e)
    ensures |l| == |text| - Find(text, e, 0)
  {
    text[Find(text, e, 0)..]
  }

  predicate Markers(s: string, e: string) {
    s != "" && e != "" && Lacks(s, '\n') && Lacks(e, '\n')
  }

  /** A pattern without newlines occurs in a framed text exactly when it does in one of its parts. */
  lemma FramingContainsIff(head: string, c: string, tail: string, p: string)
    requires Lacks(p, '\n')
    ensures Contains(Framing(head, c, tail), p) <==> Contains(head, p) || Contains(c, p) || Contains(tail, p)
  {
    hide OccursAt, Framing;
    var t := Framing(head, c, tail);
    if p == "" {
      EmptyOccurs(t);
      EmptyOccurs(head);
    } else {
      forall k: nat ensures OccursAt(t, p, k) <==>
              || OccursAt(head, p, k)
              || (|head| + 1 <= k && OccursAt(c, p, k - |head| - 1))
              || (|head| + 2 + |c| <= k && OccursAt(tail, p, k - |head| - 2 - |c|))
      {
        OccursInOnePart(head, c, tail, p, k);
      }
      PartOccurs(t, head, p, 0);
      PartOccurs(t, c, p, |head| + 1);
      PartOccurs(t, tail, p, |head| + 2 + |c|);
      if Contains(t, p) {
        var k := Find(t, p, 0);
        WhereOccurs(head, p, k);
        WhereOccurs(c, p, k - |head| - 1);
        WhereOccurs(tail, p, k - |head| - 2 - |c|);
      }
    }
  }

  lemma EmptyOccurs(t: string)
    ensures Contains(t, "")
  {
    assert t[0..0] == "";
  }

  lemma WhereOccurs(t: string, p: string, k: int)
    ensures OccursAt(t, p, k) ==> Contains(t, p)
  {
    if OccursAt(t, p, k) {
      OccursBounds(t, p, k);
    }
  }

  lemma PartOccurs(t: string, part: string, p: string, at: nat)
    requires forall k :: at <= k && OccursAt(part, p, k - at) ==> OccursAt(t, p, k)
    ensures Contains(part, p) ==> Contains(t, p)
  {
    hide OccursAt;
    if Contains(part, p) {
      var k := Find(part, p, 0);
      assert OccursAt(part, p, (at + k) - at);
      WhereOccurs(t, p, at + k);
    }
  }

  lemma ReplacedIsFraming(text: string, s: string, e: string, content: string)
    ensures ReplaceBetween(text, s, e, content).Ok? <==> Ordered(text, s, e)
    ensures Ordered(text, s, e) ==>
              ReplaceBetween(text, s, e, content).value == Framing(Head(text, s), StripNewlines(content), Tail(text, e))
  {
  }

  /** Every byte up to the end of the start marker and from the end marker on is kept, and what
      stands between is the content between two newlines. */
  lemma KeepsTheRest(text: string, s: string, e: string, content: string)
    requires Ordered(text, s, e)
    ensures var r, n, end := ReplaceBetween(text, s, e, content), Find(text, s, 0) + |s|, Find(text, e, 0);
      && r.Ok? && |r.value| >= n + |text| - end
      && r.value[..n] == text[..n]
      && r.value[|r.value| - (|text| - end)..] == text[end..]
      && r.value[n..|r.value| - (|text| - end)] == "\n" + StripNewlines(content) + "\n"
  {
    FramingParts(Head(text, s), StripNewlines(content), Tail(text, e));
    ReplacedIsFraming(text, s, e, content);
    var h, c, l := Head(text, s), StripNewlines(content), Tail(text, e);
    assert Framing(h, c, l) == h + ("\n" + c + "\n") + l;
  }

  lemma FirstInHead(text: string, s: string)
    requires Contains(text, s)
    ensures forall k: nat :: OccursAt(Head(text, s), s, k) <==> k == Find(text, s, 0)
  {
    var at := Find(text, s, 0);
    forall k: nat ensures OccursAt(Head(text, s), s, k) <==> k == at {
      if k + |s| <= at + |s| {
        OccursInPart(text, s, 0, at + |s|, k);
        assert text[0..at + |s|] == Head(text, s);
      }
    }
  }

  lemma NoneInHead(text: string, s: string, e: string)
    requires Ordered(text, s, e) && e != ""
    ensures forall k: nat :: !OccursAt(Head(text, s), e, k)
  {
    var n := Find(text, s, 0) + |s|;
    forall k: nat ensures !OccursAt(Head(text, s), e, k) {
      if k + |e| <= n {
        OccursInPart(text, e, 0, n, k);
        assert text[0..n] == Head(text, s);
      }
    }
  }

  lemma FirstInTail(text: string, e: string)
    requires Contains(text, e)
    ensures OccursAt(Tail(text, e), e, 0)
    ensures forall p, k: nat :: OccursAt(Tail(text, e), p, k) <==> OccursAt(text, p, k + Find(text, e, 0))
  {
    var at := Find(text, e, 0);
    forall p, k: nat ensures OccursAt(Tail(text, e), p, k) <==> OccursAt(text, p, k + at) {
      OccursInTail(text, p, at, k);
    }
    assert OccursAt(text, e, 0 + at);
  }

  /** Whatever the content, the start marker stays where it was; a content free of the end
      marker leaves the end marker first found right behind the new block. */
  lemma MarkersAfter(text: string, s: string, e: string, c: string)
    requires Markers(s, e) && Ordered(text, s, e)
    ensures Find(Framing(Head(text, s), c, Tail(text, e)), s, 0) == Find(text, s, 0)
    ensures !Contains(c, e) ==> Find(Framing(Head(text, s), c, Tail(text, e)), e, 0) == |Head(text, s)| + 2 + |c|
    ensures Contains(c, e) ==> |Head(text, s)| < Find(Framing(Head(text, s), c, Tail(text, e)), e, 0) < |Head(text, s)| + 2 + |c|
  {
    var h, l := Head(text, s), Tail(text, e);
    var t := Framing(h, c, l);
    FirstInHead(text, s);
    NoneInHead(text, s, e);
    FirstInTail(text, e);
    forall k: nat ensures OccursAt(t, s, k) && k < |h| ==> k == Find(text, s, 0) {
      OccursInOnePart(h, c, l, s, k);
    }
    OccursInOnePart(h, c, l, s, Find(text, s, 0));
    FindIs(t, s, 0, Find(text, s, 0));
    var m := |h| + 2 + |c|;
    OccursInOnePart(h, c, l, e, m);
    assert OccursAt(l, e, m - |h| - 2 - |c|);
    forall k: nat | k < m ensures OccursAt(t, e, k) <==> |h| + 1 <= k && OccursAt(c, e, k - |h| - 1) {
      OccursInOnePart(h, c, l, e, k);
    }
    if Contains(c, e) {
      assert OccursAt(t, e, Find(c, e, 0) + |h| + 1);
    } else {
      FindIs(t, e, 0, m);
    }
  }

  /** The last replacement wins: what an earlier one with marker-free content wrote leaves no trace. */
  lemma LastReplacementWins(text: string, s: string, e: string, first: string, second: string)
    requires Markers(s, e) && Ordered(text, s, e) && !Contains(StripNewlines(first), e)
    ensures ReplaceBetween(ReplaceBetween(text, s, e, first).value, s, e, second) == ReplaceBetween(text, s, e, second)
  {
    hide Find, OccursAt, StripNewlines;
    var c := StripNewlines(first);
    var h, l := Head(text, s), Tail(text, e);
    ReplacedIsFraming(text, s, e, first);
    ReplacedIsFraming(text, s, e, second);
    var t := Framing(h, c, l);
    MarkersAfter(text, s, e, c);
    FramingParts(h, c, l);
    assert Head(t, s) == h && Tail(t, e) == l;
    ReplacedIsFraming(t, s, e, second);
  }

  /** Replacing twice equals replacing once exactly when the content does not hold the end marker. */
  lemma ReplaceIsIdempotentIff(text: string, s: string, e: string, content: string)
    requires Markers(s, e) && Ordered(text, s, e)
    ensures var once := ReplaceBetween(text, s, e, content);
      once.Ok? && (ReplaceBetween(once.value, s, e, content) == once <==> !Contains(StripNewlines(content), e))
  {
    hide Find, OccursAt, StripNewlines;
    var c := StripNewlines(content);
    var h, l := Head(text, s), Tail(text, e);
    ReplacedIsFraming(text, s, e, content);
    if !Contains(c, e) {
      LastReplacementWins(text, s, e, content, content);
    } else {
      var t := Framing(h, c, l);
      MarkersAfter(text, s, e, c);
      FramingParts(h, c, l);
      ReplacedIsFraming(t, s, e, content);
      if Ordered(t, s, e) {
        FramingParts(Head(t, s), c, Tail(t, e));
        assert |Framing(Head(t, s), c, Tail(t, e))| > |t|;
      }
    }
  }

  // ------------------------------------------------- reading back the new block

  lemma LStripOfPrefixed(t: string)
    ensures LStripNewlines("\n" + t) == LStripNewlines(t)
  {
    assert ("\n" + t)[1..] == t;
  }

  lemma StripIsStable(t: string)
    requires t == "" || (t[0] != '\n' && t[|t| - 1] != '\n')
    ensures StripNewlines("\n" + t + "\n") == t && StripNewlines(t) == t
  {
    assert "\n" + t + "\n" == "\n" + (t + "\n");
    LStripOfPrefixed(t + "\n");
    if t == "" {
      assert t + "\n" == "\n" + "";
      LStripOfPrefixed("");
      assert StripNewlines("\n" + t + "\n") == RStripNewlines("");
    } else {
      assert (t + "\n")[0] == t[0];
      assert LStripNewlines(t + "\n") == t + "\n" && LStripNewlines(t) == t;
      assert (t + "\n")[|t|] == '\n' && (t + "\n")[..|t|] == t;
      assert RStripNewlines(t + "\n") == RStripNewlines(t) == t;
    }
  }

  lemma {:induction false} LStripWindow(t: string)
    ensures var r := LStripNewlines(t);
      |r| <= |t| && t[|t| - |r|..] == r && forall k :: 0 <= k < |t| - |r| ==> t[k] == '\n'
  {
    if t != "" && t[0] == '\n' {
      LStripWindow(t[1..]);
    }
  }

  lemma {:induction false} RStripWindow(t: string)
    ensures forall k :: |RStripNewlines(t)| <= k < |t| ==> t[k] == '\n'
  {
    if t != "" && t[|t| - 1] == '\n' {
      RStripWindow(t[..|t| - 1]);
    }
  }

  /** What is stripped off are newlines, so a pattern without one stays inside what is left. */
  lemma StripKeepsInside(t: string, p: string, at: nat) returns (a: nat, b: nat)
    requires Lacks(p, '\n') && p != "" && OccursAt(t, p, at)
    ensures a <= at && at + |p| <= b <= |t| && StripNewlines(t) == t[a..b]
    ensures forall k :: 0 <= k < a ==> t[k] == '\n'
  {
    var l := LStripNewlines(t);
    LStripWindow(t);
    RStripWindow(l);
    a := |t| - |l|;
    b := a + |RStripNewlines(l)|;
    OccursChars(t, p, at);
    assert t[at] == p[0] && t[at + |p| - 1] == p[|p| - 1];
    assert forall k :: 0 <= k < |l| ==> l[k] == t[a + k];
  }

  /** A document with one ordered pair, after a replacement, still has exactly one, and reading
      its block gives the content up to normalisation; that fails exactly when the content holds
      a marker. */
  lemma ReadsBackIff(text: string, s: string, e: string, content: string)
    requires Markers(s, e) && ExtractBetween(text, s, e).Block?
    ensures ReplaceBetween(text, s, e, content).Ok?
    ensures var c, r := StripNewlines(content), ExtractBetween(ReplaceBetween(text, s, e, content).value, s, e);
      && (!Contains(c, s) && !Contains(c, e) ==> r == Block("\n" + c + "\n") && Normalize(r.content) == Normalize(content))
      && (Contains(c, s) || Contains(c, e) ==> r == Refused(Repeated))
  {
    hide Find, OccursAt, Count, StripNewlines, Normalize;
    var c := StripNewlines(content);
    var h, l := Head(text, s), Tail(text, e);
    var t := Framing(h, c, l);
    ReplacedIsFraming(text, s, e, content);
    MarkersAfter(text, s, e, c);
    FramingParts(h, c, l);
    StartCountedOnce(text, s, e, c);
    EndCountedOnce(text, s, e, c);
    if !Contains(c, s) && !Contains(c, e) {
      BlockNormalizes(content);
      assert t[|h|..|h| + 2 + |c|] == "\n" + c + "\n";
    }
  }

  lemma BlockNormalizes(content: string)
    ensures Normalize("\n" + StripNewlines(content) + "\n") == Normalize(content)
  {
    StripIsStable(StripNewlines(content));
  }

  lemma StartCountedOnce(text: string, s: string, e: string, c: string)
    requires Markers(s, e) && ExtractBetween(text, s, e).Block?
    ensures Contains(Framing(Head(text, s), c, Tail(text, e)), s)
    ensures Count(Framing(Head(text, s), c, Tail(text, e)), s) == 1 <==> !Contains(c, s)
  {
    hide Count, Framing, Lacks, StripNewlines;
    var h, l, at := Head(text, s), Tail(text, e), Find(text, s, 0);
    var t := Framing(h, c, l);
    MarkersAfter(text, s, e, c);
    CountIsOne(text, s);
    CountIsOne(t, s);
    FirstInTail(text, e);
    FirstInHead(text, s);
    NotFound(c, s);
    hide Find, OccursAt;
    forall k: nat | at + |s| <= k ensures OccursAt(t, s, k) <==> |h| + 1 <= k && OccursAt(c, s, k - |h| - 1) {
      OccursInOnePart(h, c, l, s, k);
    }
    forall k: nat ensures OccursAt(c, s, k) ==> OccursAt(t, s, k + |h| + 1) {
      assert at + |s| <= k + |h| + 1;
    }
  }

  lemma EndCountedOnce(text: string, s: string, e: string, c: string)
    requires Markers(s, e) && ExtractBetween(text, s, e).Block?
    ensures Contains(Framing(Head(text, s), c, Tail(text, e)), e)
    ensures !Contains(c, e) ==> Count(Framing(Head(text, s), c, Tail(text, e)), e) == 1
    ensures Contains(c, e) ==> Count(Framing(Head(text, s), c, Tail(text, e)), e) != 1
  {
    hide Count, Framing, Lacks, StripNewlines;
    var h, l := Head(text, s), Tail(text, e);
    var t, m := Framing(h, c, l), |h| + 2 + |c|;
    MarkersAfter(text, s, e, c);
    CountIsOne(text, e);
    CountIsOne(t, e);
    FirstInTail(text, e);
    NoneInHead(text, s, e);
    OccursInOnePart(h, c, l, e, m);
    if Contains(c, e) {
      assert Find(t, e, 0) + |e| <= m by {
        OccursInOnePart(h, c, l, e, Find(t, e, 0));
      }
      assert OccursAt(t, e, m);
    } else {
      NotFound(c, e);
      forall k: nat | m + |e| <= k ensures !OccursAt(t, e, k) {
        OccursInOnePart(h, c, l, e, k);
        assert OccursAt(l, e, k - m) <==> OccursAt(text, e, k - m + Find(text, e, 0));
      }
    }
  }
}
