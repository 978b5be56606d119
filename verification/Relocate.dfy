/** Placing one citation: where its text went on one side, and what the sides of a merge
    decide together (scripts/relocate-citations.py:173-215, 319-792). */
module Relocate {
  import opened Text
  import opened LineBlocks
  import opened LineIndex
  import opened Citations

  datatype Status =
    | Right | Shifted | Ambiguous | Missing | Unknown | Unclaimed | Blank | Elsewhere | Symlink | Continuation

  type Range = (nat, nat)

  datatype Decision = Decision(status: Status, cited: Range, placed: Option<Range>, via: string)

  function Refuse(status: Status, start: nat, end: nat): Decision {
    Decision(status, (start, end), None, "")
  }

  function Stays(start: nat, end: nat): Decision {
    Decision(Right, (start, end), Some((start, end)), "")
  }

  // ---------------------------------------------------------- one side's answer

  predicate IsRight(was: SourceIndex, cur: SourceIndex, start: nat, end: nat)
    requires 1 <= start <= end
  {
    end <= |was.norm| && end <= |cur.norm| && cur.Block(start, end) == was.Block(start, end)
  }

  function Locate(was: SourceIndex, cur: SourceIndex, start: nat, end: nat): Decision
    requires 1 <= start <= end && cur.sep != ""
  {
    if end > |was.norm| then Refuse(Unknown, start, end)
    else if IsRight(was, cur, start, end) then Stays(start, end)
    else if Strip(Concat(was.norm[start - 1..end])) == "" then Refuse(Blank, start, end)
    else
      var hits := cur.WindowsOf(was.Block(start, end));
      if |hits| == 1 then Decision(Shifted, (start, end), Some((hits[0] + 1, hits[0] + 1 + (end - start))), "")
      else if |hits| > 1 then Refuse(Ambiguous, start, end)
      else Refuse(Missing, start, end)
  }

  /** An index in which no line holds the separator or has its character at an end: in a file's
      own index, no line has a NUL at an end. */
  ghost predicate Plain(ix: SourceIndex) {
    && Built(ix) && Clean(ix.norm, ix.sep)
    && forall ln <- ix.norm :: IsStripped(ln)
  }

  /** A file's index is plain exactly when no stripped line has a NUL at an end. */
  lemma PlainIndexIff(lines: seq<string>)
    ensures Plain(IndexOf(Normalised(lines))) <==> forall ln <- lines :: NoNulAtEnds(Strip(ln))
  {
    hide IsSpace, Strip, NoNulAtEnds, Clean, IndexOf, Built;
    var norm := Normalised(lines);
    IndexIsBuilt(norm);
    CleanIff(norm);
    forall ln <- norm ensures IsStripped(ln) {
      var i :| 0 <= i < |norm| && norm[i] == ln;
      StripIsStripped(lines[i]);
    }
    if Plain(IndexOf(norm)) {
      forall ln <- lines ensures NoNulAtEnds(Strip(ln)) {
        var i :| 0 <= i < |lines| && lines[i] == ln;
        assert norm[i] == Strip(ln);
      }
    }
    if forall ln <- lines :: NoNulAtEnds(Strip(ln)) {
      forall i | 0 <= i < |norm| ensures NoNulAtEnds(norm[i]) {
        assert lines[i] in lines;
      }
    }
  }

  lemma StripIsStripped(line: string)
    ensures IsStripped(Strip(line))
  {
    hide IsSpace;
  }

  function Cited(lines: seq<string>, start: nat, end: nat): seq<string>
    requires 1 <= start <= end <= |lines|
  {
    lines[start - 1..end]
  }

  lemma JoinInjective(a: seq<string>, b: seq<string>, sep: string)
    requires Uniform(sep) && Clean(a, sep) && Clean(b, sep) && |a| == |b| > 0
    ensures Join(a, sep) == Join(b, sep) <==> a == b
  {
    hide Clean, Join, Framed;
    if Join(a, sep) == Join(b, sep) {
      FramedIsJoin(a, sep);
      FramedIsJoin(b, sep);
      FramedPrefix(a, b, sep);
      assert a <= b;
    }
  }

  lemma SliceClean(lines: seq<string>, sep: string, i: nat, j: nat)
    requires sep != "" && Clean(lines, sep) && i <= j <= |lines|
    ensures Clean(lines[i..j], sep)
  {
    hide CleanLine;
  }

  lemma IsRightIff(was: SourceIndex, cur: SourceIndex, start: nat, end: nat)
    requires Plain(was) && Plain(cur) && was.sep == cur.sep && 1 <= start <= end <= |was.norm|
    ensures IsRight(was, cur, start, end) <==> BlockAt(cur.norm, Cited(was.norm, start, end), start - 1)
  {
    hide Clean, Join;
    if end <= |cur.norm| {
      SliceClean(was.norm, was.sep, start - 1, end);
      SliceClean(cur.norm, cur.sep, start - 1, end);
      JoinInjective(Cited(was.norm, start, end), Cited(cur.norm, start, end), was.sep);
    }
  }

  lemma {:induction false} BlankBlockIff(block: seq<string>)
    requires forall ln <- block :: IsStripped(ln)
    ensures (forall c <- Concat(block) :: IsSpace(c)) <==> forall ln <- block :: ln == ""
  {
    hide IsSpace;
    if block != [] {
      assert block == [block[0]] + block[1..];
      BlankBlockIff(block[1..]);
      var rest := Concat(block[1..]);
      if block[0] != "" {
        assert Concat(block)[0] == block[0][0] && Concat(block)[0] in Concat(block);
        assert block[0] in block;
      } else {
        assert Concat(block) == rest;
        assert forall ln :: ln in block <==> ln == "" || ln in block[1..];
      }
    }
  }

  /** The only place of the block in the lines. */
  ghost predicate OnlyAt(lines: seq<string>, block: seq<string>, i: nat) {
    BlockAt(lines, block, i) && forall j: nat :: BlockAt(lines, block, j) ==> j == i
  }

  ghost predicate AllBlank(block: seq<string>) {
    forall ln <- block :: ln == ""
  }

  /** `locate` in terms of where the cited lines occur, with no search in it. */
  ghost predicate LocatedAs(was: seq<string>, cur: seq<string>, start: nat, end: nat, d: Decision)
    requires 1 <= start <= end
  {
    if end > |was| then d.status == Unknown
    else
      var block := Cited(was, start, end);
      if BlockAt(cur, block, start - 1) then d == Stays(start, end)
      else if AllBlank(block) then d.status == Blank
      else match d.status
        case Shifted => exists i: nat :: OnlyAt(cur, block, i) && d.placed == Some((i + 1, i + 1 + (end - start)))
        case Missing => forall i: nat :: !BlockAt(cur, block, i)
        case Ambiguous => exists i: nat, j: nat :: i < j && BlockAt(cur, block, i) && BlockAt(cur, block, j)
        case _ => false
  }

  lemma LocateExact(was: SourceIndex, cur: SourceIndex, start: nat, end: nat)
    requires Plain(was) && Plain(cur) && was.sep == cur.sep && 1 <= start <= end
    ensures cur.sep != "" && LocatedAs(was.norm, cur.norm, start, end, Locate(was, cur, start, end))
  {
    hide Join, SourceIndex.WindowsFrom, Strip, Concat, Clean, IsRight, BlockAt, Exact;
    if end <= |was.norm| {
      var block := Cited(was.norm, start, end);
      IsRightIff(was, cur, start, end);
      BlankBlockIff(block);
      if !IsRight(was, cur, start, end) && !AllBlank(block) {
        HitsExact(was, cur, start, end);
        HitsSay(cur.norm, block, cur.WindowsOf(was.Block(start, end)));
      }
    }
  }

  lemma HitsExact(was: SourceIndex, cur: SourceIndex, start: nat, end: nat)
    requires Plain(was) && Plain(cur) && was.sep == cur.sep && 1 <= start <= end <= |was.norm|
    requires !AllBlank(Cited(was.norm, start, end))
    ensures Exact(cur.norm, Cited(was.norm, start, end), cur.WindowsOf(was.Block(start, end)))
  {
    hide Join, SourceIndex.WindowsFrom, Clean, BlockAt, Exact, AllBlank;
    SliceClean(was.norm, was.sep, start - 1, end);
    SomeText(Cited(was.norm, start, end));
    WindowsExactIff(cur, Cited(was.norm, start, end));
  }

  lemma SomeText(block: seq<string>)
    ensures !AllBlank(block) ==> !AllEmpty(block) && block != [""]
  {
    if !AllBlank(block) {
      var ln :| ln in block && ln != "";
      var i :| 0 <= i < |block| && block[i] == ln;
    }
  }

  lemma HitsSay(lines: seq<string>, block: seq<string>, hits: seq<nat>)
    requires Exact(lines, block, hits)
    ensures |hits| == 0 ==> forall i: nat :: !BlockAt(lines, block, i)
    ensures |hits| == 1 ==> OnlyAt(lines, block, hits[0])
    ensures |hits| > 1 ==> hits[0] < hits[1] && BlockAt(lines, block, hits[0]) && BlockAt(lines, block, hits[1])
  {
    if |hits| > 1 {
      assert hits[0] in hits && hits[1] in hits;
    } else if |hits| == 1 {
      assert hits[0] in hits;
    }
  }

  lemma PlacedOnlyWhen(was: SourceIndex, cur: SourceIndex, start: nat, end: nat)
    requires 1 <= start <= end && cur.sep != ""
    ensures var d := Locate(was, cur, start, end);
            d.placed.Some? <==> d.status == Right || d.status == Shifted
  {
    hide SourceIndex.WindowsFrom, SourceIndex.Block, Strip;
  }

  // ---------------------------------------------------------------- the digest

  /** What the lockfile pins: a hash of the range's lines, stripped and joined by line feeds. */
  function Digest<T>(hash: string -> T, lines: seq<string>, start: nat, end: nat): Option<T>
    requires 1 <= start <= end
  {
    if end > |lines| then None else Some(hash(Join(Normalised(lines[start - 1..end]), "\n")))
  }

  lemma {:induction false} NormalisedAt(lines: seq<string>)
    ensures |Normalised(lines)| == |lines|
    ensures forall k :: 0 <= k < |lines| ==> Normalised(lines)[k] == Strip(lines[k])
  {
  }

  lemma StrippedLacks(line: string)
    ensures Lacks(line, '\n') ==> Lacks(Strip(line), '\n')
  {
    assert Lacks(line, '\n') ==> '\n' !in line;
  }

  predicate SameStripped(a: seq<string>, s: nat, b: seq<string>, s': nat, k: nat) {
    s + k <= |a| && s' + k <= |b| && s >= 1 && s' >= 1 && Strip(a[s - 1 + k]) == Strip(b[s' - 1 + k])
  }

  /** With a hash that tells texts apart, a digest changes with the number of lines and with
      every one of them, and with nothing but the blanks around it. */
  lemma DigestIff<T>(hash: string -> T, a: seq<string>, s: nat, e: nat, b: seq<string>, s': nat, e': nat)
    requires forall x, y :: hash(x) == hash(y) ==> x == y
    requires 1 <= s <= e <= |a| && 1 <= s' <= e' <= |b|
    requires (forall l <- a :: Lacks(l, '\n')) && (forall l <- b :: Lacks(l, '\n'))
    ensures Digest(hash, a, s, e) == Digest(hash, b, s', e') <==>
            e - s == e' - s' && forall k :: 0 <= k <= e - s ==> SameStripped(a, s, b, s', k)
  {
    hide Strip, Join, Normalised;
    var x, y := Normalised(a[s - 1..e]), Normalised(b[s' - 1..e']);
    NormalisedAt(a[s - 1..e]);
    NormalisedAt(b[s' - 1..e']);
    assert forall k :: 0 <= k < |x| ==> x[k] == Strip(a[s - 1 + k]);
    assert forall k :: 0 <= k < |y| ==> y[k] == Strip(b[s' - 1 + k]);
    NormalisedLack(a, s - 1, e);
    NormalisedLack(b, s' - 1, e');
    SplitOfJoin(x, '\n');
    SplitOfJoin(y, '\n');
    if e - s == e' - s' && forall k :: 0 <= k <= e - s ==> SameStripped(a, s, b, s', k) {
      forall k | 0 <= k < |x| ensures x[k] == y[k] {
        assert SameStripped(a, s, b, s', k);
      }
      assert x == y;
    }
    if Join(x, "\n") == Join(y, "\n") {
      assert x == y;
      forall k | 0 <= k <= e - s ensures SameStripped(a, s, b, s', k) {
        assert x[k] == y[k];
      }
    }
  }

  lemma NormalisedLack(lines: seq<string>, from: nat, to: nat)
    requires from <= to <= |lines| && forall l <- lines :: Lacks(l, '\n')
    ensures forall l <- Normalised(lines[from..to]) :: Lacks(l, '\n')
  {
    hide Strip, Normalised;
    NormalisedAt(lines[from..to]);
    forall k | 0 <= k < to - from ensures Lacks(Normalised(lines[from..to])[k], '\n') {
      assert lines[from..to][k] == lines[from + k] && lines[from + k] in lines;
      StrippedLacks(lines[from + k]);
    }
  }

  /** A shift in terms of the two files' lines. */
  lemma ShiftedMeans(was: SourceIndex, cur: SourceIndex, start: nat, end: nat)
    requires Plain(was) && Plain(cur) && was.sep == cur.sep && 1 <= start <= end
    requires Locate(was, cur, start, end).status == Shifted
    ensures var d := Locate(was, cur, start, end);
            && end <= |was.norm| && d.placed.Some? && !AllBlank(Cited(was.norm, start, end))
            && 1 <= d.placed.value.0 <= d.placed.value.1 <= |cur.norm|
            && d.placed.value.1 - d.placed.value.0 == end - start
            && OnlyAt(cur.norm, Cited(was.norm, start, end), d.placed.value.0 - 1)
            && Cited(cur.norm, d.placed.value.0, d.placed.value.1) == Cited(was.norm, start, end)
  {
    hide Locate, Clean, Built;
    LocateExact(was, cur, start, end);
  }

  ghost predicate GoneTo(was: seq<string>, cur: seq<string>, start: nat, end: nat, there: Range)
    requires 1 <= start <= end
  {
    && end <= |was| && 1 <= there.0 != start && there.1 - there.0 == end - start
    && !AllBlank(Cited(was, start, end)) && OnlyAt(cur, Cited(was, start, end), there.0 - 1)
  }

  lemma LocatedShift(was: seq<string>, cur: seq<string>, start: nat, end: nat, d: Decision, there: Range)
    requires 1 <= start <= end && LocatedAs(was, cur, start, end, d)
    ensures d.status == Shifted && d.placed == Some(there) <==> GoneTo(was, cur, start, end, there)
  {
    hide BlockAt, AllBlank, Cited;
    if d.status == Shifted && end <= |was| {
      var i: nat :| OnlyAt(cur, Cited(was, start, end), i) && d.placed == Some((i + 1, i + 1 + (end - start)));
    }
  }

  /** A citation shifts to `there` exactly when its text stands there and nowhere else. */
  lemma ShiftedIff(was: SourceIndex, cur: SourceIndex, start: nat, end: nat, there: Range)
    requires Plain(was) && Plain(cur) && was.sep == cur.sep && 1 <= start <= end
    ensures cur.sep != ""
    ensures var d := Locate(was, cur, start, end);
            d.status == Shifted && d.placed == Some(there) <==> GoneTo(was.norm, cur.norm, start, end, there)
  {
    LocateExact(was, cur, start, end);
    hide Locate, LocatedAs, Plain, GoneTo;
    LocatedShift(was.norm, cur.norm, start, end, Locate(was, cur, start, end), there);
  }

  /** A citation called right names the same lines in both files. */
  lemma RightMeans(was: SourceIndex, cur: SourceIndex, start: nat, end: nat)
    requires Plain(was) && Plain(cur) && was.sep == cur.sep && 1 <= start <= end
    requires Locate(was, cur, start, end).status == Right
    ensures end <= |was.norm| && end <= |cur.norm| && Cited(cur.norm, start, end) == Cited(was.norm, start, end)
  {
    hide Locate, Clean, Built;
    LocateExact(was, cur, start, end);
  }

  /** A block that occurs once is found: in place, or at its one place. */
  lemma FoundWhenUnique(was: SourceIndex, cur: SourceIndex, start: nat, end: nat, i: nat)
    requires Plain(was) && Plain(cur) && was.sep == cur.sep && 1 <= start <= end <= |was.norm|
    requires OnlyAt(cur.norm, Cited(was.norm, start, end), i) && !AllBlank(Cited(was.norm, start, end))
    ensures var d := Locate(was, cur, start, end);
            if i == start - 1 then d == Stays(start, end)
            else d.status == Shifted && d.placed == Some((i + 1, i + 1 + (end - start)))
  {
    hide Locate, Clean, Built;
    LocateExact(was, cur, start, end);
  }

  /** Two shifts in a row land where one direct search lands, unless the second undid the
      first, and then the direct search says the citation is right. */
  lemma ShiftsCompose(a: SourceIndex, b: SourceIndex, c: SourceIndex, start: nat, end: nat, mid: Range, there: Range)
    requires Plain(a) && Plain(b) && Plain(c) && a.sep == b.sep == c.sep
    requires 1 <= start <= end && 1 <= mid.0 <= mid.1
    requires Locate(a, b, start, end).status == Shifted && Locate(a, b, start, end).placed == Some(mid)
    requires Locate(b, c, mid.0, mid.1).status == Shifted && Locate(b, c, mid.0, mid.1).placed == Some(there)
    ensures there == (start, end) ==> Locate(a, c, start, end) == Stays(start, end)
    ensures there != (start, end) ==>
              Locate(a, c, start, end).status == Shifted && Locate(a, c, start, end).placed == Some(there)
  {
    hide Locate, Plain, OnlyAt, AllBlank;
    ShiftedMeans(a, b, start, end);
    ShiftedMeans(b, c, mid.0, mid.1);
    FoundWhenUnique(a, c, start, end, there.0 - 1);
  }

  lemma PlacedBlock(was: SourceIndex, cur: SourceIndex, start: nat, end: nat, placed: Range)
    requires Plain(was) && Plain(cur) && was.sep == cur.sep && 1 <= start <= end
    requires Locate(was, cur, start, end).placed == Some(placed)
    ensures end <= |was.norm| && 1 <= placed.0 <= placed.1 <= |cur.norm|
    ensures placed.1 - placed.0 == end - start
    ensures Cited(cur.norm, placed.0, placed.1) == Cited(was.norm, start, end)
  {
    hide Locate, Plain;
    LocateExact(was, cur, start, end);
    PlacedOnlyWhen(was, cur, start, end);
  }

  lemma NormalisedSlice(lines: seq<string>, start: nat, end: nat)
    requires 1 <= start <= end <= |lines|
    ensures Normalised(lines[start - 1..end]) == Cited(Normalised(lines), start, end)
  {
    hide Strip;
  }

  /** A placement keeps the digest: the new range of the new file pins the text that the old
      range pinned in the old file, whatever the hash is. */
  lemma PlacementKeepsDigest<T>(hash: string -> T, was: seq<string>, cur: seq<string>, start: nat, end: nat, placed: Range)
    requires OneSeparator(was, cur) && 1 <= start <= end
    requires Locate(IndexOf(Normalised(was)), IndexOf(Normalised(cur)), start, end).placed == Some(placed)
    ensures 1 <= placed.0 <= placed.1 && placed.1 - placed.0 == end - start
    ensures Digest(hash, was, start, end).Some?
    ensures Digest(hash, cur, placed.0, placed.1) == Digest(hash, was, start, end)
  {
    hide Locate, Plain, Join, NoNulAtEnds, IndexOf, Strip;
    PlainIndexIff(was);
    PlainIndexIff(cur);
    IndexIsBuilt(Normalised(was));
    IndexIsBuilt(Normalised(cur));
    PlacedBlock(IndexOf(Normalised(was)), IndexOf(Normalised(cur)), start, end, placed);
    NormalisedSlice(was, start, end);
    NormalisedSlice(cur, placed.0, placed.1);
  }

  /** The two files' indexes have one separator, and no stripped line has a NUL at an end. */
  ghost predicate OneSeparator(was: seq<string>, cur: seq<string>) {
    && IndexOf(Normalised(was)).sep == IndexOf(Normalised(cur)).sep
    && (forall ln <- was + cur :: NoNulAtEnds(Strip(ln)))
  }

  // --------------------------------------------- where the search is not to be trusted

  /** With a NUL at the end of a line the lengthened separator misreads: two different texts are
      taken for one, and the citation is called right. */
  lemma LongSeparatorMisplaces()
    ensures var one, other := ["a\0", "b"], ["a", "\0b"];
      Locate(IndexOf(one), IndexOf(other), 1, 2) == Stays(1, 2) && Cited(one, 1, 2) != Cited(other, 1, 2)
  {
    SeparatorOfTwo(["a\0", "b"], 0, 1);
    SeparatorOfTwo(["a", "\0b"], 1, 0);
    var one, other := ["a\0", "b"], ["a", "\0b"];
    assert one[0..2] == one && other[0..2] == other;
    assert IndexOf(one).Block(1, 2) == "a\0\0\0b" == IndexOf(other).Block(1, 2);
    assert one[0] != other[0];
  }

  /** Two indexes with different separators: the old text is "found" from line 2 of a file of two
      lines, on lines that are not the cited ones. */
  lemma UnequalSeparatorsMisplace()
    ensures var was, cur := IndexOf(["a", "b"]), IndexOf(["x", "a\0b"]);
      && Locate(was, cur, 1, 2).status == Shifted && Locate(was, cur, 1, 2).placed == Some((2, 3))
      && |cur.norm| == 2
  {
    NulFreeSeparator(["a", "b"]);
    SeparatorOfTwo(["x", "a\0b"], 1, 1);
    var was, cur := IndexOf(["a", "b"]), IndexOf(["x", "a\0b"]);
    hide IndexOf, SourceIndex.WindowsFrom, Strip, Concat, Count;
    IndexKeepsLines(["a", "b"]);
    IndexKeepsLines(["x", "a\0b"]);
    assert was.norm[0..2] == ["a", "b"] && cur.norm[0..2] == ["x", "a\0b"];
    JoinTwo("a", "b", "\0");
    JoinTwo("x", "a\0b", "\0\0");
    hide Join;
    assert was.Block(1, 2) == "a\0b" && cur.Block(1, 2)[0] == 'x';
    JoinedOfTwo(cur.joined);
    OneHit(cur);
    StripOfText(was.norm[0..2]);
    hide SourceIndex.Block, SourceIndex.WindowsOf;
    assert !IsRight(was, cur, 1, 2);
  }

  lemma JoinTwo(a: string, b: string, sep: string)
    ensures Join([a, b], sep) == a + sep + b
  {
  }

  lemma IndexKeepsLines(norm: seq<string>)
    ensures IndexOf(norm).norm == norm
  {
  }

  lemma JoinedOfTwo(t: string)
    requires t == "\0\0" + "x" + "\0\0" + "a\0b" + "\0\0"
    ensures t == "\0\0x\0\0a\0b\0\0"
  {
  }

  lemma OneHit(cur: SourceIndex)
    requires cur.sep == "\0\0" && cur.joined == "\0\0x\0\0a\0b\0\0"
    ensures cur.WindowsOf("a\0b") == [1]
  {
    var needle := cur.sep + "a\0b" + cur.sep;
    assert needle == "\0\0a\0b\0\0" && cur.joined[3..10] == needle;
    forall k: nat | k != 3 ensures !OccursAt(cur.joined, needle, k) {
      OccursChars(cur.joined, needle, k);
      assert needle[2] == 'a' && cur.joined[5] == 'a' && forall j :: 0 <= j < 10 && j != 5 ==> cur.joined[j] != 'a';
    }
    FindIs(cur.joined, needle, 0, 3);
    assert Find(cur.joined, needle, 4) == -1;
    assert cur.joined[..3] == cur.sep + "x" && (cur.sep + "x")[..2] == cur.sep && (cur.sep + "x")[2..] == "x";
    assert Count(cur.sep + "x", cur.sep) == 1 + Count("x", cur.sep) == 1;
    assert cur.WindowsFrom(needle, 0) == [Count(cur.joined[..3], cur.sep)] + cur.WindowsFrom(needle, 4);
  }

  lemma StripOfText(block: seq<string>)
    requires block == ["a", "b"]
    ensures Strip(Concat(block)) != ""
  {
    assert block[1..] == ["b"] && ["b"][1..] == [];
    assert Concat(block) == "a" + ("b" + "") == "ab";
    assert !IsSpace('a') && 'a' in "ab";
  }
}
