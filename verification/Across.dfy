/** `locate` between two files whose separators differ: it looks for the lines that the old text
    reads as under the working file's separator (scripts/relocate-citations.py:242-269, 456-518). */
module Across {
  import opened Text
  import opened LineBlocks
  import opened LineIndex
  import opened Relocate

  /** Two plain indexes of the same separating character, of whatever lengths. */
  ghost predicate BothPlain(was: SourceIndex, cur: SourceIndex) {
    Plain(was) && Plain(cur) && was.sep[0] == cur.sep[0]
  }

  /** The block, joined by the one separator, is these lines under the other. */
  ghost predicate ReadsAs(block: seq<string>, sep: string, read: seq<string>, other: string)
    requires other != ""
  {
    read != [] && Clean(read, other) && Join(read, other) == Join(block, sep)
  }

  lemma JoinIsOneText(a: seq<string>, b: seq<string>, sep: string)
    requires Uniform(sep) && Clean(a, sep) && Clean(b, sep) && a != [] && b != []
    ensures Join(a, sep) == Join(b, sep) <==> a == b
  {
    hide Clean, Join, Framed;
    if Join(a, sep) == Join(b, sep) {
      FramedIsJoin(a, sep);
      FramedIsJoin(b, sep);
      FramedPrefix(a, b, sep);
      FramedPrefix(b, a, sep);
    }
  }

  lemma {:induction false} EmptyJoin(lines: seq<string>, sep: string)
    requires Uniform(sep) && AllEmpty(lines)
    ensures forall k :: 0 <= k < |Join(lines, sep)| ==> Join(lines, sep)[k] == sep[0]
  {
    if |lines| > 1 {
      EmptyJoin(lines[1..], sep);
    }
  }

  lemma {:induction false} LineInJoin(lines: seq<string>, j: nat, sep: string) returns (at: nat)
    requires j < |lines| && lines[j] != ""
    ensures at < |Join(lines, sep)| && Join(lines, sep)[at] == lines[j][0]
  {
    if j == 0 {
      at := 0;
    } else {
      at := LineInJoin(lines[1..], j - 1, sep);
      at := at + |lines[0]| + |sep|;
    }
  }

  /** The two readings are blank together. */
  lemma BlankAlike(block: seq<string>, sep: string, read: seq<string>, other: string)
    requires Uniform(sep) && Uniform(other) && sep[0] == other[0] && Clean(block, sep) && ReadsAs(block, sep, read, other)
    ensures AllEmpty(block) <==> AllEmpty(read)
  {
    hide Join;
    if AllEmpty(block) {
      EmptyJoin(block, sep);
      forall j | 0 <= j < |read| ensures read[j] == "" {
        if read[j] != "" {
          var at := LineInJoin(read, j, other);
        }
      }
    }
    if AllEmpty(read) {
      EmptyJoin(read, other);
      forall j | 0 <= j < |block| ensures block[j] == "" {
        if block[j] != "" {
          var at := LineInJoin(block, j, sep);
        }
      }
    }
  }

  /** `locate` in terms of where the lines read stand. */
  ghost predicate FoundAs(cur: seq<string>, block: seq<string>, read: seq<string>, start: nat, end: nat, d: Decision)
    requires 1 <= start <= end
  {
    if |read| == |block| && BlockAt(cur, read, start - 1) then d == Stays(start, end)
    else if AllBlank(block) then d.status == Blank
    else match d.status
      case Shifted => exists i: nat :: OnlyAt(cur, read, i) && d.placed == Some((i + 1, i + 1 + (end - start)))
      case Missing => forall i: nat :: !BlockAt(cur, read, i)
      case Ambiguous => exists i: nat, j: nat :: i < j && BlockAt(cur, read, i) && BlockAt(cur, read, j)
      case _ => false
  }

  lemma RightAcross(was: SourceIndex, cur: SourceIndex, start: nat, end: nat, read: seq<string>)
    requires BothPlain(was, cur) && 1 <= start <= end <= |was.norm|
    requires ReadsAs(Cited(was.norm, start, end), was.sep, read, cur.sep)
    ensures IsRight(was, cur, start, end) <==> |read| == end - start + 1 && BlockAt(cur.norm, read, start - 1)
  {
    hide Clean, Join;
    if end <= |cur.norm| {
      SliceClean(cur.norm, cur.sep, start - 1, end);
      JoinIsOneText(Cited(cur.norm, start, end), read, cur.sep);
    }
  }

  lemma EmptyIsBlank(block: seq<string>)
    ensures AllEmpty(block) <==> AllBlank(block)
  {
    forall j | 0 <= j < |block| && AllBlank(block) ensures block[j] == "" {
      assert block[j] in block;
    }
  }

  /** What `locate` answers, whatever the two separators are. */
  lemma LocateAcross(was: SourceIndex, cur: SourceIndex, start: nat, end: nat, read: seq<string>)
    requires BothPlain(was, cur) && 1 <= start <= end <= |was.norm|
    requires ReadsAs(Cited(was.norm, start, end), was.sep, read, cur.sep)
    ensures cur.sep != "" && FoundAs(cur.norm, Cited(was.norm, start, end), read, start, end, Locate(was, cur, start, end))
  {
    hide Join, SourceIndex.WindowsFrom, Strip, Concat, Clean, IsRight, AllEmpty;
    var block := Cited(was.norm, start, end);
    RightAcross(was, cur, start, end, read);
    BlankBlockIff(block);
    SliceClean(was.norm, was.sep, start - 1, end);
    BlankAlike(block, was.sep, read, cur.sep);
    EmptyIsBlank(block);
    if !IsRight(was, cur, start, end) && !AllBlank(block) {
      NotTheEmptyLine(read);
      WindowsExactIff(cur, read);
      var hits := cur.WindowsOf(was.Block(start, end));
      assert Exact(cur.norm, read, hits);
      HitsSay(cur.norm, read, hits);
    }
  }

  lemma NotTheEmptyLine(read: seq<string>)
    ensures !AllEmpty(read) ==> read != [""]
  {
  }

  ghost predicate Several(cur: seq<string>, block: seq<string>) {
    exists i: nat, j: nat :: i < j && BlockAt(cur, block, i) && BlockAt(cur, block, j)
  }

  ghost predicate Nowhere(cur: seq<string>, block: seq<string>) {
    forall i: nat :: !BlockAt(cur, block, i)
  }

  /** Both stand nowhere, both at several places, or both at one place, the same. */
  ghost predicate StandAlike(cur: seq<string>, block: seq<string>, read: seq<string>) {
    || (Nowhere(cur, block) && Nowhere(cur, read))
    || (Several(cur, block) && Several(cur, read))
    || exists i: nat :: OnlyAt(cur, block, i) && OnlyAt(cur, read, i)
  }

  /** The answer is right for the cited lines though it was found for the lines read. */
  ghost predicate RightAnyway(cur: seq<string>, block: seq<string>, read: seq<string>, start: nat)
    requires start >= 1
  {
    && !BlockAt(cur, block, start - 1) && !(|read| == |block| && BlockAt(cur, read, start - 1))
    && (AllBlank(block) || StandAlike(cur, block, read))
  }

  lemma FoundMeans(cur: seq<string>, block: seq<string>, read: seq<string>, start: nat, end: nat, d: Decision)
    requires 1 <= start <= end && FoundAs(cur, block, read, start, end, d)
    requires !(|read| == |block| && BlockAt(cur, read, start - 1)) && !AllBlank(block)
    ensures d.status == Missing <==> Nowhere(cur, read)
    ensures d.status == Ambiguous <==> Several(cur, read)
    ensures d.status == Shifted || d.status == Missing || d.status == Ambiguous
    ensures forall i: nat :: OnlyAt(cur, read, i) <==> d.status == Shifted && d.placed == Some((i + 1, i + 1 + (end - start)))
  {
    hide BlockAt, AllBlank;
  }

  lemma LocatedIsFound(was: seq<string>, cur: seq<string>, start: nat, end: nat, d: Decision)
    requires 1 <= start <= end <= |was|
    ensures var block := Cited(was, start, end); LocatedAs(was, cur, start, end, d) <==> FoundAs(cur, block, block, start, end, d)
  {
    hide AllBlank;
  }

  lemma FoundForBothIff(cur: seq<string>, block: seq<string>, read: seq<string>, start: nat, end: nat, d: Decision)
    requires 1 <= start <= end && |block| == end - start + 1 && FoundAs(cur, block, read, start, end, d)
    ensures FoundAs(cur, block, block, start, end, d) <==> read == block || RightAnyway(cur, block, read, start)
  {
    hide AllBlank;
    if BlockAt(cur, block, start - 1) || (|read| == |block| && BlockAt(cur, read, start - 1)) || AllBlank(block) {
    } else {
      FoundMeans(cur, block, read, start, end, d);
      hide BlockAt;
      if FoundAs(cur, block, block, start, end, d) {
        FoundMeans(cur, block, block, start, end, d);
      }
    }
  }

  /** Between any two plain files `locate` is right about the cited lines exactly when the text
      reads as these lines under the working file's separator, or as lines that stand in the
      working file as they do. */
  lemma RightAcrossIff(was: SourceIndex, cur: SourceIndex, start: nat, end: nat, read: seq<string>)
    requires BothPlain(was, cur) && 1 <= start <= end <= |was.norm|
    requires ReadsAs(Cited(was.norm, start, end), was.sep, read, cur.sep)
    ensures var block := Cited(was.norm, start, end);
      && cur.sep != ""
      && (LocatedAs(was.norm, cur.norm, start, end, Locate(was, cur, start, end)) <==>
            read == block || RightAnyway(cur.norm, block, read, start))
  {
    assert cur.sep != "";
    hide Locate, LocatedAs, FoundAs, Plain, Clean, RightAnyway;
    var block, d := Cited(was.norm, start, end), Locate(was, cur, start, end);
    LocateAcross(was, cur, start, end, read);
    LocatedIsFound(was.norm, cur.norm, start, end, d);
    FoundForBothIff(cur.norm, block, read, start, end, d);
  }

  lemma {:induction false} JoinOfSplit(s: string, c: char)
    ensures Join(Split(s, c), [c]) == s
    decreases |s|
  {
    var k := IndexOfChar(s, c);
    if k < |s| {
      JoinOfSplit(s[k + 1..], c);
      var rest := Split(s[k + 1..], c);
      assert ([s[..k]] + rest)[1..] == rest;
      assert s == s[..k] + [c] + s[k + 1..];
    }
  }

  /** Under the separator of a file without NULs every text reads as lines. */
  lemma ReadsUnderNul(block: seq<string>, sep: string) returns (read: seq<string>)
    ensures ReadsAs(block, sep, read, "\0")
  {
    var text := Join(block, sep);
    read := Split(text, '\0');
    JoinOfSplit(text, '\0');
    forall i, k | 0 <= i < |read| && 0 <= k < |read[i]| ensures read[i][k] != '\0' {
      assert read[i] in read;
    }
    FreeIsClean(read, '\0');
    assert ['\0'] == "\0";
  }
}
