/** Lines framed by a separator, a run of one character: a block of whole lines occurs in the
    lines exactly where its framed text occurs in the framed text of the lines, when no line
    holds the separator or has its character at an end. */
module LineBlocks {
  import opened Text

  predicate FreeOf(lines: seq<string>, c: char) {
    forall i, k :: 0 <= i < |lines| && 0 <= k < |lines[i]| ==> lines[i][k] != c
  }

  predicate BlockAt(lines: seq<string>, block: seq<string>, i: int) {
    0 <= i && i + |block| <= |lines| && lines[i..i + |block|] == block
  }

  /** A run of one character. */
  predicate Uniform(sep: string) {
    sep != "" && forall k :: 0 <= k < |sep| ==> sep[k] == sep[0]
  }

  predicate CleanLine(line: string, sep: string)
    requires sep != ""
  {
    !Contains(line, sep) && (line != "" ==> line[0] != sep[0] && line[|line| - 1] != sep[0])
  }

  predicate Clean(lines: seq<string>, sep: string)
    requires sep != ""
  {
    forall i :: 0 <= i < |lines| ==> CleanLine(lines[i], sep)
  }

  lemma CleanTail(lines: seq<string>, sep: string)
    requires sep != "" && Clean(lines, sep)
    ensures lines != [] ==> CleanLine(lines[0], sep) && Clean(lines[1..], sep)
  {
    hide CleanLine;
  }

  lemma FreeIsClean(lines: seq<string>, c: char)
    requires FreeOf(lines, c)
    ensures Clean(lines, [c])
  {
    forall i | 0 <= i < |lines| ensures CleanLine(lines[i], [c]) {
      forall k ensures !OccursAt(lines[i], [c], k) {
        OccursChars(lines[i], [c], k);
        assert [c][0] == c;
      }
    }
  }

  predicate AllEmpty(lines: seq<string>) {
    forall i :: 0 <= i < |lines| ==> lines[i] == ""
  }

  function Framed(lines: seq<string>, sep: string): (t: string)
    ensures sep <= t
  {
    if lines == [] then sep else sep + lines[0] + Framed(lines[1..], sep)
  }

  lemma {:induction false} FramedIsJoin(lines: seq<string>, sep: string)
    requires lines != []
    ensures Framed(lines, sep) == sep + Join(lines, sep) + sep
  {
    if |lines| == 1 {
      assert Framed(lines[1..], sep) == sep;
    } else {
      FramedIsJoin(lines[1..], sep);
      assert Framed(lines, sep) == sep + lines[0] + (sep + Join(lines[1..], sep) + sep);
    }
  }

  /** Where the separator before line `i` starts in the framed text. */
  function Offset(lines: seq<string>, sep: string, i: nat): nat
    requires i <= |lines|
  {
    if i == 0 then 0 else |sep| + |lines[0]| + Offset(lines[1..], sep, i - 1)
  }

  lemma {:induction false} OffsetNext(lines: seq<string>, sep: string, i: nat)
    requires i < |lines|
    ensures Offset(lines, sep, i + 1) == Offset(lines, sep, i) + |sep| + |lines[i]|
  {
    if i > 0 {
      OffsetNext(lines[1..], sep, i - 1);
    }
  }

  lemma {:induction false} OffsetIncreases(lines: seq<string>, sep: string, i: nat, j: nat)
    requires sep != "" && i < j <= |lines|
    ensures Offset(lines, sep, i) < Offset(lines, sep, j)
  {
    if i > 0 {
      OffsetIncreases(lines[1..], sep, i - 1, j - 1);
    }
  }

  lemma {:induction false} FramedFrom(lines: seq<string>, sep: string, i: nat)
    requires i <= |lines|
    ensures Offset(lines, sep, i) + |sep| <= |Framed(lines, sep)|
    ensures Framed(lines, sep)[Offset(lines, sep, i)..] == Framed(lines[i..], sep)
  {
    if i == 0 {
      assert lines[0..] == lines;
    } else {
      FramedFrom(lines[1..], sep, i - 1);
      assert lines[1..][i - 1..] == lines[i..];
      var head := sep + lines[0];
      assert Framed(lines, sep) == head + Framed(lines[1..], sep);
      assert (head + Framed(lines[1..], sep))[Offset(lines, sep, i)..] == Framed(lines[1..], sep)[Offset(lines[1..], sep, i - 1)..];
    }
  }

  /** No separator starts inside a clean line, whatever follows the line. */
  lemma NoneInside(line: string, rest: string, sep: string, k: nat)
    requires Uniform(sep) && CleanLine(line, sep) && k < |line|
    ensures !OccursAt(line + rest, sep, k)
  {
    var t := line + rest;
    OccursChars(t, sep, k);
    if k + |sep| <= |line| {
      assert t[k..k + |sep|] == line[k..k + |sep|];
      assert OccursAt(t, sep, k) ==> OccursAt(line, sep, k);
    } else {
      assert sep[|line| - 1 - k] == sep[0] && t[|line| - 1] == line[|line| - 1];
    }
  }

  lemma {:induction false} CountSkips(line: string, rest: string, sep: string, k: nat)
    requires Uniform(sep) && CleanLine(line, sep) && k <= |line|
    ensures Count(line[k..] + rest, sep) == Count(rest, sep)
    decreases |line| - k
  {
    var t := line[k..] + rest;
    if k == |line| {
      assert t == rest;
    } else {
      NoneInside(line, rest, sep, k);
      assert t == (line + rest)[k..];
      assert |t| >= |sep| ==> t[..|sep|] == (line + rest)[k..k + |sep|];
      assert t[1..] == line[k + 1..] + rest;
      CountSkips(line, rest, sep, k + 1);
    }
  }

  lemma {:induction false} CountIsIndex(lines: seq<string>, sep: string, i: nat)
    requires i <= |lines| && Uniform(sep) && Clean(lines, sep)
    ensures Offset(lines, sep, i) <= |Framed(lines, sep)|
    ensures Count(Framed(lines, sep)[..Offset(lines, sep, i)], sep) == i
  {
    hide CleanLine, Clean, Count, Framed;
    FramedFrom(lines, sep, i);
    CleanTail(lines, sep);
    if i > 0 {
      CountIsIndex(lines[1..], sep, i - 1);
      FramedStart(lines, sep, i);
      CountOneMore(lines[0], Framed(lines[1..], sep)[..Offset(lines[1..], sep, i - 1)], sep);
    } else {
      assert Framed(lines, sep)[..0] == "";
      CountNothing(sep);
    }
  }

  lemma CountNothing(sep: string)
    requires sep != ""
    ensures Count("", sep) == 0
  {
  }

  /** What stands before the frame of line `i`: the first line's frame and the rest. */
  lemma FramedStart(lines: seq<string>, sep: string, i: nat)
    requires 0 < i <= |lines| && Offset(lines, sep, i) <= |Framed(lines, sep)|
    requires Offset(lines[1..], sep, i - 1) <= |Framed(lines[1..], sep)|
    ensures Framed(lines, sep)[..Offset(lines, sep, i)] == sep + (lines[0] + Framed(lines[1..], sep)[..Offset(lines[1..], sep, i - 1)])
  {
  }

  lemma CountOneMore(line: string, rest: string, sep: string)
    requires Uniform(sep) && CleanLine(line, sep) && (rest == "" || sep <= rest)
    ensures Count(sep + (line + rest), sep) == 1 + Count(rest, sep)
  {
    hide CleanLine, Uniform;
    var t := sep + (line + rest);
    assert t[..|sep|] == sep && t[|sep|..] == line + rest;
    CountSkips(line, rest, sep, 0);
    assert line[0..] == line;
  }

  /** The frame of the first lines starts the frame of all of them. */
  lemma {:induction false} FramedOfPrefix(block: seq<string>, lines: seq<string>, sep: string)
    requires block <= lines
    ensures Framed(block, sep) <= Framed(lines, sep)
  {
    if block != [] {
      FramedOfPrefix(block[1..], lines[1..], sep);
      PrefixTail(sep + block[0], Framed(block[1..], sep), Framed(lines[1..], sep));
    }
  }

  lemma {:induction false} FramedPrefix(block: seq<string>, lines: seq<string>, sep: string)
    requires Uniform(sep) && Clean(block, sep) && Clean(lines, sep)
    ensures Framed(block, sep) <= Framed(lines, sep) <==> block <= lines
  {
    hide CleanLine;
    if block != [] {
      if lines == [] {
        assert |Framed(block, sep)| > |sep|;
      } else {
        FramedPrefix(block[1..], lines[1..], sep);
        FirstLineEqual(block[0], Framed(block[1..], sep), lines[0], Framed(lines[1..], sep), sep);
        assert block == [block[0]] + block[1..] && lines == [lines[0]] + lines[1..];
        assert Framed(block, sep) == sep + (block[0] + Framed(block[1..], sep));
        assert Framed(lines, sep) == sep + (lines[0] + Framed(lines[1..], sep));
        PrefixTail(sep, block[0] + Framed(block[1..], sep), lines[0] + Framed(lines[1..], sep));
      }
    }
  }

  lemma PrefixTail(head: string, a: string, b: string)
    ensures head + a <= head + b <==> a <= b
  {
    if head + a <= head + b {
      assert a == (head + a)[|head|..] && b == (head + b)[|head|..];
      assert a == b[..|a|];
    }
    if a <= b {
      assert b == a + b[|a|..];
    }
  }

  lemma FirstLineEqual(x: string, xs: string, y: string, ys: string, sep: string)
    requires Uniform(sep) && CleanLine(x, sep) && CleanLine(y, sep) && sep <= xs && sep <= ys
    ensures x + xs <= y + ys <==> x == y && xs <= ys
  {
    hide CleanLine;
    if x + xs <= y + ys {
      assert (x + xs)[|x|..|x| + |sep|] == sep;
      assert (y + ys)[|x|..|x| + |sep|] == sep;
      assert OccursAt(y + ys, sep, |x|);
      if |x| < |y| {
        NoneInside(y, ys, sep, |x|);
      }
      assert (y + ys)[|y|..|y| + |sep|] == sep;
      if |y| < |x| {
        assert (x + xs)[|y|..|y| + |sep|] == (y + ys)[|y|..|y| + |sep|];
        assert OccursAt(x + xs, sep, |y|);
        NoneInside(x, xs, sep, |y|);
      }
      assert x == (x + xs)[..|x|] && y == (y + ys)[..|x|];
    }
    if x == y {
      PrefixTail(x, xs, ys);
    }
  }

  /** The framed block starts at the separator of line `i` exactly when the lines from `i`
      on are the block's. */
  lemma FramedOccurs(lines: seq<string>, block: seq<string>, sep: string, i: nat)
    requires Uniform(sep) && Clean(lines, sep) && Clean(block, sep) && i <= |lines|
    ensures OccursAt(Framed(lines, sep), Framed(block, sep), Offset(lines, sep, i)) <==> BlockAt(lines, block, i)
  {
    hide CleanLine;
    var t, p := Framed(lines, sep), Framed(block, sep);
    FramedFrom(lines, sep, i);
    FramedPrefix(block, lines[i..], sep);
    var o := Offset(lines, sep, i);
    assert OccursAt(t, p, o) <==> p <= t[o..];
    assert block <= lines[i..] <==> BlockAt(lines, block, i);
  }

  /** `f` is the first place in the text where another character stands. */
  ghost predicate FirstOther(t: string, c: char, f: int) {
    0 <= f < |t| && t[f] != c && forall k :: 0 <= k < f ==> t[k] == c
  }

  /** The framed text of lines that are not all empty: whole separators, then another character. */
  lemma {:induction false} LeadingRun(lines: seq<string>, sep: string) returns (n: nat)
    requires Uniform(sep) && Clean(lines, sep) && !AllEmpty(lines)
    ensures FirstOther(Framed(lines, sep), sep[0], n * |sep|)
  {
    var t := Framed(lines, sep);
    if lines[0] != "" {
      n := 1;
      assert CleanLine(lines[0], sep);
      assert t[|sep|] == lines[0][0];
    } else {
      var m := LeadingRun(lines[1..], sep);
      n := m + 1;
      assert n * |sep| == m * |sep| + |sep|;
      assert t == sep + Framed(lines[1..], sep);
      assert t[n * |sep|] == Framed(lines[1..], sep)[m * |sep|];
      forall k | 0 <= k < n * |sep| ensures t[k] == sep[0] {
        assert k >= |sep| ==> t[k] == Framed(lines[1..], sep)[k - |sep|];
      }
    }
  }

  lemma {:induction false} AllEmptyFramed(lines: seq<string>, sep: string)
    requires Uniform(sep) && AllEmpty(lines)
    ensures forall k :: 0 <= k < |Framed(lines, sep)| ==> Framed(lines, sep)[k] == sep[0]
  {
    if lines != [] {
      AllEmptyFramed(lines[1..], sep);
      assert Framed(lines, sep) == sep + Framed(lines[1..], sep);
    }
  }

  lemma OtherShifts(t: string, needle: string, sep: string, p: nat, n: nat)
    requires Uniform(sep) && sep <= t && p < |sep| && OccursAt(t, needle, p) && FirstOther(needle, sep[0], n)
    ensures FirstOther(t, sep[0], p + n)
  {
    OccursChars(t, needle, p);
    assert t[p + n] == needle[n];
    forall k | 0 <= k < p + n ensures t[k] == sep[0] {
      if k >= p {
        assert t[p + (k - p)] == needle[k - p];
      } else {
        assert t[..|sep|][k] == sep[k];
      }
    }
  }

  /** Away from the first separator's start a framed block cannot begin inside a separator. */
  lemma NotInSeparator(lines: seq<string>, block: seq<string>, sep: string, p: nat)
    requires Uniform(sep) && Clean(lines, sep) && Clean(block, sep)
    requires |sep| == 1 || !AllEmpty(block)
    requires 0 < p < |sep|
    ensures !OccursAt(Framed(lines, sep), Framed(block, sep), p)
  {
    hide Clean, CleanLine, AllEmpty, OccursAt, Framed;
    var t, needle := Framed(lines, sep), Framed(block, sep);
    var b := LeadingRun(block, sep);
    if OccursAt(t, needle, p) {
      OtherShifts(t, needle, sep, p, b * |sep|);
      if AllEmpty(lines) {
        AllEmptyFramed(lines, sep);
      } else {
        var l := LeadingRun(lines, sep);
        NotMultiple(p, l - b, |sep|);
      }
    }
  }

  lemma NotMultiple(p: int, q: int, m: nat)
    requires 0 < p < m
    ensures p != q * m
  {
    if q >= 1 {
      assert q * m >= m;
    } else {
      assert q * m <= 0;
    }
  }

  /** And it starts nowhere else. */
  lemma {:induction false} FramedOccursOnlyThere(lines: seq<string>, block: seq<string>, sep: string, p: nat) returns (i: nat)
    requires Uniform(sep) && Clean(lines, sep) && Clean(block, sep)
    requires |sep| == 1 || !AllEmpty(block)
    requires OccursAt(Framed(lines, sep), Framed(block, sep), p)
    ensures i <= |lines| && p == Offset(lines, sep, i) && BlockAt(lines, block, i)
  {
    hide Clean, CleanLine, AllEmpty, OccursAt;
    var t, needle := Framed(lines, sep), Framed(block, sep);
    CleanTail(lines, sep);
    OccursBounds(t, needle, p);
    if p == 0 {
      i := 0;
      FramedOccurs(lines, block, sep, 0);
    } else {
      assert lines != [];
      if p < |sep| {
        NotInSeparator(lines, block, sep, p);
      }
      var n, rest := |sep| + |lines[0]|, Framed(lines[1..], sep);
      assert t == sep + (lines[0] + rest);
      if p < n {
        OccursLater(sep, lines[0] + rest, sep, needle, p);
        NoneInside(lines[0], rest, sep, p - |sep|);
      }
      assert t == sep + lines[0] + rest;
      OccursLater(sep + lines[0], rest, needle, needle, p);
      i := FramedOccursOnlyThere(lines[1..], block, sep, p - n);
      i := i + 1;
      FramedOccurs(lines, block, sep, i);
    }
  }

  /** An occurrence behind the head is one in the tail, also of what the pattern starts with. */
  lemma OccursLater(head: string, tail: string, first: string, p: string, at: nat)
    requires OccursAt(head + tail, p, at) && first <= p && |head| <= at
    ensures OccursAt(tail, first, at - |head|)
  {
    var t := head + tail;
    assert t[at..at + |p|][..|first|] == t[at..at + |first|];
    assert t[at..at + |first|] == tail[at - |head|..at - |head| + |first|];
  }
}

/** A file's normalised lines with a joined copy for block search
    (scripts/relocate-citations.py:218-270). */
module LineIndex {
  import opened Text
  import opened LineBlocks

  datatype SourceIndex = SourceIndex(norm: seq<string>, sep: string, joined: string) {
    /** The normalised text of lines start..end, 1-based and inclusive. */
    function Block(start: nat, end: nat): string
      requires 1 <= start <= end <= |norm|
    {
      Join(norm[start - 1..end], sep)
    }

    function WindowsFrom(needle: string, pos: nat): seq<nat>
      requires sep != ""
      decreases |joined| - pos
    {
      if pos > |joined| then []
      else
        var at := Find(joined, needle, pos);
        if at < 0 then [] else [Count(joined[..at], sep)] + WindowsFrom(needle, at + 1)
    }

    function WindowsOf(block: string): seq<nat>
      requires sep != ""
    {
      WindowsFrom(sep + block + sep, 0)
    }

    /** 0-based line indices where `block` sits as a run of whole lines, by search. */
    method Windows(block: string) returns (found: seq<nat>)
      requires sep != ""
      ensures found == WindowsOf(block)
    {
      var needle := sep + block + sep;
      found := [];
      var pos := 0;
      while true
        invariant 0 <= pos
        invariant found + WindowsFrom(needle, pos) == WindowsOf(block)
        decreases |joined| - pos
      {
        var at := Find(joined, needle, pos);
        if at < 0 {
          return;
        }
        found := found + [Count(joined[..at], sep)];
        pos := at + 1;
      }
    }
  }

  function Nuls(k: nat): string {
    seq(k, _ => '\0')
  }

  function Normalised(lines: seq<string>): seq<string> {
    seq(|lines|, i requires 0 <= i < |lines| => Strip(lines[i]))
  }

  predicate SomeLineContains(norm: seq<string>, sep: string) {
    exists ln :: ln in norm && Contains(ln, sep)
  }

  function Longest(norm: seq<string>): (n: nat)
    ensures forall ln <- norm :: |ln| <= n
  {
    if norm == [] then 0
    else
      var n := Longest(norm[1..]);
      if |norm[0]| > n then |norm[0]| else n
  }

  /** The shortest run of at least `k` NULs that no line contains. */
  function SeparatorFrom(norm: seq<string>, k: nat): (sep: string)
    requires k >= 1
    ensures !SomeLineContains(norm, sep) && |sep| >= k && sep == Nuls(|sep|)
    ensures forall j :: k <= j < |sep| ==> SomeLineContains(norm, Nuls(j))
    decreases Longest(norm) + 1 - k
  {
    if SomeLineContains(norm, Nuls(k)) then
      assert k <= Longest(norm) by {
        var ln :| ln in norm && Contains(ln, Nuls(k));
        assert |ln| <= Longest(norm);
      }
      SeparatorFrom(norm, k + 1)
    else Nuls(k)
  }

  function IndexOf(norm: seq<string>): (ix: SourceIndex)
    ensures ix.sep != ""
  {
    var sep := SeparatorFrom(norm, 1);
    SourceIndex(norm, sep, sep + Join(norm, sep) + sep)
  }

  method BuildIndex(lines: seq<string>) returns (ix: SourceIndex)
    ensures ix == IndexOf(Normalised(lines))
  {
    hide Contains, Join, Normalised, Longest;
    var norm := Normalised(lines);
    var sep := Nuls(1);
    while SomeLineContains(norm, sep)
      invariant |sep| >= 1 && sep == Nuls(|sep|)
      invariant SeparatorFrom(norm, |sep|) == SeparatorFrom(norm, 1)
      decreases Longest(norm) + 1 - |sep|
    {
      ghost var ln :| ln in norm && Contains(ln, sep);
      ContainsFits(ln, sep);
      assert |ln| <= Longest(norm);
      sep := sep + "\0";
      assert sep == Nuls(|sep|);
    }
    ix := SourceIndex(norm, sep, sep + Join(norm, sep) + sep);
  }

  predicate NulFree(lines: seq<string>) {
    FreeOf(lines, '\0')
  }

  lemma NulFreeSeparator(norm: seq<string>)
    ensures NulFree(norm) <==> IndexOf(norm).sep == "\0"
  {
    assert Nuls(1) == "\0";
    SomeLineContainsNul(norm);
  }

  lemma SomeLineContainsNul(norm: seq<string>)
    ensures SomeLineContains(norm, "\0") <==> !NulFree(norm)
  {
    if !NulFree(norm) {
      var i, k :| 0 <= i < |norm| && 0 <= k < |norm[i]| && norm[i][k] == '\0';
      assert OccursAt(norm[i], "\0", k);
      assert norm[i] in norm && Contains(norm[i], "\0");
    }
    if SomeLineContains(norm, "\0") {
      var ln :| ln in norm && Contains(ln, "\0");
      var i :| 0 <= i < |norm| && norm[i] == ln;
      var at := Find(ln, "\0", 0);
      assert norm[i][at] == ln[at..at + 1][0] == '\0';
    }
  }

  // ------------------------------------------------------------ which hits there are

  /** The search reports, in increasing order, the lines where the block sits and no other. */
  ghost predicate Exact(norm: seq<string>, block: seq<string>, found: seq<nat>) {
    && (forall j, k :: 0 <= j < k < |found| ==> found[j] < found[k])
    && (forall i: nat :: i in found <==> BlockAt(norm, block, i))
  }

  ghost predicate ExactFrom(norm: seq<string>, block: seq<string>, sep: string, pos: nat, found: seq<nat>) {
    && (forall j, k :: 0 <= j < k < |found| ==> found[j] < found[k])
    && (forall i: nat :: i in found <==> BlockAt(norm, block, i) && Offset(norm, sep, i) >= pos)
  }

  lemma {:induction false} WindowsFromExact(norm: seq<string>, block: seq<string>, sep: string, pos: nat)
    requires Uniform(sep) && Clean(norm, sep) && Clean(block, sep) && block != []
    requires |sep| == 1 || !AllEmpty(block)
    ensures ExactFrom(norm, block, sep, pos,
              SourceIndex(norm, sep, Framed(norm, sep)).WindowsFrom(Framed(block, sep), pos))
    decreases |Framed(norm, sep)| - pos
  {
    hide Clean, CleanLine, AllEmpty, Framed, Count, OccursAt, Uniform;
    var t, needle := Framed(norm, sep), Framed(block, sep);
    UniformNotEmpty(sep);
    var found := SourceIndex(norm, sep, t).WindowsFrom(needle, pos);
    BlocksOccur(norm, block, sep);
    if pos <= |t| {
      var at := Find(t, needle, pos);
      if at >= 0 {
        var first := FramedOccursOnlyThere(norm, block, sep, at);
        CountIsIndex(norm, sep, first);
        WindowsFromExact(norm, block, sep, at + 1);
        ExactCons(norm, block, sep, pos, first, found[1..]);
        assert found == [first] + found[1..];
      }
    }
  }

  lemma UniformNotEmpty(sep: string)
    requires Uniform(sep)
    ensures sep != ""
  {
  }

  lemma BlocksOccur(norm: seq<string>, block: seq<string>, sep: string)
    requires sep != ""
    ensures forall i: nat :: BlockAt(norm, block, i) ==>
              OccursAt(Framed(norm, sep), Framed(block, sep), Offset(norm, sep, i)) &&
              Offset(norm, sep, i) < |Framed(norm, sep)|
  {
    forall i: nat | BlockAt(norm, block, i)
      ensures OccursAt(Framed(norm, sep), Framed(block, sep), Offset(norm, sep, i))
    {
      FramedFrom(norm, sep, i);
      FramedOfPrefix(block, norm[i..], sep);
    }
  }

  lemma ExactCons(norm: seq<string>, block: seq<string>, sep: string, pos: nat, first: nat, rest: seq<nat>)
    requires sep != "" && BlockAt(norm, block, first) && pos <= Offset(norm, sep, first)
    requires forall i: nat :: BlockAt(norm, block, i) && Offset(norm, sep, i) >= pos ==>
               Offset(norm, sep, i) >= Offset(norm, sep, first)
    requires ExactFrom(norm, block, sep, Offset(norm, sep, first) + 1, rest)
    ensures ExactFrom(norm, block, sep, pos, [first] + rest)
  {
    forall i: nat | BlockAt(norm, block, i)
      ensures i < first ==> Offset(norm, sep, i) < Offset(norm, sep, first)
      ensures i > first ==> Offset(norm, sep, i) > Offset(norm, sep, first)
    {
      if i < first {
        OffsetIncreases(norm, sep, i, first);
      } else if i > first {
        OffsetIncreases(norm, sep, first, i);
      }
    }
    assert forall i: nat :: i in [first] + rest <==> i == first || i in rest;
    assert forall k :: 0 <= k < |rest| ==> rest[k] in rest;
  }

  /** The joined copy is the lines framed by a separator that is a run of one character. */
  ghost predicate Built(ix: SourceIndex) {
    Uniform(ix.sep) && ix.joined == ix.sep + Join(ix.norm, ix.sep) + ix.sep
  }

  lemma IndexIsBuilt(norm: seq<string>)
    ensures Built(IndexOf(norm)) && IndexOf(norm).norm == norm && IndexOf(norm).sep[0] == '\0'
  {
    NulsUniform(IndexOf(norm).sep);
  }

  /** When no line holds the separator or has its character at an end, the search is exact for
      every block of such lines that is not empty throughout. With a one-character separator it
      is exact for empty blocks too, except that in an empty file a single empty line is "found"
      at line 0. */
  lemma WindowsExactIff(ix: SourceIndex, block: seq<string>)
    requires Built(ix) && Clean(ix.norm, ix.sep) && Clean(block, ix.sep)
    requires block != [] && (|ix.sep| == 1 || !AllEmpty(block))
    ensures Exact(ix.norm, block, ix.WindowsOf(Join(block, ix.sep))) <==> !(ix.norm == [] && block == [""])
  {
    hide Clean, CleanLine, Framed, Count;
    FramedIsJoin(block, ix.sep);
    if ix.norm == [] {
      if block == [""] {
        assert AllEmpty(block);
        EmptyFileHasALine(ix);
        assert !BlockAt(ix.norm, block, 0);
      } else {
        LongerThanSeparators(block, ix.sep);
        assert ix.WindowsOf(Join(block, ix.sep)) == [];
      }
    } else {
      FramedIsJoin(ix.norm, ix.sep);
      WindowsFromExact(ix.norm, block, ix.sep, 0);
    }
  }

  /** In an empty file the search finds an empty line. */
  lemma EmptyFileHasALine(ix: SourceIndex)
    requires Built(ix) && ix.norm == []
    ensures 0 in ix.WindowsOf("")
  {
    var needle := ix.sep + "" + ix.sep;
    assert ix.joined == needle && Find(ix.joined, needle, 0) == 0;
    assert ix.WindowsOf("") == [Count(ix.joined[..0], ix.sep)] + ix.WindowsFrom(needle, 1);
  }

  lemma LongerThanSeparators(block: seq<string>, sep: string)
    requires block != [] && block != [""] && sep != ""
    ensures Join(block, sep) != ""
  {
  }

  lemma NulsUniform(sep: string)
    requires sep != "" && sep == Nuls(|sep|)
    ensures Uniform(sep) && sep[0] == '\0'
  {
  }

  // ------------------------------------------------- for which files the search is exact

  predicate NoNulAtEnds(line: string) {
    line != "" ==> line[0] != '\0' && line[|line| - 1] != '\0'
  }

  predicate OnlyNuls(line: string) {
    forall k :: 0 <= k < |line| ==> line[k] == '\0'
  }

  /** What the search is asked for: clean lines, not all of them empty. */
  predicate Searchable(block: seq<string>, sep: string) {
    sep != "" && Clean(block, sep) && !AllEmpty(block)
  }

  ghost predicate SearchExact(norm: seq<string>) {
    forall block :: Searchable(block, IndexOf(norm).sep) ==>
      Exact(norm, block, IndexOf(norm).WindowsOf(Join(block, IndexOf(norm).sep)))
  }

  lemma CleanIff(norm: seq<string>)
    ensures Clean(norm, IndexOf(norm).sep) <==> forall i :: 0 <= i < |norm| ==> NoNulAtEnds(norm[i])
  {
    var sep := IndexOf(norm).sep;
    NulsUniform(sep);
    hide Contains;
    forall i | 0 <= i < |norm| ensures !Contains(norm[i], sep) {
      assert norm[i] in norm;
    }
  }

  /** The positions at which the pattern occurs, one per hit of the search. */
  ghost function Places(t: string, needle: string, pos: nat): set<int> {
    set p | pos <= p <= |t| && OccursAt(t, needle, p)
  }

  lemma {:induction false} HitsArePlaces(ix: SourceIndex, needle: string, pos: nat)
    requires ix.sep != ""
    ensures |ix.WindowsFrom(needle, pos)| == |Places(ix.joined, needle, pos)|
    decreases |ix.joined| - pos
  {
    hide Count, OccursAt, Places;
    PlacesStep(ix.joined, needle, pos);
    var at := Find(ix.joined, needle, pos);
    if pos <= |ix.joined| && at >= 0 {
      HitsArePlaces(ix, needle, at + 1);
    }
  }

  lemma PlacesStep(t: string, needle: string, pos: nat)
    ensures var at := Find(t, needle, pos);
      |Places(t, needle, pos)| == if pos > |t| || at < 0 then 0 else 1 + |Places(t, needle, at + 1)|
  {
    var at := Find(t, needle, pos);
    if pos > |t| || at < 0 {
      assert Places(t, needle, pos) == {};
    } else {
      OccursBounds(t, needle, at);
      hide OccursAt;
      assert Places(t, needle, pos) == {at} + Places(t, needle, at + 1);
    }
  }

  lemma {:induction false} IncreasingFits(s: seq<int>, a: set<int>)
    requires (forall j, k :: 0 <= j < k < |s| ==> s[j] < s[k]) && forall k :: 0 <= k < |s| ==> s[k] in a
    ensures |s| <= |a|
  {
    if s != [] {
      IncreasingFits(s[..|s| - 1], a - {s[|s| - 1]});
    }
  }

  /** A hit where the block does not stand is one too many. */
  lemma StrayHit(norm: seq<string>, block: seq<string>, p: nat)
    requires norm != [] && block != []
    requires var sep := IndexOf(norm).sep;
      && OccursAt(Framed(norm, sep), Framed(block, sep), p)
      && forall i: nat :: BlockAt(norm, block, i) ==> Offset(norm, sep, i) != p
    ensures !Exact(norm, block, IndexOf(norm).WindowsOf(Join(block, IndexOf(norm).sep)))
  {
    hide Framed, Count;
    var ix := IndexOf(norm);
    var sep := ix.sep;
    FramedIsJoin(norm, sep);
    FramedIsJoin(block, sep);
    var needle := Framed(block, sep);
    var found := ix.WindowsFrom(needle, 0);
    HitsArePlaces(ix, needle, 0);
    BlocksOccur(norm, block, sep);
    if Exact(norm, block, found) {
      forall k | 0 <= k < |found| ensures BlockAt(norm, block, found[k]) {
        assert found[k] in found;
      }
      var offsets := seq(|found|, k requires 0 <= k < |found| => Offset(norm, sep, found[k]) as int);
      forall j, k | 0 <= j < k < |found| ensures offsets[j] < offsets[k] {
        OffsetIncreases(norm, sep, found[j], found[k]);
      }
      var places := Places(ix.joined, needle, 0);
      assert p in places;
      IncreasingFits(offsets, places - {p as int});
    }
  }

  lemma OffsetsBetween(norm: seq<string>, sep: string, d: nat, i: nat)
    requires sep != "" && d < |norm| && i <= |norm|
    ensures i <= d ==> Offset(norm, sep, i) <= Offset(norm, sep, d)
    ensures i > d ==> Offset(norm, sep, i) >= Offset(norm, sep, d) + |sep| + |norm[d]|
  {
    OffsetNext(norm, sep, d);
    if i < d {
      OffsetIncreases(norm, sep, i, d);
    } else if i > d + 1 {
      OffsetIncreases(norm, sep, d + 1, i);
    }
  }

  // NULs at one end of a line and other text in it

  function LeadingNuls(line: string): (a: nat)
    ensures a <= |line| && OnlyNuls(line[..a]) && (a < |line| ==> line[a] != '\0')
  {
    if line == "" || line[0] != '\0' then 0 else 1 + LeadingNuls(line[1..])
  }

  function TrailingEnd(line: string): (b: nat)
    ensures b <= |line| && OnlyNuls(line[b..]) && (b > 0 ==> line[b - 1] != '\0')
  {
    if line == "" || line[|line| - 1] != '\0' then |line| else TrailingEnd(line[..|line| - 1])
  }

  lemma CoreIsClean(line: string, sep: string) returns (a: nat, b: nat)
    requires Uniform(sep) && sep[0] == '\0' && !Contains(line, sep) && !OnlyNuls(line)
    ensures a < b <= |line| && CleanLine(line[a..b], sep) && OnlyNuls(line[..a]) && OnlyNuls(line[b..])
    ensures !NoNulAtEnds(line) ==> line[a..b] != line
  {
    hide Contains;
    a, b := LeadingNuls(line), TrailingEnd(line);
    ContainsSlice(line, sep, a, b);
  }

  lemma NulsCommute(a: string, sep: string, rest: string)
    requires Uniform(sep) && sep[0] == '\0' && OnlyNuls(a) && sep <= rest
    ensures sep <= a + rest
  {
    forall k | 0 <= k < |sep| ensures (a + rest)[k] == sep[k] {
      if k >= |a| {
        assert (a + rest)[k] == rest[..|sep|][k - |a|];
      }
    }
  }

  /** The text of a line that has NULs at an end is found as a line of its own. */
  lemma CoreIsFound(norm: seq<string>, d: nat)
    requires d < |norm| && !OnlyNuls(norm[d]) && !NoNulAtEnds(norm[d])
    ensures !SearchExact(norm)
  {
    hide Framed, Offset, SearchExact, Clean, CleanLine, IndexOf, Exact, OccursAt;
    var sep := IndexOf(norm).sep;
    var a, b := CoreOf(norm, d);
    var block, p := [norm[d][a..b]], Offset(norm, sep, d) + a;
    CoreStands(norm, d, sep, a, b);
    forall i: nat | BlockAt(norm, block, i) ensures Offset(norm, sep, i) != p {
      BlockLine(norm, block, i, 0);
      BlockFits(norm, block, i);
      OffsetsBetween(norm, sep, d, i);
      if i < d {
        OffsetIncreases(norm, sep, i, d);
      }
    }
    StrayHit(norm, block, p);
    NotExactBlock(norm, block);
  }

  lemma BlockFits(norm: seq<string>, block: seq<string>, i: nat)
    requires BlockAt(norm, block, i)
    ensures i + |block| <= |norm|
  {
  }

  lemma CoreOf(norm: seq<string>, d: nat) returns (a: nat, b: nat)
    requires d < |norm| && !OnlyNuls(norm[d]) && !NoNulAtEnds(norm[d])
    ensures a < b <= |norm[d]| && OnlyNuls(norm[d][..a]) && OnlyNuls(norm[d][b..]) && norm[d][a..b] != norm[d]
    ensures Searchable([norm[d][a..b]], IndexOf(norm).sep) && Uniform(IndexOf(norm).sep) && IndexOf(norm).sep[0] == '\0'
  {
    var sep := IndexOf(norm).sep;
    NulsUniform(sep);
    assert norm[d] in norm;
    a, b := CoreIsClean(norm[d], sep);
    assert [norm[d][a..b]][0] != "";
  }

  lemma CoreStands(norm: seq<string>, d: nat, sep: string, a: nat, b: nat)
    requires Uniform(sep) && sep[0] == '\0' && d < |norm| && a < b <= |norm[d]|
    requires OnlyNuls(norm[d][..a]) && OnlyNuls(norm[d][b..])
    ensures OccursAt(Framed(norm, sep), Framed([norm[d][a..b]], sep), Offset(norm, sep, d) + a)
  {
    hide OccursAt, Offset, OnlyNuls, Framed, Uniform;
    var line := norm[d];
    FramedLine(norm, d, sep);
    var rest := Framed(norm[d + 1..], sep);
    assert line == line[..a] + line[a..b] + line[b..];
    NulsCommute(line[b..], sep, rest);
    assert sep + line + rest == sep + (line[..a] + line[a..b] + (line[b..] + rest));
    CoreOccurs(Framed(norm, sep), Offset(norm, sep, d), sep, line[..a], line[a..b], line[b..] + rest);
    OneFramed(line[a..b], sep);
  }

  lemma FramedLine(norm: seq<string>, d: nat, sep: string)
    requires d < |norm|
    ensures Offset(norm, sep, d) <= |Framed(norm, sep)|
    ensures Framed(norm, sep)[Offset(norm, sep, d)..] == sep + norm[d] + Framed(norm[d + 1..], sep)
  {
    FramedFrom(norm, sep, d);
    assert norm[d..][1..] == norm[d + 1..];
  }

  lemma FramedHead(lines: seq<string>, sep: string)
    ensures Framed(lines, sep) == if lines == [] then sep else sep + lines[0] + Framed(lines[1..], sep)
  {
  }

  lemma OneFramed(line: string, sep: string)
    ensures Framed([line], sep) == sep + line + sep
  {
    assert [line][1..] == [];
  }

  lemma CoreOccurs(t: string, o: nat, sep: string, nuls: string, core: string, rest: string)
    requires o <= |t| && t[o..] == sep + (nuls + core + rest) && sep <= rest
    requires Uniform(sep) && sep[0] == '\0' && OnlyNuls(nuls)
    ensures OccursAt(t, sep + core + sep, o + |nuls|)
  {
    NulRunsSwap(sep, nuls);
    var needle := sep + core + sep;
    assert t[o..] == nuls + needle + rest[|sep|..];
    assert t[o + |nuls|..o + |nuls| + |needle|] == t[o..][|nuls|..|nuls| + |needle|] == needle;
  }

  lemma NulRunsSwap(a: string, b: string)
    requires OnlyNuls(a) && OnlyNuls(b)
    ensures a + b == b + a
  {
  }

  // a line of NULs next to the empty lines before or after a line with text

  function Blanks(k: nat): (r: seq<string>)
    ensures |r| == k && AllEmpty(r)
  {
    seq(k, _ => "")
  }

  /** `k` separators. */
  function Seps(k: nat, sep: string): (r: string)
    ensures Uniform(sep) && sep[0] == '\0' ==> OnlyNuls(r)
  {
    if k == 0 then "" else sep + Seps(k - 1, sep)
  }

  lemma SepsNext(k: nat, sep: string)
    ensures Seps(k + 1, sep) == sep + Seps(k, sep)
  {
  }

  lemma {:induction false} FramedAfterBlanks(k: nat, lines: seq<string>, sep: string)
    ensures Framed(Blanks(k) + lines, sep) == Seps(k, sep) + Framed(lines, sep)
  {
    if k == 0 {
      assert Blanks(k) + lines == lines;
    } else {
      FramedAfterBlanks(k - 1, lines, sep);
      assert (Blanks(k) + lines)[1..] == Blanks(k - 1) + lines && (Blanks(k) + lines)[0] == "";
    }
  }

  predicate BlankBetween(norm: seq<string>, i: nat, j: nat) {
    forall k :: i < k < j && k < |norm| ==> norm[k] == ""
  }

  lemma BlanksOf(norm: seq<string>, i: nat, j: nat)
    requires i < j <= |norm| && BlankBetween(norm, i, j)
    ensures norm[i + 1..j] == Blanks(j - i - 1)
  {
  }

  lemma NulRunFits(a: string, b: string, rest: string)
    requires OnlyNuls(a) && OnlyNuls(b) && |b| <= |a|
    ensures b <= a + rest
  {
  }

  /** A line of NULs stands before empty lines and a line with text: the text with one more
      empty line before it is found where it does not stand. */
  lemma NulsBefore(norm: seq<string>, d: nat, x: nat)
    requires d < x < |norm| && OnlyNuls(norm[d]) && norm[d] != "" && BlankBetween(norm, d, x)
    requires norm[x] != "" && NoNulAtEnds(norm[x])
    ensures !SearchExact(norm)
  {
    hide Framed, Offset, SearchExact, Clean, CleanLine, IndexOf, Exact, OccursAt;
    var sep, k := IndexOf(norm).sep, x - d - 1;
    var block, p := Blanks(k + 1) + [norm[x]], Offset(norm, sep, d) + |norm[d]|;
    TextAskable(norm, x, Blanks(k + 1), []);
    assert Blanks(k + 1) + [norm[x]] + [] == block;
    NulsBeforeStands(norm, d, x, sep);
    forall i: nat | BlockAt(norm, block, i) ensures Offset(norm, sep, i) != p {
      BlockFits(norm, block, i);
      OffsetsBetween(norm, sep, d, i);
    }
    StrayHit(norm, block, p);
    NotExactBlock(norm, block);
  }

  lemma TextAskable(norm: seq<string>, x: nat, before: seq<string>, after: seq<string>)
    requires x < |norm| && norm[x] != "" && NoNulAtEnds(norm[x]) && AllEmpty(before) && AllEmpty(after)
    ensures Searchable(before + [norm[x]] + after, IndexOf(norm).sep)
    ensures Uniform(IndexOf(norm).sep) && IndexOf(norm).sep[0] == '\0'
  {
    var sep := IndexOf(norm).sep;
    NulsUniform(sep);
    assert norm[x] in norm;
    assert CleanLine("", sep) && CleanLine(norm[x], sep);
    assert (before + [norm[x]] + after)[|before|] == norm[x];
  }

  lemma NulsBeforeStands(norm: seq<string>, d: nat, x: nat, sep: string)
    requires Uniform(sep) && sep[0] == '\0' && d < x < |norm| && OnlyNuls(norm[d]) && BlankBetween(norm, d, x)
    ensures OccursAt(Framed(norm, sep), Framed(Blanks(x - d) + [norm[x]], sep), Offset(norm, sep, d) + |norm[d]|)
  {
    hide OccursAt, Offset, OnlyNuls, BlankBetween, Framed, Seps, Uniform;
    var k, line := x - d - 1, norm[x];
    FramedLine(norm, d, sep);
    assert norm[d + 1..] == norm[d + 1..x] + norm[x..];
    BlanksOf(norm, d, x);
    FramedAfterBlanks(k, norm[x..], sep);
    FramedHead(norm[x..], sep);
    assert norm[x..][1..] == norm[x + 1..];
    FramedAfterBlanks(k + 1, [line], sep);
    SepsNext(k, sep);
    OneFramed(line, sep);
    NulsBeforeOccurs(Framed(norm, sep), Offset(norm, sep, d), sep, norm[d], Seps(k, sep), line, Framed(norm[x + 1..], sep));
  }

  lemma NotExactBlock(norm: seq<string>, block: seq<string>)
    requires Searchable(block, IndexOf(norm).sep)
    requires !Exact(norm, block, IndexOf(norm).WindowsOf(Join(block, IndexOf(norm).sep)))
    ensures !SearchExact(norm)
  {
  }

  lemma NulsBeforeOccurs(t: string, o: nat, sep: string, nuls: string, seps: string, line: string, rest: string)
    requires o <= |t| && t[o..] == sep + nuls + (seps + (sep + line + rest)) && sep <= rest
    requires Uniform(sep) && sep[0] == '\0' && OnlyNuls(nuls)
    ensures OccursAt(t, sep + seps + (sep + line + sep), o + |nuls|)
  {
    NulRunsSwap(sep, nuls);
    var needle := sep + seps + (sep + line + sep);
    assert t[o..] == nuls + needle + rest[|sep|..];
    assert t[o + |nuls|..o + |nuls| + |needle|] == t[o..][|nuls|..|nuls| + |needle|] == needle;
  }

  /** A line of NULs stands after a line with text and empty lines. */
  lemma NulsAfter(norm: seq<string>, x: nat, d: nat)
    requires x < d < |norm| && OnlyNuls(norm[d]) && norm[d] != "" && BlankBetween(norm, x, d)
    requires norm[x] != "" && NoNulAtEnds(norm[x])
    ensures !SearchExact(norm)
  {
    hide Framed, Offset, SearchExact, Clean, CleanLine, IndexOf, Exact, OccursAt;
    var sep, k := IndexOf(norm).sep, d - x - 1;
    var block, p := [norm[x]] + Blanks(k + 1), Offset(norm, sep, x);
    TextAskable(norm, x, [], Blanks(k + 1));
    assert [] + [norm[x]] + Blanks(k + 1) == block;
    NulsAfterStands(norm, x, d, sep);
    forall i: nat | BlockAt(norm, block, i) ensures Offset(norm, sep, i) != p {
      BlockLine(norm, block, i, k + 1);
      BlockFits(norm, block, i);
      OffsetsBetween(norm, sep, x, i);
      if i < x {
        OffsetIncreases(norm, sep, i, x);
      }
    }
    StrayHit(norm, block, p);
    NotExactBlock(norm, block);
  }

  lemma NulsAfterStands(norm: seq<string>, x: nat, d: nat, sep: string)
    requires Uniform(sep) && sep[0] == '\0' && x < d < |norm| && OnlyNuls(norm[d]) && BlankBetween(norm, x, d)
    ensures OccursAt(Framed(norm, sep), Framed([norm[x]] + Blanks(d - x), sep), Offset(norm, sep, x))
  {
    hide OccursAt, Offset, OnlyNuls, BlankBetween, Framed, Seps, Uniform;
    var k, line := d - x - 1, norm[x];
    FramedLine(norm, x, sep);
    assert norm[x + 1..] == norm[x + 1..d] + norm[d..];
    BlanksOf(norm, x, d);
    FramedAfterBlanks(k, norm[d..], sep);
    FramedHead(norm[d..], sep);
    assert norm[d..][1..] == norm[d + 1..];
    var block := [line] + Blanks(k + 1);
    FramedHead(block, sep);
    assert block[1..] == Blanks(k + 1) + [] && block[0] == line;
    FramedAfterBlanks(k + 1, [], sep);
    FramedHead([], sep);
    SepsNext(k, sep);
    NulsAfterOccurs(Framed(norm, sep), Offset(norm, sep, x), sep, norm[d], Seps(k, sep), line, Framed(norm[d + 1..], sep));
  }

  lemma NulsAfterOccurs(t: string, o: nat, sep: string, nuls: string, seps: string, line: string, rest: string)
    requires o <= |t| && t[o..] == sep + line + (seps + (sep + nuls + rest)) && sep <= rest
    requires Uniform(sep) && sep[0] == '\0' && OnlyNuls(nuls) && OnlyNuls(seps)
    ensures OccursAt(t, sep + line + (sep + seps + sep), o)
  {
    var head, runs := sep + line, seps + sep + nuls + sep;
    assert rest == sep + rest[|sep|..];
    assert t[o..] == head + (runs + rest[|sep|..]);
    NulRunFits(runs, sep + seps + sep, rest[|sep|..]);
    PrefixTail(head, sep + seps + sep, runs + rest[|sep|..]);
    var needle := sep + line + (sep + seps + sep);
    assert needle == head + (sep + seps + sep);
    assert t[o..o + |needle|] == t[o..][..|needle|];
  }

  /** Between a line of NULs and a line with text there are two such with only empty lines between. */
  lemma NearestPair(norm: seq<string>, d: nat, x: nat) returns (d': nat, x': nat)
    requires d < |norm| && x < |norm| && OnlyNuls(norm[d]) && norm[d] != "" && !OnlyNuls(norm[x])
    ensures d' < |norm| && x' < |norm| && OnlyNuls(norm[d']) && norm[d'] != "" && !OnlyNuls(norm[x'])
    ensures BlankBetween(norm, d', x') && BlankBetween(norm, x', d')
    decreases if d < x then x - d else d - x
  {
    if BlankBetween(norm, d, x) && BlankBetween(norm, x, d) {
      d', x' := d, x;
    } else {
      var k :| 0 <= k < |norm| && (d < k < x || x < k < d) && norm[k] != "";
      if OnlyNuls(norm[k]) {
        d', x' := NearestPair(norm, k, x);
      } else {
        d', x' := NearestPair(norm, d, k);
      }
    }
  }

  /** In a file of NULs nothing with text is found, and nothing with text stands. */
  lemma NulsHoldNothing(norm: seq<string>)
    requires forall i :: 0 <= i < |norm| ==> OnlyNuls(norm[i])
    ensures SearchExact(norm)
  {
    var ix := IndexOf(norm);
    NulsUniform(ix.sep);
    JoinOfNuls(norm, ix.sep);
    forall block | Searchable(block, ix.sep) ensures Exact(norm, block, ix.WindowsOf(Join(block, ix.sep))) {
      var j :| 0 <= j < |block| && block[j] != "";
      assert CleanLine(block[j], ix.sep);
      var needle := ix.sep + Join(block, ix.sep) + ix.sep;
      var at := JoinHolds(block, j, ix.sep);
      forall p ensures !OccursAt(ix.joined, needle, p) {
        OccursChars(ix.joined, needle, p);
        assert needle[|ix.sep| + at] == block[j][0];
      }
      forall i: nat ensures !BlockAt(norm, block, i) {
        BlockLine(norm, block, i, j);
      }
    }
  }

  lemma BlockLine(norm: seq<string>, block: seq<string>, i: nat, j: nat)
    requires j < |block|
    ensures BlockAt(norm, block, i) ==> i + j < |norm| && norm[i + j] == block[j]
  {
    if BlockAt(norm, block, i) {
      assert norm[i..i + |block|][j] == norm[i + j];
    }
  }

  lemma {:induction false} JoinOfNuls(lines: seq<string>, sep: string)
    requires OnlyNuls(sep) && forall i :: 0 <= i < |lines| ==> OnlyNuls(lines[i])
    ensures OnlyNuls(Join(lines, sep))
  {
    if |lines| > 1 {
      JoinOfNuls(lines[1..], sep);
    }
  }

  lemma {:induction false} JoinHolds(lines: seq<string>, j: nat, sep: string) returns (at: nat)
    requires j < |lines| && lines[j] != ""
    ensures at < |Join(lines, sep)| && Join(lines, sep)[at] == lines[j][0]
  {
    if j == 0 {
      at := 0;
    } else {
      at := JoinHolds(lines[1..], j - 1, sep);
      at := |lines[0]| + |sep| + at;
    }
  }

  /** The files for which the search finds every block exactly where it stands: those in which
      no line has a NUL at an end, and those that hold nothing but NULs. */
  lemma SearchExactIff(norm: seq<string>)
    ensures SearchExact(norm) <==>
              || (forall i :: 0 <= i < |norm| ==> NoNulAtEnds(norm[i]))
              || (forall i :: 0 <= i < |norm| ==> OnlyNuls(norm[i]))
  {
    hide Exact, Clean, CleanLine, OnlyNuls, NoNulAtEnds, Built, IndexOf;
    CleanIff(norm);
    IndexIsBuilt(norm);
    if forall i :: 0 <= i < |norm| ==> NoNulAtEnds(norm[i]) {
      forall block | Searchable(block, IndexOf(norm).sep)
        ensures Exact(norm, block, IndexOf(norm).WindowsOf(Join(block, IndexOf(norm).sep)))
      {
        NotEmptyThroughout(block);
        WindowsExactIff(IndexOf(norm), block);
      }
    } else if forall i :: 0 <= i < |norm| ==> OnlyNuls(norm[i]) {
      NulsHoldNothing(norm);
    } else {
      hide SearchExact;
      var d :| 0 <= d < |norm| && !NoNulAtEnds(norm[d]);
      if !OnlyNuls(norm[d]) {
        CoreIsFound(norm, d);
      } else {
        var x :| 0 <= x < |norm| && !OnlyNuls(norm[x]);
        NulEndsMeanText(norm[d]);
        var d', x' := NearestPair(norm, d, x);
        NulEndsMeanText(norm[x']);
        if !NoNulAtEnds(norm[x']) {
          CoreIsFound(norm, x');
        } else if d' < x' {
          NulsBefore(norm, d', x');
        } else {
          NulsAfter(norm, x', d');
        }
      }
    }
  }

  lemma NotEmptyThroughout(block: seq<string>)
    ensures !AllEmpty(block) ==> block != [] && block != [""]
  {
  }

  lemma NulEndsMeanText(line: string)
    ensures !NoNulAtEnds(line) ==> line != ""
    ensures !OnlyNuls(line) ==> line != ""
  {
  }

  // ----------------------------------------------------- two separators by example

  /** A NUL somewhere and no two in a row: the separator is two NULs. */
  lemma SeparatorOfTwo(norm: seq<string>, i: nat, k: nat)
    requires |norm| == 2
    requires i < 2 && k < |norm[i]| && norm[i][k] == '\0'
    requires forall ln <- norm, j :: 0 <= j < |ln| - 1 ==> ln[j] != '\0' || ln[j + 1] != '\0'
    ensures IndexOf(norm).sep == "\0\0"
    ensures IndexOf(norm).joined == "\0\0" + norm[0] + "\0\0" + norm[1] + "\0\0"
  {
    assert OccursAt(norm[i], "\0", k) && Nuls(1) == "\0" && Nuls(2) == "\0\0";
    assert norm[i] in norm && Contains(norm[i], Nuls(1));
    forall ln <- norm, at ensures !OccursAt(ln, "\0\0", at) {
      OccursChars(ln, "\0\0", at);
      assert ("\0\0")[0] == '\0' && ("\0\0")[1] == '\0';
    }
    assert Join(norm, "\0\0") == norm[0] + "\0\0" + norm[1];
  }
}
