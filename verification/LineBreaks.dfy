/** Splitting a document into line contents and line terminators, and editing lines in
    place (scripts/relocate-citations.py:869-904). */
module LineBreaks {
  import opened Text

  /** A line boundary character, as `str.splitlines` and the rewriter's pattern define one. */
  predicate IsBreak(c: char) {
    '\n' <= c <= '\r' || '\U{1C}' <= c <= '\U{1E}' || c == '\U{85}' || c == '\U{2028}' || c == '\U{2029}'
  }

  predicate BreakFree(t: string) {
    forall k :: 0 <= k < |t| ==> !IsBreak(t[k])
  }

  /** Length of the line of `t` that starts at 0, without its terminator. */
  function LineLength(t: string): (n: nat)
    ensures n <= |t| && BreakFree(t[..n])
    ensures n < |t| ==> IsBreak(t[n])
  {
    if t == "" || IsBreak(t[0]) then 0 else 1 + LineLength(t[1..])
  }

  /** Length of the terminator `t` starts with: CR LF is one terminator. */
  function TerminatorLength(t: string): nat
    requires t != "" && IsBreak(t[0])
  {
    if t[0] == '\r' && |t| > 1 && t[1] == '\n' then 2 else 1
  }

  predicate IsTerminator(t: string) {
    t == "\r\n" || (|t| == 1 && IsBreak(t[0]))
  }

  /** The pattern split: content, terminator, content, ..., content. */
  function SplitParts(t: string): (parts: seq<string>)
    ensures |parts| % 2 == 1
    decreases |t|
  {
    var n := LineLength(t);
    if n == |t| then [t]
    else
      var m := TerminatorLength(t[n..]);
      [t[..n], t[n..n + m]] + SplitParts(t[n + m..])
  }

  /** Every second part, from the first: the lines' contents. */
  function Contents(parts: seq<string>): (lines: seq<string>)
    requires |parts| % 2 == 1
    ensures |lines| == |parts| / 2 + 1
    ensures forall i :: 0 <= i < |lines| ==> lines[i] == parts[2 * i]
  {
    seq(|parts| / 2 + 1, i requires 0 <= i <= |parts| / 2 => parts[2 * i])
  }

  /** `t.splitlines()`: the contents, without the empty one a final terminator leaves. */
  function SplitLines(t: string): seq<string> {
    LinesOf(SplitParts(t))
  }

  function LinesOf(parts: seq<string>): (lines: seq<string>)
    requires |parts| % 2 == 1
    ensures |lines| == if parts[|parts| - 1] == "" then |parts| / 2 else |parts| / 2 + 1
    ensures forall i :: 0 <= i < |lines| ==> lines[i] == parts[2 * i]
  {
    var lines := Contents(parts);
    if lines[|lines| - 1] == "" then lines[..|lines| - 1] else lines
  }

  /** Contents hold no break and the parts between them are terminators. */
  predicate Alternates(parts: seq<string>) {
    && |parts| % 2 == 1
    && (forall i :: 0 <= i < |parts| && i % 2 == 0 ==> BreakFree(parts[i]))
    && (forall i :: 0 <= i < |parts| && i % 2 == 1 ==> IsTerminator(parts[i]))
  }

  /** An emptied line between a bare CR and an LF: joining turns the two into one CR LF. */
  predicate MergesAt(parts: seq<string>, i: int) {
    0 <= i && i + 2 < |parts| && i % 2 == 1 && parts[i] == "\r" && parts[i + 1] == "" && parts[i + 2] == "\n"
  }

  ghost predicate Merges(parts: seq<string>) {
    exists i :: MergesAt(parts, i)
  }

  lemma {:induction false} MergesTail(parts: seq<string>)
    requires |parts| >= 3 && |parts| % 2 == 1
    ensures Merges(parts) <==> MergesAt(parts, 1) || Merges(parts[2..])
  {
    if i :| MergesAt(parts, i) {
      assert i != 1 ==> MergesAt(parts[2..], i - 2);
    }
    if i :| MergesAt(parts[2..], i) {
      assert MergesAt(parts, i + 2);
    }
  }

  lemma ConcatTwo(parts: seq<string>)
    requires |parts| >= 2
    ensures Concat(parts) == parts[0] + (parts[1] + Concat(parts[2..]))
  {
    assert parts[1..][1..] == parts[2..];
  }

  lemma {:induction false} SplitConcat(t: string)
    ensures Concat(SplitParts(t)) == t
    decreases |t|
  {
    var n := LineLength(t);
    if n == |t| {
      assert [t][1..] == [];
    } else {
      var m := TerminatorLength(t[n..]);
      SplitConcat(t[n + m..]);
      ConcatTwo(SplitParts(t));
      assert t == t[..n] + (t[n..n + m] + t[n + m..]);
    }
  }

  lemma AlternatesTwo(content: string, terminator: string, rest: seq<string>)
    requires BreakFree(content) && IsTerminator(terminator) && Alternates(rest)
    ensures Alternates([content, terminator] + rest)
  {
    hide BreakFree, IsTerminator;
    var parts := [content, terminator] + rest;
    forall i | 2 <= i < |parts| ensures if i % 2 == 0 then BreakFree(parts[i]) else IsTerminator(parts[i]) {
      assert parts[i] == rest[i - 2] && (i - 2) % 2 == i % 2;
    }
  }

  lemma FirstTerminator(t: string)
    requires t != "" && IsBreak(t[0])
    ensures TerminatorLength(t) <= |t| && IsTerminator(t[..TerminatorLength(t)])
  {
    hide IsBreak;
    var m := TerminatorLength(t);
    assert m == 2 ==> t[..m] == "\r\n";
  }

  lemma FirstLine(t: string)
    requires LineLength(t) < |t|
    ensures var n := LineLength(t); var m := TerminatorLength(t[n..]);
            n + m <= |t| && BreakFree(t[..n]) && IsTerminator(t[n..n + m])
  {
    hide LineLength, IsBreak, TerminatorLength, IsTerminator;
    var n := LineLength(t);
    FirstTerminator(t[n..]);
    var m := TerminatorLength(t[n..]);
    assert t[n..n + m] == t[n..][..m];
  }

  lemma {:induction false} SplitAlternates(t: string)
    ensures Alternates(SplitParts(t))
    decreases |t|
  {
    hide LineLength, Alternates, BreakFree, IsTerminator;
    var n := LineLength(t);
    if n < |t| {
      FirstLine(t);
      var m := TerminatorLength(t[n..]);
      SplitAlternates(t[n + m..]);
      AlternatesTwo(t[..n], t[n..n + m], SplitParts(t[n + m..]));
    } else {
      AlternatesOne(t);
    }
  }

  lemma AlternatesOne(t: string)
    requires LineLength(t) == |t|
    ensures Alternates([t])
  {
    assert t[..|t|] == t;
  }

  lemma {:induction false} SplitNeverMerges(t: string)
    ensures !Merges(SplitParts(t))
    decreases |t|
  {
    hide LineLength;
    var n := LineLength(t);
    if n < |t| {
      var m := TerminatorLength(t[n..]);
      var parts, rest := SplitParts(t), SplitParts(t[n + m..]);
      SplitNeverMerges(t[n + m..]);
      assert parts[2..] == rest;
      MergesTail(parts);
      if MergesAt(parts, 1) {
        assert rest[0] == "" && rest[1] == "\n";
        NextLineFeed(t[n + m..]);
      }
    }
  }

  lemma NextLineFeed(t: string)
    requires |SplitParts(t)| > 1 && SplitParts(t)[0] == "" && SplitParts(t)[1] == "\n"
    ensures t != "" && t[0] == '\n'
  {
  }

  lemma LineLengthOfPrefix(c: string, rest: string)
    requires BreakFree(c)
    requires rest == "" || IsBreak(rest[0])
    ensures LineLength(c + rest) == |c|
  {
    if c != "" {
      assert (c + rest)[1..] == c[1..] + rest;
      LineLengthOfPrefix(c[1..], rest);
    } else {
      assert c + rest == rest;
    }
  }

  /** What the split makes of one line, its terminator and the text after them. */
  lemma SplitCons(c: string, e: string, rest: string)
    requires BreakFree(c) && IsTerminator(e)
    ensures e != "\r" || rest == "" || rest[0] != '\n' ==>
              SplitParts(c + (e + rest)) == [c, e] + SplitParts(rest)
    ensures e == "\r" && rest != "" && rest[0] == '\n' ==>
              |SplitParts(c + (e + rest))| > 1 && SplitParts(c + (e + rest))[1] == "\r\n"
  {
    var t := c + (e + rest);
    LineLengthOfPrefix(c, e + rest);
    assert t[|c|..] == e + rest && t[..|c|] == c;
    var m := TerminatorLength(e + rest);
    assert t[|c|..|c| + m] == (e + rest)[..m];
    assert t[|c| + m..] == (e + rest)[m..];
    if m == |e| {
      assert (e + rest)[..m] == e && (e + rest)[m..] == rest;
    }
  }

  /** Splitting gives back exactly the joined parts unless two terminators merge. */
  lemma {:induction false} ResplitIff(parts: seq<string>)
    requires Alternates(parts)
    ensures SplitParts(Concat(parts)) == parts <==> !Merges(parts)
    decreases |parts|
  {
    if |parts| == 1 {
      assert parts[1..] == [] && parts[0] + "" == parts[0];
      LineLengthOfPrefix(parts[0], "");
    } else {
      ConcatTwo(parts);
      MergesTail(parts);
      ResplitTail(parts);
      StartsWithLineFeed(parts[2..]);
      SplitCons(parts[0], parts[1], Concat(parts[2..]));
      ResplitIff(parts[2..]);
    }
  }

  lemma ResplitTail(parts: seq<string>)
    requires Alternates(parts) && |parts| > 1
    ensures Alternates(parts[2..])
    ensures forall rest: seq<string> :: [parts[0], parts[1]] + rest == parts <==> rest == parts[2..]
  {
    assert parts == [parts[0], parts[1]] + parts[2..];
    forall rest: seq<string> | [parts[0], parts[1]] + rest == parts
      ensures rest == parts[2..]
    {
      assert ([parts[0], parts[1]] + rest)[2..] == rest;
    }
  }

  lemma {:induction false} StartsWithLineFeed(parts: seq<string>)
    requires Alternates(parts)
    ensures (Concat(parts) != "" && Concat(parts)[0] == '\n') <==>
            (|parts| > 1 && parts[0] == "" && parts[1] == "\n")
  {
    if |parts| > 1 {
      ConcatTwo(parts);
    } else {
      assert Concat(parts) == parts[0];
    }
  }

  // ------------------------------------------------------------ editing lines

  datatype Edit = Edit(line: nat, text: string)

  /** The parts after the edits, or None where the code raises: an edit past the last part. */
  function ApplyEdits(parts: seq<string>, edits: seq<Edit>): (r: Option<seq<string>>)
    requires forall e <- edits :: e.line >= 1
    ensures r.Some? ==> |r.value| == |parts|
    decreases |edits|
  {
    if edits == [] then Some(parts)
    else
      var at := 2 * (edits[0].line - 1);
      if at >= |parts| then None
      else ApplyEdits(parts[at := edits[0].text], edits[1..])
  }

  function Replaced(text: string, edits: seq<Edit>): Option<string>
    requires forall e <- edits :: e.line >= 1
  {
    match ApplyEdits(SplitParts(text), edits)
    case None => None
    case Some(parts) => Some(Concat(parts))
  }

  /** `replace_lines`: None is the ValueError. */
  method ReplaceLines(text: string, edits: seq<Edit>) returns (r: Option<string>)
    requires forall e <- edits :: e.line >= 1
    ensures r == Replaced(text, edits)
  {
    var parts := SplitParts(text);
    for i := 0 to |edits|
      invariant ApplyEdits(parts, edits[i..]) == ApplyEdits(SplitParts(text), edits)
    {
      assert edits[i..][0] == edits[i] && edits[i..][1..] == edits[i + 1..];
      var at := 2 * (edits[i].line - 1);
      if at >= |parts| {
        return None;
      }
      parts := parts[at := edits[i].text];
    }
    assert edits[|edits|..] == [];
    return Some(Concat(parts));
  }

  predicate DistinctLines(edits: seq<Edit>) {
    forall i, j :: 0 <= i < j < |edits| ==> edits[i].line != edits[j].line
  }

  /** Distinct edits of lines that exist, with new texts of one line each. */
  predicate LineEdits(parts: seq<string>, edits: seq<Edit>)
    requires |parts| % 2 == 1
  {
    && DistinctLines(edits)
    && forall e <- edits :: 1 <= e.line <= |LinesOf(parts)| && BreakFree(e.text)
  }

  /** An edit that empties a line standing between a bare CR and an LF. */
  predicate EmptiesBetween(parts: seq<string>, e: Edit) {
    && e.text == "" && 1 < e.line && 2 * e.line - 1 < |parts|
    && parts[2 * e.line - 3] == "\r" && parts[2 * e.line - 1] == "\n"
  }

  ghost predicate EditsPart(edits: seq<Edit>, k: int) {
    exists e :: e in edits && 2 * (e.line - 1) == k
  }

  /** Each edited part holds its edit's text and every other part is untouched. */
  ghost predicate OnlyEdited(before: seq<string>, edits: seq<Edit>, after: seq<string>) {
    && |after| == |before|
    && (forall e <- edits :: 1 <= e.line && 2 * (e.line - 1) < |after| && after[2 * (e.line - 1)] == e.text)
    && (forall k :: 0 <= k < |before| && !EditsPart(edits, k) ==> after[k] == before[k])
  }

  lemma {:induction false} EditsLand(parts: seq<string>, edits: seq<Edit>)
    requires DistinctLines(edits)
    requires forall e <- edits :: 1 <= e.line && 2 * (e.line - 1) < |parts|
    ensures ApplyEdits(parts, edits).Some? && OnlyEdited(parts, edits, ApplyEdits(parts, edits).value)
    decreases |edits|
  {
    if edits != [] {
      var at := 2 * (edits[0].line - 1);
      var next := parts[at := edits[0].text];
      EditsLand(next, edits[1..]);
      assert edits == [edits[0]] + edits[1..];
      assert !EditsPart(edits[1..], at);
      forall k | 0 <= k < |parts| && !EditsPart(edits, k)
        ensures !EditsPart(edits[1..], k) && k != at
      {
        assert edits[0] in edits;
      }
    }
  }

  lemma OddPartsKept(before: seq<string>, edits: seq<Edit>, after: seq<string>)
    requires OnlyEdited(before, edits, after)
    ensures forall i :: 0 <= i < |before| && i % 2 == 1 ==> after[i] == before[i]
  {
    forall i | 0 <= i < |before| && i % 2 == 1 ensures !EditsPart(edits, i) {
    }
  }

  lemma EditedAlternates(before: seq<string>, edits: seq<Edit>, after: seq<string>)
    requires Alternates(before) && LineEdits(before, edits) && OnlyEdited(before, edits, after)
    ensures Alternates(after)
  {
    OddPartsKept(before, edits, after);
    forall i | 0 <= i < |after| && i % 2 == 0 ensures BreakFree(after[i]) {
      if EditsPart(edits, i) {
        var e :| e in edits && 2 * (e.line - 1) == i;
      }
    }
  }

  lemma EditedMerges(before: seq<string>, edits: seq<Edit>, after: seq<string>)
    requires !Merges(before) && OnlyEdited(before, edits, after)
    ensures Merges(after) <==> exists e :: e in edits && EmptiesBetween(before, e)
  {
    OddPartsKept(before, edits, after);
    if i :| MergesAt(after, i) {
      assert !MergesAt(before, i);
      assert EditsPart(edits, i + 1);
      var e :| e in edits && 2 * (e.line - 1) == i + 1;
      assert EmptiesBetween(before, e);
    }
    if e :| e in edits && EmptiesBetween(before, e) {
      assert MergesAt(after, 2 * e.line - 3);
    }
  }

  /** Splitting the rewritten document gives the old parts with exactly the edited lines
      substituted, every terminator included, iff no edit empties a line between a bare CR
      and an LF. */
  lemma ReplaceKeepsStructureIff(text: string, edits: seq<Edit>)
    requires LineEdits(SplitParts(text), edits)
    ensures Replaced(text, edits).Some?
    ensures OnlyEdited(SplitParts(text), edits, SplitParts(Replaced(text, edits).value)) <==>
            !exists e :: e in edits && EmptiesBetween(SplitParts(text), e)
  {
    var parts := SplitParts(text);
    SplitAlternates(text);
    SplitNeverMerges(text);
    EditsLand(parts, edits);
    var after := ApplyEdits(parts, edits).value;
    EditedAlternates(parts, edits, after);
    EditedMerges(parts, edits, after);
    ResplitIff(after);
    if OnlyEdited(parts, edits, SplitParts(Concat(after))) {
      OnlyEditedUnique(parts, edits, after, SplitParts(Concat(after)));
    }
  }

  lemma OnlyEditedUnique(before: seq<string>, edits: seq<Edit>, a: seq<string>, b: seq<string>)
    requires OnlyEdited(before, edits, a) && OnlyEdited(before, edits, b)
    ensures a == b
  {
    forall k | 0 <= k < |a| ensures a[k] == b[k] {
      if EditsPart(edits, k) {
        var e :| e in edits && 2 * (e.line - 1) == k;
      }
    }
  }

  /** A rewritten line is never empty, so a rewrite changes the named lines and nothing else:
      every terminator is the old one, and so is every line not edited. */
  lemma ReplacePreservesLines(text: string, edits: seq<Edit>)
    requires LineEdits(SplitParts(text), edits)
    requires forall e <- edits :: e.text != ""
    ensures Replaced(text, edits).Some?
    ensures OnlyEdited(SplitParts(text), edits, SplitParts(Replaced(text, edits).value))
    ensures forall i :: 0 <= i < |SplitParts(text)| && i % 2 == 1 ==>
              SplitParts(Replaced(text, edits).value)[i] == SplitParts(text)[i]
    ensures |SplitLines(Replaced(text, edits).value)| == |SplitLines(text)|
    ensures forall e <- edits :: SplitLines(Replaced(text, edits).value)[e.line - 1] == e.text
    ensures forall n :: 0 <= n < |SplitLines(text)| && (forall e <- edits :: e.line != n + 1) ==>
              SplitLines(Replaced(text, edits).value)[n] == SplitLines(text)[n]
  {
    ReplaceKeepsStructureIff(text, edits);
    OddPartsKept(SplitParts(text), edits, SplitParts(Replaced(text, edits).value));
    EditedLines(SplitParts(text), edits, SplitParts(Replaced(text, edits).value));
  }

  lemma EditedLines(before: seq<string>, edits: seq<Edit>, after: seq<string>)
    requires |before| % 2 == 1 && LineEdits(before, edits) && OnlyEdited(before, edits, after)
    requires forall e <- edits :: e.text != ""
    ensures |LinesOf(after)| == |LinesOf(before)|
    ensures forall e <- edits :: LinesOf(after)[e.line - 1] == e.text
    ensures forall n :: 0 <= n < |LinesOf(before)| && (forall e <- edits :: e.line != n + 1) ==>
              LinesOf(after)[n] == LinesOf(before)[n]
  {
    var last := |before| - 1;
    if EditsPart(edits, last) {
      var e :| e in edits && 2 * (e.line - 1) == last;
      assert e.line <= |LinesOf(before)|;
    }
    forall n | 0 <= n < |LinesOf(before)| && (forall e <- edits :: e.line != n + 1)
      ensures LinesOf(after)[n] == LinesOf(before)[n]
    {
      assert !EditsPart(edits, 2 * n);
    }
  }

  lemma ReplaceNothing(text: string)
    ensures Replaced(text, []) == Some(text)
  {
    SplitConcat(text);
  }

  /** Emptying the line between a CR and an LF leaves one terminator where there were two,
      so the document has one line fewer. */
  lemma EmptyingMayMerge()
    ensures SplitParts("\rx\n") == ["", "\r"] + ["x", "\n", ""]
    ensures ApplyEdits(["", "\r"] + ["x", "\n", ""], [Edit(2, "")]) == Some(["", "\r"] + ["", "\n", ""])
    ensures Concat(["", "\r"] + ["", "\n", ""]) == "\r\n"
    ensures |SplitParts("\r\n")| == 3
  {
    SplitOneLine("x", "\n");
    SplitCons("", "\r", "x" + "\n");
    assert "\rx\n" == "" + ("\r" + ("x" + "\n"));
    SplitOneLine("", "\r\n");
    assert "\r\n" == "" + "\r\n";
    EmptyingApplied();
  }

  lemma EmptyingApplied()
    ensures ApplyEdits(["", "\r"] + ["x", "\n", ""], [Edit(2, "")]) == Some(["", "\r"] + ["", "\n", ""])
    ensures Concat(["", "\r"] + ["", "\n", ""]) == "\r\n"
  {
    var before, after := ["", "\r"] + ["x", "\n", ""], ["", "\r"] + ["", "\n", ""];
    assert before[2 := ""] == after;
    assert ApplyEdits(after, [Edit(2, "")][1..]) == Some(after);
    ConcatTwo(after);
    assert after[2..] == ["", "\n", ""];
    ConcatTwo(["", "\n", ""]);
    assert Concat([""]) == "";
  }

  lemma SplitOneLine(c: string, e: string)
    requires BreakFree(c) && IsTerminator(e)
    ensures SplitParts(c + e) == [c, e, ""]
  {
    SplitCons(c, e, "");
    assert c + e == c + (e + "");
    assert SplitParts("") == [""];
  }
}
