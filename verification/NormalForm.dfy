/** What the comparison of two blocks looks at: the content without the newlines around it and
    without the blanks at its line ends (scripts/gen-support-matrix.py:1215-1250), and the
    character classes and numerals the scripts share. */
module NormalForm {
  import opened Text
  import opened LineBreaks
  import opened MarkerBlock

  predicate Newlines(s: string) {
    forall k :: 0 <= k < |s| ==> s[k] == '\n'
  }

  predicate Bare(s: string) {
    s == "" || (s[0] != '\n' && s[|s| - 1] != '\n')
  }

  /** `s` between newlines, neither starting nor ending with one. */
  ghost predicate Core(t: string, s: string) {
    Bare(s) && exists a: string, b: string :: Newlines(a) && Newlines(b) && t == a + s + b
  }

  lemma {:induction false} StripFramed(a: string, s: string, b: string)
    requires Newlines(a) && Newlines(b) && Bare(s)
    ensures StripNewlines(a + s + b) == s
  {
    if a != "" {
      StripFramed(a[1..], s, b);
      assert a + s + b == "\n" + (a[1..] + s + b);
      LStripOfPrefixed(a[1..] + s + b);
    } else {
      assert a + s + b == s + b;
      if s == "" {
        StripNothing(b);
      } else {
        assert (s + b)[0] == s[0];
        RStripFramed(s, b);
      }
    }
  }

  lemma {:induction false} StripNothing(b: string)
    requires Newlines(b)
    ensures StripNewlines("" + b) == ""
  {
    assert "" + b == b;
    if b != "" {
      StripNothing(b[1..]);
      assert "" + b[1..] == b[1..];
    }
  }

  lemma {:induction false} RStripFramed(s: string, b: string)
    requires Newlines(b) && s != "" && s[|s| - 1] != '\n'
    ensures RStripNewlines(s + b) == s
  {
    if b == "" {
      assert s + b == s;
    } else {
      assert (s + b)[..|s + b| - 1] == s + b[..|b| - 1] && (s + b)[|s + b| - 1] == b[|b| - 1];
      RStripFramed(s, b[..|b| - 1]);
    }
  }

  /** Stripping newlines leaves the core, and there is one. */
  lemma StrippedIff(t: string, s: string)
    ensures StripNewlines(t) == s <==> Core(t, s)
  {
    var l := LStripNewlines(t);
    var r := RStripNewlines(l);
    LStripWindow(t);
    RStripWindow(l);
    var a, b := t[..|t| - |l|], l[|r|..];
    assert t == a + r + b && Newlines(a) && Newlines(b);
    if Core(t, s) {
      var a', b' :| Newlines(a') && Newlines(b') && t == a' + s + b';
      StripFramed(a', s, b');
    }
  }

  /** `kept` is the line without the blanks at its end. */
  predicate EndTrimmed(line: string, kept: string) {
    && kept <= line && (kept != "" ==> !IsSpace(kept[|kept| - 1]))
    && forall k :: |kept| <= k < |line| ==> IsSpace(line[k])
  }

  /** Line for line the core's text, with the blanks at the line ends gone. */
  ghost predicate NormalOf(t: string, n: string) {
    exists core: string :: Core(t, core) && LinesTrimmed(Split(core, '\n'), Split(n, '\n'))
  }

  predicate LinesTrimmed(lines: seq<string>, kept: seq<string>) {
    |lines| == |kept| && forall i :: 0 <= i < |lines| ==> EndTrimmed(lines[i], kept[i])
  }

  lemma {:induction false} RStripAllIff(lines: seq<string>, kept: seq<string>)
    ensures LinesTrimmed(lines, kept) <==> kept == RStripAll(lines)
  {
    hide IsSpace;
    if lines != [] {
      RStripAllIff(lines[1..], RStripAll(lines[1..]));
      var all := RStripAll(lines);
      assert EndTrimmed(lines[0], all[0]);
      assert forall i :: 1 <= i < |lines| ==> all[i] == RStripAll(lines[1..])[i - 1] && lines[i] == lines[1..][i - 1];
      if LinesTrimmed(lines, kept) {
        forall i | 0 <= i < |lines| ensures kept[i] == all[i] {
          assert EndTrimmed(lines[i], kept[i]);
          assert EndTrimmed(lines[i], all[i]) by {
            if i > 0 {
              assert EndTrimmed(lines[1..][i - 1], RStripAll(lines[1..])[i - 1]);
            }
          }
          OneTrim(lines[i], kept[i], all[i]);
        }
      }
    }
  }

  lemma OneTrim(line: string, a: string, b: string)
    requires EndTrimmed(line, a) && EndTrimmed(line, b)
    ensures a == b
  {
    hide IsSpace;
    assert b != "" ==> b[|b| - 1] == line[|b| - 1];
    assert a != "" ==> a[|a| - 1] == line[|a| - 1];
  }

  lemma {:induction false} JoinOfSplit(s: string)
    ensures Join(Split(s, '\n'), "\n") == s
    decreases |s|
  {
    var k := IndexOfChar(s, '\n');
    if k < |s| {
      JoinOfSplit(s[k + 1..]);
      assert s == s[..k] + "\n" + s[k + 1..];
    }
  }

  lemma TrimmedLack(lines: seq<string>, kept: seq<string>)
    requires LinesTrimmed(lines, kept) && forall l <- lines :: Lacks(l, '\n')
    ensures forall l <- kept :: Lacks(l, '\n')
  {
    forall i | 0 <= i < |kept| ensures Lacks(kept[i], '\n') {
      assert EndTrimmed(lines[i], kept[i]) && Lacks(lines[i], '\n');
    }
  }

  /** The normal form keeps all of the content but the newlines around it and the blanks at its
      line ends. */
  lemma NormalizeIff(t: string, n: string)
    ensures Normalize(t) == n <==> NormalOf(t, n)
  {
    hide LinesTrimmed, Core, Join, RStripAll, Split, StripNewlines;
    var core := StripNewlines(t);
    StrippedIff(t, core);
    var lines := Split(core, '\n');
    var kept := RStripAll(lines);
    RStripAllIff(lines, kept);
    TrimmedLack(lines, kept);
    NonEmpty(core);
    SplitOfJoin(kept, '\n');
    if core' :| Core(t, core') && LinesTrimmed(Split(core', '\n'), Split(n, '\n')) {
      StrippedIff(t, core');
      RStripAllIff(lines, Split(n, '\n'));
      JoinOfSplit(n);
    }
  }

  lemma NonEmpty(core: string)
    ensures RStripAll(Split(core, '\n')) != []
  {
  }

  // ------------------------------------------------------------ shared characters

  const SPACES := {
    9, 10, 11, 12, 13, 28, 29, 30, 31, 32, 0x85, 0xA0, 0x1680,
    0x2000, 0x2001, 0x2002, 0x2003, 0x2004, 0x2005, 0x2006, 0x2007, 0x2008, 0x2009, 0x200A,
    0x2028, 0x2029, 0x202F, 0x205F, 0x3000}

  /** The white space of Python's `str.isspace`, by code point. */
  lemma SpaceIff(c: char)
    ensures IsSpace(c) <==> c as int in SPACES
  {
  }

  const BREAKS := {10, 11, 12, 13, 28, 29, 30, 0x85, 0x2028, 0x2029}

  /** The line boundaries of `str.splitlines`, by code point. */
  lemma BreakIff(c: char)
    ensures IsBreak(c) <==> c as int in BREAKS
  {
  }

  /** Numerals are decimal: a further digit counts ones, and ten times as much what stands before. */
  lemma DecimalPlaces(s: string, d: nat)
    requires AllDigits(s) && d < 10
    ensures var c := "0123456789"[d]; AllDigits(s + [c]) && Number(s + [c]) == 10 * Number(s) + d
  {
    var c := "0123456789"[d];
    assert c == '0' + d as char;
    assert (s + [c])[..|s|] == s;
  }
}
