/** The lexical walks over Rust source: string and character literals, comments, and the two
    walks over a call's parentheses (scripts/_user_strings.py:132-318). */
module RustLexer {
  import opened Text

  // ------------------------------------------------------------ literal ends

  /** Just past the next line feed, or the end of the text. */
  function Eol(t: string, pos: nat): (e: nat)
    requires pos < |t|
    ensures pos < e <= |t|
    decreases |t| - pos
  {
    if t[pos] == '\n' || pos + 1 == |t| then pos + 1 else Eol(t, pos + 1)
  }

  function SkipBlanks(t: string, j: nat): (e: nat)
    requires j <= |t|
    ensures j <= e <= |t|
    decreases |t| - j
  {
    if j < |t| && (t[j] == ' ' || t[j] == '\t') then SkipBlanks(t, j + 1) else j
  }

  /** Past the brace that closes `\u{...}`, or the end of the text. */
  function UnicodeEnd(t: string, j: nat): (e: nat)
    requires j <= |t|
    ensures j <= e <= |t|
    decreases |t| - j
  {
    if j == |t| then j else if t[j] == '}' then j + 1 else UnicodeEnd(t, j + 1)
  }

  /** Past the escape whose backslash is at `j`. */
  function EscapeEnd(t: string, j: nat): (e: nat)
    requires j + 1 < |t|
    ensures j + 2 <= e <= |t|
  {
    var nx := t[j + 1];
    if nx == '\n' then SkipBlanks(t, j + 2)
    else if nx == '\r' && j + 2 < |t| && t[j + 2] == '\n' then SkipBlanks(t, j + 3)
    else if nx == 'u' then UnicodeEnd(t, j + 2)
    else if nx == 'x' then (if j + 4 <= |t| then j + 4 else |t|)
    else j + 2
  }

  /** Past the quote that closes the string whose text goes on at `j`. */
  function RegularEnd(t: string, j: nat): (e: Option<nat>)
    requires j <= |t|
    ensures e.Some? ==> j < e.value <= |t|
    decreases |t| - j
  {
    if j == |t| then None
    else if t[j] == '\\' then (if j + 1 >= |t| then None else RegularEnd(t, EscapeEnd(t, j)))
    else if t[j] == '"' then Some(j + 1)
    else RegularEnd(t, j + 1)
  }

  function HashesEnd(t: string, j: nat): (e: nat)
    requires j <= |t|
    ensures j <= e <= |t|
    decreases |t| - j
  {
    if j < |t| && t[j] == '#' then HashesEnd(t, j + 1) else j
  }

  function Hashes(n: nat): (s: string)
    ensures |s| == n
  {
    seq(n, _ => '#')
  }

  /** Where the string literal at `i` ends, or None when there is none. */
  function StringEnd(t: string, i: nat): (e: Option<nat>)
    requires i < |t|
    ensures e.Some? ==> i < e.value <= |t|
  {
    if t[i] == 'r' then
      var j := HashesEnd(t, i + 1);
      if j >= |t| || t[j] != '"' then None
      else
        var close := "\"" + Hashes(j - i - 1);
        var end := Find(t, close, j + 1);
        if end < 0 then None else Some(end + |close|)
    else RegularEnd(t, i + 1)
  }

  /** Index just past the character literal at `i`; None for a lifetime. */
  function CharLiteralEnd(t: string, i: nat): (e: Option<nat>)
    requires i < |t|
    ensures e.Some? ==> i < e.value <= |t|
  {
    var j: nat := i + 1;
    if j < |t| && t[j] == '\\' then
      var k := j + 2;
      if j + 1 < |t| && t[j + 1] == 'u' && k < |t| && t[k] == '{' then
        var b := Find(t, "}", k);
        if b < 0 then None
        else if b + 1 < |t| && t[b + 1] == '\'' then Some(b + 2) else None
      else if k < |t| && t[k] == '\'' then Some(k + 1) else None
    else if j >= |t| || t[j] == '\'' then None
    else if j + 1 < |t| && t[j + 1] == '\'' then Some(j + 2) else None
  }

  // ------------------------------------------------- string ends, as written

  method ParseString(t: string, i: nat) returns (end: Option<nat>)
    requires i < |t|
    ensures end == StringEnd(t, i)
  {
    if t[i] == 'r' {
      var j := i + 1;
      var hashes := 0;
      while j < |t| && t[j] == '#'
        invariant i < j <= |t| && hashes == j - i - 1
        invariant HashesEnd(t, j) == HashesEnd(t, i + 1)
      {
        hashes := hashes + 1;
        j := j + 1;
      }
      if j >= |t| || t[j] != '"' {
        return None;
      }
      var close := "\"" + Hashes(hashes);
      var at := Find(t, close, j + 1);
      return if at < 0 then None else Some(at + |close|);
    }
    var j := i + 1;
    while j < |t|
      invariant i < j <= |t| && RegularEnd(t, j) == RegularEnd(t, i + 1)
    {
      if t[j] == '\\' {
        if j + 1 >= |t| {
          break;
        }
        j := ParseEscape(t, j);
      } else if t[j] == '"' {
        return Some(j + 1);
      } else {
        j := j + 1;
      }
    }
    return None;
  }

  method ParseEscape(t: string, at: nat) returns (j: nat)
    requires at + 1 < |t|
    ensures j == EscapeEnd(t, at)
  {
    var nx := t[at + 1];
    if nx == '\n' || (nx == '\r' && at + 2 < |t| && t[at + 2] == '\n') {
      var from := if nx == '\n' then at + 2 else at + 3;
      j := from;
      while j < |t| && (t[j] == ' ' || t[j] == '\t')
        invariant from <= j <= |t| && SkipBlanks(t, j) == SkipBlanks(t, from)
      {
        j := j + 1;
      }
      return;
    }
    j := at + 2;
    if nx == 'u' {
      while j < |t| && t[j] != '}'
        invariant at + 2 <= j <= |t| && UnicodeEnd(t, j) == UnicodeEnd(t, at + 2)
      {
        j := j + 1;
      }
      if j < |t| {
        j := j + 1;
      }
    } else if nx == 'x' {
      for k := 0 to 2
        invariant j == if at + 2 + k <= |t| then at + 2 + k else |t|
      {
        if j < |t| {
          j := j + 1;
        }
      }
    }
  }

  // ------------------------------------------------------- lexical positions

  /** What stands at a position of the text, and where the walk goes from there. */
  datatype Lex = Literal(end: nat) | Character(end: nat) | Comment(end: nat) | Plain

  predicate StartsString(t: string, j: nat)
    requires j < |t|
  {
    t[j] == '"' || (t[j] == 'r' && j + 1 < |t| && (t[j + 1] == '"' || t[j + 1] == '#'))
  }

  function LexAt(t: string, j: nat): (l: Lex)
    requires j < |t|
    ensures !l.Plain? ==> j < l.end <= |t|
  {
    if t[j] == '\'' && CharLiteralEnd(t, j).Some? then Character(CharLiteralEnd(t, j).value)
    else if StartsString(t, j) && StringEnd(t, j).Some? then Literal(StringEnd(t, j).value)
    else if t[j] == '/' && j + 1 < |t| && t[j + 1] == '/' then Comment(Eol(t, j))
    else if t[j] == '/' && j + 1 < |t| && t[j + 1] == '*' then
      var end := Find(t, "*/", j + 2);
      Comment(if end < 0 then |t| else end + 2)
    else Plain
  }

  function Next(t: string, j: nat): (n: nat)
    requires j < |t|
    ensures j < n <= |t|
  {
    if LexAt(t, j).Plain? then j + 1 else LexAt(t, j).end
  }

  /** The walk that stands at `a` comes to stand at `b`. */
  ghost predicate Visits(t: string, a: nat, b: nat)
    requires a <= |t|
    decreases |t| - a
  {
    a == b || (a < b && a < |t| && Visits(t, Next(t, a), b))
  }

  /** Parenthesis depth change at a position the walk stands on. */
  function DepthAt(t: string, j: nat): int
    requires j < |t|
  {
    if !LexAt(t, j).Plain? then 0 else if t[j] == '(' then 1 else if t[j] == ')' then -1 else 0
  }

  /** Where the depth first falls back to zero, from depth `depth` at `j`. */
  function CloseFrom(t: string, j: nat, depth: int): (close: int)
    requires j <= |t|
    ensures close == -1 || j <= close < |t|
    decreases |t| - j
  {
    if j == |t| then -1
    else if DepthAt(t, j) == -1 && depth == 1 then j
    else CloseFrom(t, Next(t, j), depth + DepthAt(t, j))
  }

  method FindMatchingParen(t: string, open: nat) returns (close: int)
    requires open < |t|
    ensures close == CloseFrom(t, open, 0)
  {
    hide StringEnd, CharLiteralEnd, Eol;
    var depth, j := 0, open;
    while j < |t|
      invariant open <= j <= |t| && CloseFrom(t, j, depth) == CloseFrom(t, open, 0)
    {
      var c := t[j];
      if c == '\'' {
        var charEnd := CharLiteralEnd(t, j);
        if charEnd != None {
          j := charEnd.value;
          continue;
        }
      }
      if c == '"' || (c == 'r' && j + 1 < |t| && (t[j + 1] == '"' || t[j + 1] == '#')) {
        var end := ParseString(t, j);
        if end != None {
          j := end.value;
          continue;
        }
      }
      if c == '/' && j + 1 < |t| {
        if t[j + 1] == '/' {
          j := Eol(t, j);
          continue;
        }
        if t[j + 1] == '*' {
          var end := Find(t, "*/", j + 2);
          j := if end < 0 then |t| else end + 2;
          continue;
        }
      }
      if c == '(' {
        depth := depth + 1;
      } else if c == ')' {
        depth := depth - 1;
        if depth == 0 {
          return j;
        }
      }
      j := j + 1;
    }
    return -1;
  }

  // ------------------------------------------------ the first literal of a call

  /** The first literal the walk from `j` meets before `close`. */
  function FirstLiteral(t: string, j: nat, close: nat): Option<nat>
    requires j <= |t| && close <= |t|
    decreases |t| - j
  {
    if j >= close then None
    else if LexAt(t, j).Literal? then Some(j)
    else FirstLiteral(t, Next(t, j), close)
  }

  /** `_first_string_literal`: a second walk, written separately, that never looks past
      `close`. It gives the literal's position and end. */
  method FirstStringLiteral(t: string, open: nat, close: nat) returns (at: Option<nat>, end: Option<nat>)
    requires open < |t| && t[open] == '(' && close == CloseFrom(t, open, 0)
    ensures at == FirstLiteral(t, open + 1, close)
    ensures at.Some? ==> open < at.value < close && end == StringEnd(t, at.value) && end.Some? && end.value <= close
    ensures at.Some? ==> Visits(t, open + 1, at.value) && LexAt(t, at.value).Literal?
    ensures at == None ==> forall j :: open < j < close && Visits(t, open + 1, j) ==> !LexAt(t, j).Literal?
  {
    CloseOfCall(t, open);
    hide StringEnd, CharLiteralEnd, Eol, CloseFrom;
    var j := open + 1;
    ghost var from := open + 1;
    assert Visits(t, from, from);
    while j < close
      invariant open < j <= close && Visits(t, from, j) && Visits(t, j, close)
      invariant FirstLiteral(t, j, close) == FirstLiteral(t, from, close)
      invariant forall i :: from <= i < j && Visits(t, from, i) ==> !LexAt(t, i).Literal?
      decreases close - j
    {
      BoundedStep(t, j, close);
      VisitsNext(t, from, j);
      NothingBetween(t, from, j);
      var c := t[j];
      if c == '\'' {
        var charEnd := CharLiteralEnd(t, j);
        if charEnd != None && charEnd.value <= close {
          j := charEnd.value;
          continue;
        }
      }
      if c == '"' || (c == 'r' && j + 1 < close && (t[j + 1] == '"' || t[j + 1] == '#')) {
        var e := ParseString(t, j);
        if e != None {
          return Some(j), e;
        }
        j := j + 1;
        continue;
      }
      if c == '/' && j + 1 < close {
        if t[j + 1] == '/' {
          var nl := Find(t[..close], "\n", j);
          j := if nl < 0 then close else nl + 1;
          continue;
        }
        if t[j + 1] == '*' {
          var e := Find(t[..close], "*/", j + 2);
          j := if e < 0 then close else e + 2;
          continue;
        }
      }
      j := j + 1;
    }
    return None, None;
  }

  lemma {:induction false} CloseIsVisited(t: string, j: nat, depth: int)
    requires j <= |t| && CloseFrom(t, j, depth) >= 0
    ensures var close := CloseFrom(t, j, depth);
            j <= close < |t| && t[close] == ')' && LexAt(t, close).Plain? && Visits(t, j, close)
    decreases |t| - j
  {
    hide LexAt;
    if !(DepthAt(t, j) == -1 && depth == 1) {
      CloseIsVisited(t, Next(t, j), depth + DepthAt(t, j));
    }
  }

  /** The close of a call is a closing parenthesis that the walk from its opening stands on. */
  lemma CloseOfCall(t: string, open: nat)
    requires open < |t| && t[open] == '(' && CloseFrom(t, open, 0) >= 0
    ensures var close := CloseFrom(t, open, 0);
            open < close < |t| && t[close] == ')' && Visits(t, open + 1, close)
  {
    assert LexAt(t, open).Plain?;
    hide LexAt;
    CloseIsVisited(t, open + 1, 1);
  }

  lemma OccursBefore(t: string, p: string, k: int, close: nat)
    requires close <= |t|
    ensures OccursAt(t[..close], p, k) <==> OccursAt(t, p, k) && k + |p| <= close
  {
    if 0 <= k && k + |p| <= close {
      assert t[..close][k..k + |p|] == t[k..k + |p|];
    }
  }

  lemma FindBefore(t: string, p: string, from: nat, close: nat)
    requires close <= |t| && 0 <= Find(t, p, from) && Find(t, p, from) + |p| <= close
    ensures Find(t[..close], p, from) == Find(t, p, from)
  {
    var at := Find(t, p, from);
    OccursBefore(t, p, at, close);
    forall k | from <= k < at ensures !OccursAt(t[..close], p, k) {
      OccursBefore(t, p, k, close);
    }
    FindIs(t[..close], p, from, at);
  }

  lemma {:induction false} EolIs(t: string, pos: nat)
    requires pos < |t|
    ensures forall k :: pos <= k < Eol(t, pos) - 1 ==> t[k] != '\n'
    ensures Eol(t, pos) < |t| ==> t[Eol(t, pos) - 1] == '\n'
    decreases |t| - pos
  {
    if t[pos] != '\n' && pos + 1 < |t| {
      EolIs(t, pos + 1);
    }
  }

  lemma FindLineFeed(t: string, j: nat, close: nat)
    requires j < close < |t| && Eol(t, j) <= close
    ensures Find(t[..close], "\n", j) + 1 == Eol(t, j)
  {
    EolIs(t, j);
    hide Eol;
    var at: nat := Eol(t, j) - 1;
    assert t[..close][at..at + 1] == "\n";
    forall k | j <= k < at ensures !OccursAt(t[..close], "\n", k) {
      OccursChars(t[..close], "\n", k);
      assert "\n"[0] == '\n' && t[..close][k + 0] == t[k];
    }
    FindIs(t[..close], "\n", j, at);
  }

  /** What the bounded walk's own tests say at a position from which the full walk comes to
      stand at a closing parenthesis: nothing the full walk sees reaches past it. */
  lemma BoundedStep(t: string, j: nat, close: nat)
    requires j < close < |t| && t[close] == ')' && Visits(t, j, close)
    ensures Next(t, j) <= close && Visits(t, Next(t, j), close)
    ensures t[j] == '/' && t[j + 1] == '/' ==>
              j + 1 < close && Find(t[..close], "\n", j) >= 0 && Find(t[..close], "\n", j) + 1 == Next(t, j)
    ensures t[j] == '/' && t[j + 1] == '*' ==>
              j + 1 < close && Find(t[..close], "*/", j + 2) >= 0 && Find(t[..close], "*/", j + 2) + 2 == Next(t, j)
  {
    hide StringEnd, CharLiteralEnd, Eol;
    if t[j] == '/' && t[j + 1] == '/' {
      assert LexAt(t, j) == Comment(Eol(t, j));
      FindLineFeed(t, j, close);
    }
    if t[j] == '/' && t[j + 1] == '*' {
      assert LexAt(t, j).Comment?;
      FindBefore(t, "*/", j + 2, close);
    }
  }

  lemma VisitsNext(t: string, a: nat, b: nat)
    requires a <= b < |t| && Visits(t, a, b)
    ensures Visits(t, a, Next(t, b))
    decreases |t| - a
  {
    if a == b {
      assert Visits(t, Next(t, b), Next(t, b));
    } else {
      VisitsNext(t, Next(t, a), b);
    }
  }

  lemma NothingBetween(t: string, a: nat, b: nat)
    requires a <= b < |t| && Visits(t, a, b)
    ensures forall j :: b < j < Next(t, b) ==> !Visits(t, a, j)
    decreases |t| - a
  {
  }
}
