/** What the lexical walk over Rust source takes for a literal, a comment and the end of a call,
    said of the text itself (scripts/_user_strings.py:132-318). */
module RustForms {
  import opened Text
  import opened RustLexer

  // ------------------------------------------------------- the parenthesis that closes

  /** How often a plain `c` stands at a position that the walk from `a` visits before `b`. */
  ghost function Met(t: string, a: nat, b: nat, c: char): nat
    requires a <= |t|
    decreases |t| - a
  {
    if a >= b || a == |t| then 0
    else (if LexAt(t, a).Plain? && t[a] == c then 1 else 0) + Met(t, Next(t, a), b, c)
  }

  lemma {:induction false} MetSoFar(t: string, a: nat, b: nat, c: char)
    requires a <= b < |t| && Visits(t, a, b)
    ensures Met(t, a, b + 1, c) == Met(t, a, b, c) + (if LexAt(t, b).Plain? && t[b] == c then 1 else 0)
    decreases |t| - a
  {
    hide LexAt, Next;
    if a == b {
      MetNothing(t, b, c);
    } else {
      VisitedAhead(t, a, b);
      MetSoFar(t, Next(t, a), b, c);
    }
  }

  lemma MetNothing(t: string, b: nat, c: char)
    requires b < |t|
    ensures Met(t, b, b, c) == 0
    ensures Met(t, b, b + 1, c) == if LexAt(t, b).Plain? && t[b] == c then 1 else 0
  {
    hide LexAt;
    assert Next(t, b) >= b + 1;
  }

  lemma VisitedAhead(t: string, a: nat, b: nat)
    requires a < b <= |t| && Visits(t, a, b)
    ensures a < |t| && Next(t, a) <= b && Visits(t, Next(t, a), b)
  {
    hide LexAt;
  }

  /** The walk from `open` up to a position has met as many opening as closing parentheses. */
  ghost predicate Balanced(t: string, open: nat, p: nat)
    requires open <= |t|
  {
    Met(t, open, p + 1, '(') == Met(t, open, p + 1, ')')
  }

  /** At `p` the call is over: there, and at no earlier position of the walk. */
  ghost predicate Closes(t: string, open: nat, p: nat)
    requires open <= |t|
  {
    && open <= p < |t| && Visits(t, open, p) && Balanced(t, open, p)
    && forall q: nat :: open <= q < p && Visits(t, open, q) ==> Met(t, open, q + 1, '(') > Met(t, open, q + 1, ')')
  }

  /** From a position that the walk has come to with the call still open. */
  lemma {:induction false} CloseFromIff(t: string, open: nat, j: nat, depth: int)
    requires open < j <= |t| && Visits(t, open, j) && depth > 0
    requires depth == Met(t, open, j, '(') - Met(t, open, j, ')')
    requires forall q: nat :: open <= q < j && Visits(t, open, q) ==> Met(t, open, q + 1, '(') > Met(t, open, q + 1, ')')
    ensures var close := CloseFrom(t, j, depth);
            if close < 0 then forall p: nat :: !Closes(t, open, p) else Closes(t, open, close)
    decreases |t| - j
  {
    hide LexAt, Met, Visits;
    if j == |t| {
      forall p: nat ensures !Closes(t, open, p) {
        assert p < |t| && Visits(t, open, p) && open <= p ==> !Balanced(t, open, p);
      }
    } else {
      MetSoFar(t, open, j, '(');
      MetSoFar(t, open, j, ')');
      DepthMeans(t, j);
      if !(DepthAt(t, j) == -1 && depth == 1) {
        MetAlike(t, open, j);
        VisitsNext(t, open, j);
        NothingBetween(t, open, j);
        CloseFromIff(t, open, Next(t, j), depth + DepthAt(t, j));
      }
    }
  }

  lemma DepthMeans(t: string, j: nat)
    requires j < |t|
    ensures DepthAt(t, j) == (if LexAt(t, j).Plain? && t[j] == '(' then 1 else 0) - (if LexAt(t, j).Plain? && t[j] == ')' then 1 else 0)
  {
    hide LexAt;
  }

  /** What is met before the next position is what is met up to this one. */
  lemma {:induction false} MetAlike(t: string, a: nat, b: nat)
    requires a <= b < |t| && Visits(t, a, b)
    ensures forall c :: Met(t, a, Next(t, b), c) == Met(t, a, b + 1, c)
    decreases |t| - a
  {
    hide LexAt, Next;
    if a == b {
      forall c ensures Met(t, a, Next(t, b), c) == Met(t, a, b + 1, c) {
        MetNothing(t, b, c);
        MetPast(t, Next(t, b), c);
      }
    } else {
      VisitedAhead(t, a, b);
      MetAlike(t, Next(t, a), b);
    }
  }

  lemma MetPast(t: string, b: nat, c: char)
    requires b <= |t|
    ensures Met(t, b, b, c) == 0
  {
  }

  /** A call's close is the first position of the walk at which as many closing parentheses have
      been met as opening ones; there is none exactly when the answer is -1. */
  lemma CloseIff(t: string, open: nat)
    requires open < |t| && t[open] == '('
    ensures forall p: nat :: CloseFrom(t, open, 0) == p <==> Closes(t, open, p)
    ensures CloseFrom(t, open, 0) == -1 <==> forall p: nat :: !Closes(t, open, p)
  {
    assert LexAt(t, open).Plain? && Next(t, open) == open + 1;
    assert Visits(t, open + 1, open + 1) && Visits(t, open, open + 1) && Visits(t, open, open);
    hide LexAt, Visits;
    MetNothing(t, open, '(');
    MetNothing(t, open, ')');
    CloseFromIff(t, open, open + 1, 1);
    forall p: nat, q: nat | Closes(t, open, p) && Closes(t, open, q) ensures p == q {
      OneClose(t, open, p, q);
    }
  }

  lemma OneClose(t: string, open: nat, p: nat, q: nat)
    requires open <= |t| && Closes(t, open, p) && Closes(t, open, q)
    ensures p == q
  {
    hide Met, Visits;
  }

  // ------------------------------------------------------------------ raw strings

  predicate AllAre(t: string, a: nat, b: nat, c: char)
    requires a <= b <= |t|
  {
    forall k :: a <= k < b ==> t[k] == c
  }

  lemma {:induction false} HashesAre(t: string, j: nat)
    requires j <= |t|
    ensures AllAre(t, j, HashesEnd(t, j), '#') && (HashesEnd(t, j) < |t| ==> t[HashesEnd(t, j)] != '#')
    decreases |t| - j
  {
    if j < |t| && t[j] == '#' {
      HashesAre(t, j + 1);
    }
  }

  lemma HashesEndIs(t: string, j: nat, e: nat)
    requires j <= e < |t| && AllAre(t, j, e, '#') && t[e] != '#'
    ensures HashesEnd(t, j) == e
  {
    HashesAre(t, j);
  }

  /** `r`, some hashes and a quote open a raw string at `i`; the first quote behind them that the
      same number of hashes follow closes it. */
  ghost predicate RawString(t: string, i: nat, hashes: nat, e: nat)
  {
    var from, close := i + hashes + 2, "\"" + Hashes(hashes);
    && from <= |t| && AllAre(t, i + 1, from - 1, '#') && t[from - 1] == '"'
    && from + |close| <= e && OccursAt(t, close, e - |close|)
    && forall k :: from <= k < e - |close| ==> !OccursAt(t, close, k)
  }

  lemma RawEndIff(t: string, i: nat, e: nat)
    requires i < |t| && t[i] == 'r'
    ensures StringEnd(t, i) == Some(e) <==> exists hashes: nat :: RawString(t, i, hashes, e)
  {
    hide OccursAt;
    HashesAre(t, i + 1);
    var j := HashesEnd(t, i + 1);
    if StringEnd(t, i) == Some(e) {
      assert RawString(t, i, j - i - 1, e);
    }
    if hashes: nat :| RawString(t, i, hashes, e) {
      HashesEndIs(t, i + 1, i + hashes + 1);
      FindIs(t, "\"" + Hashes(hashes), i + hashes + 2, e - hashes - 1);
    }
  }

  // -------------------------------------------------------------- strings with escapes

  predicate IsBlank(c: char) {
    c == ' ' || c == '\t'
  }

  /** The blanks from `a` on end at `b`. */
  predicate BlanksTo(t: string, a: nat, b: nat) {
    a <= b <= |t| && (forall k :: a <= k < b ==> IsBlank(t[k])) && (b < |t| ==> !IsBlank(t[b]))
  }

  lemma {:induction false} BlanksAre(t: string, j: nat)
    requires j <= |t|
    ensures BlanksTo(t, j, SkipBlanks(t, j))
    decreases |t| - j
  {
    if j < |t| && IsBlank(t[j]) {
      BlanksAre(t, j + 1);
    }
  }

  /** The first closing brace from `a` on is just before `b`, or there is none and the text ends. */
  predicate BraceTo(t: string, a: nat, b: nat) {
    && a <= b <= |t|
    && ((a < b && t[b - 1] == '}' && forall k :: a <= k < b - 1 ==> t[k] != '}') ||
        (b == |t| && forall k :: a <= k < b ==> t[k] != '}'))
  }

  lemma {:induction false} BraceIs(t: string, j: nat)
    requires j <= |t|
    ensures BraceTo(t, j, UnicodeEnd(t, j))
    decreases |t| - j
  {
    if j < |t| && t[j] != '}' {
      BraceIs(t, j + 1);
    }
  }

  /** The escape whose backslash is at `a` ends at `b`: a line that goes on loses its indentation,
      `\u` takes all up to a brace, `\x` two more characters, any other character just itself. */
  predicate IsEscape(t: string, a: nat, b: nat)
    requires a + 1 < |t|
  {
    if t[a + 1] == '\n' then BlanksTo(t, a + 2, b)
    else if t[a + 1] == '\r' && a + 2 < |t| && t[a + 2] == '\n' then BlanksTo(t, a + 3, b)
    else if t[a + 1] == 'u' then BraceTo(t, a + 2, b)
    else if t[a + 1] == 'x' then b == (if a + 4 <= |t| then a + 4 else |t|)
    else b == a + 2
  }

  lemma OneEnd(t: string, a: nat, b: nat, e: nat)
    ensures BlanksTo(t, a, b) && BlanksTo(t, a, e) ==> b == e
    ensures BraceTo(t, a, b) && BraceTo(t, a, e) ==> b == e
  {
    hide IsBlank;
  }

  lemma EscapeIff(t: string, a: nat, b: nat)
    requires a + 1 < |t|
    ensures IsEscape(t, a, b) <==> b == EscapeEnd(t, a)
  {
    BlanksAre(t, a + 2);
    if a + 2 < |t| {
      BlanksAre(t, a + 3);
    }
    BraceIs(t, a + 2);
    hide BlanksTo, BraceTo;
    var e := EscapeEnd(t, a);
    OneEnd(t, a + 2, b, e);
    OneEnd(t, a + 3, b, e);
  }

  /** One character of a string, or one escape. */
  predicate IsUnit(t: string, a: nat, b: nat) {
    && a < |t| && t[a] != '"'
    && if t[a] == '\\' then a + 1 < |t| && IsEscape(t, a, b) else b == a + 1
  }

  /** The text from `a` to `b` is whole units: these are their places. */
  predicate Units(t: string, cuts: seq<nat>, a: nat, b: nat) {
    && cuts != [] && cuts[0] == a && cuts[|cuts| - 1] == b
    && forall k :: 0 < k < |cuts| ==> IsUnit(t, cuts[k - 1], cuts[k])
  }

  ghost predicate WholeUnits(t: string, a: nat, b: nat) {
    exists cuts :: Units(t, cuts, a, b)
  }

  lemma {:induction false} RegularUnits(t: string, j: nat) returns (cuts: seq<nat>)
    requires j <= |t| && RegularEnd(t, j).Some?
    ensures Units(t, cuts, j, RegularEnd(t, j).value - 1) && t[RegularEnd(t, j).value - 1] == '"'
    decreases |t| - j
  {
    hide EscapeEnd, IsEscape;
    if t[j] == '"' {
      cuts := [j];
    } else {
      var next := if t[j] == '\\' then EscapeEnd(t, j) else j + 1;
      if t[j] == '\\' {
        EscapeIff(t, j, next);
      }
      var rest := RegularUnits(t, next);
      cuts := [j] + rest;
      forall k | 0 < k < |cuts| ensures IsUnit(t, cuts[k - 1], cuts[k]) {
        assert cuts[k] == rest[k - 1];
        assert k > 1 ==> cuts[k - 1] == rest[k - 2];
      }
    }
  }

  lemma {:induction false} UnitsRegular(t: string, cuts: seq<nat>, j: nat, q: nat)
    requires j <= |t| && Units(t, cuts, j, q) && q < |t| && t[q] == '"'
    ensures RegularEnd(t, j) == Some(q + 1)
    decreases |cuts|
  {
    hide EscapeEnd, IsEscape;
    if |cuts| > 1 {
      var next := cuts[1];
      assert IsUnit(t, cuts[0], cuts[1]);
      if t[j] == '\\' {
        EscapeIff(t, j, next);
      }
      assert forall k :: 0 < k < |cuts[1..]| ==> cuts[1..][k] == cuts[k + 1] && cuts[1..][k - 1] == cuts[k];
      UnitsRegular(t, cuts[1..], next, q);
    }
  }

  /** A string ends at the first quote that stands between its characters and escapes. */
  lemma QuotedEndIff(t: string, i: nat, e: nat)
    requires i < |t| && t[i] != 'r'
    ensures StringEnd(t, i) == Some(e) <==>
            i + 1 < e <= |t| && t[e - 1] == '"' && WholeUnits(t, i + 1, e - 1)
  {
    hide RegularEnd, Units;
    if StringEnd(t, i) == Some(e) {
      var cuts := RegularUnits(t, i + 1);
    }
    if i + 1 < e <= |t| && t[e - 1] == '"' && WholeUnits(t, i + 1, e - 1) {
      var cuts :| Units(t, cuts, i + 1, e - 1);
      UnitsRegular(t, cuts, i + 1, e - 1);
    }
  }

  // ------------------------------------------------------------ character literals

  /** What may stand between the quotes of a character literal. */
  predicate CharBody(body: string) {
    || (|body| == 1 && body[0] != '\\' && body[0] != '\'')
    || (|body| == 2 && body[0] == '\\')
    || (|body| >= 4 && body[0] == '\\' && body[1] == 'u' && body[2] == '{' && body[|body| - 1] == '}' &&
        forall k :: 3 <= k < |body| - 1 ==> body[k] != '}')
  }

  /** A quote opens a character literal exactly when a character or an escape and a quote follow;
      otherwise it is a lifetime's. */
  lemma CharIff(t: string, i: nat, e: nat)
    requires i < |t|
    ensures CharLiteralEnd(t, i) == Some(e) <==> i + 1 < e <= |t| && t[e - 1] == '\'' && CharBody(t[i + 1..e - 1])
  {
    var j := i + 1;
    if j + 2 < |t| && t[j] == '\\' && t[j + 1] == 'u' && t[j + 2] == '{' {
      UnicodeChar(t, i, e);
    } else if i + 1 < e <= |t| {
      var body := t[i + 1..e - 1];
      assert forall k :: 0 <= k < |body| ==> body[k] == t[i + 1 + k];
    }
  }

  lemma UnicodeChar(t: string, i: nat, e: nat)
    requires i + 3 < |t| && t[i + 1] == '\\' && t[i + 2] == 'u' && t[i + 3] == '{'
    ensures CharLiteralEnd(t, i) == Some(e) <==> i + 1 < e <= |t| && t[e - 1] == '\'' && CharBody(t[i + 1..e - 1])
  {
    BraceFound(t, i + 3);
    hide Find, OccursAt;
    var b := Find(t, "}", i + 3);
    if i + 1 < e <= |t| {
      var body := t[i + 1..e - 1];
      BodyBraces(t, i, e);
      if t[e - 1] == '\'' && CharBody(body) {
        assert |body| != 1 && |body| != 2;
        var last: nat := e - 2;
        assert body[|body| - 1] == t[last];
        assert b == last;
      }
    }
  }

  lemma BodyBraces(t: string, i: nat, e: nat)
    requires i + 3 < |t| && t[i + 1] == '\\' && t[i + 2] == 'u' && t[i + 3] == '{' && i + 1 < e <= |t|
    ensures var body := t[i + 1..e - 1];
      CharBody(body) <==> (|body| == 2 && e == i + 4) || (|body| >= 4 && t[e - 2] == '}' && forall k :: i + 3 < k < e - 2 ==> t[k] != '}')
  {
    var body := t[i + 1..e - 1];
    assert forall k :: 0 <= k < |body| ==> body[k] == t[i + 1 + k];
    assert forall k :: i + 1 <= k < e - 1 ==> t[k] == body[k - i - 1];
  }

  lemma BraceFound(t: string, from: nat)
    requires from <= |t|
    ensures var b := Find(t, "}", from);
      && (b >= 0 ==> from <= b < |t| && t[b] == '}' && forall k :: from <= k < b ==> t[k] != '}')
      && (b < 0 ==> forall k :: from <= k < |t| ==> t[k] != '}')
  {
    var b := Find(t, "}", from);
    forall k | 0 <= k < |t| ensures OccursAt(t, "}", k) <==> t[k] == '}' {
      OccursChars(t, "}", k);
      assert t[k..k + 1] == [t[k]];
    }
    if b >= 0 {
      OccursBounds(t, "}", b);
    }
    hide OccursAt;
  }

  // ------------------------------------------------- what stands at a position

  /** The line that the comment at `j` is on ends at `e`, its line feed included. */
  predicate LineTo(t: string, j: nat, e: nat) {
    j < e <= |t| && (forall k :: j <= k < e - 1 ==> t[k] != '\n') && (t[e - 1] == '\n' || e == |t|)
  }

  /** The first `*`+`/` from `from` on ends at `e`, or there is none and the text does. */
  predicate BlockTo(t: string, from: nat, e: nat) {
    || (from + 2 <= e <= |t| && OccursAt(t, "*/", e - 2) && forall k :: from <= k < e - 2 ==> !OccursAt(t, "*/", k))
    || (e == |t| && forall k :: from <= k < |t| ==> !OccursAt(t, "*/", k))
  }

  lemma LineEnd(t: string, j: nat, e: nat)
    requires j < |t|
    ensures LineTo(t, j, e) <==> e == Eol(t, j)
  {
    EolIs(t, j);
    hide Eol;
    var n := Eol(t, j);
  }

  lemma BlockEnd(t: string, from: nat, e: nat)
    requires from <= |t|
    ensures BlockTo(t, from, e) <==> e == var at := Find(t, "*/", from); if at < 0 then |t| else at + 2
  {
    var at := Find(t, "*/", from);
    if at >= 0 {
      OccursBounds(t, "*/", at);
    }
    hide OccursAt;
    forall k | OccursAt(t, "*/", k) ensures k + 2 <= |t| {
      OccursBounds(t, "*/", k);
    }
    if BlockTo(t, from, e) && at >= 0 {
      assert OccursAt(t, "*/", at);
    }
  }

  /** What stands at a position: a character literal, else a string, else a comment to the end of
      its line or to its first closing mark, else a plain character. */
  lemma LexIff(t: string, j: nat, e: nat)
    requires j < |t|
    ensures LexAt(t, j) == Character(e) <==> t[j] == '\'' && CharLiteralEnd(t, j) == Some(e)
    ensures LexAt(t, j) == Literal(e) <==>
              (t[j] == '"' || (t[j] == 'r' && j + 1 < |t| && (t[j + 1] == '"' || t[j + 1] == '#'))) && StringEnd(t, j) == Some(e)
    ensures LexAt(t, j) == Comment(e) <==>
              j + 1 < |t| && t[j] == '/' && ((t[j + 1] == '/' && LineTo(t, j, e)) || (t[j + 1] == '*' && BlockTo(t, j + 2, e)))
  {
    LineEnd(t, j, e);
    if j + 1 < |t| {
      BlockEnd(t, j + 2, e);
    }
    hide CharLiteralEnd, StringEnd, Eol, LineTo, BlockTo;
  }
}
