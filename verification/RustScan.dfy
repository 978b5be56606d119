/** The scan over a Rust source file: which user-visible literals it reports, and whether each
    lies inside a `#[cfg(test)]` block (scripts/_user_strings.py:36-74, 320-494). */
module RustScan {
  import opened Text
  import opened RustLexer

  // ------------------------------------------------------------ small patterns

  predicate StartsAt(t: string, p: string, i: nat) {
    i + |p| <= |t| && t[i..i + |p|] == p
  }

  function SkipSpace(t: string, j: nat): (e: nat)
    requires j <= |t|
    ensures j <= e <= |t|
    decreases |t| - j
  {
    if j < |t| && IsSpace(t[j]) then SkipSpace(t, j + 1) else j
  }

  predicate IsWordChar(c: char) {
    'a' <= c <= 'z' || 'A' <= c <= 'Z' || '0' <= c <= '9' || c == '_'
  }

  predicate WordStarts(t: string, i: nat) {
    i <= |t| && (i == 0 || !IsWordChar(t[i - 1]))
  }

  predicate WordEnds(t: string, i: nat) {
    i >= |t| || !IsWordChar(t[i])
  }

  /** `\bcfg\s*\(\s*test\s*\)` at `i` */
  predicate CfgTestAt(a: string, i: nat) {
    && WordStarts(a, i) && StartsAt(a, "cfg", i)
    && var p := SkipSpace(a, i + 3);
       && p < |a| && a[p] == '('
       && var q := SkipSpace(a, p + 1);
          && StartsAt(a, "test", q)
          && var r := SkipSpace(a, q + 4);
             r < |a| && a[r] == ')'
  }

  predicate MentionsCfgTest(attr: string) {
    exists i | 0 <= i <= |attr| :: CfgTestAt(attr, i)
  }

  const MACRO_NAMES: seq<string> :=
    ["println", "print", "eprintln", "eprint", "write", "writeln", "say",
     "bail", "anyhow", "panic", "unreachable", "todo", "unimplemented"]

  const PRINT_FAMILY: set<string> := {"println", "print", "eprintln", "eprint"}

  /** `name!\s*\(` for the first listed name at `i`: the name and where its `(` is. */
  function NamedCall(t: string, i: nat, names: seq<string>, bang: string): (r: Option<(string, nat)>)
    requires i <= |t|
    ensures r.Some? ==> i < r.value.1 < |t| && t[r.value.1] == '('
    decreases |names|
  {
    if names == [] then None
    else
      var start := i + |names[0]| + |bang|;
      if names[0] != "" && StartsAt(t, names[0] + bang, i) && SkipSpace(t, start) < |t| && t[SkipSpace(t, start)] == '('
      then Some((names[0], SkipSpace(t, start)))
      else NamedCall(t, i, names[1..], bang)
  }

  /** A tracked macro or method call at `i`: its name and where its `(` is. */
  function CallAt(t: string, i: nat): (r: Option<(string, nat)>)
    requires i < |t|
    ensures r.Some? ==> i < r.value.1 < |t| && t[r.value.1] == '('
  {
    if t[i] == '.' then NamedCall(t, i + 1, ["with_context", "context"], "")
    else if StartsAt(t, "anyhow::", i) && NamedCall(t, i + 8, MACRO_NAMES, "!").Some? then
      NamedCall(t, i + 8, MACRO_NAMES, "!")
    else NamedCall(t, i, MACRO_NAMES, "!")
  }

  function TypeKeywordEnd(t: string, i: nat): (e: Option<nat>)
    requires i < |t|
    ensures e.Some? ==> i < e.value <= |t|
  {
    if StartsAt(t, "struct", i) && WordEnds(t, i + 6) then Some(i + 6)
    else if StartsAt(t, "enum", i) && WordEnds(t, i + 4) then Some(i + 4)
    else None
  }

  // ------------------------------------------------------------------ tokens

  /** The end of the attribute whose text goes on at `j`: its `]`, or the end of the file. */
  function AttrEnd(t: string, j: nat): (e: nat)
    requires j <= |t|
    ensures j <= e <= |t|
    decreases |t| - j
  {
    if j == |t| then j
    else if t[j] == '\'' && CharLiteralEnd(t, j).Some? then AttrEnd(t, CharLiteralEnd(t, j).value)
    else if StartsString(t, j) then AttrEnd(t, if StringEnd(t, j).Some? then StringEnd(t, j).value else j + 1)
    else if t[j] == ']' then j
    else if t[j] == '/' && j + 1 < |t| && t[j + 1] == '/' then AttrEnd(t, Eol(t, j))
    else AttrEnd(t, j + 1)
  }

  /** What the scan does at a position, which depends on the text alone. */
  datatype Token =
    | Skip(end: nat)
    | Attribute(text: string, end: nat)
    | Open
    | Close
    | TypeKeyword(end: nat)
    | Call(kind: string, open: nat, close: nat)
    | Other

  function TokenAt(t: string, i: nat): (k: Token)
    requires i < |t|
    ensures k.Skip? || k.TypeKeyword? ==> i < k.end <= |t|
    ensures k.Attribute? ==> i < k.end
    ensures k.Call? ==> i < k.open < k.close < |t| && t[k.open] == '(' && k.close == CloseFrom(t, k.open, 0)
  {
    if !LexAt(t, i).Plain? then Skip(LexAt(t, i).end)
    else if t[i] == '#' && i + 1 < |t| && t[i + 1] == '[' then
      var e := AttrEnd(t, i + 2);
      Attribute(t[i + 2..e], e + 1)
    else if t[i] == '{' then Open
    else if t[i] == '}' then Close
    else if TypeKeywordEnd(t, i).Some? then TypeKeyword(TypeKeywordEnd(t, i).value)
    else
      var call := CallAt(t, i);
      if call.Some? && CloseFrom(t, call.value.1, 0) >= 0 then
        CloseOfCall(t, call.value.1);
        Call(call.value.0, call.value.1, CloseFrom(t, call.value.1, 0))
      else Other
  }

  function TokenEnd(t: string, i: nat): (e: nat)
    requires i < |t|
    ensures i < e
  {
    match TokenAt(t, i)
    case Skip(e) => e
    case Attribute(_, e) => e
    case TypeKeyword(e) => e
    case Call(_, _, close) => close + 1
    case _ => i + 1
  }

  // --------------------------------------- test regions, by counting braces

  /** Where the scan is relative to a test block: `depth` counts the braces open inside the
      block (0 outside), `pending` says that the next brace outside opens one. */
  datatype Region = Region(pending: bool, depth: nat)

  function StepRegion(k: Token, r: Region): Region {
    match k
    case Attribute(text, _) => if r.depth == 0 && MentionsCfgTest(text) then r.(pending := true) else r
    case Open => if r.depth > 0 then r.(depth := r.depth + 1) else if r.pending then Region(false, 1) else r
    case Close => if r.depth > 0 then r.(depth := r.depth - 1) else r
    case _ => r
  }

  /** A reported literal: the call it belongs to, where the literal stands (None for a blank
      print), and whether the call lies in a test block. */
  datatype Hit = Hit(kind: string, call: nat, at: Option<nat>, inTest: bool)

  /** The hit of a call: its first string literal, or a blank print. */
  function HitsOf(t: string, i: nat, inTest: bool): seq<Hit>
    requires i < |t|
  {
    match TokenAt(t, i)
    case Call(kind, open, close) =>
      var at := FirstLiteral(t, open + 1, close);
      if at.Some? then [Hit(kind, i, at, inTest)]
      else if t[i] != '.' && kind in PRINT_FAMILY then [Hit(kind, i, None, inTest)]
      else []
    case _ => []
  }

  /** The hits from `i` on when the region there is `r`. */
  function HitsFrom(t: string, i: nat, r: Region): seq<Hit>
    decreases |t| - i
  {
    if i >= |t| then []
    else HitsOf(t, i, r.depth > 0) + HitsFrom(t, TokenEnd(t, i), StepRegion(TokenAt(t, i), r))
  }

  // ---------------------------------------------- the scan, with its label stack

  datatype Label = NoLabel | Test

  predicate TestOnStack(stack: seq<Label>) {
    exists k | 0 <= k < |stack| :: stack[k] == Test
  }

  /** The scan's variables. */
  datatype Flags = Flags(inTest: bool, testPending: bool, stack: seq<Label>)

  /** At most one test label is on the stack, as deep as the region counts; while inside, no
      further test block is pending. */
  predicate Tracks(f: Flags, r: Region) {
    && (f.inTest <==> r.depth > 0) && f.testPending == r.pending
    && (r.depth > 0 ==> !f.testPending && r.depth <= |f.stack| && f.stack[|f.stack| - r.depth] == Test)
    && (forall k :: 0 <= k < |f.stack| && f.stack[k] == Test ==> r.depth > 0 && k == |f.stack| - r.depth)
  }

  /** So the flag says exactly whether a test label is on the stack, and there is at most one. */
  lemma TracksMeans(f: Flags, r: Region)
    requires Tracks(f, r)
    ensures f.inTest <==> TestOnStack(f.stack)
    ensures forall j, k :: 0 <= j < |f.stack| && 0 <= k < |f.stack| && f.stack[j] == Test && f.stack[k] == Test ==> j == k
  {
    if r.depth > 0 {
      assert f.stack[|f.stack| - r.depth] == Test;
    }
  }

  /** The effect of one token on the flags and the brace stack. */
  method Advance(k: Token, f: Flags, ghost r: Region) returns (g: Flags)
    requires Tracks(f, r)
    ensures Tracks(g, StepRegion(k, r))
  {
    hide MentionsCfgTest;
    var inTest, testPending, stack := f.inTest, f.testPending, f.stack;
    match k {
      case Attribute(text, _) =>
        if !inTest {
          if MentionsCfgTest(text) {
            testPending := true;
          }
        }
      case Open =>
        var tag := NoLabel;
        if testPending {
          tag := Test;
          testPending := false;
        }
        stack := stack + [tag];
        if tag == Test {
          inTest := true;
        }
      case Close =>
        if stack != [] {
          var tag := stack[|stack| - 1];
          stack := stack[..|stack| - 1];
          if tag == Test {
            inTest := TestOnStack(stack);
          }
        }
      case _ =>
    }
    g := Flags(inTest, testPending, stack);
  }

  /** The scan reports exactly the calls' first literals, each tagged by whether its call
      begins inside a test block, as counting braces from the block's opening tells. */
  method Scan(t: string) returns (hits: seq<Hit>)
    ensures hits == HitsFrom(t, 0, Region(false, 0))
  {
    hide TokenAt, HitsOf, StepRegion, TokenEnd;
    hits := [];
    var f := Flags(false, false, []);
    var i := 0;
    ghost var r := Region(false, 0);
    while i < |t|
      invariant Tracks(f, r)
      invariant hits + HitsFrom(t, i, r) == HitsFrom(t, 0, Region(false, 0))
      decreases |t| - i
    {
      var found := HitsHere(t, i, f.inTest);
      hits := hits + found;
      f := Advance(TokenAt(t, i), f, r);
      r := StepRegion(TokenAt(t, i), r);
      i := TokenEnd(t, i);
    }
  }

  method HitsHere(t: string, i: nat, inTest: bool) returns (hits: seq<Hit>)
    requires i < |t|
    ensures hits == HitsOf(t, i, inTest)
  {
    hide LexAt, FirstLiteral, CloseFrom, TokenAt;
    hits := [];
    match TokenAt(t, i)
    case Call(kind, open, close) =>
      var at, _ := FirstStringLiteral(t, open, close);
      if at.Some? {
        hits := [Hit(kind, i, at, inTest)];
      } else if t[i] != '.' && kind in PRINT_FAMILY {
        hits := [Hit(kind, i, None, inTest)];
      }
    case _ =>
  }
}
