/** What the scan reports, said of the text: the calls it knows, the attributes and braces that
    make a test block, and the one hit of each call (scripts/_user_strings.py:47-74, 321-494). */
module RustReport {
  import opened Text
  import opened RustLexer
  import opened RustForms
  import opened RustScan

  // ------------------------------------------------------------------ the words

  /** Letters, digits and the underscore are word characters, and none of their neighbours. */
  lemma WordBounds()
    ensures forall c <- "azAZ09_" :: IsWordChar(c)
    ensures forall c <- "`{@[/:^- .(" :: !IsWordChar(c)
    ensures forall c :: IsWordChar(c) <==> 'a' <= c <= 'z' || 'A' <= c <= 'Z' || IsDigit(c) || c == '_'
  {
  }

  predicate AllSpaces(s: string) {
    forall k :: 0 <= k < |s| ==> IsSpace(s[k])
  }

  lemma {:induction false} SpaceIs(t: string, j: nat)
    requires j <= |t|
    ensures AllSpaces(t[j..SkipSpace(t, j)]) && (SkipSpace(t, j) < |t| ==> !IsSpace(t[SkipSpace(t, j)]))
    decreases |t| - j
  {
    hide IsSpace;
    if j < |t| && IsSpace(t[j]) {
      SpaceIs(t, j + 1);
      assert t[j..SkipSpace(t, j)] == [t[j]] + t[j + 1..SkipSpace(t, j + 1)];
    }
  }

  lemma {:induction false} SpaceEndsAt(t: string, j: nat, e: nat)
    requires j <= e <= |t| && AllSpaces(t[j..e]) && (e < |t| ==> !IsSpace(t[e]))
    ensures SkipSpace(t, j) == e
    decreases e - j
  {
    hide IsSpace;
    if j < e {
      assert t[j] == t[j..e][0];
      assert t[j + 1..e] == t[j..e][1..];
      SpaceEndsAt(t, j + 1, e);
    }
  }

  /** `part` stands at `i`. */
  predicate Stands(t: string, part: string, i: nat) {
    i + |part| <= |t| && t[i..i + |part|] == part
  }

  lemma StandsIff(t: string, part: string, i: nat)
    ensures Stands(t, part, i) <==> StartsAt(t, part, i)
  {
  }

  /** From `from` on only spaces stand up to `e`. */
  predicate SpacesTo(t: string, from: nat, e: nat) {
    from <= e <= |t| && AllSpaces(t[from..e])
  }

  /** `cfg ( test )`, spaced as one likes, as words of their own: its parts are at these places. */
  predicate CfgTest(a: string, i: nat, open: nat, word: nat, close: nat) {
    && (i == 0 || (i <= |a| && !IsWordChar(a[i - 1]))) && Stands(a, "cfg", i)
    && SpacesTo(a, i + 3, open) && open < |a| && a[open] == '('
    && SpacesTo(a, open + 1, word) && Stands(a, "test", word)
    && SpacesTo(a, word + 4, close) && close < |a| && a[close] == ')'
  }

  lemma NextSolid(t: string, j: nat, e: nat)
    requires j <= |t| && e < |t| && !IsSpace(t[e])
    ensures SpacesTo(t, j, e) <==> SkipSpace(t, j) == e
  {
    hide IsSpace;
    SpaceIs(t, j);
    if SpacesTo(t, j, e) {
      SpaceEndsAt(t, j, e);
    }
  }

  lemma CfgTestIff(attr: string)
    ensures MentionsCfgTest(attr) <==> exists i: nat, open: nat, word: nat, close: nat :: CfgTest(attr, i, open, word, close)
  {
    hide SkipSpace, AllSpaces, IsWordChar, SpacesTo;
    if MentionsCfgTest(attr) {
      var i :| 0 <= i <= |attr| && CfgTestAt(attr, i);
      CfgHere(attr, i);
    }
    if i: nat, open: nat, word: nat, close: nat :| CfgTest(attr, i, open, word, close) {
      CfgThere(attr, i, open, word, close);
    }
  }

  lemma CfgHere(a: string, i: nat)
    requires CfgTestAt(a, i)
    ensures exists open: nat, word: nat, close: nat :: CfgTest(a, i, open, word, close)
  {
    hide SkipSpace, AllSpaces, IsWordChar;
    var p := SkipSpace(a, i + 3);
    var q := SkipSpace(a, p + 1);
    var r := SkipSpace(a, q + 4);
    assert !IsSpace('(') && !IsSpace(')') && !IsSpace('t');
    assert a[q] == a[q..q + 4][0] == 't';
    hide IsSpace;
    NextSolid(a, i + 3, p);
    NextSolid(a, p + 1, q);
    NextSolid(a, q + 4, r);
    assert CfgTest(a, i, p, q, r);
  }

  lemma CfgThere(a: string, i: nat, open: nat, word: nat, close: nat)
    requires CfgTest(a, i, open, word, close)
    ensures i <= |a| && CfgTestAt(a, i)
  {
    hide SkipSpace, AllSpaces, IsWordChar;
    assert !IsSpace('(') && !IsSpace(')') && !IsSpace('t');
    assert a[word] == a[word..word + 4][0] == 't';
    hide IsSpace;
    NextSolid(a, i + 3, open);
    NextSolid(a, open + 1, word);
    NextSolid(a, word + 4, close);
  }

  // ------------------------------------------------------------------ the calls

  const MACROS: set<string> :=
    {"println", "print", "eprintln", "eprint", "write", "writeln", "say",
     "bail", "anyhow", "panic", "unreachable", "todo", "unimplemented"}

  /** The name with its mark stands at `from`, and after it, spaces aside, the parenthesis. */
  predicate Named(t: string, from: nat, name: string, mark: string, open: nat) {
    && Stands(t, name, from) && Stands(t, mark, from + |name|) && SpacesTo(t, from + |name| + |mark|, open)
    && open < |t| && t[open] == '('
  }

  /** The name has nothing that could follow it. */
  predicate Bare(name: string) {
    name != "" && forall k :: 0 <= k < |name| ==> name[k] != '!' && name[k] != '(' && name[k] != ':' && !IsSpace(name[k])
  }

  lemma ParenIsSolid()
    ensures !IsSpace('(')
  {
  }

  lemma NamedIs(t: string, i: nat, name: string, mark: string, open: nat)
    requires Named(t, i, name, mark, open)
    ensures var start := i + |name| + |mark|; start <= |t| && StartsAt(t, name + mark, i) && SkipSpace(t, start) == open < |t| && t[open] == '('
  {
    hide SkipSpace, AllSpaces, IsSpace, Stands, StartsAt, SpacesTo;
    ParenIsSolid();
    StandsBoth(t, name, mark, i);
    NextSolid(t, i + |name| + |mark|, open);
  }

  lemma IsNamed(t: string, i: nat, name: string, mark: string)
    requires StartsAt(t, name + mark, i)
    ensures var start := i + |name| + |mark|;
      start <= |t| && var open := SkipSpace(t, start); open < |t| && t[open] == '(' ==> Named(t, i, name, mark, open)
  {
    assert !IsSpace('(');
    hide SkipSpace, AllSpaces, IsSpace, Stands, StartsAt, SpacesTo;
    StandsBoth(t, name, mark, i);
    var open := SkipSpace(t, i + |name| + |mark|);
    if open < |t| && t[open] == '(' {
      NextSolid(t, i + |name| + |mark|, open);
    }
  }

  lemma StandsFits(t: string, part: string, i: nat)
    ensures Stands(t, part, i) ==> i + |part| <= |t|
  {
  }

  lemma StandsBoth(t: string, a: string, b: string, i: nat)
    ensures Stands(t, a, i) && Stands(t, b, i + |a|) <==> StartsAt(t, a + b, i)
    ensures StartsAt(t, a + b, i) ==> i + |a| + |b| <= |t|
  {
    if i + |a| + |b| <= |t| {
      var both, n := t[i..i + |a| + |b|], |a|;
      assert both[..n] == t[i..i + n] && both[n..] == t[i + n..i + n + |b|];
      assert (a + b)[..n] == a && (a + b)[n..] == b;
      assert both == both[..n] + both[n..];
    }
  }

  lemma NameInside(t: string, from: nat, name: string, mark: string, open: nat, k: nat)
    requires Named(t, from, name, mark, open) && k < |name|
    ensures from + k < |t| && t[from + k] == name[k]
  {
    hide SpacesTo;
    assert t[from..from + |name|][k] == t[from + k];
  }

  lemma NameEnds(t: string, from: nat, name: string, mark: string, open: nat)
    requires Named(t, from, name, mark, open) && (mark == "!" || mark == "")
    ensures from + |name| < |t| && var c := t[from + |name|]; c == '!' || c == '(' || IsSpace(c)
  {
    var k := from + |name|;
    hide IsSpace;
    if mark == "!" {
      assert t[k] == t[k..k + 1][0];
    } else if k < open {
      assert t[k] == t[k..open][0];
    }
  }

  /** Two bare names cannot both be called at one place. */
  lemma OneName(t: string, from: nat, a: string, b: string, mark: string, o: nat, p: nat)
    requires Bare(a) && (mark == "!" || mark == "")
    requires Named(t, from, a, mark, o) && Named(t, from, b, mark, p)
    ensures |a| <= |b|
  {
    hide IsSpace, Named;
    NameEnds(t, from, b, mark, p);
    if |b| < |a| {
      NameInside(t, from, a, mark, o, |b|);
    }
  }

  lemma SameName(t: string, from: nat, a: string, b: string, mark: string, o: nat, p: nat)
    requires Bare(a) && Bare(b) && (mark == "!" || mark == "")
    requires Named(t, from, a, mark, o) && Named(t, from, b, mark, p)
    ensures a == b && o == p
  {
    hide Bare, IsSpace, SkipSpace;
    OneName(t, from, a, b, mark, o, p);
    OneName(t, from, b, a, mark, p, o);
    NamedIs(t, from, a, mark, o);
    NamedIs(t, from, b, mark, p);
  }

  lemma {:induction false} NamedCallIff(t: string, i: nat, names: seq<string>, mark: string, name: string, open: nat)
    requires i <= |t| && (mark == "!" || mark == "") && forall n <- names :: Bare(n)
    ensures NamedCall(t, i, names, mark) == Some((name, open)) <==> name in names && Named(t, i, name, mark, open)
    decreases |names|
  {
    hide Bare, SkipSpace, Named;
    if names != [] {
      assert names == [names[0]] + names[1..];
      assert names[0] in names && names[0] != "" by {
        NotEmptyName(names[0]);
      }
      NamedCallIff(t, i, names[1..], mark, name, open);
      var start := i + |names[0]| + |mark|;
      if StartsAt(t, names[0] + mark, i) && SkipSpace(t, start) < |t| && t[SkipSpace(t, start)] == '(' {
        IsNamed(t, i, names[0], mark);
        if name in names && Named(t, i, name, mark, open) {
          SameName(t, i, names[0], name, mark, SkipSpace(t, start), open);
        }
      } else if name == names[0] && Named(t, i, name, mark, open) {
        NamedIs(t, i, name, mark, open);
      }
    }
  }

  lemma NotEmptyName(name: string)
    ensures Bare(name) ==> name != ""
  {
  }

  /** A call of a tracked macro, also with its crate's name in front, or of a context method. */
  predicate TrackedCall(t: string, i: nat, name: string, open: nat)
    requires i < |t|
  {
    if t[i] == '.' then name in {"with_context", "context"} && Named(t, i + 1, name, "", open)
    else name in MACROS && (Named(t, i, name, "!", open) || (Stands(t, "anyhow::", i) && Named(t, i + 8, name, "!", open)))
  }

  predicate Lower(name: string) {
    name != "" && forall k :: 0 <= k < |name| ==> 'a' <= name[k] <= 'z' || name[k] == '_'
  }

  lemma LowerIsBare(name: string)
    requires Lower(name)
    ensures Bare(name)
  {
  }

  lemma PrintNames()
    ensures Lower("println") && Lower("print") && Lower("eprintln") && Lower("eprint") && Lower("write") && Lower("writeln")
    ensures Lower("say") && Lower("bail") && Lower("anyhow")
  {
  }

  lemma OtherNames()
    ensures Lower("panic") && Lower("unreachable") && Lower("todo") && Lower("unimplemented")
    ensures Lower("with_context") && Lower("context")
  {
  }

  lemma NamesBare()
    ensures (forall n <- MACRO_NAMES :: Bare(n)) && (forall n <- ["with_context", "context"] :: Bare(n))
    ensures forall n :: n in MACROS <==> n in MACRO_NAMES
  {
    PrintNames();
    OtherNames();
    hide Bare, Lower;
    forall n | n in MACRO_NAMES || n in ["with_context", "context"] ensures Bare(n) {
      LowerIsBare(n);
    }
  }

  /** A name behind the crate's is not called where the crate's stands. */
  lemma NotBoth(t: string, i: nat, name: string, open: nat)
    requires Stands(t, "anyhow::", i) && Bare(name)
    ensures !Named(t, i, name, "!", open)
  {
    hide IsSpace;
    if Named(t, i, name, "!", open) {
      var n := |name|;
      NameEnds(t, i, name, "!", open);
      assert t[i + n] == t[i + n..i + n + 1][0] == '!';
      var there := t[i..i + 8];
      assert there[6] == ':' && there[6] == t[i + 6];
      if n > 6 {
        NameInside(t, i, name, "!", open, 6);
      }
    }
  }

  lemma NoneThere(t: string, i: nat)
    requires i < |t| && Stands(t, "anyhow::", i)
    ensures NamedCall(t, i, MACRO_NAMES, "!") == None
  {
    NamesBare();
    hide Bare, Named, SkipSpace, MACRO_NAMES, MACROS;
    var call := NamedCall(t, i, MACRO_NAMES, "!");
    if call.Some? {
      NamedCallIff(t, i, MACRO_NAMES, "!", call.value.0, call.value.1);
      NotBoth(t, i, call.value.0, call.value.1);
    }
  }

  lemma CallIff(t: string, i: nat, name: string, open: nat)
    requires i < |t|
    ensures CallAt(t, i) == Some((name, open)) <==> TrackedCall(t, i, name, open)
  {
    NamesBare();
    hide Bare, Named, SkipSpace, MACRO_NAMES, MACROS;
    if t[i] == '.' {
      NamedCallIff(t, i + 1, ["with_context", "context"], "", name, open);
    } else {
      NamedCallIff(t, i, MACRO_NAMES, "!", name, open);
      StandsIff(t, "anyhow::", i);
      if Stands(t, "anyhow::", i) {
        NamedCallIff(t, i + 8, MACRO_NAMES, "!", name, open);
        assert !Named(t, i, name, "!", open) || name !in MACRO_NAMES by {
          if name in MACRO_NAMES {
            NotBoth(t, i, name, open);
          }
        }
        NoneThere(t, i);
      }
    }
  }

  // ------------------------------------------------------------------ attributes

  /** Where the walk over an attribute's text goes from `j`: past a literal or a line comment, else
      to the next character. */
  function AttrNext(t: string, j: nat): (n: nat)
    requires j < |t|
    ensures j < n <= |t|
  {
    if t[j] == '\'' && CharLiteralEnd(t, j).Some? then CharLiteralEnd(t, j).value
    else if (t[j] == '"' || t[j] == 'r') && StartsString(t, j) && StringEnd(t, j).Some? then StringEnd(t, j).value
    else if t[j] == '/' && j + 1 < |t| && t[j + 1] == '/' then Eol(t, j)
    else j + 1
  }

  ghost predicate AttrVisits(t: string, a: nat, b: nat)
    requires a <= |t|
    decreases |t| - a
  {
    a == b || (a < |t| && AttrVisits(t, AttrNext(t, a), b))
  }

  /** The attribute's text from `j` on ends at `e`: the first bracket that the walk comes to, or the
      end of the file. */
  ghost predicate AttrTo(t: string, j: nat, e: nat)
    requires j <= |t|
  {
    && j <= e <= |t| && AttrVisits(t, j, e) && (e < |t| ==> t[e] == ']')
    && forall q: nat :: q < e && AttrVisits(t, j, q) ==> t[q] != ']'
  }

  lemma {:induction false} AttrForward(t: string, a: nat, b: nat)
    requires a <= |t| && AttrVisits(t, a, b)
    ensures a <= b <= |t|
    decreases |t| - a
  {
    hide CharLiteralEnd, StringEnd, Eol;
    if a != b {
      AttrForward(t, AttrNext(t, a), b);
    }
  }

  lemma {:induction false} AttrEndIs(t: string, j: nat)
    requires j <= |t|
    ensures AttrTo(t, j, AttrEnd(t, j))
    decreases |t| - j
  {
    hide CharLiteralEnd, StringEnd, Eol, AttrVisits;
    var e := AttrEnd(t, j);
    AttrStep(t, j, e);
    if j < |t| && t[j] != ']' {
      AttrSkips(t, j);
      AttrEndIs(t, AttrNext(t, j));
      forall q: nat | q < e && AttrVisits(t, j, q) ensures t[q] != ']' {
        AttrStep(t, j, q);
      }
    } else {
      forall q: nat ensures AttrVisits(t, j, q) ==> q >= j {
        if AttrVisits(t, j, q) {
          AttrForward(t, j, q);
        }
      }
    }
  }

  lemma AttrStep(t: string, a: nat, b: nat)
    requires a <= |t|
    ensures AttrVisits(t, a, b) <==> a == b || (a < |t| && AttrVisits(t, AttrNext(t, a), b))
  {
    hide AttrNext;
  }

  lemma AttrSkips(t: string, j: nat)
    requires j < |t| && t[j] != ']'
    ensures AttrEnd(t, j) == AttrEnd(t, AttrNext(t, j))
  {
    hide CharLiteralEnd, StringEnd, Eol;
  }

  lemma AttrEndIff(t: string, j: nat, e: nat)
    requires j <= |t|
    ensures AttrTo(t, j, e) <==> e == AttrEnd(t, j)
  {
    hide AttrVisits;
    AttrEndIs(t, j);
    var end := AttrEnd(t, j);
    assert AttrTo(t, j, end) && AttrTo(t, j, e) ==> e == end;
  }

  // ------------------------------------------------------------ what stands where

  /** A type's keyword, a word by itself at its end. */
  predicate TypeWord(t: string, i: nat, e: nat) {
    && ((Stands(t, "struct", i) && e == i + 6) || (Stands(t, "enum", i) && e == i + 4))
    && (e < |t| ==> !IsWordChar(t[e]))
  }

  lemma TypeWordIff(t: string, i: nat, e: nat)
    requires i < |t|
    ensures TypeWord(t, i, e) <==> TypeKeywordEnd(t, i) == Some(e)
  {
    hide IsWordChar;
    TypeWordStarts(t, i);
  }

  lemma TypeWordStarts(t: string, i: nat)
    requires i < |t|
    ensures Stands(t, "struct", i) ==> t[i] == 's'
    ensures Stands(t, "enum", i) ==> t[i] == 'e'
  {
    if Stands(t, "struct", i) {
      assert t[i] == t[i..i + 6][0];
    }
    if Stands(t, "enum", i) {
      assert t[i] == t[i..i + 4][0];
    }
  }

  lemma CallStarts(t: string, i: nat, name: string, open: nat)
    requires i < |t| && TrackedCall(t, i, name, open)
    ensures t[i] == '.' || 'a' <= t[i] <= 'z' || t[i] == '_'
  {
    PrintNames();
    OtherNames();
    hide SpacesTo, Stands, Lower;
    if t[i] != '.' {
      if Named(t, i, name, "!", open) {
        FirstLetter(t, i, name, open);
      } else {
        AnyhowStarts(t, i);
      }
    }
  }

  lemma FirstLetter(t: string, i: nat, name: string, open: nat)
    requires Named(t, i, name, "!", open) && Lower(name) && i < |t|
    ensures 'a' <= t[i] <= 'z' || t[i] == '_'
  {
    hide SpacesTo;
    assert t[i] == t[i..i + |name|][0] == name[0];
  }

  lemma AnyhowStarts(t: string, i: nat)
    requires i < |t| && Stands(t, "anyhow::", i)
    ensures t[i] == 'a'
  {
    assert t[i] == t[i..i + 8][0];
  }

  /** The first match at a position: a literal or comment, an attribute, a brace, a type's keyword,
      a tracked call that is closed, or nothing. */
  lemma TokenIff(t: string, i: nat)
    requires i < |t|
    ensures var k, plain, attr := TokenAt(t, i), LexAt(t, i).Plain?, i + 1 < |t| && t[i] == '#' && t[i + 1] == '[';
      && (forall e: nat :: k == Skip(e) <==> !plain && LexAt(t, i).end == e)
      && (k.Attribute? <==> plain && attr)
      && (k.Attribute? ==> k.end >= 1 && AttrTo(t, i + 2, k.end - 1) && k.text == t[i + 2..k.end - 1])
      && (k == Open <==> t[i] == '{') && (k == Close <==> t[i] == '}')
      && (forall e: nat :: k == TypeKeyword(e) <==> plain && TypeWord(t, i, e))
      && (forall name: string, open: nat, close: nat :: k == Call(name, open, close) <==>
            plain && t[i] != '#' && !k.TypeKeyword? && TrackedCall(t, i, name, open) && Closes(t, open, close))
  {
    hide CharLiteralEnd, StringEnd, Eol, AttrEnd, CallAt, TypeKeywordEnd, CloseFrom, Closes, TrackedCall, TypeWord, AttrTo;
    if i + 2 <= |t| {
      AttrEndIff(t, i + 2, AttrEnd(t, i + 2));
    }
    forall e: nat ensures TypeWord(t, i, e) <==> TypeKeywordEnd(t, i) == Some(e) {
      TypeWordIff(t, i, e);
    }
    KeywordLetter(t, i);
    forall name: string, open: nat
      ensures TrackedCall(t, i, name, open) <==> CallAt(t, i) == Some((name, open))
      ensures TrackedCall(t, i, name, open) ==> t[i] == '.' || 'a' <= t[i] <= 'z' || t[i] == '_'
    {
      CallIff(t, i, name, open);
      if TrackedCall(t, i, name, open) {
        CallStarts(t, i, name, open);
      }
    }
    ClosesAt(t, i);
  }

  lemma KeywordLetter(t: string, i: nat)
    requires i < |t|
    ensures TypeKeywordEnd(t, i).Some? ==> t[i] == 's' || t[i] == 'e'
  {
    TypeWordStarts(t, i);
  }

  lemma ClosesAt(t: string, i: nat)
    requires i < |t|
    ensures CallAt(t, i).Some? ==> var open := CallAt(t, i).value.1;
              && (forall close: nat :: Closes(t, open, close) <==> CloseFrom(t, open, 0) == close)
              && (CloseFrom(t, open, 0) < 0 ==> forall close: nat :: !Closes(t, open, close))
  {
    hide CallAt, Closes, CloseFrom;
    if CallAt(t, i).Some? {
      CloseIff(t, CallAt(t, i).value.1);
    }
  }

  // --------------------------------------------------------------- the scan's way

  /** An attribute that says `cfg(test)` stands at the place. */
  ghost predicate TestAttribute(t: string, i: nat) {
    && i + 1 < |t| && LexAt(t, i).Plain? && t[i] == '#' && t[i + 1] == '['
    && exists e: nat :: AttrAt(t, i, e) && SaysTest(t[i + 2..e])
  }

  /** The attribute that opens at `i` has its bracket at `e`. */
  ghost predicate AttrAt(t: string, i: nat, e: nat) {
    i + 2 <= |t| && AttrTo(t, i + 2, e)
  }

  ghost predicate SaysTest(attr: string) {
    exists i: nat, open: nat, word: nat, close: nat :: CfgTest(attr, i, open, word, close)
  }

  /** A tracked call that is closed stands at the place. */
  ghost predicate Calls(t: string, i: nat, name: string, open: nat, close: nat) {
    && i < |t| && LexAt(t, i).Plain? && t[i] != '#' && (forall e: nat :: !TypeWord(t, i, e))
    && TrackedCall(t, i, name, open) && Closes(t, open, close)
  }

  /** The scan goes from one place to the next: past a literal, a comment, an attribute, a type's
      keyword or a call, and otherwise by one character. */
  ghost predicate GoesTo(t: string, i: nat, n: nat)
    requires i < |t|
  {
    if !LexAt(t, i).Plain? then n == LexAt(t, i).end
    else if i + 1 < |t| && t[i] == '#' && t[i + 1] == '[' then n > 0 && AttrAt(t, i, n - 1)
    else if exists e: nat :: TypeWord(t, i, e) then TypeWord(t, i, n)
    else if exists name, open: nat, close: nat :: Calls(t, i, name, open, close) then
      exists name, open: nat :: CallsUpTo(t, i, name, open, n)
    else n == i + 1
  }

  ghost predicate CallsUpTo(t: string, i: nat, name: string, open: nat, n: nat) {
    n > 0 && Calls(t, i, name, open, n - 1)
  }

  lemma CallsIff(t: string, i: nat, name: string, open: nat, close: nat)
    requires i < |t|
    ensures Calls(t, i, name, open, close) <==> TokenAt(t, i) == Call(name, open, close)
  {
    TokenIff(t, i);
    hide TokenAt, Closes, TrackedCall, TypeWord, LexAt;
    if TokenAt(t, i).TypeKeyword? {
      assert TypeWord(t, i, TokenAt(t, i).end);
    }
  }

  lemma GoesToEnd(t: string, i: nat)
    requires i < |t|
    ensures GoesTo(t, i, TokenEnd(t, i))
  {
    TokenIff(t, i);
    forall name: string, open: nat, close: nat ensures Calls(t, i, name, open, close) <==> TokenAt(t, i) == Call(name, open, close) {
      CallsIff(t, i, name, open, close);
    }
    hide TokenAt, Calls, TypeWord, LexAt, AttrTo, TrackedCall, Closes;
    var k := TokenAt(t, i);
    if k.Call? {
      assert CallsUpTo(t, i, k.kind, k.open, TokenEnd(t, i));
    } else if k.Attribute? {
      assert AttrAt(t, i, k.end - 1);
    }
  }

  lemma TestAttributeIff(t: string, i: nat)
    requires i < |t|
    ensures TestAttribute(t, i) <==> TokenAt(t, i).Attribute? && MentionsCfgTest(TokenAt(t, i).text)
  {
    hide TokenAt, LexAt, AttrTo, MentionsCfgTest, SaysTest, AttrAt, TrackedCall, Closes, TypeWord;
    TokenIff(t, i);
    var k := TokenAt(t, i);
    if k.Attribute? {
      var e: nat := k.end - 1;
      AttrOnly(t, i, e);
      assert AttrAt(t, i, e) && t[i + 2..e] == k.text;
      CfgTestIff(k.text);
      SaysIff(k.text);
    }
  }

  lemma AttrOnly(t: string, i: nat, end: nat)
    requires i + 2 <= |t| && AttrTo(t, i + 2, end)
    ensures end <= |t| && i + 2 <= end && forall e: nat :: AttrAt(t, i, e) <==> e == end
  {
    forall e: nat ensures AttrAt(t, i, e) <==> e == end {
      AttrEndIff(t, i + 2, e);
      AttrEndIff(t, i + 2, end);
    }
    hide AttrVisits;
  }

  lemma SaysIff(attr: string)
    ensures SaysTest(attr) <==> exists i: nat, open: nat, word: nat, close: nat :: CfgTest(attr, i, open, word, close)
  {
  }

  /** The places the scan comes to, from the start of the text to its end. */
  ghost predicate Places(t: string, ps: seq<nat>) {
    && ps != [] && ps[0] == 0 && ps[|ps| - 1] >= |t|
    && forall k :: 0 <= k < |ps| - 1 ==> ps[k] < |t| && GoesTo(t, ps[k], ps[k + 1])
  }

  // ------------------------------------------------------------------ test blocks

  /** Braces opened less braces closed at the places from `o` up to `q`. */
  function Net(t: string, ps: seq<nat>, o: nat, q: nat): int
    requires o <= q < |ps| && forall k :: 0 <= k < |ps| - 1 ==> ps[k] < |t|
    decreases q
  {
    if q == o then 0
    else Net(t, ps, o, q - 1) + (if t[ps[q - 1]] == '{' then 1 else if t[ps[q - 1]] == '}' then -1 else 0)
  }

  /** The place lies in a test block: one was opened before it and is still open. */
  ghost predicate InTest(t: string, ps: seq<nat>, k: nat)
    requires Places(t, ps) && k < |ps|
    decreases k, 1
  {
    exists o: nat :: OpenThrough(t, ps, o, k)
  }

  ghost predicate OpenThrough(t: string, ps: seq<nat>, o: nat, k: nat)
    requires Places(t, ps) && k < |ps|
    decreases k, 0
  {
    o < k && OpensTest(t, ps, o) && forall q: nat :: o < q <= k ==> Net(t, ps, o, q) > 0
  }

  /** A brace opens a test block when it is the first one after a `cfg(test)` attribute, neither of
      the two in such a block already. */
  ghost predicate OpensTest(t: string, ps: seq<nat>, o: nat)
    requires Places(t, ps) && o < |ps|
    decreases o, 3
  {
    o < |ps| - 1 && t[ps[o]] == '{' && Awaited(t, ps, o) && !InTest(t, ps, o)
  }

  ghost predicate Awaited(t: string, ps: seq<nat>, o: nat)
    requires Places(t, ps) && o < |ps|
    decreases o, 2
  {
    exists a: nat :: a < o && TestAttribute(t, ps[a]) && !InTest(t, ps, a) && forall q: nat :: a < q < o ==> t[ps[q]] != '{'
  }

  /** The region the scan is in after the first `k` places. */
  function RegionAt(t: string, ps: seq<nat>, k: nat): Region
    requires k < |ps| && forall j :: 0 <= j < |ps| - 1 ==> ps[j] < |t|
  {
    if k == 0 then Region(false, 0) else StepRegion(TokenAt(t, ps[k - 1]), RegionAt(t, ps, k - 1))
  }

  /** Inside, the depth is the braces still open of the block; outside, a block is pending when an
      attribute awaits its brace. */
  ghost predicate RegionMeans(t: string, ps: seq<nat>, k: nat, r: Region)
    requires Places(t, ps) && k < |ps|
  {
    && (r.depth > 0 <==> InTest(t, ps, k))
    && (forall o: nat :: o < k && OpenThrough(t, ps, o, k) ==> r.depth == Net(t, ps, o, k))
    && (r.pending <==> r.depth == 0 && Awaited(t, ps, k))
  }

  // ---------------------------------------------------------------- step by step

  /** What one place more opens and closes. */
  function Turn(c: char): int {
    if c == '{' then 1 else if c == '}' then -1 else 0
  }

  lemma OneStep(t: string, ps: seq<nat>, k: nat)
    requires Places(t, ps) && k + 1 < |ps|
    ensures RegionAt(t, ps, k + 1) == StepRegion(TokenAt(t, ps[k]), RegionAt(t, ps, k))
    ensures forall o: nat :: o <= k ==> (Net(t, ps, o, k + 1) == Net(t, ps, o, k) + Turn(t[ps[k]]))
    ensures Net(t, ps, k, k) == 0
  {
    hide TokenAt, GoesTo, StepRegion;
  }

  lemma BraceTokens(t: string, i: nat)
    requires i < |t|
    ensures (TokenAt(t, i) == Open <==> t[i] == '{') && (TokenAt(t, i) == Close <==> t[i] == '}')
    ensures TestAttribute(t, i) <==> TokenAt(t, i).Attribute? && MentionsCfgTest(TokenAt(t, i).text)
  {
    hide TokenAt, TestAttribute, MentionsCfgTest, LexAt, AttrTo, TrackedCall, Closes, TypeWord;
    TokenIff(t, i);
    TestAttributeIff(t, i);
  }

  lemma StillOpen(t: string, ps: seq<nat>, o: nat, k: nat)
    requires Places(t, ps) && k + 1 < |ps|
    ensures OpenThrough(t, ps, o, k + 1) <==>
            o <= k && (OpenThrough(t, ps, o, k) || (o == k && OpensTest(t, ps, k))) && Net(t, ps, o, k + 1) > 0
  {
    hide OpensTest, Net, Places;
  }

  lemma NothingAwaited(t: string, ps: seq<nat>, o: nat, k: nat)
    requires Places(t, ps) && k + 1 < |ps| && OpenThrough(t, ps, o, k)
    ensures !Awaited(t, ps, k + 1)
  {
    hide Net, GoesTo, TestAttribute, InTest;
    if Awaited(t, ps, k + 1) {
      var a: nat :| a < k + 1 && TestAttribute(t, ps[a]) && !InTest(t, ps, a) && forall q: nat :: a < q < k + 1 ==> t[ps[q]] != '{';
      if a > o {
        OpenAt(t, ps, o, k, a);
      } else {
        NotABrace(t, ps[a]);
      }
    }
  }

  lemma NotABrace(t: string, i: nat)
    requires TestAttribute(t, i)
    ensures i < |t| && t[i] != '{'
  {
    hide SaysTest, AttrAt;
  }

  lemma OpenAt(t: string, ps: seq<nat>, o: nat, k: nat, a: nat)
    requires Places(t, ps) && k < |ps| && OpenThrough(t, ps, o, k) && o < a <= k
    ensures InTest(t, ps, a)
  {
    hide Net, GoesTo, OpensTest;
    assert OpenThrough(t, ps, o, a);
  }

  lemma Opener(t: string, ps: seq<nat>, k: nat) returns (o: nat)
    requires Places(t, ps) && k < |ps| && InTest(t, ps, k)
    ensures OpenThrough(t, ps, o, k)
  {
    hide GoesTo, Net, OpensTest;
    o :| OpenThrough(t, ps, o, k);
  }

  lemma OpenedIs(t: string, ps: seq<nat>, o: nat, k: nat)
    requires Places(t, ps) && k < |ps| && OpenThrough(t, ps, o, k)
    ensures InTest(t, ps, k)
  {
    hide GoesTo, Net, OpensTest;
  }

  lemma InsideStep(t: string, ps: seq<nat>, k: nat, r: Region)
    requires Places(t, ps) && k + 1 < |ps| && RegionMeans(t, ps, k, r) && r.depth > 0
    ensures RegionMeans(t, ps, k + 1, StepRegion(TokenAt(t, ps[k]), r))
  {
    hide Net, GoesTo, TestAttribute, Awaited, TokenAt, MentionsCfgTest, OpenThrough;
    var o := Opener(t, ps, k);
    OneStep(t, ps, k);
    PlaceInside(t, ps, k);
    BraceTokens(t, ps[k]);
    NothingAwaited(t, ps, o, k);
    OpenBefore(t, ps, o, k);
    forall p: nat | p <= k ensures OpenThrough(t, ps, p, k + 1) <==> OpenThrough(t, ps, p, k) && Net(t, ps, p, k + 1) > 0 {
      StillOpen(t, ps, p, k);
      NotOpenedInside(t, ps, o, k);
    }
    var next := StepRegion(TokenAt(t, ps[k]), r);
    assert next.depth == Net(t, ps, o, k + 1) && !next.pending;
    if next.depth > 0 {
      OpenedIs(t, ps, o, k + 1);
    }
    if InTest(t, ps, k + 1) {
      var p := Opener(t, ps, k + 1);
      OpenBefore(t, ps, p, k + 1);
      OpenBefore(t, ps, p, k);
      assert next.depth > 0;
    }
    var n := k + 1;
    forall p: nat | p < n && OpenThrough(t, ps, p, n) ensures next.depth == Net(t, ps, p, n) {
      StillOpen(t, ps, p, k);
      NotOpenedInside(t, ps, o, k);
      OpenBefore(t, ps, p, k);
    }
    assert next.depth > 0 <==> InTest(t, ps, n);
    assert next.pending <==> next.depth == 0 && Awaited(t, ps, n);
  }

  lemma NotOpenedInside(t: string, ps: seq<nat>, o: nat, k: nat)
    requires Places(t, ps) && k < |ps| && OpenThrough(t, ps, o, k)
    ensures InTest(t, ps, k) && !OpensTest(t, ps, k) && !OpenThrough(t, ps, k, k)
  {
    hide Net, GoesTo, Awaited;
  }

  lemma OpenBefore(t: string, ps: seq<nat>, o: nat, k: nat)
    requires Places(t, ps) && k < |ps| && OpenThrough(t, ps, o, k)
    ensures o < k
  {
  }

  lemma PlaceInside(t: string, ps: seq<nat>, k: nat)
    requires Places(t, ps) && k + 1 < |ps|
    ensures ps[k] < |t|
  {
  }

  /** Outside, a place is awaited next when it was and no brace stands here, or when this place has
      the attribute. */
  lemma AwaitedNext(t: string, ps: seq<nat>, k: nat)
    requires Places(t, ps) && k + 1 < |ps| && !InTest(t, ps, k)
    ensures Awaited(t, ps, k + 1) <==> TestAttribute(t, ps[k]) || (Awaited(t, ps, k) && t[ps[k]] != '{')
  {
    hide GoesTo, TestAttribute, InTest;
    if TestAttribute(t, ps[k]) {
      assert k < k + 1;
    }
  }

  lemma OutsideStep(t: string, ps: seq<nat>, k: nat, r: Region)
    requires Places(t, ps) && k + 1 < |ps| && RegionMeans(t, ps, k, r) && r.depth == 0
    ensures RegionMeans(t, ps, k + 1, StepRegion(TokenAt(t, ps[k]), r))
  {
    hide Net, GoesTo, TestAttribute, Awaited, TokenAt, MentionsCfgTest, OpenThrough;
    var n := k + 1;
    OneStep(t, ps, k);
    PlaceInside(t, ps, k);
    BraceTokens(t, ps[k]);
    AwaitedNext(t, ps, k);
    OpensIff(t, ps, k);
    if TestAttribute(t, ps[k]) {
      NotABrace(t, ps[k]);
    }
    forall p: nat | p < n ensures OpenThrough(t, ps, p, n) <==> p == k && OpensTest(t, ps, k) && Net(t, ps, k, n) > 0 {
      StillOpen(t, ps, p, k);
      if OpenThrough(t, ps, p, k) {
        OpenedIs(t, ps, p, k);
      }
    }
    var next := StepRegion(TokenAt(t, ps[k]), r);
    if next.depth > 0 {
      OpenedIs(t, ps, k, n);
    }
    if InTest(t, ps, n) {
      var p := Opener(t, ps, n);
      OpenBefore(t, ps, p, n);
    }
    assert next.depth > 0 <==> InTest(t, ps, n);
    assert next.pending <==> next.depth == 0 && Awaited(t, ps, n);
  }

  lemma OpensIff(t: string, ps: seq<nat>, k: nat)
    requires Places(t, ps) && k + 1 < |ps|
    ensures OpensTest(t, ps, k) <==> t[ps[k]] == '{' && Awaited(t, ps, k) && !InTest(t, ps, k)
  {
    hide GoesTo, Awaited, InTest;
  }

  lemma StartMeans(t: string, ps: seq<nat>)
    requires Places(t, ps)
    ensures RegionMeans(t, ps, 0, Region(false, 0))
  {
    hide GoesTo, Net, OpensTest, TestAttribute;
    forall o: nat ensures !OpenThrough(t, ps, o, 0) {
    }
  }

  lemma {:induction false} RegionsMean(t: string, ps: seq<nat>, k: nat)
    requires Places(t, ps) && k < |ps|
    ensures RegionMeans(t, ps, k, RegionAt(t, ps, k))
    decreases k
  {
    hide RegionMeans, GoesTo, TokenAt, StepRegion;
    if k == 0 {
      StartMeans(t, ps);
    } else {
      RegionsMean(t, ps, k - 1);
      if RegionAt(t, ps, k - 1).depth > 0 {
        InsideStep(t, ps, k - 1, RegionAt(t, ps, k - 1));
      } else {
        OutsideStep(t, ps, k - 1, RegionAt(t, ps, k - 1));
      }
    }
  }

  // -------------------------------------------------------------------- the report

  /** The first string literal that the walk meets in the call. */
  ghost predicate FirstIn(t: string, open: nat, close: nat, at: nat) {
    && open < at < close <= |t| && Visits(t, open + 1, at) && LexAt(t, at).Literal?
    && forall q: nat :: open < q < at && Visits(t, open + 1, q) ==> !LexAt(t, q).Literal?
  }

  lemma {:induction false} FirstLiteralIs(t: string, from: nat, close: nat)
    requires from <= |t| && close <= |t|
    ensures var at := FirstLiteral(t, from, close);
      && (at.Some? ==> from <= at.value < close && Visits(t, from, at.value) && LexAt(t, at.value).Literal?)
      && (at.Some? ==> forall q: nat :: q < at.value && Visits(t, from, q) ==> !LexAt(t, q).Literal?)
      && (at == None ==> forall q: nat :: q < close && Visits(t, from, q) ==> !LexAt(t, q).Literal?)
    decreases |t| - from
  {
    hide LexAt;
    if from < close && !LexAt(t, from).Literal? {
      FirstLiteralIs(t, Next(t, from), close);
    }
  }

  lemma FirstInIff(t: string, open: nat, close: nat, at: nat)
    requires open < close <= |t|
    ensures FirstIn(t, open, close, at) <==> FirstLiteral(t, open + 1, close) == Some(at)
  {
    hide LexAt, Visits, FirstLiteral;
    FirstLiteralIs(t, open + 1, close);
  }

  /** What the scan reports at a place: a call's first literal; for a call without one, a blank
      print if it is one of the four macros that print; and nothing elsewhere. */
  ghost predicate Reports(t: string, i: nat, inTest: bool, hits: seq<Hit>) {
    && (forall name, open: nat, close: nat, at: nat :: Calls(t, i, name, open, close) && FirstIn(t, open, close, at) ==>
          hits == [Hit(name, i, Some(at), inTest)])
    && (forall name, open: nat, close: nat ::
          Calls(t, i, name, open, close) && (forall at: nat :: !FirstIn(t, open, close, at)) ==>
          hits == if t[i] != '.' && name in {"print", "println", "eprint", "eprintln"} then [Hit(name, i, None, inTest)] else [])
    && ((forall name, open: nat, close: nat :: !Calls(t, i, name, open, close)) ==> hits == [])
  }

  lemma HitsReport(t: string, i: nat, inTest: bool)
    requires i < |t|
    ensures Reports(t, i, inTest, HitsOf(t, i, inTest))
  {
    hide TokenAt, Calls, FirstLiteral, FirstIn;
    forall name: string, open: nat, close: nat ensures Calls(t, i, name, open, close) <==> TokenAt(t, i) == Call(name, open, close) {
      CallsIff(t, i, name, open, close);
    }
    var k := TokenAt(t, i);
    if k.Call? {
      forall at: nat ensures FirstIn(t, k.open, k.close, at) <==> FirstLiteral(t, k.open + 1, k.close) == Some(at) {
        FirstInIff(t, k.open, k.close, at);
      }
    }
  }

  /** The hits place by place, in order. */
  function InOrder(found: seq<seq<Hit>>): seq<Hit> {
    if found == [] then [] else found[0] + InOrder(found[1..])
  }

  /** The places from the `k`th on, and what is found at them. */
  ghost predicate From(t: string, i: nat, r: Region, ps: seq<nat>, found: seq<seq<Hit>>) {
    && |ps| == |found| + 1 && ps[0] == i && ps[|found|] >= |t|
    && (forall k :: 0 <= k < |found| ==> ps[k] < |t| && ps[k + 1] == TokenEnd(t, ps[k]))
    && forall k :: 0 <= k < |found| ==> found[k] == HitsOf(t, ps[k], RegionFrom(t, ps, r, k).depth > 0)
  }

  function RegionFrom(t: string, ps: seq<nat>, r: Region, k: nat): Region
    requires k < |ps| && forall j :: 0 <= j < |ps| - 1 ==> ps[j] < |t|
  {
    if k == 0 then r else StepRegion(TokenAt(t, ps[k - 1]), RegionFrom(t, ps, r, k - 1))
  }

  lemma {:induction false} RegionLater(t: string, ps: seq<nat>, r: Region, k: nat)
    requires 0 < k < |ps| && forall j :: 0 <= j < |ps| - 1 ==> ps[j] < |t|
    ensures RegionFrom(t, ps, r, k) == RegionFrom(t, ps[1..], StepRegion(TokenAt(t, ps[0]), r), k - 1)
    decreases k
  {
    hide TokenAt, StepRegion;
    assert forall j :: 0 <= j < |ps| - 1 ==> ps[1..][j] == ps[j + 1];
    if k > 1 {
      RegionLater(t, ps, r, k - 1);
      assert ps[1..][k - 2] == ps[k - 1];
    } else {
      assert RegionFrom(t, ps, r, 0) == r;
    }
  }

  lemma {:induction false} HitsInOrder(t: string, i: nat, r: Region) returns (ps: seq<nat>, found: seq<seq<Hit>>)
    ensures From(t, i, r, ps, found) && InOrder(found) == HitsFrom(t, i, r)
    decreases |t| - i
  {
    hide TokenAt, StepRegion, HitsOf, TokenEnd;
    if i >= |t| {
      ps, found := [i], [];
    } else {
      var rest, later := HitsInOrder(t, TokenEnd(t, i), StepRegion(TokenAt(t, i), r));
      ps, found := [i] + rest, [HitsOf(t, i, r.depth > 0)] + later;
      assert found[1..] == later && ps[1..] == rest;
      forall k | 0 <= k < |found| ensures found[k] == HitsOf(t, ps[k], RegionFrom(t, ps, r, k).depth > 0) {
        if k > 0 {
          RegionLater(t, ps, r, k);
        }
      }
    }
  }

  /** The scan reports, in order, what the call at each of its places gives, and says of each
      whether it lies in a test block. */
  lemma ScanReports(t: string) returns (ps: seq<nat>, found: seq<seq<Hit>>)
    ensures HitsFrom(t, 0, Region(false, 0)) == InOrder(found)
    ensures Places(t, ps) && |ps| == |found| + 1
    ensures forall k :: 0 <= k < |found| ==> Reports(t, ps[k], InTest(t, ps, k), found[k])
  {
    hide TokenAt, StepRegion, HitsOf, TokenEnd, GoesTo, Reports, InTest;
    ps, found := HitsInOrder(t, 0, Region(false, 0));
    forall k | 0 <= k < |found| ensures GoesTo(t, ps[k], ps[k + 1]) {
      GoesToEnd(t, ps[k]);
    }
    forall k | 0 <= k < |found| ensures Reports(t, ps[k], InTest(t, ps, k), found[k]) {
      RegionsMean(t, ps, k);
      SameRegion(t, ps, k);
      HitsReport(t, ps[k], InTest(t, ps, k));
    }
  }

  lemma {:induction false} SameRegion(t: string, ps: seq<nat>, k: nat)
    requires k < |ps| && forall j :: 0 <= j < |ps| - 1 ==> ps[j] < |t|
    ensures RegionAt(t, ps, k) == RegionFrom(t, ps, Region(false, 0), k)
    decreases k
  {
    hide TokenAt, StepRegion;
    if k > 0 {
      SameRegion(t, ps, k - 1);
    }
  }
}
