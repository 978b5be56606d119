/** The string operations the scripts take from Python's `str`, with the facts about
    them that the rest of the project uses. */
module Text {

  datatype Option<+T> = None | Some(value: T)

  lemma SubsetSize<T>(a: set<T>, b: set<T>)
    requires a <= b
    ensures |a| <= |b|
  {
    assert b == a + (b - a);
  }

  // ---------------------------------------------------------------- searching

  predicate OccursAt(t: string, p: string, i: int) {
    0 <= i && i + |p| <= |t| && t[i..i + |p|] == p
  }

  lemma OccursChars(t: string, p: string, at: int)
    ensures OccursAt(t, p, at) ==> forall j :: 0 <= j < |p| ==> t[at + j] == p[j]
  {
    if OccursAt(t, p, at) {
      forall j | 0 <= j < |p| ensures t[at + j] == p[j] {
        assert t[at..at + |p|][j] == t[at + j];
      }
    }
  }

  predicate Contains(t: string, p: string) {
    Find(t, p, 0) >= 0
  }

  /** `t.find(p, from)`: the first occurrence at or after `from`, or -1. */
  function Find(t: string, p: string, from: nat): (at: int)
    ensures at == -1 || (from <= at && OccursAt(t, p, at))
    ensures forall k :: from <= k && OccursAt(t, p, k) ==> 0 <= at <= k
    decreases |t| - from
  {
    if from + |p| > |t| then -1
    else if t[from..from + |p|] == p then from
    else Find(t, p, from + 1)
  }

  lemma ContainsFits(t: string, p: string)
    ensures Contains(t, p) ==> |p| <= |t|
  {
  }

  lemma FindIs(t: string, p: string, from: nat, at: nat)
    requires from <= at && OccursAt(t, p, at)
    requires forall k :: from <= k < at ==> !OccursAt(t, p, k)
    ensures Find(t, p, from) == at
  {
  }

  /** `t.count(p)`: occurrences met left to right without overlap. */
  function Count(t: string, p: string): nat
    requires p != ""
  {
    if |t| < |p| then 0
    else if t[..|p|] == p then 1 + Count(t[|p|..], p)
    else Count(t[1..], p)
  }

  lemma OccursInTail(t: string, p: string, a: nat, i: int)
    requires a <= |t| && 0 <= i
    ensures OccursAt(t[a..], p, i) <==> OccursAt(t, p, a + i)
  {
    if a + i + |p| <= |t| {
      assert t[a..][i..i + |p|] == t[a + i..a + i + |p|];
    }
  }

  lemma OccursInPart(t: string, p: string, a: nat, b: nat, i: int)
    requires a <= b <= |t| && a <= i && i + |p| <= b
    ensures OccursAt(t[a..b], p, i - a) <==> OccursAt(t, p, i)
  {
    var part := t[a..b][i - a..i - a + |p|];
    assert forall j :: 0 <= j < |p| ==> part[j] == t[i..i + |p|][j];
    assert part == t[i..i + |p|];
  }

  lemma ContainsSlice(t: string, p: string, a: nat, b: nat)
    requires a <= b <= |t|
    ensures Contains(t[a..b], p) ==> Contains(t, p)
  {
    hide OccursAt;
    var at := Find(t[a..b], p, 0);
    if at >= 0 {
      OccursBounds(t[a..b], p, at);
      OccursInPart(t, p, a, b, a + at);
    }
  }

  lemma OccursBounds(t: string, p: string, at: int)
    requires OccursAt(t, p, at)
    ensures 0 <= at && at + |p| <= |t|
  {
  }

  // ------------------------------------------------------------------ joining

  function Concat(parts: seq<string>): string {
    if parts == [] then "" else parts[0] + Concat(parts[1..])
  }

  /** `sep.join(parts)` */
  function Join(parts: seq<string>, sep: string): string {
    if parts == [] then ""
    else if |parts| == 1 then parts[0]
    else parts[0] + sep + Join(parts[1..], sep)
  }

  lemma {:induction false} ConcatAppend(a: seq<string>, b: seq<string>)
    ensures Concat(a + b) == Concat(a) + Concat(b)
  {
    if a == [] {
      assert a + b == b;
    } else {
      ConcatAppend(a[1..], b);
      assert (a + b)[0] == a[0] && (a + b)[1..] == a[1..] + b;
      assert a[0] + (Concat(a[1..]) + Concat(b)) == (a[0] + Concat(a[1..])) + Concat(b);
    }
  }

  // --------------------------------------------------------------- whitespace

  /** The characters `str.isspace` accepts, which are the ones `str.strip` removes. */
  predicate IsSpace(c: char) {
    '\t' <= c <= '\r' || '\U{1C}' <= c <= ' ' || c == '\U{85}' || c == '\U{A0}' ||
    c == '\U{1680}' || '\U{2000}' <= c <= '\U{200A}' || c == '\U{2028}' || c == '\U{2029}' ||
    c == '\U{202F}' || c == '\U{205F}' || c == '\U{3000}'
  }

  function LStrip(t: string): (r: string)
    ensures r == "" || !IsSpace(r[0])
    ensures |r| <= |t| && t[|t| - |r|..] == r
    ensures forall k :: 0 <= k < |t| - |r| ==> IsSpace(t[k])
  {
    if t != "" && IsSpace(t[0]) then LStrip(t[1..]) else t
  }

  function RStrip(t: string): (r: string)
    ensures r == "" || !IsSpace(r[|r| - 1])
    ensures r <= t
    ensures forall k :: |r| <= k < |t| ==> IsSpace(t[k])
  {
    if t != "" && IsSpace(t[|t| - 1]) then RStrip(t[..|t| - 1]) else t
  }

  /** `t.strip()` */
  function Strip(t: string): (r: string)
    ensures r == "" || (!IsSpace(r[0]) && !IsSpace(r[|r| - 1]))
    ensures r == "" <==> forall c <- t :: IsSpace(c)
    ensures forall c <- r :: c in t
  {
    var left := LStrip(t);
    assert forall k :: 0 <= k < |left| ==> left[k] == t[|t| - |left| + k];
    RStrip(left)
  }

  predicate IsStripped(t: string) {
    t == "" || (!IsSpace(t[0]) && !IsSpace(t[|t| - 1]))
  }

  lemma StripOfStripped(t: string)
    requires IsStripped(t)
    ensures Strip(t) == t
  {
  }

  // ---------------------------------------------------------- decimal numbers

  predicate IsDigit(c: char) {
    '0' <= c <= '9'
  }

  predicate AllDigits(s: string) {
    forall k :: 0 <= k < |s| ==> IsDigit(s[k])
  }

  /** `str(n)` for a natural number */
  function Decimal(n: nat): (s: string)
    ensures s != "" && AllDigits(s)
  {
    if n < 10 then ['0' + n as char] else Decimal(n / 10) + ['0' + (n % 10) as char]
  }

  /** `int(s)` for a run of ASCII digits */
  function Number(s: string): nat
    requires AllDigits(s)
  {
    if s == "" then 0
    else 10 * Number(s[..|s| - 1]) + (s[|s| - 1] - '0') as nat
  }

  lemma {:induction false} NumberOfDecimal(n: nat)
    ensures Number(Decimal(n)) == n
  {
    if n >= 10 {
      NumberOfDecimal(n / 10);
      var s := Decimal(n);
      assert s[..|s| - 1] == Decimal(n / 10);
    } else {
      var s := Decimal(n);
      assert s[..0] == "";
    }
  }

  // ---------------------------------------------------------------- splitting

  predicate Lacks(s: string, c: char) {
    forall k :: 0 <= k < |s| ==> s[k] != c
  }

  /** Index of the first `c` at or after the start, or |s|. */
  function IndexOfChar(s: string, c: char): (k: nat)
    ensures k <= |s| && Lacks(s[..k], c)
    ensures k < |s| ==> s[k] == c
  {
    if s == "" || s[0] == c then 0 else 1 + IndexOfChar(s[1..], c)
  }

  /** `s.split(c)` for a one-character separator */
  function Split(s: string, c: char): (parts: seq<string>)
    ensures parts != []
    ensures forall p <- parts :: Lacks(p, c)
    decreases |s|
  {
    var k := IndexOfChar(s, c);
    if k == |s| then [s] else [s[..k]] + Split(s[k + 1..], c)
  }

  lemma IndexOfCharIs(a: string, c: char, rest: string)
    requires Lacks(a, c)
    requires rest == "" || rest[0] == c
    ensures IndexOfChar(a + rest, c) == |a|
  {
    if a == "" {
      assert a + rest == rest;
    } else {
      assert (a + rest)[1..] == a[1..] + rest;
      IndexOfCharIs(a[1..], c, rest);
    }
  }

  lemma SplitFirst(a: string, c: char, rest: string)
    requires Lacks(a, c)
    ensures Split(a + [c] + rest, c) == [a] + Split(rest, c)
  {
    IndexOfCharIs(a, c, [c] + rest);
    assert a + [c] + rest == a + ([c] + rest);
    assert (a + ([c] + rest))[|a| + 1..] == rest;
  }

  lemma SplitNone(a: string, c: char)
    requires Lacks(a, c)
    ensures Split(a, c) == [a]
  {
    IndexOfCharIs(a, c, "");
    assert a + "" == a;
  }

  lemma {:induction false} SplitOfJoin(parts: seq<string>, c: char)
    requires parts != [] && forall p <- parts :: Lacks(p, c)
    ensures Split(Join(parts, [c]), c) == parts
  {
    if |parts| == 1 {
      SplitNone(parts[0], c);
    } else {
      SplitOfJoin(parts[1..], c);
      SplitFirst(parts[0], c, Join(parts[1..], [c]));
    }
  }

  /** Index of the last `c`, or -1. */
  function LastIndexOf(s: string, c: char): (k: int)
    ensures -1 <= k < |s|
    ensures k >= 0 ==> s[k] == c
    ensures forall j :: k < j < |s| ==> s[j] != c
  {
    if s == "" then -1
    else if s[|s| - 1] == c then |s| - 1
    else LastIndexOf(s[..|s| - 1], c)
  }

  lemma LastIndexIs(a: string, c: char, b: string)
    requires Lacks(b, c)
    ensures LastIndexOf(a + [c] + b, c) == |a|
  {
    var s := a + [c] + b;
    var k := LastIndexOf(s, c);
    assert s[|a|] == c;
  }
}
