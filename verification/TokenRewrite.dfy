/** Finding whole citation tokens in a line and replacing them left to right
    (scripts/relocate-citations.py:810-866). */
module TokenRewrite {
  import opened Text
  import opened Citations

  datatype Replacement = Replacement(token: string, text: string)

  /** `token` stands at `at` with no path character on either side. */
  predicate WholeAt(line: string, token: string, at: int) {
    && OccursAt(line, token, at)
    && !(at > 0 && IsPathChar(line[at - 1]))
    && !(at + |token| < |line| && IsPathChar(line[at + |token|]))
  }

  /** The first whole occurrence at or after `pos`, or -1. */
  function TokenFrom(line: string, token: string, pos: nat): (at: int)
    ensures at == -1 || (pos <= at && at + |token| <= |line| && WholeAt(line, token, at))
    ensures forall k :: pos <= k && WholeAt(line, token, k) ==> 0 <= at <= k
    decreases |line| - pos
  {
    var at := Find(line, token, pos);
    if at < 0 || WholeAt(line, token, at) then at
    else TokenFrom(line, token, at + 1)
  }

  method FindToken(line: string, token: string, pos: nat) returns (at: int)
    ensures at == TokenFrom(line, token, pos)
  {
    hide TokenFrom;
    at := Find(line, token, pos);
    ghost var from := pos;
    while at >= 0
      invariant pos <= from && at == Find(line, token, from)
      invariant TokenFrom(line, token, from) == TokenFrom(line, token, pos)
      decreases |line| - from
    {
      var before := at > 0 && IsPathChar(line[at - 1]);
      var end := at + |token|;
      var after := end < |line| && IsPathChar(line[end]);
      TokenStep(line, token, from);
      if !before && !after {
        return;
      }
      from := at + 1;
      at := Find(line, token, at + 1);
    }
    TokenStep(line, token, from);
  }

  lemma TokenStep(line: string, token: string, from: nat)
    ensures var at := Find(line, token, from);
            TokenFrom(line, token, from) == if at < 0 || WholeAt(line, token, at) then at else TokenFrom(line, token, at + 1)
  {
  }

  /** Where each token is taken: ordered, not overlapping, each a whole occurrence. */
  predicate Placement(line: string, reps: seq<Replacement>, pos: nat, at: seq<nat>)
    decreases |reps|
  {
    if reps == [] then at == []
    else
      && at != [] && pos <= at[0] && WholeAt(line, reps[0].token, at[0])
      && Placement(line, reps[1..], at[0] + |reps[0].token|, at[1..])
  }

  /** The line with the text between placements copied and each token replaced. */
  function Spliced(line: string, reps: seq<Replacement>, pos: nat, at: seq<nat>): string
    requires pos <= |line| && Placement(line, reps, pos, at)
    decreases |reps|
  {
    if reps == [] then line[pos..]
    else line[pos..at[0]] + reps[0].text + Spliced(line, reps[1..], at[0] + |reps[0].token|, at[1..])
  }

  /** Each token taken at its first whole occurrence after the one before it. */
  function Greedy(line: string, reps: seq<Replacement>, pos: nat): (at: Option<seq<nat>>)
    ensures at.Some? ==> Placement(line, reps, pos, at.value)
    decreases |reps|
  {
    if reps == [] then Some([])
    else
      var first := TokenFrom(line, reps[0].token, pos);
      if first < 0 then None
      else match Greedy(line, reps[1..], first + |reps[0].token|)
        case None => None
        case Some(rest) => Some([first] + rest)
  }

  function Rewritten(line: string, reps: seq<Replacement>): Option<string> {
    match Greedy(line, reps, 0)
    case None => None
    case Some(at) => Some(Spliced(line, reps, 0, at))
  }

  function RewrittenFrom(line: string, reps: seq<Replacement>, pos: nat): Option<string>
    requires pos <= |line|
  {
    match Greedy(line, reps, pos)
    case None => None
    case Some(at) => Some(Spliced(line, reps, pos, at))
  }

  function Prefixed(out: string, r: Option<string>): Option<string> {
    if r.Some? then Some(out + r.value) else None
  }

  lemma PrefixedTwice(a: string, b: string, r: Option<string>)
    ensures Prefixed(a, Prefixed(b, r)) == Prefixed(a + b, r) && Prefixed("", r) == r
  {
    if r.Some? {
      assert a + (b + r.value) == a + b + r.value && "" + r.value == r.value;
    }
  }

  lemma RewrittenStep(line: string, reps: seq<Replacement>, pos: nat)
    requires pos <= |line| && reps != []
    ensures var at := TokenFrom(line, reps[0].token, pos);
            RewrittenFrom(line, reps, pos) ==
              if at < 0 then None
              else Prefixed(line[pos..at] + reps[0].text, RewrittenFrom(line, reps[1..], at + |reps[0].token|))
  {
    hide TokenFrom, WholeAt;
    var at := TokenFrom(line, reps[0].token, pos);
    if at >= 0 {
      var rest := Greedy(line, reps[1..], at + |reps[0].token|);
      if rest.Some? {
        assert ([at as nat] + rest.value)[1..] == rest.value;
      }
    }
  }

  method RewriteLine(line: string, reps: seq<Replacement>) returns (r: Option<string>)
    ensures r == Rewritten(line, reps)
  {
    hide Greedy, Spliced, WholeAt, TokenFrom;
    var out, pos := "", 0;
    assert reps[0..] == reps;
    PrefixedTwice("", "", RewrittenFrom(line, reps, 0));
    for i := 0 to |reps|
      invariant 0 <= pos <= |line|
      invariant Prefixed(out, RewrittenFrom(line, reps[i..], pos)) == RewrittenFrom(line, reps, 0)
    {
      assert reps[i..][1..] == reps[i + 1..];
      RewrittenStep(line, reps[i..], pos);
      var at := FindToken(line, reps[i].token, pos);
      if at < 0 {
        return None;
      }
      PrefixedTwice(out, line[pos..at] + reps[i].text, RewrittenFrom(line, reps[i + 1..], at + |reps[i].token|));
      out := out + (line[pos..at] + reps[i].text);
      pos := at + |reps[i].token|;
    }
    RewrittenEnd(line, reps[|reps|..], pos);
    return Some(out + line[pos..]);
  }

  lemma RewrittenEnd(line: string, reps: seq<Replacement>, pos: nat)
    requires pos <= |line| && reps == []
    ensures RewrittenFrom(line, reps, pos) == Some(line[pos..])
  {
  }

  // --------------------------------------------------------------- main results

  lemma {:induction false} GreedyIsLeftmost(line: string, reps: seq<Replacement>, pos: nat, pos': nat, at: seq<nat>)
    requires pos <= pos' && Placement(line, reps, pos', at)
    ensures Greedy(line, reps, pos).Some? && |at| == |reps| == |Greedy(line, reps, pos).value|
    ensures forall i :: 0 <= i < |at| ==> Greedy(line, reps, pos).value[i] <= at[i]
    decreases |reps|
  {
    hide WholeAt;
    if reps != [] {
      var first := TokenFrom(line, reps[0].token, pos);
      GreedyIsLeftmost(line, reps[1..], first + |reps[0].token|, at[0] + |reps[0].token|, at[1..]);
    }
  }

  /** Greedy replacement is complete: it fails only when the tokens cannot be placed in order
      at all. When it succeeds the result is the line with ordered, disjoint, whole-token
      occurrences replaced, the leftmost such. */
  lemma RewriteSucceedsIff(line: string, reps: seq<Replacement>)
    ensures Rewritten(line, reps).Some? <==> exists at :: Placement(line, reps, 0, at)
    ensures Rewritten(line, reps).Some? ==>
              exists at :: Placement(line, reps, 0, at) && Rewritten(line, reps).value == Spliced(line, reps, 0, at)
  {
    hide WholeAt;
    if at :| Placement(line, reps, 0, at) {
      GreedyIsLeftmost(line, reps, 0, 0, at);
    }
  }

  /** Everything between the placements is copied: replacing each token by itself gives the
      line back. */
  lemma {:induction false} RestIsUntouched(line: string, reps: seq<Replacement>, pos: nat, at: seq<nat>)
    requires pos <= |line| && Placement(line, reps, pos, at)
    requires forall r <- reps :: r.text == r.token
    ensures Spliced(line, reps, pos, at) == line[pos..]
    decreases |reps|
  {
    if reps != [] {
      var next := at[0] + |reps[0].token|;
      RestIsUntouched(line, reps[1..], next, at[1..]);
      assert line[pos..] == line[pos..at[0]] + line[at[0]..next] + line[next..];
    }
  }

  /** No whole occurrence of a token stands between the end of the one before and its place. */
  predicate NoneEarlier(line: string, reps: seq<Replacement>, pos: nat, at: seq<nat>)
    requires |at| == |reps|
    decreases |reps|
  {
    reps == [] || ((forall k :: pos <= k < at[0] ==> !WholeAt(line, reps[0].token, k)) &&
                   NoneEarlier(line, reps[1..], at[0] + |reps[0].token|, at[1..]))
  }

  lemma {:induction false} PlacementLength(line: string, reps: seq<Replacement>, pos: nat, at: seq<nat>)
    requires Placement(line, reps, pos, at)
    ensures |at| == |reps|
    decreases |reps|
  {
    if reps != [] {
      PlacementLength(line, reps[1..], at[0] + |reps[0].token|, at[1..]);
    }
  }

  /** The tokens replaced are the planned ones iff no identical whole token precedes one of
      them after the token before it. */
  lemma {:induction false} LandsWherePlannedIff(line: string, reps: seq<Replacement>, pos: nat, planned: seq<nat>)
    requires |planned| == |reps| && Placement(line, reps, pos, planned)
    ensures Greedy(line, reps, pos) == Some(planned) <==> NoneEarlier(line, reps, pos, planned)
    decreases |reps|
  {
    hide WholeAt, Placement;
    if reps != [] {
      PlacementHead(line, reps, pos, planned);
      LandsWherePlannedIff(line, reps[1..], planned[0] + |reps[0].token|, planned[1..]);
      GreedyIsLeftmost(line, reps, pos, pos, planned);
      GreedyHead(line, reps, pos, planned);
    }
  }

  lemma PlacementHead(line: string, reps: seq<Replacement>, pos: nat, at: seq<nat>)
    requires reps != [] && Placement(line, reps, pos, at)
    ensures at != [] && pos <= at[0] && WholeAt(line, reps[0].token, at[0])
    ensures Placement(line, reps[1..], at[0] + |reps[0].token|, at[1..])
  {
    hide WholeAt;
  }

  lemma GreedyHead(line: string, reps: seq<Replacement>, pos: nat, at: seq<nat>)
    requires reps != [] && |at| == |reps|
    ensures Greedy(line, reps, pos) == Some(at) <==>
            TokenFrom(line, reps[0].token, pos) == at[0] &&
            Greedy(line, reps[1..], at[0] + |reps[0].token|) == Some(at[1..])
  {
    hide WholeAt, TokenFrom;
    assert at == [at[0]] + at[1..];
    var first := TokenFrom(line, reps[0].token, pos);
    if first >= 0 {
      var rest := Greedy(line, reps[1..], first + |reps[0].token|);
      if rest.Some? {
        assert ([first as nat] + rest.value)[1..] == rest.value;
      }
    }
  }

  /** With two identical tokens on a line, a move meant for the second rewrites the first. */
  lemma FirstOfTwoIsRewritten()
    ensures var line, reps := ":5 :5", [Replacement(":5", ":7")];
            && Placement(line, reps, 0, [3]) && Spliced(line, reps, 0, [3]) == ":5 :7"
            && Rewritten(line, reps) == Some(":7 :5")
  {
    var line, reps := ":5 :5", [Replacement(":5", ":7")];
    assert line[0..2] == ":5" && line[3..5] == ":5";
    assert WholeAt(line, ":5", 0) && WholeAt(line, ":5", 3);
    assert TokenFrom(line, ":5", 0) == 0;
    assert reps[1..] == [];
    assert Greedy(line, [], 2) == Some([]);
    assert Greedy(line, reps, 0) == Some([0] + []);
    assert [0] + [] == [0];
    assert ([0] + [])[1..] == [] && [3][1..] == [];
    assert Spliced(line, reps, 0, [0]) == "" + ":7" + Spliced(line, [], 2, []) == ":7 :5";
  }
}
