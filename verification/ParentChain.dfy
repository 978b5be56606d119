/** The walk from the current leaf of a supplied message tree
    (scripts/deepseek-response-probe.py:82-123). */
module ParentChain {
  import opened Text

  /** A JSON field as the walk distinguishes it. Finite numbers, whole or not, are compared
      exactly, so they are modelled as reals; `Unusable` is any other type of value. */
  datatype Field = Absent | Null | Number(value: real) | Unusable

  datatype Message = Message(id: Field, parent: Field)

  datatype Finding =
    | Unread              // no usable leaf, a message without a usable id, or a repeated id
    | LeafAbsent
    | Cycle
    | Open
    | NoParentField
    | UnsupportedParent
    | Closed

  type Links = map<real, Field>

  // ------------------------------------------------------------- the id map

  predicate Distinct(messages: seq<Message>) {
    && (forall m <- messages :: m.id.Number?)
    && (forall i, j :: 0 <= i < j < |messages| ==> messages[i].id != messages[j].id)
  }

  /** Each message's parent field under its id. */
  ghost predicate IsLinks(messages: seq<Message>, ids: Links) {
    && (forall m <- messages :: m.id.Number? && m.id.value in ids && ids[m.id.value] == m.parent)
    && (forall x <- ids :: exists m :: m in messages && m.id == Number(x))
  }

  // --------------------------------------------------------------- the orbit

  /** Where the walk is after `k` steps, while it can go on. */
  function Orbit(ids: Links, leaf: real, k: nat): Option<real> {
    if k == 0 then Some(leaf)
    else match Orbit(ids, leaf, k - 1)
      case None => None
      case Some(x) => if x in ids && ids[x].Number? then Some(ids[x].value) else None
  }

  /** The walk comes to a message of the set whose parent field is `f`. */
  ghost predicate Reaches(ids: Links, leaf: real, f: Field) {
    exists k: nat :: ReachesAt(ids, leaf, f, k)
  }

  ghost predicate ReachesAt(ids: Links, leaf: real, f: Field, k: nat) {
    Orbit(ids, leaf, k).Some? && Orbit(ids, leaf, k).value in ids && ids[Orbit(ids, leaf, k).value] == f
  }

  ghost predicate Leaves(ids: Links, leaf: real) {
    exists k: nat :: LeavesAt(ids, leaf, k)
  }

  ghost predicate LeavesAt(ids: Links, leaf: real, k: nat) {
    Orbit(ids, leaf, k).Some? && Orbit(ids, leaf, k).value !in ids
  }

  ghost predicate StaysInside(ids: Links, leaf: real) {
    forall k: nat :: GoesOnAt(ids, leaf, k)
  }

  ghost predicate GoesOnAt(ids: Links, leaf: real, k: nat) {
    Orbit(ids, leaf, k).Some? && Orbit(ids, leaf, k).value in ids && ids[Orbit(ids, leaf, k).value].Number?
  }

  /** What the walk must say, as a fact about the whole orbit. */
  ghost function Fate(ids: Links, leaf: real): Finding {
    if Reaches(ids, leaf, Null) then Closed
    else if Leaves(ids, leaf) then Open
    else if Reaches(ids, leaf, Absent) then NoParentField
    else if Reaches(ids, leaf, Unusable) then UnsupportedParent
    else Cycle
  }

  ghost function FateOf(messages: seq<Message>, leaf: Field, ids: Links): Finding {
    if !leaf.Number? || !Distinct(messages) then Unread
    else if leaf.value !in ids then LeafAbsent
    else Fate(ids, leaf.value)
  }

  // ------------------------------------------------------------ orbit lemmas

  lemma {:induction false} OrbitGoesOn(ids: Links, leaf: real, j: nat, k: nat)
    requires j < k && Orbit(ids, leaf, k).Some?
    ensures GoesOnAt(ids, leaf, j)
    decreases k
  {
    if j < k - 1 {
      OrbitGoesOn(ids, leaf, j, k - 1);
    }
  }

  /** The walk ends in one place at most, so the outcomes exclude one another. */
  lemma StopsOnce(ids: Links, leaf: real, k: nat)
    requires Orbit(ids, leaf, k).Some? && !GoesOnAt(ids, leaf, k)
    ensures forall f, j: nat :: ReachesAt(ids, leaf, f, j) && !f.Number? ==> j == k
    ensures forall j: nat :: LeavesAt(ids, leaf, j) ==> j == k
    ensures !StaysInside(ids, leaf)
  {
    hide Orbit;
    forall j: nat | Orbit(ids, leaf, j).Some? && !GoesOnAt(ids, leaf, j) ensures j == k {
      if j < k {
        OrbitGoesOn(ids, leaf, j, k);
      } else if k < j {
        OrbitGoesOn(ids, leaf, k, j);
      }
    }
  }

  /** A repeated position repeats for ever. */
  lemma {:induction false} OrbitRepeats(ids: Links, leaf: real, i: nat, j: nat, d: nat)
    requires Orbit(ids, leaf, i) == Orbit(ids, leaf, j)
    ensures Orbit(ids, leaf, i + d) == Orbit(ids, leaf, j + d)
  {
    if d > 0 {
      OrbitRepeats(ids, leaf, i, j, d - 1);
    }
  }

  lemma {:induction false} RepeatStays(ids: Links, leaf: real, i: nat, j: nat, k: nat)
    requires i < j && Orbit(ids, leaf, i) == Orbit(ids, leaf, j) && Orbit(ids, leaf, j).Some?
    ensures GoesOnAt(ids, leaf, k)
    decreases k
  {
    if k < j {
      OrbitGoesOn(ids, leaf, k, j);
    } else {
      RepeatStays(ids, leaf, i, j, k - (j - i));
      OrbitRepeats(ids, leaf, i, j, k - j);
    }
  }

  lemma CycleMeansForever(ids: Links, leaf: real, i: nat, j: nat)
    requires i < j && Orbit(ids, leaf, i) == Orbit(ids, leaf, j) && Orbit(ids, leaf, j).Some?
    ensures StaysInside(ids, leaf) && Fate(ids, leaf) == Cycle
  {
    forall k: nat ensures GoesOnAt(ids, leaf, k) {
      RepeatStays(ids, leaf, i, j, k);
    }
    StaysMeansCycle(ids, leaf);
  }

  lemma StaysMeansCycle(ids: Links, leaf: real)
    requires StaysInside(ids, leaf)
    ensures Fate(ids, leaf) == Cycle
  {
    hide Orbit;
    forall k: nat, f: Field | ReachesAt(ids, leaf, f, k) ensures f.Number? {
      assert GoesOnAt(ids, leaf, k);
    }
    forall k: nat ensures !LeavesAt(ids, leaf, k) {
      assert GoesOnAt(ids, leaf, k);
    }
  }

  lemma StopMeans(ids: Links, leaf: real, k: nat)
    requires Orbit(ids, leaf, k).Some? && !GoesOnAt(ids, leaf, k)
    ensures var x := Orbit(ids, leaf, k).value;
            Fate(ids, leaf) ==
              if x !in ids then Open
              else match ids[x]
                case Null => Closed
                case Absent => NoParentField
                case Unusable => UnsupportedParent
                case Number(_) => Cycle
  {
    hide Orbit;
    StopsOnce(ids, leaf, k);
    var x := Orbit(ids, leaf, k).value;
    if x !in ids {
      assert LeavesAt(ids, leaf, k);
    } else {
      assert ReachesAt(ids, leaf, ids[x], k);
    }
  }

  // ----------------------------------------------------------- the walk itself

  method BuildLinks(messages: seq<Message>) returns (distinct: bool, ids: Links)
    ensures distinct <==> Distinct(messages)
    ensures distinct ==> IsLinks(messages, ids)
  {
    ids := map[];
    for i := 0 to |messages|
      invariant Distinct(messages[..i]) && IsLinks(messages[..i], ids)
    {
      var m := messages[i];
      assert messages[..i + 1] == messages[..i] + [m];
      if !m.id.Number? || m.id.value in ids {
        NotDistinct(messages, i, ids);
        return false, ids;
      }
      ids := ids[m.id.value := m.parent];
    }
    assert messages[..|messages|] == messages;
    return true, ids;
  }

  lemma NotDistinct(messages: seq<Message>, i: nat, ids: Links)
    requires i < |messages| && IsLinks(messages[..i], ids)
    requires !messages[i].id.Number? || messages[i].id.value in ids
    ensures !Distinct(messages)
  {
    if messages[i].id.Number? {
      var m :| m in messages[..i] && m.id == Number(messages[i].id.value);
      var j :| 0 <= j < i && messages[..i][j] == m;
      assert messages[j] == m;
    }
  }

  /** The walk's finding is the fate of the orbit, found in at most one step more than there
      are messages. */
  method Analyze(messages: seq<Message>, leaf: Field) returns (finding: Finding, ids: Links, ghost steps: nat)
    ensures Distinct(messages) ==> IsLinks(messages, ids)
    ensures finding == FateOf(messages, leaf, ids)
    ensures steps <= |ids| + 1
  {
    steps := 0;
    var distinct, links := BuildLinks(messages);
    ids := links;
    if !leaf.Number? || !distinct {
      return Unread, ids, 0;
    }
    if leaf.value !in links {
      return LeafAbsent, ids, 0;
    }
    finding, steps := Walk(links, leaf.value);
  }

  method Walk(ids: Links, leaf: real) returns (finding: Finding, ghost steps: nat)
    requires leaf in ids
    ensures finding == Fate(ids, leaf) && steps <= |ids| + 1
  {
    var visited, current := {}, leaf;
    steps := 0;
    hide Fate;
    while true
      invariant visited <= ids.Keys && |visited| == steps && Orbit(ids, leaf, steps) == Some(current)
      invariant forall x <- visited :: exists j: nat :: j < steps && Orbit(ids, leaf, j) == Some(x)
      decreases ids.Keys - visited
    {
      SubsetSize(visited, ids.Keys);
      if current in visited {
        ghost var j: nat :| j < steps && Orbit(ids, leaf, j) == Some(current);
        CycleMeansForever(ids, leaf, j, steps);
        return Cycle, steps + 1;
      }
      if current !in ids {
        StopMeans(ids, leaf, steps);
        return Open, steps + 1;
      }
      if !ids[current].Number? {
        StopMeans(ids, leaf, steps);
      }
      match ids[current] {
        case Absent => return NoParentField, steps + 1;
        case Null => return Closed, steps + 1;
        case Unusable => return UnsupportedParent, steps + 1;
        case Number(parent) =>
          visited := visited + {current};
          current := parent;
          steps := steps + 1;
      }
    }
  }

  // --------------------------------------------------------------- main results

  /** Every walk from a leaf of the set has exactly one fate: closed iff it reaches a null
      parent, open iff it leaves the set, a cycle iff it stays inside with usable links for
      ever, and otherwise it meets a missing or an unusable parent field. */
  lemma Trichotomy(ids: Links, leaf: real)
    requires leaf in ids
    ensures Fate(ids, leaf) == Closed <==> Reaches(ids, leaf, Null)
    ensures Fate(ids, leaf) == Open <==> Leaves(ids, leaf)
    ensures Fate(ids, leaf) == NoParentField <==> Reaches(ids, leaf, Absent)
    ensures Fate(ids, leaf) == UnsupportedParent <==> Reaches(ids, leaf, Unusable)
    ensures Fate(ids, leaf) == Cycle <==> StaysInside(ids, leaf)
  {
    if k: nat :| Orbit(ids, leaf, k).Some? && !GoesOnAt(ids, leaf, k) {
      hide Orbit;
      StopMeans(ids, leaf, k);
      StopsOnce(ids, leaf, k);
      assert Orbit(ids, leaf, k).value in ids ==> ReachesAt(ids, leaf, ids[Orbit(ids, leaf, k).value], k);
    } else {
      forall k: nat ensures GoesOnAt(ids, leaf, k) {
        NeverStops(ids, leaf, k);
      }
      hide Orbit;
      StaysMeansCycle(ids, leaf);
      assert forall k: nat, f: Field :: ReachesAt(ids, leaf, f, k) ==> GoesOnAt(ids, leaf, k) && f.Number?;
      assert forall k: nat :: LeavesAt(ids, leaf, k) ==> !GoesOnAt(ids, leaf, k);
    }
  }

  lemma {:induction false} NeverStops(ids: Links, leaf: real, k: nat)
    requires forall j: nat :: Orbit(ids, leaf, j).Some? ==> GoesOnAt(ids, leaf, j)
    ensures GoesOnAt(ids, leaf, k)
  {
    if k > 0 {
      NeverStops(ids, leaf, k - 1);
      assert Orbit(ids, leaf, k).Some?;
    }
  }

  /** The order of the messages does not matter. */
  lemma OrderIgnored(a: seq<Message>, b: seq<Message>, leaf: Field, idsA: Links, idsB: Links)
    requires multiset(a) == multiset(b)
    requires Distinct(a) ==> IsLinks(a, idsA)
    requires Distinct(b) ==> IsLinks(b, idsB)
    ensures FateOf(a, leaf, idsA) == FateOf(b, leaf, idsB)
  {
    hide Fate;
    if Distinct(a) {
      DistinctPermuted(a, b);
      LinksDetermined(a, b, idsA, idsB);
    }
    if Distinct(b) {
      DistinctPermuted(b, a);
    }
  }

  lemma LinksDetermined(a: seq<Message>, b: seq<Message>, idsA: Links, idsB: Links)
    requires multiset(a) == multiset(b) && IsLinks(a, idsA) && IsLinks(b, idsB)
    ensures idsA == idsB
  {
    SameMembers(a, b);
    forall x | x in idsA ensures x in idsB && idsA[x] == idsB[x] {
      var m :| m in a && m.id == Number(x);
      assert m in b;
    }
    forall x | x in idsB ensures x in idsA {
      var m :| m in b && m.id == Number(x);
      assert m in a;
    }
  }

  lemma SameMembers<T>(a: seq<T>, b: seq<T>)
    requires multiset(a) == multiset(b)
    ensures forall x :: x in a <==> x in b
  {
    forall x ensures x in a <==> x in b {
      assert x in multiset(a) <==> x in multiset(b);
    }
  }

  lemma DistinctPermuted(a: seq<Message>, b: seq<Message>)
    requires multiset(a) == multiset(b) && Distinct(a)
    ensures Distinct(b)
  {
    SameMembers(a, b);
    forall i, j | 0 <= i < j < |b| ensures b[i].id != b[j].id {
      if b[i].id == b[j].id {
        SameIdSameMessage(a, b[i], b[j]);
        Twice(b, i, j);
        Once(a, b[i]);
      }
    }
  }

  lemma SameIdSameMessage(a: seq<Message>, m: Message, n: Message)
    requires Distinct(a) && m in a && n in a && m.id == n.id
    ensures m == n
  {
  }

  lemma Twice(b: seq<Message>, i: nat, j: nat)
    requires i < j < |b| && b[i] == b[j]
    ensures multiset(b)[b[i]] >= 2
  {
    assert b == b[..i] + [b[i]] + b[i + 1..j] + [b[j]] + b[j + 1..];
  }

  lemma {:induction false} Once(a: seq<Message>, m: Message)
    requires Distinct(a)
    ensures multiset(a)[m] <= 1
  {
    if a != [] {
      assert a == [a[0]] + a[1..];
      Once(a[1..], m);
      if a[0] == m {
        assert m !in a[1..];
      }
    }
  }

  // ------------------------------------------------------- chains of messages

  /** Messages from the leaf on, each the one its predecessor names as its parent. */
  ghost predicate Chain(messages: seq<Message>, leaf: real, path: seq<Message>) {
    && path != [] && path[0].id == Number(leaf) && (forall m <- path :: m in messages)
    && forall i :: 0 < i < |path| ==> path[i].id.Number? && path[i].id == path[i - 1].parent
  }

  function Last(path: seq<Message>): Message
    requires path != []
  {
    path[|path| - 1]
  }

  ghost predicate EndsIn(messages: seq<Message>, leaf: real, f: Field) {
    exists path :: Chain(messages, leaf, path) && Last(path).parent == f
  }

  ghost predicate IsThere(messages: seq<Message>, id: Field) {
    exists m :: m in messages && m.id == id
  }

  /** A chain names a parent that is no message of the set. */
  ghost predicate RunsOut(messages: seq<Message>, leaf: real) {
    exists path :: Chain(messages, leaf, path) && Last(path).parent.Number? && !IsThere(messages, Last(path).parent)
  }

  ghost predicate LongerThan(messages: seq<Message>, leaf: real, n: nat) {
    exists path :: Chain(messages, leaf, path) && |path| > n
  }

  lemma {:induction false} ChainAt(messages: seq<Message>, ids: Links, leaf: real, k: nat) returns (path: seq<Message>)
    requires IsLinks(messages, ids) && Orbit(ids, leaf, k).Some? && Orbit(ids, leaf, k).value in ids
    ensures Chain(messages, leaf, path) && |path| == k + 1 && Last(path).id == Number(Orbit(ids, leaf, k).value)
    ensures Last(path).parent == ids[Orbit(ids, leaf, k).value]
  {
    var x := Orbit(ids, leaf, k).value;
    var m :| m in messages && m.id == Number(x);
    if k == 0 {
      path := [m];
    } else {
      path := ChainAt(messages, ids, leaf, k - 1);
      path := path + [m];
    }
  }

  lemma {:induction false} OrbitOf(messages: seq<Message>, ids: Links, leaf: real, path: seq<Message>)
    requires IsLinks(messages, ids) && Chain(messages, leaf, path)
    ensures Last(path).id.Number? && Orbit(ids, leaf, |path| - 1) == Some(Last(path).id.value)
    ensures Last(path).id.value in ids && ids[Last(path).id.value] == Last(path).parent
  {
    assert Last(path) in messages;
    if |path| > 1 {
      var before := path[..|path| - 1];
      assert forall m <- before :: m in path;
      OrbitOf(messages, ids, leaf, before);
    }
  }

  lemma ReachesIff(messages: seq<Message>, ids: Links, leaf: real, f: Field)
    requires IsLinks(messages, ids)
    ensures Reaches(ids, leaf, f) <==> EndsIn(messages, leaf, f)
  {
    hide Orbit, Chain, IsLinks;
    if Reaches(ids, leaf, f) {
      var k: nat :| ReachesAt(ids, leaf, f, k);
      var path := ChainAt(messages, ids, leaf, k);
      NotEmpty(messages, leaf, path);
    }
    forall path | Chain(messages, leaf, path) ensures path != [] {
      NotEmpty(messages, leaf, path);
    }
    if path :| Chain(messages, leaf, path) && Last(path).parent == f {
      OrbitOf(messages, ids, leaf, path);
      assert ReachesAt(ids, leaf, f, |path| - 1);
    }
  }

  lemma NotEmpty(messages: seq<Message>, leaf: real, path: seq<Message>)
    ensures Chain(messages, leaf, path) ==> path != []
  {
  }

  lemma LeavesIff(messages: seq<Message>, ids: Links, leaf: real)
    requires IsLinks(messages, ids) && leaf in ids
    ensures Leaves(ids, leaf) <==> RunsOut(messages, leaf)
  {
    hide Chain;
    if Leaves(ids, leaf) {
      var k: nat :| LeavesAt(ids, leaf, k);
      var path := ChainAt(messages, ids, leaf, k - 1);
      NotEmpty(messages, leaf, path);
    }
    forall path | Chain(messages, leaf, path) ensures path != [] {
      NotEmpty(messages, leaf, path);
    }
    if path :| Chain(messages, leaf, path) && Last(path).parent.Number? && !IsThere(messages, Last(path).parent) {
      OrbitOf(messages, ids, leaf, path);
      assert LeavesAt(ids, leaf, |path|);
    }
  }

  lemma StaysIff(messages: seq<Message>, ids: Links, leaf: real)
    requires IsLinks(messages, ids) && leaf in ids
    ensures StaysInside(ids, leaf) <==> forall n: nat :: LongerThan(messages, leaf, n)
  {
    hide Orbit, Chain, IsLinks;
    if StaysInside(ids, leaf) {
      forall n: nat ensures LongerThan(messages, leaf, n) {
        assert GoesOnAt(ids, leaf, n);
        var path := ChainAt(messages, ids, leaf, n);
      }
    }
    if forall n: nat :: LongerThan(messages, leaf, n) {
      forall k: nat ensures GoesOnAt(ids, leaf, k) {
        assert LongerThan(messages, leaf, k + 1);
        var path :| Chain(messages, leaf, path) && |path| > k + 1;
        OrbitOf(messages, ids, leaf, path);
        OrbitGoesOn(ids, leaf, k, |path| - 1);
      }
    }
  }

  /** The finding, over the messages themselves: unread without usable distinct ids and a usable
      leaf; absent when no message is the leaf; else where the chain of parents ends, or that it
      never does. */
  lemma FindingIff(messages: seq<Message>, leaf: Field, ids: Links)
    requires Distinct(messages) ==> IsLinks(messages, ids)
    ensures var f := FateOf(messages, leaf, ids);
      && (f == Unread <==> !leaf.Number? || (exists m <- messages :: !m.id.Number?)
                           || exists i, j :: 0 <= i < j < |messages| && messages[i].id == messages[j].id)
      && (f == LeafAbsent <==> f != Unread && !IsThere(messages, leaf))
      && (f != Unread && f != LeafAbsent ==>
            && (f == Closed <==> EndsIn(messages, leaf.value, Null))
            && (f == NoParentField <==> EndsIn(messages, leaf.value, Absent))
            && (f == UnsupportedParent <==> EndsIn(messages, leaf.value, Unusable))
            && (f == Open <==> RunsOut(messages, leaf.value))
            && (f == Cycle <==> forall n: nat :: LongerThan(messages, leaf.value, n)))
  {
    hide Fate, Reaches, Leaves, StaysInside, EndsIn, RunsOut, LongerThan;
    if leaf.Number? && Distinct(messages) && leaf.value in ids {
      Trichotomy(ids, leaf.value);
      ReachesIff(messages, ids, leaf.value, Null);
      ReachesIff(messages, ids, leaf.value, Absent);
      ReachesIff(messages, ids, leaf.value, Unusable);
      LeavesIff(messages, ids, leaf.value);
      StaysIff(messages, ids, leaf.value);
    }
    FateIsAWalk(ids, leaf);
  }

  lemma FateIsAWalk(ids: Links, leaf: Field)
    ensures leaf.Number? ==> Fate(ids, leaf.value) != Unread && Fate(ids, leaf.value) != LeafAbsent
  {
    hide Reaches, Leaves;
  }
}
