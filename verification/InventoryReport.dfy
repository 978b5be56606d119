/** The report written from a bounded walk, and the trimming that keeps it small
    (scripts/takeout-format-inventory.py:114-143). */
module InventoryReport {
  import opened Text
  import opened Inventory

  datatype FieldReport = FieldReport(path: string, present: nat, missing: nat, types: map<Kind, nat>, empty: map<Emptiness, nat>)

  datatype ShapeReport = ShapeReport(path: string, types: map<Kind, nat>)

  datatype Report = Report(
    nodesExamined: nat, truncated: bool, unrecognised: nat, fields: seq<FieldReport>, shapes: seq<ShapeReport>)

  const MAX_OUTPUT_BYTES := 24_000
  const KINDS := {KNull, KBoolean, KNumber, KString, KArray, KObject}
  const EMPTINESSES := {ENull, EString, EArray, EObject}

  function KindCounts(counts: multiset<(string, Kind)>, path: string): map<Kind, nat> {
    map k | k in KINDS && (path, k) in counts :: counts[(path, k)]
  }

  function EmptyCounts(counts: multiset<(string, Emptiness)>, path: string): map<Emptiness, nat> {
    map e | e in EMPTINESSES && (path, e) in counts :: counts[(path, e)]
  }

  /** The path of the object a field belongs to, and the field's key: the split at the last dot. */
  function ParentOf(path: string): string {
    var k := LastIndexOf(path, '.');
    if k < 0 then "" else path[..k]
  }

  function NameOf(path: string): string {
    path[LastIndexOf(path, '.') + 1..]
  }

  lemma SplitAtLastDot(p: string, k: string)
    requires Lacks(k, '.')
    ensures ParentOf(FieldPath(p, k)) == p && NameOf(FieldPath(p, k)) == k
  {
    assert FieldPath(p, k) == p + ['.'] + k;
    LastIndexIs(p, '.', k);
    assert FieldPath(p, k)[..|p|] == p && FieldPath(p, k)[|p| + 1..] == k;
  }

  function FieldOf(t: Tally, path: string): FieldReport {
    var visited: int, present: int := t.parents[ParentOf(path)], t.present[(ParentOf(path), NameOf(path))];
    FieldReport(path, t.presence[path], if visited < present then 0 else visited - present,
                KindCounts(t.types, path), EmptyCounts(t.empties, path))
  }

  /** Objects at the field's parent path either have the field or miss it: the difference is
      never negative, so nothing is lost to the cut at zero. */
  lemma PresentPlusMissing(t: Tally, seen: set<string>, safe: set<string>, path: string)
    requires Balanced(t, seen, safe) && DotFree(safe) && path in seen
    ensures FieldOf(t, path).present + FieldOf(t, path).missing == t.parents[ParentOf(path)]
    ensures FieldOf(t, path).present > 0
  {
    var q, k :| k in safe && path == FieldPath(q, k);
    SplitAtLastDot(q, k);
    assert t.present[(q, k)] <= t.parents[q];
    assert t.presence[FieldPath(q, k)] == t.present[(q, k)];
  }

  // ------------------------------------------- what the counts of a whole value mean

  function KindsAt(t: Tally, path: string): nat {
    t.types[(path, KNull)] + t.types[(path, KBoolean)] + t.types[(path, KNumber)] +
    t.types[(path, KString)] + t.types[(path, KArray)] + t.types[(path, KObject)]
  }

  /** The empty states at a path are counted among its kinds: every null is, and no empty
      string, list or object is counted without its kind. */
  predicate EmptyWithinKinds(t: Tally, path: string) {
    && t.empties[(path, ENull)] == t.types[(path, KNull)]
    && t.empties[(path, EString)] <= t.types[(path, KString)]
    && t.empties[(path, EArray)] <= t.types[(path, KArray)]
    && t.empties[(path, EObject)] <= t.types[(path, KObject)]
  }

  /** A whole inventory accounts for every field present by exactly one kind. */
  ghost predicate Accounts(t: Tally, path: string) {
    KindsAt(t, path) == t.presence[path] && EmptyWithinKinds(t, path)
  }

  lemma AccountsAdd(a: Tally, b: Tally, path: string)
    requires Accounts(a, path) && Accounts(b, path)
    ensures Accounts(a.Plus(b), path)
  {
  }

  lemma OneFieldAccounts(p: string, f: Field, safe: set<string>, path: string)
    requires f.key in safe
    ensures Accounts(OneField(p, f.key, safe).Plus(OneFieldValue(FieldPath(p, f.key), f.value)), path)
  {
    hide FieldPath, KindsAt, EmptyWithinKinds, OneField, OneFieldValue;
    var one, value := OneField(p, f.key, safe), OneFieldValue(FieldPath(p, f.key), f.value);
    KindsAdd(one, value, path);
    ValueKinds(FieldPath(p, f.key), f.value, path);
    ValueEmpties(FieldPath(p, f.key), f.value, path);
    PresenceOnly(p, f.key, safe, path);
  }

  lemma KindsAdd(a: Tally, b: Tally, path: string)
    ensures KindsAt(a.Plus(b), path) == KindsAt(a, path) + KindsAt(b, path)
    ensures a.Plus(b).presence[path] == a.presence[path] + b.presence[path]
    ensures EmptyWithinKinds(a, path) && EmptyWithinKinds(b, path) ==> EmptyWithinKinds(a.Plus(b), path)
  {
  }

  lemma ValueKinds(p: string, v: Json, path: string)
    ensures KindsAt(OneFieldValue(p, v), path) == (if path == p then 1 else 0) && OneFieldValue(p, v).presence[path] == 0
  {
  }

  lemma ValueEmpties(p: string, v: Json, path: string)
    ensures EmptyWithinKinds(OneFieldValue(p, v), path)
  {
  }

  lemma PresenceOnly(p: string, key: string, safe: set<string>, path: string)
    requires key in safe
    ensures var one := OneField(p, key, safe);
      KindsAt(one, path) == 0 && EmptyWithinKinds(one, path) && one.presence[path] == if path == FieldPath(p, key) then 1 else 0
  {
    hide FieldPath;
  }

  lemma {:induction false} FullAccounts(v: Json, p: string, safe: set<string>, path: string)
    ensures Accounts(Full(v, p, safe), path)
    decreases v, 1
  {
    hide Accounts, Tally.Plus, OneNode, OneObject;
    NodeAccounts(v, p, path);
    match v {
      case Array(items) =>
        ItemsAccount(items, ItemPath(p), safe, path);
        AccountsAdd(OneNode(v, p), FullItems(items, ItemPath(p), safe), path);
      case Object(fields) =>
        FieldsAccount(fields, p, safe, path);
        AccountsAdd(OneNode(v, p), OneObject(p), path);
        AccountsAdd(OneNode(v, p).Plus(OneObject(p)), FieldsPresent(fields, p, safe).Plus(FullFields(fields, p, safe)), path);
        PlusAssociates(OneNode(v, p).Plus(OneObject(p)), FieldsPresent(fields, p, safe), FullFields(fields, p, safe));
      case _ =>
    }
  }

  lemma NodeAccounts(v: Json, p: string, path: string)
    ensures Accounts(OneNode(v, p), path) && Accounts(OneObject(p), path) && Accounts(NOTHING, path)
  {
  }

  lemma {:induction false} ItemsAccount(items: seq<Json>, p: string, safe: set<string>, path: string)
    ensures Accounts(FullItems(items, p, safe), path)
    decreases items, 0
  {
    hide Accounts, Tally.Plus, Full;
    NodeAccounts(Null, p, path);
    if items != [] {
      FullAccounts(items[0], p, safe, path);
      ItemsAccount(items[1..], p, safe, path);
      AccountsAdd(Full(items[0], p, safe), FullItems(items[1..], p, safe), path);
    }
  }

  lemma {:induction false} FieldsAccount(fields: seq<Field>, p: string, safe: set<string>, path: string)
    ensures Accounts(FieldsPresent(fields, p, safe).Plus(FullFields(fields, p, safe)), path)
    decreases fields, 0
  {
    hide Accounts, Tally.Plus, Full, FieldPath, OneField, OneFieldValue;
    NodeAccounts(Null, p, path);
    if fields == [] {
      PlusAssociates(NOTHING, NOTHING, NOTHING);
    } else {
      var f, rest := fields[0], FieldsPresent(fields[1..], p, safe).Plus(FullFields(fields[1..], p, safe));
      FieldsAccount(fields[1..], p, safe, path);
      if f.key in safe {
        FullAccounts(f.value, FieldPath(p, f.key), safe, path);
        OneFieldAccounts(p, f, safe, path);
        var one := OneField(p, f.key, safe).Plus(OneFieldValue(FieldPath(p, f.key), f.value));
        AccountsAdd(one, Full(f.value, FieldPath(p, f.key), safe), path);
        AccountsAdd(one.Plus(Full(f.value, FieldPath(p, f.key), safe)), rest, path);
        Regroup(OneField(p, f.key, safe), OneFieldValue(FieldPath(p, f.key), f.value), Full(f.value, FieldPath(p, f.key), safe),
                FieldsPresent(fields[1..], p, safe), FullFields(fields[1..], p, safe));
      } else {
        UnrecognisedAccounts(p, f.key, safe, path);
        AccountsAdd(OneField(p, f.key, safe), rest, path);
        PlusAssociates(OneField(p, f.key, safe), FieldsPresent(fields[1..], p, safe), FullFields(fields[1..], p, safe));
      }
    }
  }

  lemma UnrecognisedAccounts(p: string, key: string, safe: set<string>, path: string)
    requires key !in safe
    ensures Accounts(OneField(p, key, safe), path)
  {
  }

  lemma Regroup(a: Tally, b: Tally, c: Tally, d: Tally, e: Tally)
    ensures a.Plus(b).Plus(c).Plus(d.Plus(e)) == a.Plus(d).Plus(b.Plus(c).Plus(e))
  {
  }

  // ------------------------------------------------------------ the report

  predicate HasField(fields: seq<FieldReport>, path: string) {
    exists i :: 0 <= i < |fields| && fields[i].path == path
  }

  predicate HasShape(shapes: seq<ShapeReport>, path: string) {
    exists i :: 0 <= i < |shapes| && shapes[i].path == path
  }

  lemma HasFieldAppend(fields: seq<FieldReport>, f: FieldReport, path: string)
    ensures HasField(fields + [f], path) <==> HasField(fields, path) || f.path == path
  {
    assert (fields + [f])[|fields|] == f;
    if HasField(fields, path) {
      var i :| 0 <= i < |fields| && fields[i].path == path;
      assert (fields + [f])[i].path == path;
    }
  }

  lemma HasShapeAppend(shapes: seq<ShapeReport>, s: ShapeReport, path: string)
    ensures HasShape(shapes + [s], path) <==> HasShape(shapes, path) || s.path == path
  {
    assert (shapes + [s])[|shapes|] == s;
    if HasShape(shapes, path) {
      var i :| 0 <= i < |shapes| && shapes[i].path == path;
      assert (shapes + [s])[i].path == path;
    }
  }

  /** What a report says of a whole document. */
  ghost predicate Exact(r: Report, document: Json, safe: set<string>) {
    var t := Full(document, "$", safe);
    && r.nodesExamined == |t.shapes| && r.unrecognised == t.unsafe
    && (forall p :: p in t.presence <==> HasField(r.fields, p))
    && (forall i :: 0 <= i < |r.fields| ==> r.fields[i] == FieldOf(t, r.fields[i].path))
    && (forall p, k :: (p, k) in t.shapes ==> HasShape(r.shapes, p))
    && (forall i :: 0 <= i < |r.shapes| ==> r.shapes[i].types == KindCounts(t.shapes, r.shapes[i].path))
  }

  /** Take one entry off the end: shapes first, fields once the shapes are gone. */
  function Popped(r: Report): Report {
    if r.shapes != [] then r.(truncated := true, shapes := r.shapes[..|r.shapes| - 1])
    else if r.fields != [] then r.(truncated := true, fields := r.fields[..|r.fields| - 1])
    else r.(truncated := true)
  }

  function PopTimes(r: Report, k: nat): Report {
    if k == 0 then r else Popped(PopTimes(r, k - 1))
  }

  predicate Small(r: Report, size: Report -> nat) {
    size(r) + 1 < MAX_OUTPUT_BYTES
  }

  lemma {:induction false} PoppedKeepsPrefix(r: Report, k: nat)
    requires k <= |r.shapes| + |r.fields|
    ensures var t := PopTimes(r, k);
      && t.nodesExamined == r.nodesExamined && t.unrecognised == r.unrecognised && t.truncated == (r.truncated || k > 0)
      && t.shapes == (if k <= |r.shapes| then r.shapes[..|r.shapes| - k] else [])
      && t.fields == (if k <= |r.shapes| then r.fields else r.fields[..|r.fields| + |r.shapes| - k])
  {
    if k > 0 {
      PoppedKeepsPrefix(r, k - 1);
    }
  }

  /** Trim the report until it fits: the fewest entries go, shapes before fields, and a report
      that is cut says so. An empty report that still does not fit is marked and left. */
  method Trim(r: Report, size: Report -> nat) returns (out: Report)
    ensures exists k: nat ::
      && k <= |r.shapes| + |r.fields|
      && out == PopTimes(r, k).(truncated := r.truncated || !Small(r, size))
      && (forall j: nat :: j < k ==> !Small(PopTimes(r, j), size))
      && (Small(PopTimes(r, k), size) || k == |r.shapes| + |r.fields|)
    ensures !out.truncated ==> out == r
    ensures out.truncated <==> r.truncated || !Small(r, size)
  {
    out := r;
    ghost var k: nat := 0;
    while !Small(out, size)
      invariant k <= |r.shapes| + |r.fields| && out == PopTimes(r, k)
      invariant forall j: nat :: j < k ==> !Small(PopTimes(r, j), size)
      decreases |r.shapes| + |r.fields| - k
    {
      PoppedKeepsPrefix(r, k);
      out := out.(truncated := true);
      if out.shapes != [] {
        out := out.(shapes := out.shapes[..|out.shapes| - 1]);
      } else if out.fields != [] {
        out := out.(fields := out.fields[..|out.fields| - 1]);
      } else {
        assert k == |r.shapes| + |r.fields|;
        assert PopTimes(r, 0) == r;
        break;
      }
      k := k + 1;
    }
    PoppedKeepsPrefix(r, k);
    assert PopTimes(r, 0) == r;
    assert out == PopTimes(r, k).(truncated := r.truncated || !Small(r, size));
  }

  /** One entry per field path seen. */
  method ReportFields(t: Tally, seen: set<string>) returns (fields: seq<FieldReport>)
    ensures |fields| == |seen|
    ensures forall p :: p in seen <==> HasField(fields, p)
    ensures forall i :: 0 <= i < |fields| ==> fields[i] == FieldOf(t, fields[i].path) && fields[i].path in seen
  {
    hide HasField, FieldOf;
    fields := [];
    var rest := seen;
    NoEntries();
    while rest != {}
      invariant rest <= seen && |fields| + |rest| == |seen|
      invariant forall p :: p in seen - rest <==> HasField(fields, p)
      invariant forall i :: 0 <= i < |fields| ==> fields[i] == FieldOf(t, fields[i].path) && fields[i].path in seen
    {
      var p :| p in rest;
      FieldOfPath(t, p);
      forall q ensures HasField(fields + [FieldOf(t, p)], q) <==> HasField(fields, q) || p == q {
        HasFieldAppend(fields, FieldOf(t, p), q);
      }
      fields := fields + [FieldOf(t, p)];
      rest := rest - {p};
    }
    assert seen - rest == seen;
  }

  lemma NoEntries()
    ensures forall p :: !HasField([], p)
    ensures forall p :: !HasShape([], p)
  {
  }

  lemma FieldOfPath(t: Tally, path: string)
    ensures FieldOf(t, path).path == path
  {
  }

  method ReportShapes(t: Tally) returns (shapes: seq<ShapeReport>)
    ensures forall p, k :: (p, k) in t.shapes ==> HasShape(shapes, p)
    ensures forall i :: 0 <= i < |shapes| ==> shapes[i].types == KindCounts(t.shapes, shapes[i].path)
  {
    hide HasShape, KindCounts;
    shapes := [];
    var rest := set s | s in t.shapes :: s.0;
    ghost var all := rest;
    NoEntries();
    while rest != {}
      invariant rest <= all
      invariant forall p :: p in all - rest ==> HasShape(shapes, p)
      invariant forall i :: 0 <= i < |shapes| ==> shapes[i].types == KindCounts(t.shapes, shapes[i].path)
    {
      var p :| p in rest;
      var s := ShapeReport(p, KindCounts(t.shapes, p));
      forall q ensures HasShape(shapes + [s], q) <==> HasShape(shapes, q) || p == q {
        HasShapeAppend(shapes, s, q);
      }
      shapes := shapes + [s];
      rest := rest - {p};
    }
    assert all - rest == all;
    forall p, k | (p, k) in t.shapes ensures HasShape(shapes, p) {
      assert (p, k).0 in all;
    }
  }

  /** The whole inventory. The untrimmed report is marked truncated exactly when the document is
      too deep, has too many field paths or too many nodes, or reaches the node cap with an
      object's field last; one not marked is exact, and no count of one that is marked is too
      high. */
  method TakeInventory(document: Json, safe: set<string>, size: Report -> nat)
    returns (r: Report, ghost tally: Tally, ghost untrimmed: Report)
    requires Decoded(document) && DotFree(safe)
    ensures !r.truncated ==> Exact(r, document, safe) && tally == Full(document, "$", safe)
    ensures untrimmed.truncated <==>
              !(Shallow(document, 0, safe) && Fits(Full(document, "$", safe), EndsInField(document, safe)))
    ensures !untrimmed.truncated ==> Exact(untrimmed, document, safe)
    ensures r.truncated <==> untrimmed.truncated || !Small(untrimmed, size)
    ensures r.nodesExamined <= MAX_NODES && |r.fields| <= MAX_FIELDS && r.nodesExamined <= |Full(document, "$", safe).shapes|
    ensures Reconciled(r, tally) && r.unrecognised == tally.unsafe && AtMost(tally, Full(document, "$", safe))
  {
    hide Full, Fits, Shallow, Tally.Plus, Popped, PopTimes, Small, Balanced, FieldOf, Exact, Decoded, EndsInField, AtMost;
    var w := new Walker(safe);
    NothingBalanced(safe);
    FromNothing(Full(document, "$", safe));
    w.Walk(document, "$", 0);
    UncutFits(w.tally, w.seen, w.nodes, safe, EndsInField(document, safe));
    var fields := ReportFields(w.tally, w.seen);
    var shapes := ReportShapes(w.tally);
    var nodesExamined := if w.nodes <= MAX_NODES then w.nodes else MAX_NODES;
    untrimmed := Report(nodesExamined, w.truncated, w.tally.unsafe, fields, shapes);
    WholeIsExact(untrimmed, w.tally, w.seen, document, safe);
    r := Trim(Report(nodesExamined, w.truncated, w.tally.unsafe, fields, shapes), size);
    ghost var k := Pops(untrimmed, r, size);
    PoppedKeepsPrefix(untrimmed, k);
    tally := w.tally;
    assert FieldsOf(r, tally, w.seen);
    FieldsReconcile(r, tally, w.seen, safe);
  }

  /** Counts with every path seen and no node or path too many fit the caps. */
  lemma UncutFits(t: Tally, seen: set<string>, nodes: nat, safe: set<string>, looks: bool)
    requires Balanced(t, seen, safe) && |seen| <= MAX_FIELDS
    ensures |t.shapes| == nodes <= MAX_NODES && (nodes < MAX_NODES || !looks) ==> Fits(t, looks)
  {
    assert Paths(t) == seen;
  }

  // ------------------------------------------------------- a document at the cap

  function Nulls(n: nat): Json {
    Array(seq(n, _ => Null))
  }

  lemma {:induction false} NullsCounted(items: seq<Json>, path: string, safe: set<string>)
    requires forall i :: 0 <= i < |items| ==> items[i] == Null
    ensures FullItems(items, path, safe).presence == multiset{} && |FullItems(items, path, safe).shapes| == |items|
  {
    if items != [] {
      NullsCounted(items[1..], path, safe);
    }
  }

  /** With exactly as many nodes as the cap allows, a list passes and the same inside an object
      does not: it is marked truncated. */
  lemma CapInsideObject()
    ensures var alone, inside, safe := Nulls(MAX_NODES - 1), Object([Field("a", Nulls(MAX_NODES - 2))]), {"a"};
      && |Full(alone, "$", safe).shapes| == MAX_NODES == |Full(inside, "$", safe).shapes|
      && Shallow(alone, 0, safe) && Shallow(inside, 0, safe)
      && PathsFit(Full(alone, "$", safe)) && PathsFit(Full(inside, "$", safe))
      && Fits(Full(alone, "$", safe), EndsInField(alone, safe)) && !Fits(Full(inside, "$", safe), EndsInField(inside, safe))
  {
    var safe := {"a"};
    NullsAlone(MAX_NODES - 1, "$", safe);
    var f := Field("a", Nulls(MAX_NODES - 2));
    NullsAlone(MAX_NODES - 2, FieldPath("$", "a"), safe);
    OneInside(f, safe);
    assert f in [f];
  }

  lemma NullsAlone(n: nat, path: string, safe: set<string>)
    ensures var t := Full(Nulls(n), path, safe); t.presence == multiset{} && |t.shapes| == n + 1 && PathsFit(t)
    ensures Shallow(Nulls(n), 0, safe) && Shallow(Nulls(n), 1, safe) && !EndsInField(Nulls(n), safe)
  {
    var items := seq(n, _ => Null);
    NullsCounted(items, ItemPath(path), safe);
    hide FullItems;
    assert Paths(Full(Nulls(n), path, safe)) == {};
  }

  lemma OneInside(f: Field, safe: set<string>)
    requires f.key in safe && Full(f.value, FieldPath("$", f.key), safe).presence == multiset{} && Shallow(f.value, 1, safe)
    ensures var t := Full(Object([f]), "$", safe);
      PathsFit(t) && |t.shapes| == 1 + |Full(f.value, FieldPath("$", f.key), safe).shapes| && Shallow(Object([f]), 0, safe)
  {
    hide Shallow, Full, FullFields, FieldsPresent, OneField, OneFieldFull, OneFieldValue, Tally.Plus, EndsInField, Paths;
    var fields, one := [f], OneFieldFull("$", f, safe);
    assert fields[0..] == fields && fields[1..] == [] && fields[0] == f;
    EndUnfolds(Object(fields), "$", safe);
    FieldsUnfold(fields, 0, "$", safe);
    FullFieldsNone("$", safe);
    AddsNothing(one);
    PresentUnfold(fields, "$", safe);
    PresentNone("$", safe);
    AddsNothing(OneField("$", f.key, safe));
    ObjectPaths(f, safe);
    OneObjectShallow(f, safe);
  }

  lemma ObjectPaths(f: Field, safe: set<string>)
    requires FullFields([f], "$", safe) == OneFieldFull("$", f, safe) && FieldsPresent([f], "$", safe) == OneField("$", f.key, safe)
    requires f.key in safe && Full(f.value, FieldPath("$", f.key), safe).presence == multiset{}
    ensures PathsFit(Full(Object([f]), "$", safe))
  {
    var node, own, value := OneNode(Object([f]), "$").Plus(OneObject("$")), OneField("$", f.key, safe), OneFieldFull("$", f, safe);
    hide FullFields, FieldsPresent, FieldPath;
    assert Full(Object([f]), "$", safe) == node.Plus(own).Plus(value);
    PathsPlus(node.Plus(own), value);
    PathsPlus(node, own);
    PathsOfOne("$", f.key, safe);
    assert Paths(node) == {} && value.presence == multiset{} && Paths(value) == {};
  }

  lemma OneObjectShallow(f: Field, safe: set<string>)
    requires Shallow(f.value, 1, safe)
    ensures Shallow(Object([f]), 0, safe)
  {
  }

  /** Every field entry adds up: the objects that have it and those that miss it are the objects
      visited at its parent path. */
  ghost predicate Reconciled(r: Report, t: Tally) {
    forall i :: 0 <= i < |r.fields| ==>
      && r.fields[i] == FieldOf(t, r.fields[i].path)
      && r.fields[i].present > 0
      && r.fields[i].present + r.fields[i].missing == t.parents[ParentOf(r.fields[i].path)]
  }

  lemma FieldsReconcile(r: Report, t: Tally, seen: set<string>, safe: set<string>)
    requires Balanced(t, seen, safe) && DotFree(safe) && FieldsOf(r, t, seen)
    ensures Reconciled(r, t)
  {
    hide FieldOf, Balanced;
    forall i | 0 <= i < |r.fields|
      ensures r.fields[i].present > 0 && r.fields[i].present + r.fields[i].missing == t.parents[ParentOf(r.fields[i].path)]
    {
      PresentPlusMissing(t, seen, safe, r.fields[i].path);
    }
  }

  /** Every field entry is the one for a path seen. */
  ghost predicate FieldsOf(r: Report, t: Tally, seen: set<string>) {
    forall i :: 0 <= i < |r.fields| ==> r.fields[i] == FieldOf(t, r.fields[i].path) && r.fields[i].path in seen
  }

  lemma Pops(r: Report, out: Report, size: Report -> nat) returns (k: nat)
    requires exists k: nat ::
      && k <= |r.shapes| + |r.fields|
      && out == PopTimes(r, k).(truncated := r.truncated || !Small(r, size))
    ensures k <= |r.shapes| + |r.fields|
    ensures out == PopTimes(r, k).(truncated := r.truncated || !Small(r, size))
  {
    k :| k <= |r.shapes| + |r.fields| && out == PopTimes(r, k).(truncated := r.truncated || !Small(r, size));
  }

  lemma WholeIsExact(r: Report, t: Tally, seen: set<string>, document: Json, safe: set<string>)
    requires Balanced(t, seen, safe)
    requires !r.truncated ==> t == Full(document, "$", safe) && r.nodesExamined == |t.shapes|
    requires r.unrecognised == t.unsafe && FieldsOf(r, t, seen) && forall p :: p in seen <==> HasField(r.fields, p)
    requires forall p, k :: (p, k) in t.shapes ==> HasShape(r.shapes, p)
    requires forall i :: 0 <= i < |r.shapes| ==> r.shapes[i].types == KindCounts(t.shapes, r.shapes[i].path)
    ensures !r.truncated ==> Exact(r, document, safe)
  {
    hide Full, FieldOf, HasField, HasShape, KindCounts;
  }

  lemma NothingBalanced(safe: set<string>)
    ensures Balanced(NOTHING, {}, safe)
  {
  }

  lemma FromNothing(t: Tally)
    ensures NOTHING.Plus(t) == t
  {
  }
}
