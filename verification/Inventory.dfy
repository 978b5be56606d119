/** The bounded structural inventory of a JSON document
    (scripts/takeout-format-inventory.py:18-21, 58-151). */
module Inventory {
  import opened Text

  datatype Json =
    | Null | Bool(b: bool) | Number(n: real) | Str(s: string)
    | Array(items: seq<Json>) | Object(fields: seq<Field>)

  datatype Field = Field(key: string, value: Json)

  datatype Kind = KNull | KBoolean | KNumber | KString | KArray | KObject

  function KindOf(v: Json): Kind {
    match v
    case Null => KNull
    case Bool(_) => KBoolean
    case Number(_) => KNumber
    case Str(_) => KString
    case Array(_) => KArray
    case Object(_) => KObject
  }

  datatype Emptiness = ENull | EString | EArray | EObject

  /** The state a field is in when its value is null or empty. */
  function EmptyState(v: Json): Option<Emptiness> {
    match v
    case Null => Some(ENull)
    case Str(s) => if s == "" then Some(EString) else None
    case Array(items) => if items == [] then Some(EArray) else None
    case Object(fields) => if fields == [] then Some(EObject) else None
    case _ => None
  }

  /** The kind of each JSON value: a truth value is a boolean, never a number. */
  lemma KindIff(v: Json)
    ensures KindOf(v) == KNull <==> v == Null
    ensures KindOf(v) == KBoolean <==> v == Bool(true) || v == Bool(false)
    ensures KindOf(v) == KNumber <==> exists n :: v == Number(n)
    ensures KindOf(v) == KString <==> exists s :: v == Str(s)
    ensures KindOf(v) == KArray <==> exists items :: v == Array(items)
    ensures KindOf(v) == KObject <==> exists fields :: v == Object(fields)
  {
    assert v.Bool? ==> v == Bool(v.b);
    assert v.Number? ==> v == Number(v.n);
    assert v.Str? ==> v == Str(v.s);
    assert v.Array? ==> v == Array(v.items);
    assert v.Object? ==> v == Object(v.fields);
  }

  /** The empty values: null, and the text, array and object with nothing in them. */
  lemma EmptyIff(v: Json, e: Emptiness)
    ensures EmptyState(v) == Some(e) <==>
            (v, e) in {(Null, ENull), (Str(""), EString), (Array([]), EArray), (Object([]), EObject)}
  {
  }

  const MAX_NODES := 100_000
  const MAX_DEPTH := 10
  const MAX_FIELDS := 256

  // ------------------------------------------------------------------ counts

  /** What the walk counts: values by path and kind, objects by path, fields present by object
      path and key and by their own path, field values by kind, and empty field values. */
  datatype Tally = Tally(
    shapes: multiset<(string, Kind)>,
    parents: multiset<string>,
    present: multiset<(string, string)>,
    presence: multiset<string>,
    types: multiset<(string, Kind)>,
    empties: multiset<(string, Emptiness)>,
    unsafe: nat)
  {
    function Plus(b: Tally): Tally {
      Tally(shapes + b.shapes, parents + b.parents, present + b.present, presence + b.presence,
            types + b.types, empties + b.empties, unsafe + b.unsafe)
    }
  }

  const NOTHING := Tally(multiset{}, multiset{}, multiset{}, multiset{}, multiset{}, multiset{}, 0)

  function ItemPath(path: string): string {
    path + "[]"
  }

  function FieldPath(path: string, key: string): string {
    path + "." + key
  }

  function OneNode(v: Json, path: string): Tally {
    NOTHING.(shapes := multiset{(path, KindOf(v))})
  }

  function OneObject(path: string): Tally {
    NOTHING.(parents := multiset{path})
  }

  /** An allowed field of an object counts as present; any other counts as unrecognised. */
  function OneField(path: string, key: string, safe: set<string>): Tally {
    if key in safe then NOTHING.(present := multiset{(path, key)}, presence := multiset{FieldPath(path, key)})
    else NOTHING.(unsafe := 1)
  }

  function EmptyAt(path: string, v: Json): multiset<(string, Emptiness)> {
    match EmptyState(v)
    case None => multiset{}
    case Some(e) => multiset{(path, e)}
  }

  function OneFieldValue(path: string, v: Json): Tally {
    NOTHING.(types := multiset{(path, KindOf(v))}, empties := EmptyAt(path, v))
  }

  // ------------------------------------------- the uncapped inventory

  /** Everything there is to count in a value, with no cap. */
  function Full(v: Json, path: string, safe: set<string>): Tally
    decreases v, 1
  {
    match v
    case Array(items) => OneNode(v, path).Plus(FullItems(items, ItemPath(path), safe))
    case Object(fields) =>
      OneNode(v, path).Plus(OneObject(path)).Plus(FieldsPresent(fields, path, safe)).Plus(FullFields(fields, path, safe))
    case _ => OneNode(v, path)
  }

  function FullItems(items: seq<Json>, path: string, safe: set<string>): Tally
    decreases items, 0
  {
    if items == [] then NOTHING else Full(items[0], path, safe).Plus(FullItems(items[1..], path, safe))
  }

  function FieldsPresent(fields: seq<Field>, path: string, safe: set<string>): Tally {
    if fields == [] then NOTHING else OneField(path, fields[0].key, safe).Plus(FieldsPresent(fields[1..], path, safe))
  }

  function FullFields(fields: seq<Field>, path: string, safe: set<string>): Tally
    decreases fields, 0
  {
    if fields == [] then NOTHING
    else
      var f := fields[0];
      var rest := FullFields(fields[1..], path, safe);
      if f.key in safe then
        OneFieldValue(FieldPath(path, f.key), f.value).Plus(Full(f.value, FieldPath(path, f.key), safe)).Plus(rest)
      else rest
  }

  predicate DistinctKeys(fields: seq<Field>) {
    forall i, j :: 0 <= i < j < |fields| ==> fields[i].key != fields[j].key
  }

  /** A decoded JSON value: no object repeats a key. */
  predicate Decoded(v: Json) {
    match v
    case Array(items) => forall i :: 0 <= i < |items| ==> Decoded(items[i])
    case Object(fields) => DistinctKeys(fields) && forall i :: 0 <= i < |fields| ==> Decoded(fields[i].value)
    case _ => true
  }

  /** No value the walk reaches lies below the deepest level it looks at. */
  predicate Shallow(v: Json, depth: nat, safe: set<string>)
    decreases v
  {
    && depth <= MAX_DEPTH
    && match v
       case Array(items) => forall i :: 0 <= i < |items| ==> Shallow(items[i], depth + 1, safe)
       case Object(fields) => forall i :: 0 <= i < |fields| && fields[i].key in safe ==> Shallow(fields[i].value, depth + 1, safe)
       case _ => true
  }

  function Paths(t: Tally): set<string> {
    set p | p in t.presence
  }

  /** The walk looks at the node count once more behind its last field: it does so when the last
      thing in the value is an object with a field to look at. */
  predicate EndsInField(v: Json, safe: set<string>) {
    match v
    case Array(items) => items != [] && EndsInField(items[|items| - 1], safe)
    case Object(fields) => HasSafe(fields, safe)
    case _ => false
  }

  predicate ItemsEndInField(items: seq<Json>, safe: set<string>) {
    items != [] && EndsInField(items[|items| - 1], safe)
  }

  predicate HasSafe(fields: seq<Field>, safe: set<string>) {
    exists f <- fields :: f.key in safe
  }

  predicate PathsFit(t: Tally) {
    |Paths(t)| <= MAX_FIELDS
  }

  /** Counts within both caps, and below the node cap when the count is looked at once more. */
  predicate Fits(t: Tally, looks: bool) {
    PathsFit(t) && (|t.shapes| < MAX_NODES || (|t.shapes| == MAX_NODES && !looks))
  }

  /** No count of `a` exceeds the same count of `b`. */
  predicate AtMost(a: Tally, b: Tally) {
    && a.shapes <= b.shapes && a.parents <= b.parents && a.present <= b.present && a.presence <= b.presence
    && a.types <= b.types && a.empties <= b.empties && a.unsafe <= b.unsafe
  }

  lemma AtMostAdds(a: Tally, b: Tally, c: Tally)
    ensures AtMost(a, b) ==> AtMost(a.Plus(c), b.Plus(c)) && AtMost(c.Plus(a), c.Plus(b))
    ensures AtMost(a, a) && AtMost(a, a.Plus(c)) && AtMost(NOTHING, c)
  {
  }

  lemma AtMostThrough(a: Tally, b: Tally, c: Tally)
    requires AtMost(a, b) && AtMost(b, c)
    ensures AtMost(a, c)
  {
  }

  /** What fits with more to come has a node to spare. */
  lemma FitsBefore(a: Tally, b: Tally, looks: bool)
    ensures Fits(a.Plus(b), looks) ==> PathsFit(a) && |a.shapes| + |b.shapes| <= MAX_NODES
    ensures Fits(a.Plus(b), looks) && (|b.shapes| > 0 || looks) ==> Fits(a, true) && |a.shapes| < MAX_NODES
  {
    assert Paths(a) <= Paths(a.Plus(b));
    SubsetSize(Paths(a), Paths(a.Plus(b)));
  }

  lemma FitsAnyway(t: Tally, looks: bool)
    ensures Fits(t, true) ==> Fits(t, looks)
    ensures t.Plus(NOTHING) == t
  {
  }

  lemma NodesPositive(v: Json, path: string, safe: set<string>)
    ensures |Full(v, path, safe).shapes| > 0
  {
    hide FullItems, FullFields, FieldsPresent;
    assert |OneNode(v, path).shapes| == 1;
  }

  lemma PlusAssociates(a: Tally, b: Tally, c: Tally)
    ensures a.Plus(b).Plus(c) == a.Plus(b.Plus(c)) && a.Plus(NOTHING) == a
  {
  }

  function SafeFields(fields: seq<Field>, safe: set<string>): (r: seq<Field>)
    ensures forall f <- r :: f in fields && f.key in safe
  {
    if fields == [] then []
    else (if fields[0].key in safe then [fields[0]] else []) + SafeFields(fields[1..], safe)
  }

  lemma {:induction false} SafeFieldsSame(fields: seq<Field>, path: string, safe: set<string>)
    ensures FullFields(SafeFields(fields, safe), path, safe) == FullFields(fields, path, safe)
  {
    hide Full;
    if fields != [] {
      SafeFieldsSame(fields[1..], path, safe);
      var rest := SafeFields(fields[1..], safe);
      if fields[0].key in safe {
        assert ([fields[0]] + rest)[0] == fields[0] && ([fields[0]] + rest)[1..] == rest;
      } else {
        assert [] + rest == rest;
      }
    }
  }

  // ------------------------------------------------------- the bounded walk

  /** The counters are in balance: a field is never counted present more often than its
      object's path was visited, and the two presence counters agree on every field seen. */
  ghost predicate Balanced(t: Tally, seen: set<string>, safe: set<string>) {
    && (forall p, k :: t.present[(p, k)] <= t.parents[p])
    && (forall p, k :: k in safe ==> t.presence[FieldPath(p, k)] == t.present[(p, k)])
    && (forall p :: p in seen <==> p in t.presence)
    && (forall p :: p in seen ==> exists q, k :: k in safe && p == FieldPath(q, k))
  }

  class Walker {
    const safe: set<string>
    var tally: Tally
    var seen: set<string>
    var nodes: nat
    var truncated: bool

    constructor (safe: set<string>)
      ensures this.safe == safe && tally == NOTHING && seen == {} && nodes == 0 && !truncated
    {
      this.safe := safe;
      tally, seen, nodes, truncated := NOTHING, {}, 0, false;
    }

    ghost predicate Valid()
      reads this
    {
      && Balanced(tally, seen, safe)
      && |tally.shapes| <= nodes && |tally.shapes| <= MAX_NODES && nodes <= MAX_NODES + 1
      && (!truncated ==> |tally.shapes| == nodes)
      && |seen| <= MAX_FIELDS
    }

    /** One value: either it is counted in full, or the walk says that it was cut short, and then
        no count is too high. It is counted in full exactly when it fits the caps. */
    method Walk(v: Json, path: string, depth: nat)
      requires Valid() && Decoded(v) && nodes <= MAX_NODES && depth <= MAX_DEPTH + 1 && DotFree(safe)
      modifies this
      ensures Valid() && (old(truncated) ==> truncated)
      ensures !truncated ==> tally == old(tally).Plus(Full(v, path, safe)) && Shallow(v, depth, safe)
      ensures !truncated ==> nodes < MAX_NODES || !EndsInField(v, safe)
      ensures !old(truncated) && Fits(old(tally).Plus(Full(v, path, safe)), EndsInField(v, safe)) && Shallow(v, depth, safe) ==>
                !truncated
      ensures AtMost(tally, old(tally).Plus(Full(v, path, safe))) && nodes <= old(nodes) + |Full(v, path, safe).shapes|
      decreases MAX_DEPTH + 1 - depth, 2
    {
      hide Fits, Full, FullItems, FullFields, FieldsPresent, Shallow, Balanced, Tally.Plus, OneNode, ItemsShallow, FieldsShallow, AtMost;
      hide EndsInField, ItemsEndInField, HasSafe, DotFree, Decoded;
      WalkUnfolds(v, path, depth, safe);
      EndUnfolds(v, path, safe);
      DecodedUnfolds(v);
      FitsBefore(tally, Full(v, path, safe), EndsInField(v, safe));
      NodesPositive(v, path, safe);
      AtMostAdds(tally, tally, Full(v, path, safe));
      nodes := nodes + 1;
      if nodes > MAX_NODES || depth > MAX_DEPTH {
        truncated := true;
        return;
      }
      NodeKeepsBalance(tally, v, path, seen, safe);
      tally := tally.Plus(OneNode(v, path));
      match v {
        case Array(items) =>
          PlusAssociates(old(tally), OneNode(v, path), FullItems(items, ItemPath(path), safe));
          WalkItems(items, ItemPath(path), depth + 1);
        case Object(fields) =>
          ObjectAssociates(old(tally), v, path, safe);
          WalkObject(fields, path, depth);
        case _ =>
          AtMostAdds(tally, tally, NOTHING);
      }
    }

    /** The loop over a list's items. */
    method WalkItems(items: seq<Json>, path: string, depth: nat)
      requires Valid() && nodes <= MAX_NODES && 1 <= depth <= MAX_DEPTH + 1 && DotFree(safe)
      requires forall i :: 0 <= i < |items| ==> Decoded(items[i])
      modifies this
      ensures Valid() && (old(truncated) ==> truncated)
      ensures !truncated ==> tally == old(tally).Plus(FullItems(items, path, safe))
      ensures !truncated ==> ItemsShallow(items, depth, safe)
      ensures !truncated ==> nodes < MAX_NODES || !ItemsEndInField(items, safe)
      ensures !old(truncated) && Fits(old(tally).Plus(FullItems(items, path, safe)), ItemsEndInField(items, safe)) ==>
                ItemsShallow(items, depth, safe) ==> !truncated
      ensures AtMost(tally, old(tally).Plus(FullItems(items, path, safe)))
      ensures nodes <= old(nodes) + |FullItems(items, path, safe).shapes|
      decreases MAX_DEPTH + 1 - depth, 3
    {
      hide Balanced, Full, Shallow, Tally.Plus, Fits, AtMost, EndsInField, DotFree, Decoded;
      ghost var all := old(tally).Plus(FullItems(items, path, safe));
      assert items[0..] == items;
      AtMostAdds(all, all, NOTHING);
      for i := 0 to |items|
        invariant Valid() && (old(truncated) ==> truncated)
        invariant !truncated ==> tally.Plus(FullItems(items[i..], path, safe)) == all
        invariant !truncated ==> forall j :: 0 <= j < i ==> Shallow(items[j], depth, safe)
        invariant !truncated && i > 0 ==> nodes < MAX_NODES || !EndsInField(items[i - 1], safe)
        invariant !old(truncated) && Fits(all, ItemsEndInField(items, safe)) && ItemsShallow(items, depth, safe) ==> !truncated
        invariant AtMost(tally.Plus(FullItems(items[i..], path, safe)), all)
        invariant nodes + |FullItems(items[i..], path, safe).shapes| <= old(nodes) + |FullItems(items, path, safe).shapes|
      {
        ItemFits(tally, items, i, path, safe);
        AtMostFirst(tally, FullItems(items[i..], path, safe), all);
        if nodes >= MAX_NODES {
          truncated := true;
          return;
        }
        ghost var before := tally;
        Walk(items[i], path, depth);
        ItemCounted(before, tally, items, i, path, safe, all);
      }
      assert items[|items|..] == [];
      AtMostAdds(tally, tally, NOTHING);
      PlusAssociates(tally, NOTHING, NOTHING);
    }

    method WalkObject(fields: seq<Field>, path: string, depth: nat)
      requires Valid() && nodes <= MAX_NODES && depth <= MAX_DEPTH && DotFree(safe)
      requires DistinctKeys(fields) && forall i :: 0 <= i < |fields| ==> Decoded(fields[i].value)
      modifies this
      ensures Valid() && (old(truncated) ==> truncated)
      ensures !truncated ==>
                tally == old(tally).Plus(OneObject(path)).Plus(FieldsPresent(fields, path, safe)).Plus(FullFields(fields, path, safe))
      ensures !truncated ==> FieldsShallow(fields, depth + 1, safe)
      ensures !truncated ==> nodes < MAX_NODES || !HasSafe(fields, safe)
      ensures var all := old(tally).Plus(OneObject(path)).Plus(FieldsPresent(fields, path, safe)).Plus(FullFields(fields, path, safe));
              !old(truncated) && FieldsShallow(fields, depth + 1, safe) && Fits(all, HasSafe(fields, safe)) ==> !truncated
      ensures AtMost(tally, old(tally).Plus(OneObject(path)).Plus(FieldsPresent(fields, path, safe)).Plus(FullFields(fields, path, safe)))
      ensures nodes <= old(nodes) + |FullFields(fields, path, safe).shapes|
      decreases MAX_DEPTH + 1 - depth, 1
    {
      hide Balanced, FieldsPresent, FullFields, FieldsShallow, Fits, HasSafe, Tally.Plus, AtMost, Decoded, DotFree, PathsFit;
      ghost var present := old(tally).Plus(OneObject(path)).Plus(FieldsPresent(fields, path, safe));
      FitsBefore(present, FullFields(fields, path, safe), HasSafe(fields, safe));
      var safeItems := CountFields(fields, path);
      SafeFieldsSame(fields, path, safe);
      SafeFieldsShallow(fields, depth + 1, safe);
      SafeFieldsAny(fields, safe);
      ghost var counted := tally;
      AtMostAdds(counted, present, FullFields(safeItems, path, safe));
      AtMostAdds(FullFields(safeItems, path, safe), FullFields(fields, path, safe), present);
      AtMostThrough(counted.Plus(FullFields(safeItems, path, safe)), present.Plus(FullFields(safeItems, path, safe)),
                    present.Plus(FullFields(fields, path, safe)));
      AtMostShapes(FullFields(safeItems, path, safe), FullFields(fields, path, safe));
      WalkFields(safeItems, path, depth);
      AtMostThrough(tally, counted.Plus(FullFields(safeItems, path, safe)), present.Plus(FullFields(fields, path, safe)));
    }

    /** The object itself: which of its fields are looked at, and that they are present. */
    method CountFields(fields: seq<Field>, path: string) returns (safeItems: seq<Field>)
      requires Valid() && DotFree(safe)
      requires DistinctKeys(fields) && forall i :: 0 <= i < |fields| ==> Decoded(fields[i].value)
      modifies this
      ensures Valid() && nodes == old(nodes) && (old(truncated) ==> truncated)
      ensures forall i :: 0 <= i < |safeItems| ==> safeItems[i].key in safe && Decoded(safeItems[i].value)
      ensures !truncated ==> safeItems == SafeFields(fields, safe)
      ensures !truncated ==> tally == old(tally).Plus(OneObject(path)).Plus(FieldsPresent(fields, path, safe))
      ensures !old(truncated) && PathsFit(old(tally).Plus(OneObject(path)).Plus(FieldsPresent(fields, path, safe))) ==> !truncated
      ensures AtMost(tally, old(tally).Plus(OneObject(path)).Plus(FieldsPresent(fields, path, safe)))
      ensures AtMost(FullFields(safeItems, path, safe), FullFields(fields, path, safe))
    {
      hide Balanced, FieldsPresent, SafeFields, PathsOf, Tally.Plus, CountUnsafe, PathsFit, DotFree, Decoded, AtMost, FullFields;
      RoomForPaths(tally, fields, path, seen, safe);
      ObjectKeepsBalance(tally, path, seen, safe);
      tally := tally.Plus(OneObject(path));
      safeItems := ChooseFields(fields, path);
      UnsafeApart(fields, path, safe);
      ghost var chosen := tally;
      PresentFields(safeItems, path, old(tally), old(seen));
      ChosenAtMost(old(tally).Plus(OneObject(path)), fields, safeItems, path, safe);
    }

    /** Sort out the fields: unrecognised keys are counted, and a path too many is skipped. */
    method ChooseFields(fields: seq<Field>, path: string) returns (safeItems: seq<Field>)
      requires DistinctKeys(fields) && Balanced(tally, seen, safe) && |seen| <= MAX_FIELDS
      modifies this
      ensures |seen| <= MAX_FIELDS
      ensures !old(truncated) && |old(seen) + PathsOf(SafeFields(fields, safe), path)| <= MAX_FIELDS ==> !truncated
      ensures nodes == old(nodes) && (old(truncated) ==> truncated)
      ensures tally == old(tally).(unsafe := tally.unsafe) && Balanced(tally, old(seen), safe)
      ensures tally == old(tally).Plus(Unrecognised(fields, safe))
      ensures seen == old(seen) + PathsOf(safeItems, path)
      ensures DistinctKeys(safeItems) && forall f <- safeItems :: f.key in safe && f in fields
      ensures !truncated ==> safeItems == SafeFields(fields, safe)
      ensures Among(safeItems, SafeFields(fields, safe))
    {
      hide Balanced, PathsOf, SafeFields, CountUnsafe, Among;
      safeItems := [];
      var unsafe := tally.unsafe;
      ChooseNone(path, safe);
      AmongNone();
      assert fields[..0] == [];
      for i := 0 to |fields|
        invariant nodes == old(nodes) && (old(truncated) ==> truncated) && tally == old(tally)
        invariant seen == old(seen) + PathsOf(safeItems, path) && |seen| <= MAX_FIELDS
        invariant !old(truncated) && |old(seen) + PathsOf(SafeFields(fields, safe), path)| <= MAX_FIELDS ==> !truncated
        invariant DistinctKeys(safeItems) && forall f <- safeItems :: f.key in safe && f in fields[..i]
        invariant !truncated ==> safeItems == SafeFields(fields[..i], safe)
        invariant unsafe == old(tally).unsafe + CountUnsafe(fields[..i], safe)
        invariant Among(safeItems, SafeFields(fields[..i], safe))
      {
        var f := fields[i];
        assert fields[..i + 1] == fields[..i] + [f];
        SafeFieldsAppend(fields[..i], f, safe);
        UnsafeAppend(fields[..i], f, safe);
        PathsAppend(safeItems, f, path);
        SeenStays(old(seen), fields, i, path, safe);
        AmongMore(safeItems, SafeFields(fields[..i], safe), f);
        if f.key !in safe {
          unsafe := unsafe + 1;
        } else if FieldPath(path, f.key) !in seen && |seen| >= MAX_FIELDS {
          truncated := true;
        } else {
          seen := seen + {FieldPath(path, f.key)};
          NewKey(fields, i, safeItems);
          safeItems := safeItems + [f];
        }
      }
      assert fields[..|fields|] == fields;
      UnsafeKeepsBalance(tally, unsafe, old(seen), safe);
      tally := tally.(unsafe := unsafe);
      UnsafeCounted(old(tally), fields, safe);
    }

    /** Count the chosen fields as present. */
    method PresentFields(safeItems: seq<Field>, path: string, ghost t0: Tally, ghost seen0: set<string>)
      requires DistinctKeys(safeItems) && (forall f <- safeItems :: f.key in safe) && DotFree(safe)
      requires Balanced(t0, seen0, safe) && Balanced(tally, seen0, safe)
      requires tally.parents == t0.parents + multiset{path} && tally.present == t0.present
      requires seen == seen0 + PathsOf(safeItems, path)
      requires |tally.shapes| <= nodes && |tally.shapes| <= MAX_NODES && nodes <= MAX_NODES + 1
      requires (!truncated ==> |tally.shapes| == nodes) && |seen| <= MAX_FIELDS
      modifies this`tally
      ensures Valid() && tally == old(tally).Plus(FieldsPresent(safeItems, path, safe))
    {
      hide FieldsPresent, Balanced, PathsOf, OneField, Tally.Plus;
      assert safeItems[0..] == safeItems && safeItems[..0] == [];
      ChooseNone(path, safe);
      assert seen0 + {} == seen0;
      for i := 0 to |safeItems|
        invariant Pending(tally, t0, old(tally), path, safeItems, i)
        invariant Balanced(tally, seen0 + PathsOf(safeItems[..i], path), safe)
        invariant tally.Plus(FieldsPresent(safeItems[i..], path, safe)) == old(tally).Plus(FieldsPresent(safeItems, path, safe))
      {
        var f := safeItems[i];
        assert f in safeItems;
        assert safeItems[..i + 1] == safeItems[..i] + [f];
        PathsAppend(safeItems[..i], f, path);
        PresentUnfold(safeItems[i..], path, safe);
        assert safeItems[i..][0] == f && safeItems[i..][1..] == safeItems[i + 1..];
        PlusAssociates(tally, OneField(path, f.key, safe), FieldsPresent(safeItems[i + 1..], path, safe));
        BalancedMeans(t0, seen0, safe, path, f.key);
        PendingStep(tally, t0, old(tally), path, safeItems, i, safe);
        FieldKeepsBalance(tally, path, f.key, seen0 + PathsOf(safeItems[..i], path), safe);
        assert seen0 + PathsOf(safeItems[..i], path) + {FieldPath(path, f.key)} == seen0 + PathsOf(safeItems[..i + 1], path);
        tally := tally.Plus(OneField(path, f.key, safe));
      }
      assert safeItems[..|safeItems|] == safeItems && safeItems[|safeItems|..] == [];
      PresentNone(path, safe);
      PlusAssociates(tally, NOTHING, NOTHING);
    }

    /** The loop over the fields looked at: each value's kind and emptiness, then the value. */
    method WalkFields(items: seq<Field>, path: string, depth: nat)
      requires Valid() && nodes <= MAX_NODES && depth <= MAX_DEPTH && DotFree(safe)
      requires forall i :: 0 <= i < |items| ==> items[i].key in safe && Decoded(items[i].value)
      modifies this
      ensures Valid() && (old(truncated) ==> truncated)
      ensures !truncated ==> tally == old(tally).Plus(FullFields(items, path, safe))
      ensures !truncated ==> FieldsShallow(items, depth + 1, safe)
      ensures !truncated ==> nodes < MAX_NODES || items == []
      ensures !old(truncated) && Fits(old(tally).Plus(FullFields(items, path, safe)), items != []) && FieldsShallow(items, depth + 1, safe) ==>
                !truncated
      ensures AtMost(tally, old(tally).Plus(FullFields(items, path, safe)))
      ensures nodes <= old(nodes) + |FullFields(items, path, safe).shapes|
      decreases MAX_DEPTH + 1 - depth, 0
    {
      hide Balanced, Full, FullFields, Tally.Plus, OneFieldValue, Decoded, DotFree, FieldPath, Shallow, Fits, AtMost, EndsInField;
      ghost var all := old(tally).Plus(FullFields(items, path, safe));
      assert items[0..] == items;
      AtMostAdds(all, all, NOTHING);
      for i := 0 to |items|
        invariant Valid() && (old(truncated) ==> truncated) && nodes <= MAX_NODES
        invariant !truncated ==> tally.Plus(FullFields(items[i..], path, safe)) == all
        invariant !truncated ==> forall j :: 0 <= j < i ==> Shallow(items[j].value, depth + 1, safe)
        invariant !truncated && i > 0 ==> nodes < MAX_NODES
        invariant !old(truncated) && Fits(all, items != []) && FieldsShallow(items, depth + 1, safe) ==> !truncated
        invariant AtMost(tally.Plus(FullFields(items[i..], path, safe)), all)
        invariant nodes + |FullFields(items[i..], path, safe).shapes| <= old(nodes) + |FullFields(items, path, safe).shapes|
      {
        var childPath, child := FieldPath(path, items[i].key), items[i].value;
        FieldFits(tally, items, i, path, safe);
        ghost var before := tally;
        ValueKeepsBalance(tally, childPath, child, seen, safe);
        tally := tally.Plus(OneFieldValue(childPath, child));
        Walk(child, childPath, depth + 1);
        FieldCounted(before, tally, items, i, path, safe, all);
        FitsBefore(tally, FullFields(items[i + 1..], path, safe), true);
        if nodes >= MAX_NODES {
          truncated := true;
          AtMostFirst(tally, FullFields(items[i + 1..], path, safe), all);
          return;
        }
      }
      assert items[|items|..] == [];
      FullFieldsNone(path, safe);
      AtMostAdds(tally, tally, NOTHING);
      PlusAssociates(tally, NOTHING, NOTHING);
    }
  }

  // ---------------------------------------------------------- one item, one field

  lemma AtMostFirst(a: Tally, b: Tally, c: Tally)
    requires AtMost(a.Plus(b), c)
    ensures AtMost(a, c)
  {
  }

  lemma AtMostShapes(a: Tally, b: Tally)
    requires AtMost(a, b)
    ensures |a.shapes| <= |b.shapes|
  {
    assert b.shapes == a.shapes + (b.shapes - a.shapes);
  }

  lemma ItemsUnfold(items: seq<Json>, i: nat, path: string, safe: set<string>)
    requires i < |items|
    ensures FullItems(items[i..], path, safe) == Full(items[i], path, safe).Plus(FullItems(items[i + 1..], path, safe))
    ensures i + 1 == |items| ==> FullItems(items[i + 1..], path, safe) == NOTHING
  {
    hide Full, Tally.Plus;
    assert items[i..][0] == items[i] && items[i..][1..] == items[i + 1..];
  }

  lemma SomeNodes(items: seq<Json>, i: nat, path: string, safe: set<string>)
    requires i < |items|
    ensures |FullItems(items[i..], path, safe).shapes| > 0
  {
    hide Full;
    ItemsUnfold(items, i, path, safe);
    NodesPositive(items[i], path, safe);
  }

  /** When all that is left fits, so does the next item. */
  lemma ItemFits(t: Tally, items: seq<Json>, i: nat, path: string, safe: set<string>)
    requires i < |items|
    ensures Fits(t.Plus(FullItems(items[i..], path, safe)), ItemsEndInField(items, safe)) ==>
              |t.shapes| < MAX_NODES && Fits(t.Plus(Full(items[i], path, safe)), EndsInField(items[i], safe))
  {
    hide Full, FullItems, Tally.Plus, Fits, EndsInField, PathsFit;
    var one, rest, looks := Full(items[i], path, safe), FullItems(items[i + 1..], path, safe), ItemsEndInField(items, safe);
    ItemsUnfold(items, i, path, safe);
    SomeNodes(items, i, path, safe);
    FitsBefore(t, FullItems(items[i..], path, safe), looks);
    PlusAssociates(t, one, rest);
    PlusAssociates(t.Plus(one), NOTHING, NOTHING);
    FitsBefore(t.Plus(one), rest, looks);
    FitsAnyway(t.Plus(one), EndsInField(items[i], safe));
    if i + 1 < |items| {
      SomeNodes(items, i + 1, path, safe);
    }
  }

  lemma ItemCounted(before: Tally, after: Tally, items: seq<Json>, i: nat, path: string, safe: set<string>, all: Tally)
    requires i < |items| && AtMost(before.Plus(FullItems(items[i..], path, safe)), all)
    requires AtMost(after, before.Plus(Full(items[i], path, safe)))
    ensures AtMost(after.Plus(FullItems(items[i + 1..], path, safe)), all)
    ensures after == before.Plus(Full(items[i], path, safe)) ==>
              after.Plus(FullItems(items[i + 1..], path, safe)) == before.Plus(FullItems(items[i..], path, safe))
    ensures |FullItems(items[i..], path, safe).shapes| ==
            |Full(items[i], path, safe).shapes| + |FullItems(items[i + 1..], path, safe).shapes|
  {
    ItemsUnfold(items, i, path, safe);
    var one, rest := Full(items[i], path, safe), FullItems(items[i + 1..], path, safe);
    PlusSizes(one, rest);
    hide Full, FullItems, Tally.Plus, AtMost;
    PlusAssociates(before, one, rest);
    AtMostAdds(after, before.Plus(one), rest);
    AtMostThrough(after.Plus(rest), before.Plus(one).Plus(rest), all);
  }

  lemma PlusSizes(a: Tally, b: Tally)
    ensures |a.Plus(b).shapes| == |a.shapes| + |b.shapes|
  {
  }

  /** A field's value with its kind and emptiness. */
  function OneFieldFull(path: string, f: Field, safe: set<string>): Tally {
    OneFieldValue(FieldPath(path, f.key), f.value).Plus(Full(f.value, FieldPath(path, f.key), safe))
  }

  lemma FieldsUnfold(items: seq<Field>, i: nat, path: string, safe: set<string>)
    requires i < |items| && items[i].key in safe
    ensures FullFields(items[i..], path, safe) == OneFieldFull(path, items[i], safe).Plus(FullFields(items[i + 1..], path, safe))
    ensures |OneFieldFull(path, items[i], safe).shapes| == |Full(items[i].value, FieldPath(path, items[i].key), safe).shapes| > 0
  {
    hide Full;
    assert items[i..][0] == items[i] && items[i..][1..] == items[i + 1..];
    NodesPositive(items[i].value, FieldPath(path, items[i].key), safe);
    PlusSizes(OneFieldValue(FieldPath(path, items[i].key), items[i].value), Full(items[i].value, FieldPath(path, items[i].key), safe));
  }

  lemma FieldFits(t: Tally, items: seq<Field>, i: nat, path: string, safe: set<string>)
    requires i < |items| && items[i].key in safe
    ensures var v, p := items[i].value, FieldPath(path, items[i].key);
      Fits(t.Plus(FullFields(items[i..], path, safe)), items != []) ==>
        Fits(t.Plus(OneFieldValue(p, v)).Plus(Full(v, p, safe)), EndsInField(v, safe))
  {
    hide Full, FullFields, Tally.Plus, Fits, EndsInField, PathsFit, OneFieldValue;
    var v, p, rest := items[i].value, FieldPath(path, items[i].key), FullFields(items[i + 1..], path, safe);
    FieldsUnfold(items, i, path, safe);
    PlusAssociates(t, OneFieldValue(p, v), Full(v, p, safe));
    PlusAssociates(t, OneFieldFull(path, items[i], safe), rest);
    FitsBefore(t.Plus(OneFieldFull(path, items[i], safe)), rest, true);
    FitsAnyway(t.Plus(OneFieldFull(path, items[i], safe)), EndsInField(v, safe));
  }

  lemma FieldCounted(before: Tally, after: Tally, items: seq<Field>, i: nat, path: string, safe: set<string>, all: Tally)
    requires i < |items| && items[i].key in safe && AtMost(before.Plus(FullFields(items[i..], path, safe)), all)
    requires var v, p := items[i].value, FieldPath(path, items[i].key);
             AtMost(after, before.Plus(OneFieldValue(p, v)).Plus(Full(v, p, safe)))
    ensures AtMost(after.Plus(FullFields(items[i + 1..], path, safe)), all)
    ensures var v, p := items[i].value, FieldPath(path, items[i].key);
            after == before.Plus(OneFieldValue(p, v)).Plus(Full(v, p, safe)) ==>
              after.Plus(FullFields(items[i + 1..], path, safe)) == before.Plus(FullFields(items[i..], path, safe))
    ensures |FullFields(items[i..], path, safe).shapes| ==
            |Full(items[i].value, FieldPath(path, items[i].key), safe).shapes| + |FullFields(items[i + 1..], path, safe).shapes|
  {
    FieldsUnfold(items, i, path, safe);
    var v, p, rest := items[i].value, FieldPath(path, items[i].key), FullFields(items[i + 1..], path, safe);
    var one := OneFieldFull(path, items[i], safe);
    PlusSizes(one, rest);
    hide Full, FullFields, Tally.Plus, AtMost, OneFieldValue;
    PlusAssociates(before, OneFieldValue(p, v), Full(v, p, safe));
    PlusAssociates(before, one, rest);
    AtMostAdds(after, before.Plus(one), rest);
    AtMostThrough(after.Plus(rest), before.Plus(one).Plus(rest), all);
  }

  lemma {:induction false} SafeFieldsAny(fields: seq<Field>, safe: set<string>)
    ensures SafeFields(fields, safe) != [] <==> HasSafe(fields, safe)
  {
    if fields != [] {
      SafeFieldsAny(fields[1..], safe);
      assert fields == [fields[0]] + fields[1..];
    }
  }

  lemma {:induction false} PresentHasNoNodes(fields: seq<Field>, path: string, safe: set<string>)
    ensures FieldsPresent(fields, path, safe).shapes == multiset{}
  {
    if fields != [] {
      PresentHasNoNodes(fields[1..], path, safe);
    }
  }

  lemma EndUnfolds(v: Json, path: string, safe: set<string>)
    ensures v.Array? ==>
              && (EndsInField(v, safe) <==> ItemsEndInField(v.items, safe))
              && |Full(v, path, safe).shapes| == 1 + |FullItems(v.items, ItemPath(path), safe).shapes|
    ensures v.Object? ==>
              && (EndsInField(v, safe) <==> HasSafe(v.fields, safe))
              && |Full(v, path, safe).shapes| == 1 + |FullFields(v.fields, path, safe).shapes|
    ensures !v.Array? && !v.Object? ==> !EndsInField(v, safe)
  {
    hide FullItems, FullFields, FieldsPresent;
    if v.Object? {
      PresentHasNoNodes(v.fields, path, safe);
    }
  }

  lemma DecodedUnfolds(v: Json)
    requires Decoded(v)
    ensures v.Array? ==> forall i :: 0 <= i < |v.items| ==> Decoded(v.items[i])
    ensures v.Object? ==> DistinctKeys(v.fields) && forall i :: 0 <= i < |v.fields| ==> Decoded(v.fields[i].value)
  {
  }

  // ------------------------------------------------- some of the fields, in order

  /** The items are some of `all`, in order. */
  predicate Among(items: seq<Field>, all: seq<Field>)
    decreases |all|
  {
    if all == [] then items == []
    else
      || Among(items, all[..|all| - 1])
      || (items != [] && items[|items| - 1] == all[|all| - 1] && Among(items[..|items| - 1], all[..|all| - 1]))
  }

  lemma AmongNone()
    ensures Among([], [])
  {
  }

  lemma AmongMore(items: seq<Field>, all: seq<Field>, f: Field)
    requires Among(items, all)
    ensures Among(items, all + [f]) && Among(items + [f], all + [f])
    ensures all + [] == all
  {
    assert (all + [f])[..|all|] == all && (items + [f])[..|items|] == items;
  }

  lemma {:induction false} PresentAppend(items: seq<Field>, f: Field, path: string, safe: set<string>)
    ensures FieldsPresent(items + [f], path, safe) == FieldsPresent(items, path, safe).Plus(OneField(path, f.key, safe))
  {
    hide OneField, Tally.Plus, FieldsPresent;
    if items == [] {
      assert items + [f] == [f] && [f][1..] == [];
      PresentUnfold([f], path, safe);
      PresentNone(path, safe);
      PlusAssociates(OneField(path, f.key, safe), NOTHING, NOTHING);
      AddsNothing(OneField(path, f.key, safe));
    } else {
      assert (items + [f])[1..] == items[1..] + [f] && (items + [f])[0] == items[0];
      PresentAppend(items[1..], f, path, safe);
      PresentUnfold(items, path, safe);
      PresentUnfold(items + [f], path, safe);
      PlusAssociates(OneField(path, items[0].key, safe), FieldsPresent(items[1..], path, safe), OneField(path, f.key, safe));
    }
  }

  lemma AddsNothing(t: Tally)
    ensures NOTHING.Plus(t) == t && t.Plus(NOTHING) == t
  {
  }

  lemma {:induction false} FullAppend(items: seq<Field>, f: Field, path: string, safe: set<string>)
    requires f.key in safe && forall g <- items :: g.key in safe
    ensures FullFields(items + [f], path, safe) == FullFields(items, path, safe).Plus(OneFieldFull(path, f, safe))
  {
    hide Full, Tally.Plus, FullFields, OneFieldFull;
    var all := items + [f];
    FieldsUnfold(all, 0, path, safe);
    assert all[0..] == all;
    FullFieldsNone(path, safe);
    if items == [] {
      assert all == [f] && all[1..] == [];
      AddsNothing(OneFieldFull(path, f, safe));
    } else {
      assert all[1..] == items[1..] + [f] && all[0] == items[0];
      FullAppend(items[1..], f, path, safe);
      FieldsUnfold(items, 0, path, safe);
      assert items[0..] == items;
      PlusAssociates(OneFieldFull(path, items[0], safe), FullFields(items[1..], path, safe), OneFieldFull(path, f, safe));
    }
  }

  /** Some of the fields count at most what all of them do. */
  lemma {:induction false} AmongCounts(items: seq<Field>, all: seq<Field>, path: string, safe: set<string>)
    requires Among(items, all) && forall g <- all :: g.key in safe
    ensures forall g <- items :: g.key in safe
    ensures AtMost(FieldsPresent(items, path, safe), FieldsPresent(all, path, safe))
    ensures AtMost(FullFields(items, path, safe), FullFields(all, path, safe))
    decreases |all|
  {
    hide FieldsPresent, FullFields, AtMost, Tally.Plus, OneFieldFull, OneField;
    AtMostAdds(FieldsPresent(items, path, safe), FieldsPresent(items, path, safe), NOTHING);
    AtMostAdds(FullFields(items, path, safe), FullFields(items, path, safe), NOTHING);
    if all != [] {
      var init, f := all[..|all| - 1], all[|all| - 1];
      assert all == init + [f];
      PresentAppend(init, f, path, safe);
      FullAppend(init, f, path, safe);
      var p, q := FieldsPresent(init, path, safe), FullFields(init, path, safe);
      AtMostAdds(p, p, OneField(path, f.key, safe));
      AtMostAdds(q, q, OneFieldFull(path, f, safe));
      if Among(items, init) {
        AmongCounts(items, init, path, safe);
        AtMostThrough(FieldsPresent(items, path, safe), p, FieldsPresent(all, path, safe));
        AtMostThrough(FullFields(items, path, safe), q, FullFields(all, path, safe));
      } else {
        var some := items[..|items| - 1];
        assert items == some + [f];
        AmongCounts(some, init, path, safe);
        PresentAppend(some, f, path, safe);
        FullAppend(some, f, path, safe);
        AtMostAdds(FieldsPresent(some, path, safe), p, OneField(path, f.key, safe));
        AtMostAdds(FullFields(some, path, safe), q, OneFieldFull(path, f, safe));
      }
    }
  }

  lemma ChosenAtMost(t: Tally, fields: seq<Field>, items: seq<Field>, path: string, safe: set<string>)
    requires Among(items, SafeFields(fields, safe))
    requires FieldsPresent(fields, path, safe) == Unrecognised(fields, safe).Plus(FieldsPresent(SafeFields(fields, safe), path, safe))
    ensures AtMost(t.Plus(Unrecognised(fields, safe)).Plus(FieldsPresent(items, path, safe)), t.Plus(FieldsPresent(fields, path, safe)))
    ensures items == SafeFields(fields, safe) ==>
              t.Plus(Unrecognised(fields, safe)).Plus(FieldsPresent(items, path, safe)) == t.Plus(FieldsPresent(fields, path, safe))
    ensures AtMost(FullFields(items, path, safe), FullFields(fields, path, safe))
  {
    hide FieldsPresent, FullFields, AtMost, Tally.Plus, SafeFields, Among, CountUnsafe;
    var all, u := SafeFields(fields, safe), t.Plus(Unrecognised(fields, safe));
    AmongCounts(items, all, path, safe);
    SafeFieldsSame(fields, path, safe);
    PlusAssociates(t, Unrecognised(fields, safe), FieldsPresent(all, path, safe));
    AtMostAdds(FieldsPresent(items, path, safe), FieldsPresent(all, path, safe), u);
  }

  /** What one value asks of the walk: its own node, and its items or fields a level down. */
  lemma WalkUnfolds(v: Json, path: string, depth: nat, safe: set<string>)
    ensures Shallow(v, depth, safe) ==> depth <= MAX_DEPTH
    ensures v.Array? ==> Full(v, path, safe) == OneNode(v, path).Plus(FullItems(v.items, ItemPath(path), safe))
    ensures v.Array? && depth <= MAX_DEPTH ==> (Shallow(v, depth, safe) <==> ItemsShallow(v.items, depth + 1, safe))
    ensures v.Object? && depth <= MAX_DEPTH ==> (Shallow(v, depth, safe) <==> FieldsShallow(v.fields, depth + 1, safe))
    ensures !v.Array? && !v.Object? ==> Full(v, path, safe) == OneNode(v, path) && (depth <= MAX_DEPTH ==> Shallow(v, depth, safe))
  {
    hide FullItems, FullFields, FieldsPresent, Tally.Plus;
  }

  predicate ItemsShallow(items: seq<Json>, depth: nat, safe: set<string>) {
    forall i :: 0 <= i < |items| ==> Shallow(items[i], depth, safe)
  }

  predicate FieldsShallow(fields: seq<Field>, depth: nat, safe: set<string>) {
    forall i :: 0 <= i < |fields| && fields[i].key in safe ==> Shallow(fields[i].value, depth, safe)
  }

  lemma {:induction false} SafeFieldsShallow(fields: seq<Field>, depth: nat, safe: set<string>)
    ensures FieldsShallow(SafeFields(fields, safe), depth, safe) <==> FieldsShallow(fields, depth, safe)
  {
    hide Shallow;
    if fields != [] {
      SafeFieldsShallow(fields[1..], depth, safe);
      var f, rest := fields[0], SafeFields(fields[1..], safe);
      assert fields == [f] + fields[1..];
      ShallowAppends([f], fields[1..], depth, safe);
      ShallowAppends([f], rest, depth, safe);
      ShallowAppends([], rest, depth, safe);
    }
  }

  lemma ShallowAppends(a: seq<Field>, b: seq<Field>, depth: nat, safe: set<string>)
    ensures FieldsShallow(a + b, depth, safe) <==> FieldsShallow(a, depth, safe) && FieldsShallow(b, depth, safe)
  {
    hide Shallow;
    if FieldsShallow(a + b, depth, safe) {
      forall i | 0 <= i < |a| && a[i].key in safe ensures Shallow(a[i].value, depth, safe) {
        assert (a + b)[i] == a[i];
      }
      forall i | 0 <= i < |b| && b[i].key in safe ensures Shallow(b[i].value, depth, safe) {
        assert (a + b)[|a| + i] == b[i];
      }
    }
  }

  /** Room for the fields counted present is room for their paths. */
  lemma RoomForPaths(t: Tally, fields: seq<Field>, path: string, seen: set<string>, safe: set<string>)
    requires Balanced(t, seen, safe)
    ensures PathsFit(t.Plus(OneObject(path)).Plus(FieldsPresent(fields, path, safe))) ==>
              |seen + PathsOf(SafeFields(fields, safe), path)| <= MAX_FIELDS
  {
    PathsPresent(fields, path, safe);
    SubsetSize(seen + PathsOf(SafeFields(fields, safe), path),
               Paths(t.Plus(OneObject(path)).Plus(FieldsPresent(fields, path, safe))));
  }

  lemma {:induction false} PathsPresent(fields: seq<Field>, path: string, safe: set<string>)
    ensures PathsOf(SafeFields(fields, safe), path) == Paths(FieldsPresent(fields, path, safe))
  {
    hide FieldPath;
    if fields != [] {
      PathsPresent(fields[1..], path, safe);
      var f, rest := fields[0], SafeFields(fields[1..], safe);
      PresentUnfold(fields, path, safe);
      PathsPlus(OneField(path, f.key, safe), FieldsPresent(fields[1..], path, safe));
      hide FieldsPresent, Tally.Plus, Paths;
      PathsPrepend(f, rest, path);
      PathsOfOne(path, f.key, safe);
      assert [] + rest == rest;
    }
  }

  lemma PathsPlus(a: Tally, b: Tally)
    ensures Paths(a.Plus(b)) == Paths(a) + Paths(b)
  {
  }

  lemma PathsOfOne(path: string, key: string, safe: set<string>)
    ensures Paths(OneField(path, key, safe)) == if key in safe then {FieldPath(path, key)} else {}
  {
  }

  lemma PathsPrepend(f: Field, rest: seq<Field>, path: string)
    ensures PathsOf([f] + rest, path) == {FieldPath(path, f.key)} + PathsOf(rest, path)
  {
    forall x ensures x in [f] + rest <==> x == f || x in rest {
    }
  }

  lemma {:induction false} SafeFieldsHas(fields: seq<Field>, f: Field, safe: set<string>)
    ensures f in SafeFields(fields, safe) <==> f in fields && f.key in safe
  {
    if fields != [] {
      SafeFieldsHas(fields[1..], f, safe);
      assert f in fields <==> f == fields[0] || f in fields[1..];
    }
  }

  /** The paths of the fields sorted so far are among those of all the fields. */
  lemma SeenStays(seen: set<string>, fields: seq<Field>, i: nat, path: string, safe: set<string>)
    requires i < |fields|
    ensures fields[i].key in safe ==>
              |seen + PathsOf(SafeFields(fields[..i], safe), path) + {FieldPath(path, fields[i].key)}| <=
              |seen + PathsOf(SafeFields(fields, safe), path)|
  {
    hide FieldPath;
    if fields[i].key in safe {
      var all := SafeFields(fields, safe);
      SafeFieldsHas(fields, fields[i], safe);
      forall f | f in SafeFields(fields[..i], safe) ensures f in all {
        SafeFieldsHas(fields[..i], f, safe);
        SafeFieldsHas(fields, f, safe);
      }
      SubsetSize(seen + PathsOf(SafeFields(fields[..i], safe), path) + {FieldPath(path, fields[i].key)},
                 seen + PathsOf(all, path));
    }
  }

  lemma FullFieldsUnfold(items: seq<Field>, path: string, safe: set<string>)
    requires items != [] && items[0].key in safe
    ensures FullFields(items, path, safe) ==
            OneFieldValue(FieldPath(path, items[0].key), items[0].value)
              .Plus(Full(items[0].value, FieldPath(path, items[0].key), safe)).Plus(FullFields(items[1..], path, safe))
  {
    hide Full;
  }

  lemma FullFieldsNone(path: string, safe: set<string>)
    ensures FullFields([], path, safe) == NOTHING
  {
  }

  lemma PresentUnfold(items: seq<Field>, path: string, safe: set<string>)
    requires items != []
    ensures FieldsPresent(items, path, safe) == OneField(path, items[0].key, safe).Plus(FieldsPresent(items[1..], path, safe))
  {
  }

  lemma PresentNone(path: string, safe: set<string>)
    ensures FieldsPresent([], path, safe) == NOTHING
  {
  }

  function PathsOf(items: seq<Field>, path: string): set<string> {
    set f | f in items :: FieldPath(path, f.key)
  }

  /** How many keys are not in the allow-list. */
  function Unrecognised(fields: seq<Field>, safe: set<string>): Tally {
    NOTHING.(unsafe := CountUnsafe(fields, safe))
  }

  function CountUnsafe(fields: seq<Field>, safe: set<string>): nat {
    if fields == [] then 0 else (if fields[0].key in safe then 0 else 1) + CountUnsafe(fields[1..], safe)
  }

  lemma {:induction false} SafeFieldsAppend(fields: seq<Field>, f: Field, safe: set<string>)
    ensures SafeFields(fields + [f], safe) == SafeFields(fields, safe) + (if f.key in safe then [f] else [])
  {
    if fields == [] {
      assert fields + [f] == [f] && [f][1..] == [];
    } else {
      assert (fields + [f])[1..] == fields[1..] + [f] && (fields + [f])[0] == fields[0];
      SafeFieldsAppend(fields[1..], f, safe);
    }
  }

  lemma {:induction false} UnsafeAppend(fields: seq<Field>, f: Field, safe: set<string>)
    ensures CountUnsafe(fields + [f], safe) == CountUnsafe(fields, safe) + (if f.key in safe then 0 else 1)
  {
    if fields == [] {
      assert fields + [f] == [f] && [f][1..] == [];
    } else {
      assert (fields + [f])[1..] == fields[1..] + [f] && (fields + [f])[0] == fields[0];
      UnsafeAppend(fields[1..], f, safe);
    }
  }

  lemma PlusSwaps(a: Tally, b: Tally, c: Tally)
    ensures a.Plus(b.Plus(c)) == b.Plus(a.Plus(c))
  {
  }

  lemma {:induction false} UnsafeApart(fields: seq<Field>, path: string, safe: set<string>)
    ensures FieldsPresent(fields, path, safe) ==
            Unrecognised(fields, safe).Plus(FieldsPresent(SafeFields(fields, safe), path, safe))
  {
    hide FieldsPresent, SafeFields, OneField, CountUnsafe, Tally.Plus;
    if fields == [] {
      UnsafeNone(fields, path, safe);
    } else {
      UnsafeApart(fields[1..], path, safe);
      UnsafeStep(fields, path, safe);
    }
  }

  lemma UnsafeNone(fields: seq<Field>, path: string, safe: set<string>)
    requires fields == []
    ensures FieldsPresent(fields, path, safe) ==
            Unrecognised(fields, safe).Plus(FieldsPresent(SafeFields(fields, safe), path, safe))
  {
  }

  lemma UnsafeStep(fields: seq<Field>, path: string, safe: set<string>)
    requires fields != []
    requires FieldsPresent(fields[1..], path, safe) ==
             Unrecognised(fields[1..], safe).Plus(FieldsPresent(SafeFields(fields[1..], safe), path, safe))
    ensures FieldsPresent(fields, path, safe) ==
            Unrecognised(fields, safe).Plus(FieldsPresent(SafeFields(fields, safe), path, safe))
  {
    var f, rest := fields[0], SafeFields(fields[1..], safe);
    PresentUnfold(fields, path, safe);
    PlusSwaps(OneField(path, f.key, safe), Unrecognised(fields[1..], safe), FieldsPresent(rest, path, safe));
    if f.key in safe {
      assert SafeFields(fields, safe) == [f] + rest;
      assert ([f] + rest)[0] == f && ([f] + rest)[1..] == rest;
      PresentUnfold([f] + rest, path, safe);
      hide FieldsPresent, SafeFields, OneField;
    } else {
      assert SafeFields(fields, safe) == [] + rest == rest;
      hide FieldsPresent, SafeFields;
      PlusAssociates(OneField(path, f.key, safe), Unrecognised(fields[1..], safe), FieldsPresent(rest, path, safe));
    }
  }

  lemma UnsafeCounted(t: Tally, fields: seq<Field>, safe: set<string>)
    ensures t.Plus(Unrecognised(fields, safe)) == t.(unsafe := t.unsafe + CountUnsafe(fields, safe))
  {
  }

  lemma ChooseNone(path: string, safe: set<string>)
    ensures PathsOf([], path) == {} && SafeFields([], safe) == [] && CountUnsafe([], safe) == 0
  {
  }

  lemma PathsAppend(items: seq<Field>, f: Field, path: string)
    ensures PathsOf(items + [f], path) == PathsOf(items, path) + {FieldPath(path, f.key)}
  {
    forall x ensures x in items + [f] <==> x in items || x == f {
    }
  }

  lemma NewKey(fields: seq<Field>, i: nat, items: seq<Field>)
    requires i < |fields| && DistinctKeys(fields) && DistinctKeys(items) && forall f <- items :: f in fields[..i]
    ensures DistinctKeys(items + [fields[i]])
  {
    forall j | 0 <= j < |items| ensures items[j].key != fields[i].key {
      assert items[j] in fields[..i];
    }
  }

  /** The chosen fields from `i` on are still to be counted as present. */
  ghost predicate Pending(t: Tally, t0: Tally, start: Tally, path: string, items: seq<Field>, i: nat) {
    && t.parents == t0.parents + multiset{path} && t.shapes == start.shapes
    && forall j :: i <= j < |items| ==> t.present[(path, items[j].key)] == t0.present[(path, items[j].key)]
  }

  lemma PendingStep(t: Tally, t0: Tally, start: Tally, path: string, items: seq<Field>, i: nat, safe: set<string>)
    requires i < |items| && DistinctKeys(items) && items[i].key in safe && Pending(t, t0, start, path, items, i)
    requires t0.present[(path, items[i].key)] <= t0.parents[path]
    ensures t.present[(path, items[i].key)] < t.parents[path]
    ensures Pending(t.Plus(OneField(path, items[i].key, safe)), t0, start, path, items, i + 1)
  {
  }

  lemma ObjectKeepsBalance(t: Tally, path: string, seen: set<string>, safe: set<string>)
    requires Balanced(t, seen, safe)
    ensures Balanced(t.Plus(OneObject(path)), seen, safe) && t.Plus(OneObject(path)).shapes == t.shapes
    ensures t.Plus(OneObject(path)).present == t.present
    ensures t.Plus(OneObject(path)).parents == t.parents + multiset{path}
  {
  }

  lemma UnsafeKeepsBalance(t: Tally, n: nat, seen: set<string>, safe: set<string>)
    requires Balanced(t, seen, safe)
    ensures Balanced(t.(unsafe := n), seen, safe)
  {
  }

  lemma BalancedMeans(t: Tally, seen: set<string>, safe: set<string>, p: string, k: string)
    requires Balanced(t, seen, safe)
    ensures t.present[(p, k)] <= t.parents[p]
    ensures k in safe ==> t.presence[FieldPath(p, k)] == t.present[(p, k)]
  {
  }

  lemma FieldPathSplits(p: string, k: string, q: string, j: string)
    requires Lacks(k, '.') && Lacks(j, '.') && FieldPath(p, k) == FieldPath(q, j)
    ensures p == q && k == j
  {
    LastIndexIs(p, '.', k);
    LastIndexIs(q, '.', j);
    assert FieldPath(p, k) == p + ['.'] + k && FieldPath(q, j) == q + ['.'] + j;
    assert FieldPath(p, k)[..|p|] == p && FieldPath(q, j)[..|q|] == q;
    assert FieldPath(p, k)[|p| + 1..] == k && FieldPath(q, j)[|q| + 1..] == j;
  }

  lemma FieldKeepsBalance(t: Tally, path: string, key: string, seen: set<string>, safe: set<string>)
    requires Balanced(t, seen, safe) && key in safe && DotFree(safe) && t.present[(path, key)] < t.parents[path]
    ensures Balanced(t.Plus(OneField(path, key, safe)), seen + {FieldPath(path, key)}, safe)
    ensures t.Plus(OneField(path, key, safe)).parents == t.parents
  {
    hide FieldPath, DotFree;
    var u := t.Plus(OneField(path, key, safe));
    FieldCountedOnce(t, path, key, safe);
    forall q, j | j in safe ensures u.presence[FieldPath(q, j)] == u.present[(q, j)] {
      assert t.presence[FieldPath(q, j)] == t.present[(q, j)];
      SamePath(q, j, path, key, safe);
    }
  }

  lemma SamePath(q: string, j: string, path: string, key: string, safe: set<string>)
    requires j in safe && key in safe && DotFree(safe)
    ensures FieldPath(q, j) == FieldPath(path, key) <==> q == path && j == key
  {
    if FieldPath(q, j) == FieldPath(path, key) {
      FieldPathSplits(q, j, path, key);
    }
  }

  lemma FieldCountedOnce(t: Tally, path: string, key: string, safe: set<string>)
    requires key in safe
    ensures var u := t.Plus(OneField(path, key, safe));
      u.presence == t.presence + multiset{FieldPath(path, key)} && u.present == t.present + multiset{(path, key)} && u.parents == t.parents
  {
    hide FieldPath;
  }

  lemma FieldAssociates(a: Tally, b: Tally, c: Tally, d: Tally)
    ensures a.Plus(b).Plus(c).Plus(d) == a.Plus(b.Plus(c).Plus(d))
  {
    PlusAssociates(a.Plus(b), c, d);
    PlusAssociates(a, b, c.Plus(d));
    PlusAssociates(b, c, d);
  }

  lemma ObjectAssociates(t: Tally, v: Json, path: string, safe: set<string>)
    requires v.Object?
    ensures t.Plus(OneNode(v, path)).Plus(OneObject(path)).Plus(FieldsPresent(v.fields, path, safe))
             .Plus(FullFields(v.fields, path, safe)) == t.Plus(Full(v, path, safe))
  {
    hide FieldsPresent, FullFields;
    var n, o, f, g := OneNode(v, path), OneObject(path), FieldsPresent(v.fields, path, safe), FullFields(v.fields, path, safe);
    FieldAssociates(t.Plus(n), o, f, g);
    PlusAssociates(t, n, o.Plus(f).Plus(g));
    FieldAssociates(n, o, f, g);
  }

  lemma NodeKeepsBalance(t: Tally, v: Json, path: string, seen: set<string>, safe: set<string>)
    requires Balanced(t, seen, safe)
    ensures Balanced(t.Plus(OneNode(v, path)), seen, safe)
    ensures |t.Plus(OneNode(v, path)).shapes| == |t.shapes| + 1
  {
  }

  lemma ValueKeepsBalance(t: Tally, path: string, v: Json, seen: set<string>, safe: set<string>)
    requires Balanced(t, seen, safe)
    ensures Balanced(t.Plus(OneFieldValue(path, v)), seen, safe)
    ensures t.Plus(OneFieldValue(path, v)).shapes == t.shapes
  {
  }

  predicate DotFree(safe: set<string>) {
    forall k <- safe :: Lacks(k, '.')
  }
}
