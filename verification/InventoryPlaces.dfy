/** What the uncapped inventory counts, over the places of the document: each count is the number
    of places of its kind (scripts/takeout-format-inventory.py:58-119). */
module InventoryPlaces {
  import opened Text
  import opened Inventory

  // --------------------------------------------------------------------- places

  datatype Member = Member(parent: string, key: string)

  /** What stands at a place: its path, its value, for a field's value the path of its object and
      its key, and whether that key is allowed to be looked at. */
  datatype View = View(path: string, value: Json, member: Option<Member>, looked: bool)

  /** How many values stand right below: none below a field that is not looked at. */
  function Kids(w: View): nat {
    if !w.looked then 0
    else
      match w.value
      case Array(items) => |items|
      case Object(fields) => |fields|
      case _ => 0
  }

  function Kid(w: View, safe: set<string>, i: nat): (k: View)
    requires i < Kids(w)
    ensures k.value < w.value
  {
    match w.value
    case Array(items) => View(w.path + "[]", items[i], None, true)
    case Object(fields) =>
      var f := fields[i];
      View(w.path + "." + f.key, f.value, Some(Member(w.path, f.key)), f.key in safe)
  }

  /** A place in a document: the positions to descend through. */
  predicate IsPlace(w: View, safe: set<string>, s: seq<nat>)
    decreases |s|
  {
    s == [] || (s[0] < Kids(w) && IsPlace(Kid(w, safe, s[0]), safe, s[1..]))
  }

  function ViewAt(w: View, safe: set<string>, s: seq<nat>): View
    requires IsPlace(w, safe, s)
    decreases |s|
  {
    if s == [] then w else ViewAt(Kid(w, safe, s[0]), safe, s[1..])
  }

  // --------------------------------------------------------------------- counts

  /** The counts of an inventory. */
  datatype Count =
    | Shape(path: string, kind: Kind)
    | Parent(path: string)
    | Present(parent: string, key: string)
    | Presence(path: string)
    | Type(path: string, kind: Kind)
    | Empty(path: string, emptiness: Emptiness)
    | Unrecognised

  function CountIn(t: Tally, x: Count): nat {
    match x
    case Shape(path, kind) => t.shapes[(path, kind)]
    case Parent(path) => t.parents[path]
    case Present(parent, key) => t.present[(parent, key)]
    case Presence(path) => t.presence[path]
    case Type(path, kind) => t.types[(path, kind)]
    case Empty(path, e) => t.empties[(path, e)]
    case Unrecognised => t.unsafe
  }

  /** What is counted: values by path and kind, objects by path, and of the values of fields their
      object and key, their path, their kind, and whether they are null or empty; of a field whose
      key is not allowed, only that it is there. */
  predicate Counted(w: View, x: Count) {
    if !w.looked then x == Unrecognised
    else
      match x
      case Shape(path, kind) => w.path == path && KindOf(w.value) == kind
      case Parent(path) => w.path == path && w.value.Object?
      case Present(parent, key) => w.member == Some(Member(parent, key))
      case Presence(path) => w.member.Some? && w.path == path
      case Type(path, kind) => w.member.Some? && w.path == path && KindOf(w.value) == kind
      case Empty(path, e) => w.member.Some? && w.path == path && EmptyState(w.value) == Some(e)
      case Unrecognised => false
  }

  /** The places that are counted. */
  ghost function Places(w: View, safe: set<string>, x: Count): set<seq<nat>>
    decreases w.value, 1
  {
    (if Counted(w, x) then {[]} else {}) +
    (set i: nat, s | i < Kids(w) && s in KidPlaces(w, safe, x, i) :: [i] + s)
  }

  ghost function KidPlaces(w: View, safe: set<string>, x: Count, i: nat): set<seq<nat>>
    requires i < Kids(w)
    decreases w.value, 0
  {
    Places(Kid(w, safe, i), safe, x)
  }

  lemma PlaceParts(w: View, safe: set<string>, x: Count, s: seq<nat>)
    ensures s in Places(w, safe, x) <==>
            if s == [] then Counted(w, x) else s[0] < Kids(w) && s[1..] in KidPlaces(w, safe, x, s[0])
  {
    hide Counted, KidPlaces;
    if s != [] {
      assert s == [s[0]] + s[1..];
      if i: nat, r :| i < Kids(w) && r in KidPlaces(w, safe, x, i) && s == [i] + r {
        assert s[0] == i && s[1..] == r;
      }
    }
  }

  lemma {:induction false} PlacesIff(w: View, safe: set<string>, x: Count, s: seq<nat>)
    ensures s in Places(w, safe, x) <==> IsPlace(w, safe, s) && Counted(ViewAt(w, safe, s), x)
    decreases |s|
  {
    hide Counted, Places, Kids, Kid;
    PlaceParts(w, safe, x, s);
    if s != [] && s[0] < Kids(w) {
      PlacesIff(Kid(w, safe, s[0]), safe, x, s[1..]);
    }
  }

  // ------------------------------------------------------------------ their number

  ghost function Under(i: nat, ss: set<seq<nat>>): set<seq<nat>> {
    set s | s in ss :: [i] + s
  }

  lemma {:induction false} UnderSize(i: nat, ss: set<seq<nat>>)
    ensures |Under(i, ss)| == |ss|
    decreases |ss|
  {
    if ss != {} {
      var s :| s in ss;
      UnderSize(i, ss - {s});
      forall r | r in ss - {s} ensures [i] + r != [i] + s {
        assert ([i] + r)[1..] == r && ([i] + s)[1..] == s;
      }
      assert Under(i, ss) == Under(i, ss - {s}) + {[i] + s};
    }
  }

  /** The counted places from the `i`th kid on. */
  ghost function From(w: View, safe: set<string>, x: Count, i: nat): set<seq<nat>> {
    set s | s in Places(w, safe, x) && s != [] && s[0] >= i
  }

  lemma InUnder(i: nat, ss: set<seq<nat>>, s: seq<nat>)
    ensures s in Under(i, ss) <==> s != [] && s[0] == i && s[1..] in ss
  {
    if s != [] && s[0] == i {
      assert s == [i] + s[1..];
    }
    if r :| r in ss && s == [i] + r {
      assert s[1..] == r;
    }
  }

  lemma InHere(w: View, safe: set<string>, x: Count, i: nat, s: seq<nat>)
    requires i < Kids(w)
    ensures s in Under(i, KidPlaces(w, safe, x, i)) <==> s != [] && s[0] == i && s in Places(w, safe, x)
  {
    hide Places, KidPlaces, Under, Kids, Counted;
    PlaceParts(w, safe, x, s);
    InUnder(i, KidPlaces(w, safe, x, i), s);
  }

  lemma SplitSize<T>(a: set<T>, b: set<T>, c: set<T>)
    requires a == b + c && b !! c
    ensures |a| == |b| + |c|
  {
  }

  lemma FromStep(w: View, safe: set<string>, x: Count, i: nat)
    requires i < Kids(w)
    ensures |From(w, safe, x, i)| == |KidPlaces(w, safe, x, i)| + |From(w, safe, x, i + 1)|
  {
    hide Places, KidPlaces, Under, Kids;
    var here := Under(i, KidPlaces(w, safe, x, i));
    forall s ensures s in here <==> s != [] && s[0] == i && s in Places(w, safe, x) {
      InHere(w, safe, x, i, s);
    }
    SplitSize(From(w, safe, x, i), here, From(w, safe, x, i + 1));
    UnderSize(i, KidPlaces(w, safe, x, i));
  }

  lemma FromEnd(w: View, safe: set<string>, x: Count)
    ensures From(w, safe, x, Kids(w)) == {}
    ensures |Places(w, safe, x)| == (if Counted(w, x) then 1 else 0) + |From(w, safe, x, 0)|
  {
    hide Places, Counted, KidPlaces, Kids;
    forall s | s in Places(w, safe, x) ensures if s == [] then Counted(w, x) else s[0] < Kids(w) {
      PlaceParts(w, safe, x, s);
    }
    PlaceParts(w, safe, x, []);
    SplitSize(Places(w, safe, x), if Counted(w, x) then {[]} else {}, From(w, safe, x, 0));
  }

  // --------------------------------------------------------------- the inventory

  lemma CountsAdd(a: Tally, b: Tally, x: Count)
    ensures CountIn(a.Plus(b), x) == CountIn(a, x) + CountIn(b, x)
  {
  }

  lemma NodeCounts(v: Json, p: string, x: Count)
    ensures CountIn(OneNode(v, p), x) == if x == Shape(p, KindOf(v)) then 1 else 0
    ensures CountIn(OneObject(p), x) == if x == Parent(p) then 1 else 0
    ensures CountIn(NOTHING, x) == 0
  {
  }

  /** What the enclosing object counts of a field's value. */
  predicate ByMember(w: View, x: Count) {
    !x.Shape? && !x.Parent? && Counted(w, x)
  }

  lemma FieldCounts(p: string, f: Field, safe: set<string>, x: Count)
    ensures var kid := View(p + "." + f.key, f.value, Some(Member(p, f.key)), f.key in safe);
      CountIn(OneField(p, f.key, safe), x) + (if f.key in safe then CountIn(OneFieldValue(FieldPath(p, f.key), f.value), x) else 0) ==
      if ByMember(kid, x) then 1 else 0
  {
  }

  lemma RootCounts(w: View, x: Count)
    requires w.looked
    ensures (if Counted(w, x) then 1 else 0) ==
            (if x == Shape(w.path, KindOf(w.value)) then 1 else 0) + (if w.value.Object? && x == Parent(w.path) then 1 else 0) +
            (if ByMember(w, x) then 1 else 0)
  {
  }

  /** Apart from what its object counts of it, a value is counted as the inventory counts it. */
  lemma {:induction false} FullCounts(w: View, safe: set<string>, x: Count)
    requires w.looked
    ensures |Places(w, safe, x)| == CountIn(Full(w.value, w.path, safe), x) + if ByMember(w, x) then 1 else 0
    decreases w.value, 1
  {
    hide Places, Counted, ByMember, CountIn, From, FullItems, FullFields, FieldsPresent, OneNode, OneObject, Tally.Plus;
    NodeCounts(w.value, w.path, x);
    RootCounts(w, x);
    FromEnd(w, safe, x);
    match w.value {
      case Array(items) =>
        ItemsCount(w, safe, x, 0);
        CountsAdd(OneNode(w.value, w.path), FullItems(items, ItemPath(w.path), safe), x);
        assert items[0..] == items;
      case Object(fields) =>
        FieldsCount(w, safe, x, 0);
        var a, b, c, d := OneNode(w.value, w.path), OneObject(w.path), FieldsPresent(fields, w.path, safe), FullFields(fields, w.path, safe);
        CountsAdd(a, b, x);
        CountsAdd(a.Plus(b), c, x);
        CountsAdd(a.Plus(b).Plus(c), d, x);
        assert fields[0..] == fields;
      case _ =>
        assert |From(w, safe, x, 0)| == 0;
    }
  }

  lemma NoMember(w: View, x: Count)
    ensures w.member == None && w.looked ==> !ByMember(w, x)
  {
  }

  lemma {:induction false} ItemsCount(w: View, safe: set<string>, x: Count, i: nat)
    requires w.looked && w.value.Array? && i <= |w.value.items|
    ensures |From(w, safe, x, i)| == CountIn(FullItems(w.value.items[i..], ItemPath(w.path), safe), x)
    decreases w.value, 0, |w.value.items| - i
  {
    hide Places, Counted, ByMember, CountIn, From, Full, Tally.Plus;
    var items := w.value.items;
    NodeCounts(w.value, w.path, x);
    if i == |items| {
      FromEnd(w, safe, x);
    } else {
      var kid := Kid(w, safe, i);
      FromStep(w, safe, x, i);
      FullCounts(kid, safe, x);
      NoMember(kid, x);
      ItemsCount(w, safe, x, i + 1);
      assert items[i..][0] == items[i] && items[i..][1..] == items[i + 1..];
      CountsAdd(Full(items[i], ItemPath(w.path), safe), FullItems(items[i + 1..], ItemPath(w.path), safe), x);
    }
  }

  lemma NotLookedAt(w: View, safe: set<string>, x: Count)
    requires !w.looked
    ensures |Places(w, safe, x)| == if ByMember(w, x) then 1 else 0
  {
    FromEnd(w, safe, x);
    hide Places;
  }

  lemma {:induction false} FieldsCount(w: View, safe: set<string>, x: Count, i: nat)
    requires w.looked && w.value.Object? && i <= |w.value.fields|
    ensures |From(w, safe, x, i)| ==
            CountIn(FieldsPresent(w.value.fields[i..], w.path, safe), x) + CountIn(FullFields(w.value.fields[i..], w.path, safe), x)
    decreases w.value, 0, |w.value.fields| - i
  {
    hide Places, Counted, ByMember, CountIn, From, Full, Tally.Plus, OneField, OneFieldValue;
    var fields := w.value.fields;
    NodeCounts(w.value, w.path, x);
    if i == |fields| {
      FromEnd(w, safe, x);
    } else {
      var f, kid := fields[i], Kid(w, safe, i);
      FromStep(w, safe, x, i);
      FieldsCount(w, safe, x, i + 1);
      FieldCounts(w.path, f, safe, x);
      assert fields[i..][0] == f && fields[i..][1..] == fields[i + 1..];
      var present, rest := FieldsPresent(fields[i + 1..], w.path, safe), FullFields(fields[i + 1..], w.path, safe);
      CountsAdd(OneField(w.path, f.key, safe), present, x);
      if f.key in safe {
        FullCounts(kid, safe, x);
        var value, whole := OneFieldValue(FieldPath(w.path, f.key), f.value), Full(f.value, FieldPath(w.path, f.key), safe);
        CountsAdd(value, whole, x);
        CountsAdd(value.Plus(whole), rest, x);
      } else {
        NotLookedAt(kid, safe, x);
      }
    }
  }

  /** Every count of a document's inventory is the number of the places that it counts. */
  lemma EveryCount(document: Json, safe: set<string>, x: Count)
    ensures var root := View("$", document, None, true);
      && CountIn(Full(document, "$", safe), x) == |Places(root, safe, x)|
      && forall s :: s in Places(root, safe, x) <==> IsPlace(root, safe, s) && Counted(ViewAt(root, safe, s), x)
  {
    hide Places, Counted, CountIn, Full;
    var root := View("$", document, None, true);
    FullCounts(root, safe, x);
    NoMember(root, x);
    forall s {
      PlacesIff(root, safe, x, s);
    }
  }
}
