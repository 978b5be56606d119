/** The wipe and re-collect cycle: what is wiped, how each session and each tracked count is
    judged, and what the run's verdict implies (scripts/extval-stress.py:233-255, 287-301, 397-451, 508-634). */
module WipeVerdict {
  import opened Text

  /** The counts and content digest of one session directory. */
  datatype Snap = Snap(files: nat, shards: nat, bytes: nat, digest: string)

  /** The entries of a machine's directory; an entry that is no directory has no snapshot. */
  type Dir = map<string, Option<Snap>>

  // ------------------------------------------------------ which entries are touched

  predicate HasPrefix(name: string, platform: string) {
    platform + "." <= name
  }

  /** `<platform>.<id>` is a web session; `<platform>.<machine>.<id>` is a local harness one. */
  predicate IsWeb(name: string, platform: string) {
    HasPrefix(name, platform) && Lacks(name[|platform| + 1..], '.')
  }

  predicate IsHarness(name: string, platform: string) {
    HasPrefix(name, platform) && !Lacks(name[|platform| + 1..], '.')
  }

  function Picked(names: seq<string>, pick: string -> bool): (r: seq<string>)
    ensures forall n :: n in r <==> n in names && pick(n)
  {
    if names == [] then []
    else Picked(names[..|names| - 1], pick) + (if pick(names[|names| - 1]) then [names[|names| - 1]] else [])
  }

  /** The picked names keep their order, and each is picked for itself. */
  lemma {:induction false} PickedInOrder(a: seq<string>, n: string, b: seq<string>, pick: string -> bool)
    ensures Picked(a + [n] + b, pick) == Picked(a, pick) + (if pick(n) then [n] else []) + Picked(b, pick)
  {
    if b == [] {
      assert a + [n] + b == a + [n];
      PickedLast(a, n, pick);
    } else {
      var init, last := b[..|b| - 1], b[|b| - 1];
      assert b == init + [last] && a + [n] + b == (a + [n] + init) + [last];
      PickedInOrder(a, n, init, pick);
      PickedLast(a + [n] + init, last, pick);
      PickedLast(init, last, pick);
      hide Picked;
    }
  }

  lemma PickedLast(a: seq<string>, n: string, pick: string -> bool)
    ensures Picked(a + [n], pick) == Picked(a, pick) + if pick(n) then [n] else []
  {
    assert (a + [n])[..|a|] == a;
  }

  function Web(platform: string): string -> bool {
    n => IsWeb(n, platform)
  }

  function Harness(platform: string): string -> bool {
    n => IsHarness(n, platform)
  }

  lemma TailOf(platform: string, tail: string)
    ensures HasPrefix(platform + "." + tail, platform) && (platform + "." + tail)[|platform| + 1..] == tail
  {
  }

  lemma NameOf(name: string, platform: string)
    requires HasPrefix(name, platform)
    ensures name == platform + "." + name[|platform| + 1..]
  {
  }

  /** A web session's name is the platform, a dot, and an id without dots. */
  lemma WebIff(name: string, platform: string)
    ensures IsWeb(name, platform) <==> exists id: string :: name == platform + "." + id && '.' !in id
  {
    if IsWeb(name, platform) {
      NameOf(name, platform);
      assert '.' !in name[|platform| + 1..];
    }
    if id: string :| name == platform + "." + id && '.' !in id {
      TailOf(platform, id);
    }
  }

  /** A local harness session's name has a machine and another dot before its id. */
  lemma HarnessIff(name: string, platform: string)
    ensures IsHarness(name, platform) <==> exists tail: string :: name == platform + "." + tail && '.' in tail
  {
    if IsHarness(name, platform) {
      NameOf(name, platform);
      assert '.' in name[|platform| + 1..];
    }
    if tail: string :| name == platform + "." + tail && '.' in tail {
      TailOf(platform, tail);
    }
  }

  /** The split of a platform's entries, in order: no name is in both parts, and none is lost. */
  method PlatformEntries(names: seq<string>, platform: string) returns (web: seq<string>, harness: seq<string>)
    ensures web == Picked(names, Web(platform)) && harness == Picked(names, Harness(platform))
    ensures forall n <- names :: HasPrefix(n, platform) <==> n in web || n in harness
    ensures forall n <- web :: n !in harness
  {
    web, harness := [], [];
    for i := 0 to |names|
      invariant web == Picked(names[..i], Web(platform)) && harness == Picked(names[..i], Harness(platform))
    {
      var name := names[i];
      assert names[..i + 1][..i] == names[..i];
      if platform + "." <= name {
        var rest := name[|platform| + 1..];
        if IndexOfChar(rest, '.') < |rest| {
          harness := harness + [name];
        } else {
          assert rest == rest[..|rest|];
          web := web + [name];
        }
      }
    }
    assert names[..|names|] == names;
  }

  function WebSnaps(dir: Dir, platform: string): Dir {
    map name | name in dir && IsWeb(name, platform) :: dir[name]
  }

  datatype Mode = WipeAll | RandomHalf

  /** How many of `n` entries a wipe removes: half rounded down, but never none of some. */
  function WipeCount(mode: Mode, n: nat): nat {
    if mode == WipeAll then n else if n / 2 == 0 && n > 0 then 1 else n / 2
  }

  /** The random choice is a parameter: any selection of the right size. */
  predicate IsSample(chosen: set<string>, names: set<string>, mode: Mode) {
    chosen <= names && |chosen| == WipeCount(mode, |names|)
  }

  lemma WipesSomething(chosen: set<string>, names: set<string>, mode: Mode)
    requires IsSample(chosen, names, mode)
    ensures chosen <= names && (chosen == {} <==> names == {})
    ensures mode == WipeAll ==> chosen == names
    ensures mode == RandomHalf && |names| > 1 ==> 2 * |chosen| <= |names| <= 2 * |chosen| + 1
  {
    if mode == WipeAll {
      assert |names - chosen| == |names| - |chosen|;
      assert names == chosen + (names - chosen);
    }
  }

  /** Whatever the sessions are, there is something to choose. */
  lemma {:induction false} SomeSample(names: set<string>, mode: Mode) returns (chosen: set<string>)
    ensures IsSample(chosen, names, mode)
  {
    chosen := SomeOf(names, WipeCount(mode, |names|));
  }

  lemma {:induction false} SomeOf(names: set<string>, n: nat) returns (some: set<string>)
    requires n <= |names|
    ensures some <= names && |some| == n
  {
    some := {};
    if n > 0 {
      var name :| name in names;
      assert |names - {name}| == |names| - 1;
      some := SomeOf(names - {name}, n - 1);
      some := some + {name};
    }
  }

  // ------------------------------------------------------------------ one session

  datatype SessionVerdict = Absent | Appeared | Anomaly | Lost | Wiped | Restored | Kept | Changed

  function JudgeSession(before: Option<Snap>, after: Option<Snap>, wiped: bool, collectRan: bool): SessionVerdict {
    match (before, after)
    case (None, None) => Absent
    case (None, Some(_)) => Appeared
    case (Some(_), None) => if !wiped then Anomaly else if collectRan then Lost else Wiped
    case (Some(b), Some(a)) => if b.digest == a.digest then (if wiped then Restored else Kept) else Changed
  }

  /** Each row of the report by what was there before and after the wipe. */
  lemma RowsMean(before: Option<Snap>, after: Option<Snap>, wiped: bool, collectRan: bool)
    ensures var v, same := JudgeSession(before, after, wiped, collectRan),
              before.Some? && after.Some? && before.value.digest == after.value.digest;
      && (v == Absent <==> before == None == after) && (v == Appeared <==> before == None != after)
      && (v == Restored <==> wiped && same) && (v == Kept <==> !wiped && same)
      && (v == Changed <==> before.Some? && after.Some? && !same)
      && (v == Anomaly <==> before != None == after && !wiped)
      && (v == Lost <==> before != None == after && wiped && collectRan)
      && (v == Wiped <==> before != None == after && wiped && !collectRan)
  {
  }

  predicate IsBroken(v: SessionVerdict) {
    v in {Lost, Changed, Anomaly}
  }

  function SnapOf(snaps: Dir, name: string): Option<Snap> {
    if name in snaps then snaps[name] else None
  }

  // ------------------------------------------------------------ the tracked counts

  datatype Json =
    | Null | Bool(b: bool) | Num(n: real) | Str(s: string)
    | Arr(items: seq<Json>) | Obj(fields: map<string, Json>)

  /** The number a value is in Python, where true is 1 and false is 0. */
  function AsNumber(v: Json): Option<real> {
    match v
    case Bool(b) => Some(if b then 1.0 else 0.0)
    case Num(n) => Some(n)
    case _ => None
  }

  /** `a == b` */
  predicate Same(a: Json, b: Json)
    decreases a
  {
    if AsNumber(a).Some? || AsNumber(b).Some? then AsNumber(a) == AsNumber(b)
    else
      match (a, b)
      case (Null, Null) => true
      case (Str(s), Str(t)) => s == t
      case (Arr(xs), Arr(ys)) => |xs| == |ys| && forall i :: 0 <= i < |xs| ==> Same(xs[i], ys[i])
      case (Obj(f), Obj(g)) => f.Keys == g.Keys && forall k <- f.Keys :: Same(f[k], g[k])
      case _ => false
  }

  predicate TextLess(s: string, t: string) {
    t != "" && (s == "" || s[0] < t[0] || (s[0] == t[0] && TextLess(s[1..], t[1..])))
  }

  /** `a < b`, or None where Python raises: numbers with numbers, texts with texts, and lists by
      the first items that differ. */
  function Less(a: Json, b: Json): Option<bool>
    decreases a, 1
  {
    if AsNumber(a).Some? && AsNumber(b).Some? then Some(AsNumber(a).value < AsNumber(b).value)
    else
      match (a, b)
      case (Str(s), Str(t)) => Some(TextLess(s, t))
      case (Arr(xs), Arr(ys)) => ListLess(xs, ys)
      case _ => None
  }

  function ListLess(xs: seq<Json>, ys: seq<Json>): Option<bool>
    decreases xs, 0
  {
    if ys == [] then Some(false)
    else if xs == [] then Some(true)
    else if Same(xs[0], ys[0]) then ListLess(xs[1..], ys[1..])
    else Less(xs[0], ys[0])
  }

  /** Nothing is less than itself. */
  lemma {:induction false} NotLessThanItself(v: Json)
    ensures Same(v, v) && Less(v, v) != Some(true)
    decreases v, 1
  {
    match v {
      case Arr(items) =>
        ListNotLess(items);
      case Obj(fields) =>
        forall k <- fields.Keys ensures Same(fields[k], fields[k]) {
          NotLessThanItself(fields[k]);
        }
      case Str(s) =>
        TextNotLess(s);
      case _ =>
    }
  }

  lemma {:induction false} ListNotLess(items: seq<Json>)
    ensures ListLess(items, items) == Some(false) && forall i :: 0 <= i < |items| ==> Same(items[i], items[i])
    decreases items, 0
  {
    if items != [] {
      NotLessThanItself(items[0]);
      ListNotLess(items[1..]);
      forall i | 0 <= i < |items| ensures Same(items[i], items[i]) {
        if i > 0 {
          assert items[i] == items[1..][i - 1];
        }
      }
    }
  }

  lemma {:induction false} TextNotLess(s: string)
    ensures !TextLess(s, s)
  {
    if s != "" {
      TextNotLess(s[1..]);
    }
  }

  /** The numbers among the values: true counts as 1 and false as 0. */
  lemma NumberIff(v: Json, x: real)
    ensures AsNumber(v) == Some(x) <==> v == Num(x) || (v == Bool(true) && x == 1.0) || (v == Bool(false) && x == 0.0)
  {
  }

  predicate NoBools(v: Json) {
    match v
    case Bool(_) => false
    case Arr(items) => forall i :: 0 <= i < |items| ==> NoBools(items[i])
    case Obj(fields) => forall k <- fields.Keys :: NoBools(fields[k])
    case _ => true
  }

  /** Values without booleans are the same exactly when they are equal. */
  lemma {:induction false} SameIff(a: Json, b: Json)
    requires NoBools(a) && NoBools(b)
    ensures Same(a, b) <==> a == b
    decreases a
  {
    match (a, b) {
      case (Arr(xs), Arr(ys)) =>
        if |xs| == |ys| {
          forall i | 0 <= i < |xs| ensures Same(xs[i], ys[i]) <==> xs[i] == ys[i] {
            SameIff(xs[i], ys[i]);
          }
          assert Same(a, b) <==> xs == ys;
        }
      case (Obj(f), Obj(g)) =>
        if f.Keys == g.Keys {
          forall k | k in f.Keys ensures Same(f[k], g[k]) <==> f[k] == g[k] {
            SameIff(f[k], g[k]);
          }
          assert (forall k <- f.Keys :: f[k] == g[k]) <==> f == g;
        }
      case _ =>
    }
  }

  /** The texts agree up to place `k`, where the first one ends or has the lower character. */
  predicate LowerAt(s: string, t: string, k: nat) {
    k <= |s| && k < |t| && (forall i :: 0 <= i < k ==> s[i] == t[i]) && (k == |s| || s[k] < t[k])
  }

  /** Texts are ordered by the first place at which they differ. */
  lemma {:induction false} TextLessIff(s: string, t: string)
    ensures TextLess(s, t) <==> exists k: nat :: LowerAt(s, t, k)
  {
    if s == "" || t == "" || s[0] != t[0] {
      assert TextLess(s, t) <==> LowerAt(s, t, 0);
    } else {
      TextLessIff(s[1..], t[1..]);
      if k: nat :| LowerAt(s[1..], t[1..], k) {
        LowerBehind(s, t, k + 1);
      }
      if k: nat :| LowerAt(s, t, k) {
        LowerBehind(s, t, k);
      }
    }
  }

  lemma LowerBehind(s: string, t: string, k: nat)
    requires s != "" && t != "" && s[0] == t[0]
    ensures LowerAt(s, t, k) <==> k > 0 && LowerAt(s[1..], t[1..], k - 1)
  {
    if k > 0 && LowerAt(s[1..], t[1..], k - 1) {
      assert forall i :: 0 < i < k ==> s[i] == s[1..][i - 1] && t[i] == t[1..][i - 1];
    }
  }

  /** Items `0..k` are the same, and at `k` a list ends or the items differ. */
  predicate DifferAt(xs: seq<Json>, ys: seq<Json>, k: nat) {
    && k <= |xs| && k <= |ys| && (forall i :: 0 <= i < k ==> Same(xs[i], ys[i]))
    && (k < |xs| && k < |ys| ==> !Same(xs[k], ys[k]))
  }

  /** Lists are ordered by the first items that differ, and a list that ends there is the lower. */
  lemma {:induction false} ListLessIs(xs: seq<Json>, ys: seq<Json>, k: nat)
    requires DifferAt(xs, ys, k)
    ensures ListLess(xs, ys) ==
            if k == |ys| then Some(false) else if k == |xs| then Some(true) else Less(xs[k], ys[k])
    decreases k
  {
    hide Same, Less;
    if k > 0 {
      ListLessIs(xs[1..], ys[1..], k - 1);
    }
  }

  datatype Direction = Down | Up

  datatype Metric = Metric(name: string, path: seq<string>, worse: Direction)

  const MUST_NOT_MOVE := [
    Metric("recall.found", ["recall", "found"], Down),
    Metric("content_short.RED", ["content_short_counts", "RED"], Up),
    Metric("content_short.SHORT", ["content_short_counts", "SHORT"], Up)
  ]

  function At(node: Json, path: seq<string>): Json {
    if path == [] then node
    else if !node.Obj? || path[0] !in node.fields then Null
    else At(node.fields[path[0]], path[1..])
  }

  datatype Comparison = Stays | Moves | Raises

  /** The old and the new count, the worse direction first: what must not be less. */
  function Ordered(m: Metric, o: Json, n: Json): Option<bool> {
    if m.worse == Down then Less(n, o) else Less(o, n)
  }

  /** A missing count is a move; counts that Python cannot order raise. */
  function Compare(m: Metric, before: Json, after: Json): Comparison {
    var o, n := At(before, m.path), At(after, m.path);
    if o == Null || n == Null then Moves
    else
      match Ordered(m, o, n)
      case None => Raises
      case Some(worse) => if worse then Moves else Stays
  }

  /** Between numbers a count moves exactly when it gets worse, and a count that is the same on
      both sides never does. */
  lemma CountsCompared(m: Metric, before: Json, after: Json)
    ensures var o, n := At(before, m.path), At(after, m.path);
      && (o.Num? && n.Num? ==> Compare(m, before, after) == if (if m.worse == Down then n.n < o.n else n.n > o.n) then Moves else Stays)
      && (o == n && o != Null ==> Compare(m, before, after) != Moves)
  {
    NotLessThanItself(At(before, m.path));
  }

  /** The labels that moved, or nothing when a comparison raises. A result that is null on either
      side compares nothing. */
  method OracleRegressions(before: Json, after: Json) returns (moved: Option<seq<string>>)
    ensures before == Null || after == Null ==> moved == Some([])
    ensures before != Null && after != Null ==>
              && (moved == None <==> exists m :: m in MUST_NOT_MOVE && Compare(m, before, after) == Raises)
              && (moved.Some? ==> forall m <- MUST_NOT_MOVE :: m.name in moved.value <==> Compare(m, before, after) == Moves)
              && (moved.Some? ==> forall l <- moved.value :: exists m :: m in MUST_NOT_MOVE && m.name == l)
  {
    hide Compare;
    if before == Null || after == Null {
      return Some([]);
    }
    var labels: seq<string> := [];
    MetricLabels();
    for i := 0 to |MUST_NOT_MOVE|
      invariant forall j :: 0 <= j < i ==> Compare(MUST_NOT_MOVE[j], before, after) != Raises
      invariant forall j :: 0 <= j < i ==> (MUST_NOT_MOVE[j].name in labels <==> Compare(MUST_NOT_MOVE[j], before, after) == Moves)
      invariant forall l <- labels :: exists j :: 0 <= j < i && MUST_NOT_MOVE[j].name == l
    {
      match Compare(MUST_NOT_MOVE[i], before, after) {
        case Raises =>
          assert MUST_NOT_MOVE[i] in MUST_NOT_MOVE;
          return None;
        case Moves =>
          labels := labels + [MUST_NOT_MOVE[i].name];
        case Stays =>
      }
    }
    moved := Some(labels);
  }

  lemma MetricLabels()
    ensures forall i, j :: 0 <= i < j < |MUST_NOT_MOVE| ==> MUST_NOT_MOVE[i].name != MUST_NOT_MOVE[j].name
  {
    assert |MUST_NOT_MOVE[0].name| == 12 && |MUST_NOT_MOVE[1].name| == 17 && |MUST_NOT_MOVE[2].name| == 19;
  }

  // ------------------------------------------------------------------ the whole run

  datatype Collect = CollectNotRun | CollectFailed | CollectRan(rc: int)

  datatype Oracle = OracleNotRun | OracleFailed | OracleRan(result: Json)

  function ResultOf(o: Oracle): Json {
    if o.OracleRan? then o.result else Null
  }

  /** How a run ends; `Crashed` is an exception nothing catches. */
  datatype Verdict = DryRun | Crashed | Regressed | NothingWiped | Incomplete | Held

  /** What a run saw: the sessions before and after, what it wiped, and how its steps went. */
  datatype Cycle = Cycle(
    before: Dir, wiped: set<string>, collect: Collect, oracleBefore: Oracle, after: Dir, oracleAfter: Oracle)
  {
    predicate CollectOk() {
      collect == CollectRan(0)
    }

    predicate Complete() {
      CollectOk() && oracleBefore.OracleRan? && oracleAfter.OracleRan?
    }

    function JudgedAs(name: string): SessionVerdict {
      JudgeSession(SnapOf(before, name), SnapOf(after, name), name in wiped, CollectOk())
    }

    predicate Broken() {
      exists name :: name in before.Keys + after.Keys && IsBroken(JudgedAs(name))
    }

    predicate Compared() {
      ResultOf(oracleBefore) != Null && ResultOf(oracleAfter) != Null
    }

    predicate SomeMetric(c: Comparison) {
      Compared() && exists m :: m in MUST_NOT_MOVE && Compare(m, ResultOf(oracleBefore), ResultOf(oracleAfter)) == c
    }

    function Decide(): Verdict {
      if SomeMetric(Raises) then Crashed
      else if Broken() || SomeMetric(Moves) then Regressed
      else if wiped == {} then NothingWiped
      else if !Complete() then Incomplete
      else Held
    }
  }

  function ExitCode(v: Verdict): Option<nat> {
    match v
    case Held => Some(0)
    case Regressed => Some(1)
    case Crashed => None
    case _ => Some(3)
  }

  function Sessions(before: Dir): set<string> {
    set name | name in before && before[name].Some?
  }

  /** The rows of the report. */
  method JudgeSessions(c: Cycle) returns (rows: map<string, SessionVerdict>, broken: seq<string>)
    ensures rows.Keys == c.before.Keys + c.after.Keys && forall name <- rows :: rows[name] == c.JudgedAs(name)
    ensures broken != [] <==> c.Broken()
    ensures forall name :: name in broken <==> name in rows && IsBroken(rows[name])
  {
    hide JudgeSession, IsBroken, SnapOf;
    rows, broken := map[], [];
    var rest := c.before.Keys + c.after.Keys;
    while rest != {}
      invariant rows.Keys !! rest && rows.Keys + rest == c.before.Keys + c.after.Keys
      invariant forall name <- rows :: rows[name] == c.JudgedAs(name)
      invariant forall name :: name in broken <==> name in rows && IsBroken(rows[name])
    {
      var name :| name in rest;
      var verdict := JudgeSession(SnapOf(c.before, name), SnapOf(c.after, name), name in c.wiped, c.CollectOk());
      rows := rows[name := verdict];
      if IsBroken(verdict) {
        broken := broken + [name];
      }
      rest := rest - {name};
    }
    if c.Broken() {
      var name :| name in c.before.Keys + c.after.Keys && IsBroken(c.JudgedAs(name));
      assert name in broken;
    }
    if broken != [] {
      assert broken[0] in broken;
    }
  }

  /** The cycle from the snapshot to the verdict; what the collect step left is the directory
      after it, whatever that is. */
  method Execute(platform: string, mode: Mode, chosen: set<string>, dryRun: bool, dirBefore: Dir,
                 collect: Collect, oracleBefore: Oracle, dirAfter: Dir, oracleAfter: Oracle)
    returns (exit: Option<nat>, verdict: Verdict, cycle: Cycle)
    requires IsSample(chosen, Sessions(WebSnaps(dirBefore, platform)), mode)
    ensures cycle == Cycle(WebSnaps(dirBefore, platform), chosen, collect, oracleBefore, WebSnaps(dirAfter, platform), oracleAfter)
    ensures verdict == if dryRun then DryRun else cycle.Decide()
    ensures exit == Some(0) <==> verdict == Held
    ensures exit == Some(1) <==> verdict == Regressed
    ensures exit == None <==> verdict == Crashed
    ensures exit.Some? ==> exit.value in {0, 1, 3}
  {
    hide JudgeSession, IsBroken, SnapOf, Compare, IsWeb;
    var before := WebSnaps(dirBefore, platform);
    var wiped := chosen;
    var after := WebSnaps(dirAfter, platform);
    cycle := Cycle(before, wiped, collect, oracleBefore, after, oracleAfter);
    if dryRun {
      return Some(3), DryRun, cycle;
    }
    var collectRan := collect.CollectRan? && collect.rc == 0;
    var rows, broken := JudgeSessions(cycle);
    var moves := OracleRegressions(ResultOf(oracleBefore), ResultOf(oracleAfter));
    MetricMoves(cycle, moves);
    var complete := collectRan && oracleBefore.OracleRan? && oracleAfter.OracleRan?;
    if moves == None {
      verdict := Crashed;
    } else if broken != [] || moves.value != [] {
      verdict := Regressed;
    } else if wiped == {} {
      verdict := NothingWiped;
    } else if !complete {
      verdict := Incomplete;
    } else {
      verdict := Held;
    }
    exit := ExitCode(verdict);
  }

  lemma MetricMoves(c: Cycle, moved: Option<seq<string>>)
    requires var b, a := ResultOf(c.oracleBefore), ResultOf(c.oracleAfter);
      if b == Null || a == Null then moved == Some([])
      else
        && (moved == None <==> exists m :: m in MUST_NOT_MOVE && Compare(m, b, a) == Raises)
        && (moved.Some? ==> forall m <- MUST_NOT_MOVE :: m.name in moved.value <==> Compare(m, b, a) == Moves)
        && (moved.Some? ==> forall l <- moved.value :: exists m :: m in MUST_NOT_MOVE && m.name == l)
    ensures moved == None <==> c.SomeMetric(Raises)
    ensures moved.Some? ==> (moved.value != [] <==> c.SomeMetric(Moves))
  {
    hide Compare, MUST_NOT_MOVE;
    if moved.Some? && moved.value != [] {
      assert moved.value[0] in moved.value;
    }
  }

  // ------------------------------------------------------------ what a verdict implies

  /** Every session snapshotted before the wipe is there again with its old content. */
  predicate AllReturned(c: Cycle) {
    forall name :: name in c.before && c.before[name].Some? ==>
      SnapOf(c.after, name).Some? && SnapOf(c.after, name).value.digest == c.before[name].value.digest
  }

  /** Every tracked count was there on both sides, could be compared, and did not get worse. */
  predicate NothingWorse(before: Json, after: Json) {
    forall m <- MUST_NOT_MOVE ::
      var o, n := At(before, m.path), At(after, m.path);
      o != Null && n != Null && Ordered(m, o, n) == Some(false)
  }

  /** The verdict is held exactly when a session was wiped, every step ran, all that was there
      came back, and no tracked count got worse; the last is not asked of an oracle whose result
      is null. */
  lemma HeldIff(c: Cycle)
    ensures c.Decide() == Held <==>
              && c.wiped != {} && c.Complete() && AllReturned(c)
              && (c.Compared() ==> NothingWorse(ResultOf(c.oracleBefore), ResultOf(c.oracleAfter)))
  {
    NotBrokenIff(c);
    MetricsIff(c);
    hide AllReturned, NothingWorse, Compare, MUST_NOT_MOVE, JudgeSession;
  }

  lemma NotBrokenIff(c: Cycle)
    ensures c.Complete() ==> (!c.Broken() <==> AllReturned(c))
  {
    if c.Complete() && !c.Broken() {
      forall name | name in c.before && c.before[name].Some?
        ensures SnapOf(c.after, name).Some? && SnapOf(c.after, name).value.digest == c.before[name].value.digest
      {
        assert !IsBroken(c.JudgedAs(name));
      }
    }
    if c.Complete() && AllReturned(c) {
      forall name | name in c.before.Keys + c.after.Keys ensures !IsBroken(c.JudgedAs(name)) {
        if SnapOf(c.before, name).Some? {
          assert name in c.before;
        }
      }
    }
  }

  lemma MetricsIff(c: Cycle)
    ensures !c.SomeMetric(Raises) && !c.SomeMetric(Moves) <==>
              (c.Compared() ==> NothingWorse(ResultOf(c.oracleBefore), ResultOf(c.oracleAfter)))
  {
    hide MUST_NOT_MOVE, Ordered;
    var b, a := ResultOf(c.oracleBefore), ResultOf(c.oracleAfter);
    forall m | m in MUST_NOT_MOVE
      ensures Compare(m, b, a) == Stays <==>
                var o, n := At(b, m.path), At(a, m.path);
                o != Null && n != Null && Ordered(m, o, n) == Some(false)
    {
    }
    if !c.SomeMetric(Raises) && !c.SomeMetric(Moves) && c.Compared() {
      forall m | m in MUST_NOT_MOVE ensures Compare(m, b, a) == Stays {
        assert Compare(m, b, a) != Raises && Compare(m, b, a) != Moves;
      }
    }
  }

  /** A session that was there is lost, was changed, or went missing without being wiped. */
  lemma BrokenIff(c: Cycle)
    ensures c.Broken() <==>
              exists name :: name in c.before && c.before[name].Some? &&
                if name in c.after && c.after[name].Some? then c.after[name].value.digest != c.before[name].value.digest
                else name !in c.wiped || c.collect == CollectRan(0)
  {
    if c.Broken() {
      var name :| name in c.before.Keys + c.after.Keys && IsBroken(c.JudgedAs(name));
      assert name in c.before && c.before[name].Some?;
    }
    if name :| name in c.before && c.before[name].Some? &&
               if name in c.after && c.after[name].Some? then c.after[name].value.digest != c.before[name].value.digest
               else name !in c.wiped || c.collect == CollectRan(0) {
      assert IsBroken(c.JudgedAs(name));
    }
  }

  // -------------------------------------------------------------- the counts by name

  /** What an oracle's result has under a name in a group of counts. */
  function Count(result: Json, group: string, name: string): Json {
    if result.Obj? && group in result.fields && result.fields[group].Obj? && name in result.fields[group].fields then
      result.fields[group].fields[name]
    else Null
  }

  lemma AtTwo(result: Json, group: string, name: string)
    ensures At(result, [group, name]) == Count(result, group, name)
  {
    assert [group, name][1..] == [name] && [name][1..] == [];
    if result.Obj? && group in result.fields {
      var inner := result.fields[group];
      assert At(inner, [name]) == if inner.Obj? && name in inner.fields then At(inner.fields[name], []) else Null;
    }
  }

  /** Two counts are there, can be ordered, and the first is not less. */
  predicate NotLess(a: Json, b: Json) {
    a != Null && b != Null && Less(a, b) == Some(false)
  }

  /** Nothing got worse: no fewer conversations were found, and no more are RED or SHORT. */
  lemma NothingWorseIff(before: Json, after: Json)
    ensures NothingWorse(before, after) <==>
              && NotLess(Count(after, "recall", "found"), Count(before, "recall", "found"))
              && NotLess(Count(before, "content_short_counts", "RED"), Count(after, "content_short_counts", "RED"))
              && NotLess(Count(before, "content_short_counts", "SHORT"), Count(after, "content_short_counts", "SHORT"))
  {
    hide Less;
    AtTwo(before, "recall", "found");
    AtTwo(after, "recall", "found");
    AtTwo(before, "content_short_counts", "RED");
    AtTwo(after, "content_short_counts", "RED");
    AtTwo(before, "content_short_counts", "SHORT");
    AtTwo(after, "content_short_counts", "SHORT");
    hide At, Count;
    var ms := MUST_NOT_MOVE;
    assert |ms| == 3 && ms[0] in ms && ms[1] in ms && ms[2] in ms;
    assert forall m :: m in ms <==> m == ms[0] || m == ms[1] || m == ms[2];
  }

  /** The result has the three tracked counts, as these numbers. */
  predicate HasCounts(result: Json, found: real, red: real, short: real) {
    && Count(result, "recall", "found") == Num(found)
    && Count(result, "content_short_counts", "RED") == Num(red)
    && Count(result, "content_short_counts", "SHORT") == Num(short)
  }

  /** With all counts measured as numbers, a run is regressed exactly when a session is broken,
      fewer conversations are found, or more are RED or SHORT; it never crashes, and a run that
      is held lost none. */
  lemma CountsGuarded(c: Cycle, found: real, red: real, short: real, found': real, red': real, short': real)
    requires HasCounts(ResultOf(c.oracleBefore), found, red, short) && HasCounts(ResultOf(c.oracleAfter), found', red', short')
    ensures c.Decide() != Crashed
    ensures c.Decide() == Regressed <==> c.Broken() || found' < found || red' > red || short' > short
    ensures c.Decide() == Held ==> found' >= found && red' <= red && short' <= short
  {
    var b, a := ResultOf(c.oracleBefore), ResultOf(c.oracleAfter);
    assert b != Null && a != Null;
    NothingWorseIff(b, a);
    MetricsIff(c);
    forall m | m in MUST_NOT_MOVE ensures Compare(m, b, a) != Raises {
      NumbersCompare(m, b, a, found, red, short, found', red', short');
    }
    hide MUST_NOT_MOVE, Compare, NothingWorse, Count, JudgeSession, IsBroken;
  }

  lemma NumbersCompare(m: Metric, b: Json, a: Json, found: real, red: real, short: real, found': real, red': real, short': real)
    requires m in MUST_NOT_MOVE && HasCounts(b, found, red, short) && HasCounts(a, found', red', short')
    ensures Compare(m, b, a) != Raises
  {
    AtTwo(b, m.path[0], m.path[1]);
    AtTwo(a, m.path[0], m.path[1]);
    assert m.path == [m.path[0], m.path[1]];
    hide At, Count;
  }

  /** A count missing on either side, in results that are there, is never passed over. */
  lemma MissingCountNeverHolds(c: Cycle)
    requires c.Compared()
    requires var b, a := ResultOf(c.oracleBefore), ResultOf(c.oracleAfter);
      || Count(b, "recall", "found") == Null || Count(a, "recall", "found") == Null
      || Count(b, "content_short_counts", "RED") == Null || Count(a, "content_short_counts", "RED") == Null
      || Count(b, "content_short_counts", "SHORT") == Null || Count(a, "content_short_counts", "SHORT") == Null
    ensures c.Decide() == Regressed || c.Decide() == Crashed
  {
    NothingWorseIff(ResultOf(c.oracleBefore), ResultOf(c.oracleAfter));
    MetricsIff(c);
    hide MUST_NOT_MOVE, Compare, NothingWorse, Count, JudgeSession, IsBroken;
  }

  /** An oracle that writes null passes unseen: recall fell from 9 to nothing measured, and the verdict is held. */
  lemma NullResultHolds()
    ensures var snap := Some(Snap(1, 1, 1, "d"));
      var c := Cycle(map["p.a" := snap], {"p.a"}, CollectRan(0), OracleRan(Obj(map["recall" := Obj(map["found" := Num(9.0)])])),
                     map["p.a" := snap], OracleRan(Null));
      c.Decide() == Held && !NothingWorse(ResultOf(c.oracleBefore), ResultOf(c.oracleAfter))
  {
    var snap := Some(Snap(1, 1, 1, "d"));
    var c := Cycle(map["p.a" := snap], {"p.a"}, CollectRan(0), OracleRan(Obj(map["recall" := Obj(map["found" := Num(9.0)])])),
                   map["p.a" := snap], OracleRan(Null));
    assert "p.a" in c.wiped;
    HeldIff(c);
    var m := MUST_NOT_MOVE[0];
    assert m in MUST_NOT_MOVE && At(Null, m.path) == Null;
  }

  /** A run that wipes nothing is never held, and one that wipes takes only web sessions that were there. */
  lemma OnlyWebSessionsWiped(platform: string, mode: Mode, chosen: set<string>, dir: Dir)
    requires IsSample(chosen, Sessions(WebSnaps(dir, platform)), mode)
    ensures forall name <- chosen :: name in dir && dir[name].Some? && IsWeb(name, platform) && !IsHarness(name, platform)
    ensures chosen == {} <==> forall name <- dir :: IsWeb(name, platform) ==> dir[name] == None
  {
    hide IsWeb;
    WipesSomething(chosen, Sessions(WebSnaps(dir, platform)), mode);
    forall name | name in chosen ensures IsWeb(name, platform) && !IsHarness(name, platform) {
      assert name in Sessions(WebSnaps(dir, platform));
      NotBoth(name, platform);
    }
    if chosen == {} {
      forall name | name in dir && IsWeb(name, platform) ensures dir[name] == None {
        assert name !in Sessions(WebSnaps(dir, platform));
      }
    } else {
      var name :| name in chosen;
      assert name in Sessions(WebSnaps(dir, platform));
    }
  }

  lemma NotBoth(name: string, platform: string)
    ensures !(IsWeb(name, platform) && IsHarness(name, platform))
  {
  }
}
