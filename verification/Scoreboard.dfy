/** One scoreboard run over the state the previous run left
    (scripts/dev/scoreboard.py:1899-2069). Clocks are whole seconds, as in the state file. */
module Scoreboard {
  import opened Text

  datatype Key = Key(machine: string, install: string)

  /** One platform's counters as a record reports them. */
  datatype Row = Row(platform: string, captured: int, pending: int)

  datatype Record = Record(key: Key, rows: seq<Row>)

  /** What a run reads: its clock and the records of the extension status, one per install. */
  datatype Run = Run(now: int, records: seq<Record>)

  predicate DistinctRows(rows: seq<Row>) {
    forall i, j :: 0 <= i < j < |rows| ==> rows[i].platform != rows[j].platform
  }

  predicate WellFormed(run: Run) {
    && (forall i, j :: 0 <= i < j < |run.records| ==> run.records[i].key != run.records[j].key)
    && (forall r <- run.records :: DistinctRows(r.rows))
  }

  // ------------------------------------------------------------------- state

  datatype PlatformTrack = PlatformTrack(
    captured: int, pending: int, firstSeen: int, lastSeen: int, lastAdvanced: Option<int>)

  datatype InstallTrack = InstallTrack(
    firstSeen: int, lastSeen: int, present: bool, platforms: map<string, PlatformTrack>)

  type State = map<Key, InstallTrack>

  /** A platform's track after a report: what it was before tells whether captured advanced. */
  function StepTrack(before: Option<PlatformTrack>, row: Row, now: int): PlatformTrack {
    match before
    case None => PlatformTrack(row.captured, row.pending, now, now, None)
    case Some(p) =>
      PlatformTrack(row.captured, row.pending, p.firstSeen, now,
                    if row.captured > p.captured then Some(now) else p.lastAdvanced)
  }

  function Lookup<K, V>(m: map<K, V>, k: K): Option<V> {
    if k in m then Some(m[k]) else None
  }

  function PlatformsOf(before: Option<InstallTrack>): map<string, PlatformTrack> {
    match before
    case None => map[]
    case Some(t) => t.platforms
  }

  function RowOf(rows: seq<Row>, platform: string): Option<Row> {
    if rows == [] then None
    else if rows[0].platform == platform then Some(rows[0])
    else RowOf(rows[1..], platform)
  }

  function RowsOf(records: seq<Record>, key: Key): Option<seq<Row>> {
    if records == [] then None
    else if records[0].key == key then Some(records[0].rows)
    else RowsOf(records[1..], key)
  }

  /** What the run reports for a platform of an install. */
  function ReportOf(run: Run, key: Key, platform: string): Option<Row> {
    match RowsOf(run.records, key)
    case None => None
    case Some(rows) => RowOf(rows, platform)
  }

  /** A platform's track in the state, if it has one. */
  function TrackOf(state: State, key: Key, platform: string): Option<PlatformTrack> {
    if key in state then Lookup(state[key].platforms, platform) else None
  }

  // ----------------------------------------------------------- one run's step

  ghost predicate PlatformsAfter(before: map<string, PlatformTrack>, rows: seq<Row>, now: int, after: map<string, PlatformTrack>) {
    forall p ::
      Lookup(after, p) ==
      match RowOf(rows, p)
      case None => Lookup(before, p)
      case Some(row) => Some(StepTrack(Lookup(before, p), row, now))
  }

  /** The state after a run, install by install and platform by platform. */
  ghost predicate StateAfter(before: State, run: Run, after: State) {
    && (forall key :: key in after <==> key in before || RowsOf(run.records, key).Some?)
    && (forall key <- after :: after[key].present <==> RowsOf(run.records, key).Some?)
    && (forall key <- after :: RowsOf(run.records, key) == None ==>
          key in before && after[key] == before[key].(present := false))
    && (forall key <- after :: RowsOf(run.records, key).Some? ==>
          && after[key].lastSeen == run.now
          && after[key].firstSeen == (if key in before then before[key].firstSeen else run.now)
          && PlatformsAfter(PlatformsOf(Lookup(before, key)), RowsOf(run.records, key).value, run.now, after[key].platforms))
  }

  /** A pending-rising anomaly: the report is above what the state remembers. */
  predicate Rises(before: State, run: Run, key: Key, platform: string) {
    var report, track := ReportOf(run, key, platform), TrackOf(before, key, platform);
    report.Some? && track.Some? && report.value.pending > track.value.pending
  }

  predicate RisesIn(before: map<string, PlatformTrack>, rows: seq<Row>, platform: string) {
    RowOf(rows, platform).Some? && platform in before &&
    RowOf(rows, platform).value.pending > before[platform].pending
  }

  datatype Anomaly = Anomaly(key: Key, platform: string)

  method UpdatePlatforms(before: map<string, PlatformTrack>, rows: seq<Row>, now: int, key: Key)
    returns (after: map<string, PlatformTrack>, rising: set<Anomaly>)
    requires DistinctRows(rows)
    ensures PlatformsAfter(before, rows, now, after)
    ensures forall a :: a in rising <==> a.key == key && RisesIn(before, rows, a.platform)
  {
    hide StepTrack;
    after, rising := before, {};
    for i := 0 to |rows|
      invariant PlatformsAfter(before, rows[..i], now, after)
      invariant forall a :: a in rising <==> a.key == key && RisesIn(before, rows[..i], a.platform)
    {
      var row := rows[i];
      RowOfAppend(rows, i);
      if row.platform in before && row.pending > before[row.platform].pending {
        rising := rising + {Anomaly(key, row.platform)};
      }
      after := after[row.platform := StepTrack(Lookup(before, row.platform), row, now)];
    }
    assert rows[..|rows|] == rows;
  }

  lemma {:induction false} RowOfPrefix(rows: seq<Row>, row: Row)
    requires forall r <- rows :: r.platform != row.platform
    ensures forall p :: RowOf(rows + [row], p) == if p == row.platform then Some(row) else RowOf(rows, p)
    ensures RowOf(rows, row.platform) == None
  {
    if rows == [] {
      assert rows + [row] == [row] && [row][1..] == [];
    } else {
      assert (rows + [row])[1..] == rows[1..] + [row];
      RowOfPrefix(rows[1..], row);
    }
  }

  lemma RowOfAppend(rows: seq<Row>, i: nat)
    requires i < |rows| && DistinctRows(rows)
    ensures forall p :: RowOf(rows[..i + 1], p) == if p == rows[i].platform then Some(rows[i]) else RowOf(rows[..i], p)
    ensures RowOf(rows[..i], rows[i].platform) == None
  {
    assert rows[..i + 1] == rows[..i] + [rows[i]];
    RowOfPrefix(rows[..i], rows[i]);
  }

  lemma {:induction false} RowsOfPrefix(records: seq<Record>, r: Record)
    requires forall x <- records :: x.key != r.key
    ensures forall k :: RowsOf(records + [r], k) == if k == r.key then Some(r.rows) else RowsOf(records, k)
    ensures RowsOf(records, r.key) == None
  {
    if records == [] {
      assert records + [r] == [r] && [r][1..] == [];
    } else {
      assert (records + [r])[1..] == records[1..] + [r];
      RowsOfPrefix(records[1..], r);
    }
  }

  /** `_restore_tracks`: what the state file remembers, with nobody present yet. */
  function Restored(previous: Option<State>): State {
    match previous
    case None => map[]
    case Some(state) => map key | key in state :: state[key].(present := false)
  }

  /** The state part of `evaluate`: the loop over the records, then the new state. */
  method Evaluate(previous: Option<State>, run: Run) returns (next: State, rising: set<Anomaly>)
    requires WellFormed(run)
    ensures StateAfter(Restored(previous), run, next)
    ensures forall a :: a in rising <==> Rises(Restored(previous), run, a.key, a.platform)
  {
    hide PlatformsAfter;
    var before := Restored(previous);
    next, rising := before, {};
    for i := 0 to |run.records|
      invariant StateAfter(before, Run(run.now, run.records[..i]), next)
      invariant forall a :: a in rising <==> Rises(before, Run(run.now, run.records[..i]), a.key, a.platform)
    {
      var r := run.records[i];
      assert run.records[..i + 1] == run.records[..i] + [r];
      RowsOfPrefix(run.records[..i], r);
      var platforms, up := UpdatePlatforms(PlatformsOf(Lookup(before, r.key)), r.rows, run.now, r.key);
      rising := rising + up;
      next := next[r.key := InstallTrack(if r.key in before then before[r.key].firstSeen else run.now, run.now, true, platforms)];
    }
    assert run.records[..|run.records|] == run.records;
    assert Run(run.now, run.records) == run;
  }

  // ---------------------------------------------------------- no new capture

  ghost predicate AdvancedAt(state: State, platform: string, key: Key, clock: int) {
    TrackOf(state, key, platform).Some? && TrackOf(state, key, platform).value.lastAdvanced == Some(clock)
  }

  ghost predicate SeenAt(state: State, platform: string, key: Key, clock: int) {
    TrackOf(state, key, platform).Some? && TrackOf(state, key, platform).value.firstSeen == clock
  }

  /** The rule for one web platform: its latest advance is too old, or it never advanced and
      has been tracked for too long. */
  ghost predicate GoneQuiet(state: State, platform: string, now: int, quiet: int) {
    if exists key, c :: AdvancedAt(state, platform, key, c)
    then forall key, c :: AdvancedAt(state, platform, key, c) ==> now - c > quiet
    else exists key, c :: SeenAt(state, platform, key, c) && now - c > quiet
  }

  /** The rule is judged only in a run that could read the extensions' status. */
  ghost predicate QuietFires(available: bool, state: State, platform: string, now: int, quiet: int) {
    available && GoneQuiet(state, platform, now, quiet)
  }

  /** The two extremes the rule looks at, and whether it fires. */
  method JudgeQuiet(available: bool, state: State, platform: string, now: int, quiet: int) returns (fires: bool)
    ensures fires <==> QuietFires(available, state, platform, now, quiet)
  {
    if !available {
      return false;
    }
    var latest: Option<int>, earliest: Option<int> := None, None;
    var left := state.Keys;
    while left != {}
      invariant left <= state.Keys
      invariant latest.Some? ==> exists key :: AdvancedAt(state, platform, key, latest.value)
      invariant forall key, c :: key !in left && AdvancedAt(state, platform, key, c) ==> latest.Some? && c <= latest.value
      invariant earliest.Some? ==> exists key :: SeenAt(state, platform, key, earliest.value)
      invariant forall key, c :: key !in left && SeenAt(state, platform, key, c) ==> earliest.Some? && earliest.value <= c
      decreases left
    {
      var key :| key in left;
      left := left - {key};
      var track := TrackOf(state, key, platform);
      if track.Some? {
        assert SeenAt(state, platform, key, track.value.firstSeen);
        if earliest == None || track.value.firstSeen < earliest.value {
          earliest := Some(track.value.firstSeen);
        }
        if track.value.lastAdvanced.Some? {
          assert AdvancedAt(state, platform, key, track.value.lastAdvanced.value);
          if latest == None || track.value.lastAdvanced.value > latest.value {
            latest := track.value.lastAdvanced;
          }
        }
      }
    }
    if latest.Some? {
      fires := now - latest.value > quiet;
    } else if earliest.Some? {
      fires := now - earliest.value > quiet;
    } else {
      fires := false;
    }
  }
}
