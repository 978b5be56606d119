/** What the threaded state means: facts about the whole history of runs. */
module ScoreHistory {
  import opened Text
  import opened Scoreboard

  /** A sequence of runs, each starting from the state the one before it wrote; the first
      starts from nothing. */
  ghost predicate Threaded(runs: seq<Run>, states: seq<State>) {
    && |states| == |runs| + 1 && states[0] == map[]
    && (forall i :: 0 <= i < |runs| ==> StateAfter(Restored(Some(states[i])), runs[i], states[i + 1]))
  }

  predicate Reported(runs: seq<Run>, i: int, key: Key, p: string) {
    0 <= i < |runs| && ReportOf(runs[i], key, p).Some?
  }

  /** The most recent run before run `n` that reports the platform of the install. */
  function LastReport(runs: seq<Run>, n: nat, key: Key, p: string): (i: Option<nat>)
    requires n <= |runs|
    ensures i.Some? ==> i.value < n && Reported(runs, i.value, key, p)
    ensures i.Some? ==> forall j :: i.value < j < n ==> !Reported(runs, j, key, p)
    ensures i == None ==> forall j :: 0 <= j < n ==> !Reported(runs, j, key, p)
  {
    if n == 0 then None else if Reported(runs, n - 1, key, p) then Some(n - 1) else LastReport(runs, n - 1, key, p)
  }

  /** Run `i` reports more captured than the most recent earlier report. */
  predicate Advances(runs: seq<Run>, i: int, key: Key, p: string) {
    Reported(runs, i, key, p) && LastReport(runs, i, key, p).Some? &&
    ReportOf(runs[i], key, p).value.captured >
    ReportOf(runs[LastReport(runs, i, key, p).value], key, p).value.captured
  }

  /** The latest run before run `n` in which captured advanced. */
  function LastAdvance(runs: seq<Run>, n: nat, key: Key, p: string): (i: Option<nat>)
    requires n <= |runs|
    ensures i.Some? ==> i.value < n && Advances(runs, i.value, key, p)
    ensures i.Some? ==> forall j :: i.value < j < n ==> !Advances(runs, j, key, p)
    ensures i == None ==> forall j :: 0 <= j < n ==> !Advances(runs, j, key, p)
  {
    if n == 0 then None else if Advances(runs, n - 1, key, p) then Some(n - 1) else LastAdvance(runs, n - 1, key, p)
  }

  /** The first run that reports the platform of the install. */
  function FirstReport(runs: seq<Run>, n: nat, key: Key, p: string): (i: Option<nat>)
    requires n <= |runs|
    ensures i.Some? ==> i.value < n && Reported(runs, i.value, key, p)
    ensures i.Some? ==> forall j :: 0 <= j < i.value ==> !Reported(runs, j, key, p)
    ensures i == None <==> LastReport(runs, n, key, p) == None
  {
    if n == 0 then None
    else if FirstReport(runs, n - 1, key, p).Some? then FirstReport(runs, n - 1, key, p)
    else if Reported(runs, n - 1, key, p) then Some(n - 1)
    else None
  }

  /** The track the history calls for. */
  function TrackFrom(runs: seq<Run>, n: nat, key: Key, p: string): Option<PlatformTrack>
    requires n <= |runs|
  {
    match LastReport(runs, n, key, p)
    case None => None
    case Some(i) =>
      var row, advance := ReportOf(runs[i], key, p).value, LastAdvance(runs, n, key, p);
      Some(PlatformTrack(row.captured, row.pending, runs[FirstReport(runs, n, key, p).value].now, runs[i].now,
                         if advance.Some? then Some(runs[advance.value].now) else None))
  }

  lemma TrackStep(before: State, run: Run, after: State, key: Key, p: string)
    requires StateAfter(Restored(Some(before)), run, after)
    ensures TrackOf(after, key, p) ==
            match ReportOf(run, key, p)
            case None => TrackOf(before, key, p)
            case Some(row) => Some(StepTrack(TrackOf(before, key, p), row, run.now))
  {
    hide StepTrack, RowOf, RowsOf;
    var rows := RowsOf(run.records, key);
    if rows.Some? {
      var platforms := PlatformsOf(Lookup(Restored(Some(before)), key));
      assert PlatformsAfter(platforms, rows.value, run.now, after[key].platforms);
      assert Lookup(platforms, p) == TrackOf(before, key, p);
      assert TrackOf(after, key, p) == Lookup(after[key].platforms, p);
    }
  }

  /** After any number of runs a platform's track says exactly: the counters of its most recent
      report, when it was first and last reported, and the clock of the latest run in which
      captured rose above the report before it. So nothing reported is ever forgotten. */
  lemma {:induction false} TrackIsHistory(runs: seq<Run>, states: seq<State>, n: nat, key: Key, p: string)
    requires Threaded(runs, states) && n <= |runs|
    ensures TrackOf(states[n], key, p) == TrackFrom(runs, n, key, p)
  {
    hide StateAfter, ReportOf;
    if n > 0 {
      TrackIsHistory(runs, states, n - 1, key, p);
      TrackStep(states[n - 1], runs[n - 1], states[n], key, p);
    }
  }

  /** Pending-rising fires for a platform of an install exactly when the run reports more
      pending than the most recent earlier run that reported it, however long ago. */
  lemma RisingFiresIff(runs: seq<Run>, states: seq<State>, n: nat, key: Key, p: string)
    requires Threaded(runs, states) && n < |runs|
    ensures Rises(Restored(Some(states[n])), runs[n], key, p) <==>
            && Reported(runs, n, key, p) && LastReport(runs, n, key, p).Some?
            && ReportOf(runs[n], key, p).value.pending >
               ReportOf(runs[LastReport(runs, n, key, p).value], key, p).value.pending
  {
    hide StateAfter, ReportOf;
    TrackIsHistory(runs, states, n, key, p);
    assert TrackOf(Restored(Some(states[n])), key, p) == TrackOf(states[n], key, p);
  }

  /** Installs are never forgotten and keep the clock they were first seen at. */
  lemma {:induction false} InstallsStay(runs: seq<Run>, states: seq<State>, m: nat, n: nat, key: Key)
    requires Threaded(runs, states) && m <= n <= |runs| && key in states[m]
    ensures key in states[n] && states[n][key].firstSeen == states[m][key].firstSeen
    decreases n
  {
    hide PlatformsAfter, RowsOf;
    if m < n {
      InstallsStay(runs, states, m, n - 1, key);
      assert StateAfter(Restored(Some(states[n - 1])), runs[n - 1], states[n]);
    }
  }

  /** When captured last advanced, and when the platform was first reported. */
  function AdvanceClock(runs: seq<Run>, n: nat, key: Key, p: string): Option<int>
    requires n <= |runs|
  {
    var i := LastAdvance(runs, n, key, p);
    if i == None then None else Some(runs[i.value].now)
  }

  function FirstClock(runs: seq<Run>, n: nat, key: Key, p: string): Option<int>
    requires n <= |runs|
  {
    var i := FirstReport(runs, n, key, p);
    if i == None then None else Some(runs[i.value].now)
  }

  /** The no-new-capture rule after run `n`, in terms of the history: the status could be read in
      this run, and no advance seen in any run is recent, or, if none was ever seen, some install
      has been reporting for too long. */
  lemma QuietFiresIff(runs: seq<Run>, states: seq<State>, n: nat, available: bool, p: string, now: int, quiet: int)
    requires Threaded(runs, states) && n <= |runs|
    ensures QuietFires(available, states[n], p, now, quiet) <==>
            available &&
            if exists key :: AdvanceClock(runs, n, key, p).Some?
            then forall key :: AdvanceClock(runs, n, key, p).Some? ==> now - AdvanceClock(runs, n, key, p).value > quiet
            else exists key :: FirstClock(runs, n, key, p).Some? && now - FirstClock(runs, n, key, p).value > quiet
  {
    hide StateAfter, ReportOf, TrackOf, LastAdvance, FirstReport, LastReport, AdvancedAt, SeenAt;
    forall key, c: int
      ensures AdvancedAt(states[n], p, key, c) <==> AdvanceClock(runs, n, key, p) == Some(c)
      ensures SeenAt(states[n], p, key, c) <==> FirstClock(runs, n, key, p) == Some(c)
    {
      ClocksAreHistory(runs, states, n, p, key, c);
    }
    if key :| AdvanceClock(runs, n, key, p).Some? {
      assert AdvancedAt(states[n], p, key, AdvanceClock(runs, n, key, p).value);
    }
    if key :| FirstClock(runs, n, key, p).Some? && now - FirstClock(runs, n, key, p).value > quiet {
      assert SeenAt(states[n], p, key, FirstClock(runs, n, key, p).value);
    }
    assert forall key :: AdvanceClock(runs, n, key, p).Some? ==>
      AdvancedAt(states[n], p, key, AdvanceClock(runs, n, key, p).value);
  }

  lemma ClocksAreHistory(runs: seq<Run>, states: seq<State>, n: nat, p: string, key: Key, c: int)
    requires Threaded(runs, states) && n <= |runs|
    ensures AdvancedAt(states[n], p, key, c) <==> AdvanceClock(runs, n, key, p) == Some(c)
    ensures SeenAt(states[n], p, key, c) <==> FirstClock(runs, n, key, p) == Some(c)
  {
    hide StateAfter, ReportOf, TrackOf, LastAdvance, FirstReport, LastReport;
    TrackIsHistory(runs, states, n, key, p);
  }

  /** A first run, whatever it reads, raises neither anomaly. */
  lemma FirstRunIsSilent(runs: seq<Run>, states: seq<State>, key: Key, p: string, quiet: int)
    requires Threaded(runs, states) && |runs| == 1 && quiet >= 0
    ensures !Rises(Restored(Some(states[0])), runs[0], key, p)
    ensures !GoneQuiet(states[1], p, runs[0].now, quiet)
  {
    hide StateAfter, ReportOf, GoneQuiet, Rises;
    RisingFiresIff(runs, states, 0, key, p);
    QuietFiresIff(runs, states, 1, true, p, runs[0].now, quiet);
    forall k ensures AdvanceClock(runs, 1, k, p) == None {
      assert LastReport(runs, 0, k, p) == None;
    }
  }

  // --------------------------------------------------------- what a run reports

  /** The run has a record of the install. */
  predicate Lists(run: Run, key: Key) {
    exists r <- run.records :: r.key == key
  }

  lemma {:induction false} RowsOfIff(records: seq<Record>, key: Key)
    ensures RowsOf(records, key).Some? <==> exists r <- records :: r.key == key
    ensures RowsOf(records, key).Some? ==> exists r <- records :: r.key == key && r.rows == RowsOf(records, key).value
  {
    if records != [] {
      assert records == [records[0]] + records[1..];
      RowsOfIff(records[1..], key);
    }
  }

  lemma {:induction false} RowOfIff(rows: seq<Row>, p: string)
    ensures RowOf(rows, p).Some? <==> exists row <- rows :: row.platform == p
    ensures RowOf(rows, p).Some? ==> RowOf(rows, p).value in rows && RowOf(rows, p).value.platform == p
  {
    if rows != [] {
      assert rows == [rows[0]] + rows[1..];
      RowOfIff(rows[1..], p);
    }
  }

  /** What is reported of a platform is the row that the install's record holds for it. */
  lemma ReportIff(run: Run, key: Key, p: string, row: Row)
    requires WellFormed(run)
    ensures ReportOf(run, key, p) == Some(row) <==>
            exists r <- run.records :: r.key == key && row in r.rows && row.platform == p
  {
    hide RowOf, RowsOf;
    RowsOfIff(run.records, key);
    var rows := RowsOf(run.records, key);
    if rows.Some? {
      RowOfIff(rows.value, p);
      var r :| r in run.records && r.key == key && r.rows == rows.value;
      assert forall s <- run.records :: s.key == key ==> s == r;
      OneRow(r.rows, p);
    }
  }

  lemma OneRow(rows: seq<Row>, p: string)
    requires DistinctRows(rows)
    ensures forall a, b :: a in rows && b in rows && a.platform == b.platform ==> a == b
  {
  }

  lemma OneRowMore(init: seq<Row>, last: Row)
    ensures DistinctRows(init + [last]) <==> DistinctRows(init) && last.platform !in Platforms(init)
  {
    var rows := init + [last];
    if last.platform in Platforms(init) {
      var i :| 0 <= i < |init| && init[i].platform == last.platform;
      assert rows[i].platform == rows[|init|].platform;
    } else {
      assert forall i :: 0 <= i < |init| ==> rows[i] == init[i] && init[i].platform in Platforms(init);
    }
    assert forall i :: 0 <= i < |init| ==> rows[i] == init[i];
  }

  /** Distinct rows name as many platforms as there are rows. */
  lemma {:induction false} DistinctRowsIff(rows: seq<Row>)
    ensures DistinctRows(rows) <==> |Platforms(rows)| == |rows|
    ensures |Platforms(rows)| <= |rows|
  {
    if rows != [] {
      var init, last := rows[..|rows| - 1], rows[|rows| - 1];
      assert rows == init + [last];
      DistinctRowsIff(init);
      OneRowMore(init, last);
      assert Platforms(rows) == Platforms(init) + {last.platform};
      hide DistinctRows, Platforms;
    }
  }

  function Platforms(rows: seq<Row>): set<string> {
    set row | row in rows :: row.platform
  }

  /** One run's effect on one install. */
  lemma InstallStep(before: State, run: Run, after: State, key: Key)
    requires StateAfter(Restored(Some(before)), run, after)
    ensures key in after <==> key in before || Lists(run, key)
    ensures key in after ==> (after[key].present <==> Lists(run, key))
    ensures key in after ==> after[key].firstSeen == if key in before then before[key].firstSeen else run.now
    ensures key in after ==> after[key].lastSeen == if Lists(run, key) then run.now else before[key].lastSeen
  {
    hide PlatformsAfter, RowsOf, Lists;
    ListsIff(run, key);
  }

  /** An install is remembered from the first run that lists it on, with the clocks of the first
      and the latest of those runs, and as present exactly after a run that lists it. */
  lemma {:induction false} InstallIsHistory(runs: seq<Run>, states: seq<State>, n: nat, key: Key)
    requires Threaded(runs, states) && n <= |runs|
    ensures key in states[n] <==> exists i :: 0 <= i < n && Lists(runs[i], key)
    ensures key in states[n] ==> n > 0 && (states[n][key].present <==> Lists(runs[n - 1], key))
    ensures key in states[n] ==> exists i: nat :: FirstListed(runs, n, key, i) && states[n][key].firstSeen == runs[i].now
    ensures key in states[n] ==> exists i: nat :: LastListed(runs, n, key, i) && states[n][key].lastSeen == runs[i].now
  {
    hide StateAfter, Lists, FirstListed, LastListed;
    if n > 0 {
      InstallIsHistory(runs, states, n - 1, key);
      InstallStep(states[n - 1], runs[n - 1], states[n], key);
      ListedStep(runs, n, key);
    }
  }

  lemma ListedStep(runs: seq<Run>, n: nat, key: Key)
    requires 0 < n <= |runs|
    ensures forall i: nat :: FirstListed(runs, n - 1, key, i) ==> FirstListed(runs, n, key, i)
    ensures forall i: nat :: LastListed(runs, n - 1, key, i) && !Lists(runs[n - 1], key) ==> LastListed(runs, n, key, i)
    ensures Lists(runs[n - 1], key) ==> LastListed(runs, n, key, n - 1)
    ensures Lists(runs[n - 1], key) && (forall i :: 0 <= i < n - 1 ==> !Lists(runs[i], key)) ==> FirstListed(runs, n, key, n - 1)
  {
    hide Lists;
  }

  lemma ListsIff(run: Run, key: Key)
    ensures Lists(run, key) <==> RowsOf(run.records, key).Some?
  {
    RowsOfIff(run.records, key);
  }

  predicate FirstListed(runs: seq<Run>, n: nat, key: Key, i: nat) {
    i < n <= |runs| && Lists(runs[i], key) && forall j :: 0 <= j < i ==> !Lists(runs[j], key)
  }

  predicate LastListed(runs: seq<Run>, n: nat, key: Key, i: nat) {
    i < n <= |runs| && Lists(runs[i], key) && forall j :: i < j < n ==> !Lists(runs[j], key)
  }
}
