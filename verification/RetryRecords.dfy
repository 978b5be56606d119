/** What the retry report's stream, links, counts and printed forms say, over the fields of the
    records (scripts/push-retry-report.py:38-187). */
module RetryRecords {
  import opened Text
  import opened RetryReport

  // ----------------------------------------------------------------- one record

  predicate IsNull(fields: map<string, Value>, key: string) {
    key !in fields || fields[key] == Null
  }

  predicate IsName(fields: map<string, Value>, key: string) {
    key in fields && fields[key].Str? && fields[key].s != ""
  }

  predicate IsAmount(fields: map<string, Value>, key: string) {
    IsNull(fields, key) || (fields[key].Int? && fields[key].i >= 0)
  }

  /** The amount under a key: none without the key or with null, else the integer there. */
  predicate Amounts(fields: map<string, Value>, key: string, amount: Option<nat>) {
    if IsNull(fields, key) then amount == None else amount.Some? && fields[key] == Int(amount.value)
  }

  predicate HasOutcome(fields: map<string, Value>, o: Outcome) {
    "outcome" in fields && fields["outcome"].Str? &&
    match o
    case Interrupted => fields["outcome"].s == "interrupted"
    case Completed => fields["outcome"].s == "completed"
    case Failed => fields["outcome"].s == "failed"
  }

  predicate IsEvent(fields: map<string, Value>) {
    "event" in fields && fields["event"] == Str("run_once_push")
  }

  predicate IsLink(fields: map<string, Value>) {
    IsNull(fields, "retry_of") || IsName(fields, "retry_of")
  }

  /** The attempt a record stands for, field by field. */
  predicate Records(fields: map<string, Value>, a: Attempt) {
    && IsEvent(fields)
    && IsName(fields, "attempt_id") && a.id == fields["attempt_id"].s
    && HasOutcome(fields, a.outcome)
    && IsLink(fields) && (a.linkKnown <==> "retry_of" in fields)
    && a.retryOf == (if IsNull(fields, "retry_of") then None else Some(fields["retry_of"].s))
    && Amounts(fields, "retried_bytes", a.bytes)
    && Amounts(fields, "retried_sessions", a.sessions)
  }

  /** What a record lacks, the first fault first. */
  ghost predicate Lacks(fields: map<string, Value>, seen: set<string>, f: Fault) {
    if !IsEvent(fields) then f == NoEvent
    else if !IsName(fields, "attempt_id") then f == BadId
    else if fields["attempt_id"].s in seen then f == DuplicateId
    else if forall o :: !HasOutcome(fields, o) then f == BadOutcome
    else if !IsLink(fields) then f == BadLink
    else !(IsAmount(fields, "retried_bytes") && IsAmount(fields, "retried_sessions")) && f == BadMeasurement
  }

  lemma MeasurementIff(fields: map<string, Value>, key: string)
    ensures forall m :: Measurement(fields, key) == Ok(m) <==> Amounts(fields, key, m)
    ensures Measurement(fields, key).Err? <==> !IsAmount(fields, key)
    ensures Measurement(fields, key).Err? ==> Measurement(fields, key).fault == BadMeasurement
  {
  }

  lemma OutcomeIff(fields: map<string, Value>)
    ensures forall o :: OutcomeNamed(Get(fields, "outcome")) == Some(o) <==> HasOutcome(fields, o)
  {
    forall o: Outcome ensures OutcomeNamed(Get(fields, "outcome")) == Some(o) <==> HasOutcome(fields, o) {
      match o
      case Interrupted =>
      case Completed =>
      case Failed =>
    }
  }

  /** A record is read exactly as its fields say, and refused for the first thing it lacks. */
  lemma RowIff(fields: map<string, Value>, seen: set<string>)
    ensures forall a :: ReadRow(fields, seen) == Ok(a) <==> Records(fields, a) && a.id !in seen
    ensures forall f :: ReadRow(fields, seen) == Err(f) <==> Lacks(fields, seen, f)
  {
    hide Amounts, IsAmount, Measurement, HasOutcome, OutcomeNamed;
    OutcomeIff(fields);
    MeasurementIff(fields, "retried_bytes");
    MeasurementIff(fields, "retried_sessions");
    var outcome := OutcomeNamed(Get(fields, "outcome"));
    assert outcome == None <==> forall o :: !HasOutcome(fields, o) by {
      if outcome.Some? {
        assert HasOutcome(fields, outcome.value);
      }
    }
  }

  // ------------------------------------------------------------------ the stream

  ghost predicate Refuses(line: Line, seen: set<string>, f: Fault) {
    match line
    case BlankLine => false
    case NotJson => f == InvalidJson
    case NotObject => f == NoEvent
    case Row(fields) => Lacks(fields, seen, f)
  }

  function RowsBefore(lines: seq<Line>, n: nat): nat
    requires n <= |lines|
  {
    if n == 0 then 0 else RowsBefore(lines, n - 1) + if lines[n - 1].Row? then 1 else 0
  }

  /** Line `i` is blank, or it is the record of the attempt that as many attempts precede as
      records precede the line, and its id is none of theirs. */
  ghost predicate LineIsRead(lines: seq<Line>, i: nat, attempts: seq<Attempt>)
    requires i < |lines|
  {
    lines[i] == BlankLine ||
    (lines[i].Row? && var k := RowsBefore(lines, i);
      k < |attempts| && Records(lines[i].fields, attempts[k]) && forall j :: 0 <= j < k ==> attempts[j].id != attempts[k].id)
  }

  ghost predicate AllRead(lines: seq<Line>, n: nat, attempts: seq<Attempt>)
    requires n <= |lines|
  {
    |attempts| == RowsBefore(lines, n) && forall i :: 0 <= i < n ==> LineIsRead(lines, i, attempts)
  }

  lemma {:induction false} RowsGrow(lines: seq<Line>, m: nat, n: nat)
    requires m <= n <= |lines|
    ensures RowsBefore(lines, m) <= RowsBefore(lines, n)
    ensures m < n && lines[m].Row? ==> RowsBefore(lines, m) < RowsBefore(lines, n)
  {
    if m < n {
      RowsGrow(lines, m, n - 1);
    }
  }

  lemma OneMoreRead(lines: seq<Line>, n: nat, before: seq<Attempt>, a: Attempt)
    requires n < |lines| && lines[n].Row? && AllRead(lines, n, before)
    requires Records(lines[n].fields, a) && a.id !in Ids(before)
    ensures AllRead(lines, n + 1, before + [a])
  {
    hide Records;
    forall i | 0 <= i <= n ensures LineIsRead(lines, i, before + [a]) {
      if i < n {
        assert LineIsRead(lines, i, before);
        RowsGrow(lines, i, n);
        assert forall k :: 0 <= k < |before| ==> (before + [a])[k] == before[k];
      } else {
        assert forall j :: 0 <= j < |before| ==> before[j] in before;
      }
    }
  }

  lemma NoneMoreRead(lines: seq<Line>, n: nat, before: seq<Attempt>)
    requires n < |lines| && lines[n] == BlankLine && AllRead(lines, n, before)
    ensures AllRead(lines, n + 1, before)
  {
    hide Records;
    forall i | 0 <= i <= n ensures LineIsRead(lines, i, before) {
    }
  }

  /** The stream is read into one attempt a record, in order. */
  lemma {:induction false} StreamIsRead(lines: seq<Line>, n: nat)
    requires n <= |lines|
    ensures AttemptsOf(lines, n).Ok? ==> AllRead(lines, n, AttemptsOf(lines, n).value)
  {
    hide AllRead, Records, ReadRow, Ids;
    if n == 0 {
      NothingRead(lines);
    } else {
      StreamIsRead(lines, n - 1);
      if AttemptsOf(lines, n).Ok? {
        var before := AttemptsOf(lines, n - 1).value;
        if lines[n - 1].Row? {
          RowIff(lines[n - 1].fields, Ids(before));
          OneMoreRead(lines, n - 1, before, ReadRow(lines[n - 1].fields, Ids(before)).value);
        } else {
          NoneMoreRead(lines, n - 1, before);
        }
      }
    }
  }

  lemma NothingRead(lines: seq<Line>)
    ensures AllRead(lines, 0, [])
  {
  }

  /** The stream is refused at the first line that is no record, lacks something, or repeats an id. */
  lemma RefusedIff(lines: seq<Line>, n: nat, f: Fault)
    requires n < |lines| && AttemptsOf(lines, n).Ok?
    ensures AttemptsOf(lines, n + 1) == Err(f) <==> Refuses(lines[n], Ids(AttemptsOf(lines, n).value), f)
  {
    hide Lacks, ReadRow, Ids;
    if lines[n].Row? {
      RowIff(lines[n].fields, Ids(AttemptsOf(lines, n).value));
    }
  }

  // ------------------------------------------------------------ links and counts

  /** The record says what it retries. */
  predicate Retrying(a: Attempt) {
    a.linkKnown && a.retryOf.Some?
  }

  /** The attempt at `i` retries one that stands before it and was interrupted. */
  ghost predicate RetriesEarlier(attempts: seq<Attempt>, i: nat)
    requires i < |attempts|
  {
    Retrying(attempts[i]) &&
    exists j :: 0 <= j < i && attempts[j].outcome == Interrupted && Some(attempts[j].id) == attempts[i].retryOf
  }

  lemma LinkIff(attempts: seq<Attempt>, i: nat)
    requires i < |attempts|
    ensures LinkOf(attempts, i) == Confirmed <==> RetriesEarlier(attempts, i)
    ensures LinkOf(attempts, i) == Unmatched <==> Retrying(attempts[i]) && !RetriesEarlier(attempts, i)
    ensures LinkOf(attempts, i) == LinkUnknown <==> !attempts[i].linkKnown
    ensures LinkOf(attempts, i) == NotRetry <==> attempts[i].linkKnown && attempts[i].retryOf == None
  {
    var link := attempts[i].retryOf;
    if Retrying(attempts[i]) && InterruptedBefore(attempts, i, link.value) {
      var j :| 0 <= j < i && attempts[j].id == link.value && attempts[j].outcome == Interrupted;
      assert Some(attempts[j].id) == link;
    }
  }

  ghost function Among(n: nat, p: nat -> bool): set<nat> {
    set i: nat | i < n && p(i)
  }

  lemma AmongStep(n: nat, p: nat -> bool)
    ensures |Among(n + 1, p)| == |Among(n, p)| + OneIf(p(n))
  {
    if p(n) {
      assert Among(n + 1, p) == Among(n, p) + {n};
    } else {
      assert Among(n + 1, p) == Among(n, p);
    }
  }

  ghost function Interruptions(attempts: seq<Attempt>): nat -> bool {
    (i: nat) => i < |attempts| && attempts[i].outcome == Interrupted
  }

  ghost function Retried(attempts: seq<Attempt>): nat -> bool {
    (i: nat) => i < |attempts| && RetriesEarlier(attempts, i)
  }

  ghost function Dangling(attempts: seq<Attempt>): nat -> bool {
    (i: nat) => i < |attempts| && Retrying(attempts[i]) && !RetriesEarlier(attempts, i)
  }

  ghost function Unlinked(attempts: seq<Attempt>): nat -> bool {
    (i: nat) => i < |attempts| && !attempts[i].linkKnown
  }

  ghost function Unmeasured(attempts: seq<Attempt>, w: Which): nat -> bool {
    (i: nat) => i < |attempts| && RetriesEarlier(attempts, i) && Recorded(attempts[i], w) == None
  }

  /** Every count of the report is the number of records of its kind. */
  lemma {:induction false} CountsMean(attempts: seq<Attempt>, n: nat, w: Which)
    requires n <= |attempts|
    ensures var r := ReportOf(attempts, n);
      && r.records == n
      && r.interrupted == |Among(n, Interruptions(attempts))|
      && r.retries == |Among(n, Retried(attempts))|
      && r.unmatched == |Among(n, Dangling(attempts))|
      && r.linkUnknown == |Among(n, Unlinked(attempts))|
      && UnknownIn(r, w) == |Among(n, Unmeasured(attempts, w))|
  {
    hide LinkOf, RetriesEarlier, Retrying;
    if n == 0 {
      assert forall p: nat -> bool :: Among(0, p) == {};
    } else {
      CountsMean(attempts, n - 1, w);
      hide Among;
      LinkIff(attempts, n - 1);
      AmongStep(n - 1, Interruptions(attempts));
      AmongStep(n - 1, Retried(attempts));
      AmongStep(n - 1, Dangling(attempts));
      AmongStep(n - 1, Unlinked(attempts));
      AmongStep(n - 1, Unmeasured(attempts, w));
    }
  }

  // -------------------------------------------------------------- printed forms

  ghost predicate SomeAmong(n: nat, p: nat -> bool) {
    exists i: nat :: i < n && p(i)
  }

  lemma SomeIff(n: nat, p: nat -> bool)
    ensures SomeAmong(n, p) <==> |Among(n, p)| > 0
  {
    if SomeAmong(n, p) {
      var i: nat :| i < n && p(i);
      assert i in Among(n, p);
    } else {
      assert Among(n, p) == {};
    }
  }

  /** Some retry has its measurement. */
  ghost predicate SomeMeasured(attempts: seq<Attempt>, w: Which) {
    exists i: nat :: i < |attempts| && RetriesEarlier(attempts, i) && Recorded(attempts[i], w) != None
  }

  lemma MeasuredIff(attempts: seq<Attempt>, w: Which)
    ensures SomeMeasured(attempts, w) <==> |Among(|attempts|, Unmeasured(attempts, w))| < |Among(|attempts|, Retried(attempts))|
  {
    hide RetriesEarlier;
    var n, lacking, all := |attempts|, Among(|attempts|, Unmeasured(attempts, w)), Among(|attempts|, Retried(attempts));
    SubsetSize(lacking, all);
    if SomeMeasured(attempts, w) {
      var i: nat :| i < n && RetriesEarlier(attempts, i) && Recorded(attempts[i], w) != None;
      SubsetSize(lacking, all - {i});
    } else {
      assert lacking == all;
    }
  }

  /** Which form is printed: no records; no links at all; unknown while no retry is measured; a
      lower bound while one is and something is missing; otherwise the total. */
  lemma ShownIff(attempts: seq<Attempt>, w: Which)
    ensures var n, shown := |attempts|, Rendered(ReportOf(attempts, |attempts|), w);
      var retried, unresolved := SomeAmong(n, Retried(attempts)), SomeAmong(n, Dangling(attempts)) || SomeAmong(n, Unlinked(attempts));
      && (shown.NoRecords? <==> attempts == [])
      && (shown.NoRetryLinks? <==> attempts != [] && !retried && !unresolved)
      && (shown.Unknown? <==> (retried || unresolved) && !SomeMeasured(attempts, w))
      && (shown.AtLeast? <==> SomeMeasured(attempts, w) && (unresolved || SomeAmong(n, Unmeasured(attempts, w))))
      && (shown.Exactly? <==> SomeMeasured(attempts, w) && !unresolved && !SomeAmong(n, Unmeasured(attempts, w)))
  {
    hide ReportOf, SomeAmong, SomeMeasured, Among, Retried, Dangling, Unlinked, Unmeasured, Interruptions;
    var n := |attempts|;
    CountsMean(attempts, n, w);
    SomeIff(n, Retried(attempts));
    SomeIff(n, Dangling(attempts));
    SomeIff(n, Unlinked(attempts));
    SomeIff(n, Unmeasured(attempts, w));
    MeasuredIff(attempts, w);
    NoneWithout(attempts, w);
    ReportPartitions(attempts, n, w);
  }

  lemma NoneWithout(attempts: seq<Attempt>, w: Which)
    ensures attempts == [] ==> !SomeMeasured(attempts, w) && forall p: nat -> bool :: !SomeAmong(0, p)
  {
  }
}
