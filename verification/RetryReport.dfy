/** The offline retry report: reading the event stream, counting confirmed retries, and what
    the printed totals mean for the data that is missing (scripts/push-retry-report.py:38-187). */
module RetryReport {
  import opened Text

  // --------------------------------------------------------- reading the stream

  datatype Value = Null | Bool(b: bool) | Int(i: int) | Str(s: string) | Other

  /** One line of the stream: blank, not JSON, JSON but no object, or an object. */
  datatype Line = BlankLine | NotJson | NotObject | Row(fields: map<string, Value>)

  datatype Outcome = Interrupted | Completed | Failed

  datatype Attempt = Attempt(
    id: string, retryOf: Option<string>, linkKnown: bool, outcome: Outcome, bytes: Option<nat>, sessions: Option<nat>)

  datatype Fault = InvalidJson | NoEvent | BadId | DuplicateId | BadOutcome | BadLink | BadMeasurement

  datatype Result<+T> = Ok(value: T) | Err(fault: Fault)

  const EVENT := "run_once_push"

  function Get(fields: map<string, Value>, key: string): Value {
    if key in fields then fields[key] else Null
  }

  function Measurement(fields: map<string, Value>, key: string): Result<Option<nat>> {
    match Get(fields, key)
    case Null => Ok(None)
    case Int(i) => if i < 0 then Err(BadMeasurement) else Ok(Some(i))
    case _ => Err(BadMeasurement)
  }

  function OutcomeNamed(v: Value): Option<Outcome> {
    if v == Str("interrupted") then Some(Interrupted)
    else if v == Str("completed") then Some(Completed)
    else if v == Str("failed") then Some(Failed)
    else None
  }

  function ReadRow(fields: map<string, Value>, seen: set<string>): Result<Attempt> {
    var id, outcome, link := Get(fields, "attempt_id"), OutcomeNamed(Get(fields, "outcome")), Get(fields, "retry_of");
    if Get(fields, "event") != Str(EVENT) then Err(NoEvent)
    else if !id.Str? || id.s == "" then Err(BadId)
    else if id.s in seen then Err(DuplicateId)
    else if outcome.None? then Err(BadOutcome)
    else if link != Null && (!link.Str? || link.s == "") then Err(BadLink)
    else
      match Measurement(fields, "retried_bytes")
      case Err(f) => Err(f)
      case Ok(bytes) =>
        match Measurement(fields, "retried_sessions")
        case Err(f) => Err(f)
        case Ok(sessions) =>
          Ok(Attempt(id.s, if link.Str? then Some(link.s) else None, "retry_of" in fields, outcome.value, bytes, sessions))
  }

  function ReadLine(line: Line, seen: set<string>): Result<Option<Attempt>> {
    match line
    case BlankLine => Ok(None)
    case NotJson => Err(InvalidJson)
    case NotObject => Err(NoEvent)
    case Row(fields) =>
      match ReadRow(fields, seen)
      case Err(f) => Err(f)
      case Ok(a) => Ok(Some(a))
  }

  function Ids(attempts: seq<Attempt>): set<string> {
    set a | a in attempts :: a.id
  }

  /** The attempts of the first `n` lines. */
  function AttemptsOf(lines: seq<Line>, n: nat): Result<seq<Attempt>>
    requires n <= |lines|
  {
    if n == 0 then Ok([])
    else
      match AttemptsOf(lines, n - 1)
      case Err(f) => Err(f)
      case Ok(before) =>
        match ReadLine(lines[n - 1], Ids(before))
        case Err(f) => Err(f)
        case Ok(None) => Ok(before)
        case Ok(Some(a)) => Ok(before + [a])
  }

  predicate UniqueIds(attempts: seq<Attempt>) {
    forall i, j :: 0 <= i < j < |attempts| ==> attempts[i].id != attempts[j].id
  }

  lemma {:induction false} ReadIdsUnique(lines: seq<Line>, n: nat)
    requires n <= |lines| && AttemptsOf(lines, n).Ok?
    ensures UniqueIds(AttemptsOf(lines, n).value)
  {
    hide ReadRow;
    if n > 0 {
      ReadIdsUnique(lines, n - 1);
      var before := AttemptsOf(lines, n - 1).value;
      RowIdIsNew(lines[n - 1], Ids(before));
      assert forall i :: 0 <= i < |before| ==> before[i] in before;
    }
  }

  lemma RowIdIsNew(line: Line, seen: set<string>)
    ensures match ReadLine(line, seen) case Ok(Some(a)) => a.id !in seen && a.id != "" case _ => true
  {
  }

  lemma {:induction false} FirstFaultStays(lines: seq<Line>, n: nat, m: nat)
    requires n <= m <= |lines| && AttemptsOf(lines, n).Err?
    ensures AttemptsOf(lines, m) == AttemptsOf(lines, n)
  {
    hide ReadLine;
    if n < m {
      FirstFaultStays(lines, n, m - 1);
    }
  }

  /** The reading loop: every attempt in order, or the first faulty line. */
  method ReadEvents(lines: seq<Line>) returns (attempts: Result<seq<Attempt>>, line: nat)
    ensures attempts == AttemptsOf(lines, |lines|)
    ensures attempts.Ok? ==> UniqueIds(attempts.value)
    ensures attempts.Err? ==> 1 <= line <= |lines| && AttemptsOf(lines, line - 1).Ok? && AttemptsOf(lines, line) == attempts
  {
    hide ReadLine, UniqueIds;
    var read: seq<Attempt> := [];
    line := 0;
    for i := 0 to |lines|
      invariant AttemptsOf(lines, i) == Ok(read)
    {
      match ReadLine(lines[i], Ids(read)) {
        case Err(f) =>
          attempts := Err(f);
          line := i + 1;
          assert AttemptsOf(lines, i + 1) == attempts;
          FirstFaultStays(lines, i + 1, |lines|);
          return;
        case Ok(None) =>
        case Ok(Some(a)) =>
          read := read + [a];
      }
    }
    ReadIdsUnique(lines, |lines|);
    attempts := Ok(read);
  }

  // ------------------------------------------------------------------ counting

  /** What the records say of one attempt: not a retry, a retry of an earlier interrupted
      attempt, a retry whose parent is not there or was not interrupted, or nothing at all. */
  datatype Link = NotRetry | Confirmed | Unmatched | LinkUnknown

  ghost predicate InterruptedBefore(attempts: seq<Attempt>, i: nat, id: string)
    requires i <= |attempts|
  {
    exists j :: 0 <= j < i && attempts[j].id == id && attempts[j].outcome == Interrupted
  }

  ghost function LinkOf(attempts: seq<Attempt>, i: nat): Link
    requires i < |attempts|
  {
    var a := attempts[i];
    if !a.linkKnown then LinkUnknown
    else if a.retryOf == None then NotRetry
    else if InterruptedBefore(attempts, i, a.retryOf.value) then Confirmed
    else Unmatched
  }

  datatype Report = Report(
    records: nat, interrupted: nat, retries: nat, unmatched: nat, linkUnknown: nat,
    byteTotal: nat, byteUnknown: nat, sessionTotal: nat, sessionUnknown: nat)

  function ValueOr0(m: Option<nat>): nat {
    if m.Some? then m.value else 0
  }

  function OneIf(b: bool): nat {
    if b then 1 else 0
  }

  function Counted(r: Report, a: Attempt, link: Link): Report {
    var c := link == Confirmed;
    Report(
      r.records + 1, r.interrupted + OneIf(a.outcome == Interrupted), r.retries + OneIf(c),
      r.unmatched + OneIf(link == Unmatched), r.linkUnknown + OneIf(link == LinkUnknown),
      r.byteTotal + (if c then ValueOr0(a.bytes) else 0), r.byteUnknown + OneIf(c && a.bytes == None),
      r.sessionTotal + (if c then ValueOr0(a.sessions) else 0), r.sessionUnknown + OneIf(c && a.sessions == None))
  }

  ghost function ReportOf(attempts: seq<Attempt>, n: nat): Report
    requires n <= |attempts|
  {
    if n == 0 then Report(0, 0, 0, 0, 0, 0, 0, 0, 0)
    else Counted(ReportOf(attempts, n - 1), attempts[n - 1], LinkOf(attempts, n - 1))
  }

  ghost predicate IsEarlier(earlier: map<string, Attempt>, attempts: seq<Attempt>, n: nat)
    requires n <= |attempts|
  {
    && (forall j :: 0 <= j < n ==> attempts[j].id in earlier && earlier[attempts[j].id] == attempts[j])
    && (forall id <- earlier :: exists j :: 0 <= j < n && attempts[j].id == id)
  }

  lemma EarlierGrows(earlier: map<string, Attempt>, attempts: seq<Attempt>, n: nat)
    requires n < |attempts| && UniqueIds(attempts) && IsEarlier(earlier, attempts, n)
    ensures IsEarlier(earlier[attempts[n].id := attempts[n]], attempts, n + 1)
  {
    var grown := earlier[attempts[n].id := attempts[n]];
    forall id | id in grown ensures exists j :: 0 <= j < n + 1 && attempts[j].id == id {
      if id != attempts[n].id {
        var j :| 0 <= j < n && attempts[j].id == id;
      }
    }
  }

  lemma EarlierFinds(earlier: map<string, Attempt>, attempts: seq<Attempt>, n: nat, id: string)
    requires n <= |attempts| && UniqueIds(attempts) && IsEarlier(earlier, attempts, n)
    ensures InterruptedBefore(attempts, n, id) <==> id in earlier && earlier[id].outcome == Interrupted
  {
    if id in earlier {
      var j :| 0 <= j < n && attempts[j].id == id;
      assert earlier[attempts[j].id] == attempts[j];
    }
  }

  method Summarize(attempts: seq<Attempt>) returns (r: Report)
    requires UniqueIds(attempts)
    ensures r == ReportOf(attempts, |attempts|)
  {
    hide UniqueIds, IsEarlier, InterruptedBefore;
    var interrupted, retries, unmatched, linkUnknown := 0, 0, 0, 0;
    var byteTotal: nat, byteUnknown: nat, sessionTotal: nat, sessionUnknown: nat := 0, 0, 0, 0;
    var earlier: map<string, Attempt> := map[];
    assert IsEarlier(earlier, attempts, 0) by {
      NothingEarlier(attempts);
    }
    for i := 0 to |attempts|
      invariant IsEarlier(earlier, attempts, i)
      invariant Report(i, interrupted, retries, unmatched, linkUnknown, byteTotal, byteUnknown, sessionTotal, sessionUnknown) ==
                ReportOf(attempts, i)
    {
      var a := attempts[i];
      if a.outcome == Interrupted {
        interrupted := interrupted + 1;
      }
      if !a.linkKnown {
        linkUnknown := linkUnknown + 1;
      } else if a.retryOf != None {
        EarlierFinds(earlier, attempts, i, a.retryOf.value);
        if a.retryOf.value !in earlier || earlier[a.retryOf.value].outcome != Interrupted {
          unmatched := unmatched + 1;
        } else {
          retries := retries + 1;
          if a.bytes == None {
            byteUnknown := byteUnknown + 1;
          } else {
            byteTotal := byteTotal + a.bytes.value;
          }
          if a.sessions == None {
            sessionUnknown := sessionUnknown + 1;
          } else {
            sessionTotal := sessionTotal + a.sessions.value;
          }
        }
      }
      EarlierGrows(earlier, attempts, i);
      earlier := earlier[a.id := a];
    }
    r := Report(|attempts|, interrupted, retries, unmatched, linkUnknown, byteTotal, byteUnknown, sessionTotal, sessionUnknown);
  }

  lemma NothingEarlier(attempts: seq<Attempt>)
    ensures IsEarlier(map[], attempts, 0)
  {
  }

  // ------------------------------------------------------------ what is printed

  datatype Shown = Exactly(total: nat) | AtLeast(bound: nat) | Unknown | NoRetryLinks | NoRecords

  function MeasurementShown(total: nat, unknown: nat, retries: nat, linkUnknown: nat, unmatched: nat): Shown {
    var unresolved := linkUnknown + unmatched;
    if retries == 0 then
      if unresolved > 0 then Unknown else NoRetryLinks
    else
      var shown := if unknown == retries then Unknown else if unknown > 0 then AtLeast(total) else Exactly(total);
      if unresolved > 0 then
        if unknown == retries then Unknown else AtLeast(total)
      else shown
  }

  datatype Which = Bytes | Sessions

  function TotalIn(r: Report, w: Which): nat {
    if w == Bytes then r.byteTotal else r.sessionTotal
  }

  function UnknownIn(r: Report, w: Which): nat {
    if w == Bytes then r.byteUnknown else r.sessionUnknown
  }

  function Rendered(r: Report, w: Which): Shown {
    if r.records == 0 then NoRecords
    else MeasurementShown(TotalIn(r, w), UnknownIn(r, w), r.retries, r.linkUnknown, r.unmatched)
  }

  // ------------------------------------------------- what the unknowns may hide

  function Recorded(a: Attempt, w: Which): Option<nat> {
    if w == Bytes then a.bytes else a.sessions
  }

  /** The truth about one attempt: whether it was a retry of an interrupted one, and its amount. */
  datatype Truth = Truth(isRetry: bool, amount: nat)

  /** A truth the record does not contradict: it keeps the recorded amount, confirmed retries are
      retries, attempts marked as no retry are none, and an unresolved link may be either. */
  predicate Fits(t: Truth, link: Link, recorded: Option<nat>) {
    && (recorded.Some? ==> t.amount == recorded.value)
    && (link == Confirmed ==> t.isRetry)
    && (link == NotRetry ==> !t.isRetry)
  }

  ghost predicate Completes(truths: seq<Truth>, attempts: seq<Attempt>, w: Which) {
    |truths| == |attempts| &&
    forall i :: 0 <= i < |attempts| ==> Fits(truths[i], LinkOf(attempts, i), Recorded(attempts[i], w))
  }

  function TrueTotal(truths: seq<Truth>, n: nat): nat
    requires n <= |truths|
  {
    if n == 0 then 0 else TrueTotal(truths, n - 1) + (if truths[n - 1].isRetry then truths[n - 1].amount else 0)
  }

  /** The four kinds of link partition the records, and the unknown measurements are among the retries. */
  lemma {:induction false} ReportPartitions(attempts: seq<Attempt>, n: nat, w: Which)
    requires n <= |attempts|
    ensures var r := ReportOf(attempts, n);
      && r.records == n && r.interrupted <= n && UnknownIn(r, w) <= r.retries
      && r.retries + r.unmatched + r.linkUnknown + NotRetries(attempts, n) == n
      && (UnknownIn(r, w) == r.retries ==> TotalIn(r, w) == 0)
      && (UnknownIn(r, w) > 0 ==> exists i :: 0 <= i < n && LinkOf(attempts, i) == Confirmed && Recorded(attempts[i], w) == None)
  {
    hide LinkOf;
    if n > 0 {
      ReportPartitions(attempts, n - 1, w);
    }
  }

  ghost function NotRetries(attempts: seq<Attempt>, n: nat): nat
    requires n <= |attempts|
  {
    if n == 0 then 0 else NotRetries(attempts, n - 1) + OneIf(LinkOf(attempts, n - 1) == NotRetry)
  }

  /** The counted total is a lower bound of every completion, and the total itself when nothing
      is missing. */
  lemma {:induction false} TotalBounds(truths: seq<Truth>, attempts: seq<Attempt>, w: Which, n: nat)
    requires Completes(truths, attempts, w) && n <= |attempts|
    ensures var r := ReportOf(attempts, n);
      && TrueTotal(truths, n) >= TotalIn(r, w)
      && (UnknownIn(r, w) == 0 && r.linkUnknown + r.unmatched == 0 ==> TrueTotal(truths, n) == TotalIn(r, w))
  {
    hide LinkOf;
    if n > 0 {
      TotalBounds(truths, attempts, w, n - 1);
      assert Fits(truths[n - 1], LinkOf(attempts, n - 1), Recorded(attempts[n - 1], w));
    }
  }

  ghost function LeastTruth(attempts: seq<Attempt>, w: Which): (truths: seq<Truth>)
    ensures |truths| == |attempts|
    ensures forall i :: 0 <= i < |attempts| ==>
                          truths[i] == Truth(LinkOf(attempts, i) == Confirmed, ValueOr0(Recorded(attempts[i], w)))
  {
    seq(|attempts|, i requires 0 <= i < |attempts| =>
      Truth(LinkOf(attempts, i) == Confirmed, ValueOr0(Recorded(attempts[i], w))))
  }

  /** Nothing unresolved a retry, nothing missing more than zero: that completion has the counted total. */
  lemma {:induction false} LeastIsAttained(attempts: seq<Attempt>, w: Which, n: nat)
    requires n <= |attempts|
    ensures Completes(LeastTruth(attempts, w), attempts, w)
    ensures TrueTotal(LeastTruth(attempts, w), n) == TotalIn(ReportOf(attempts, n), w)
  {
    hide LinkOf;
    if n > 0 {
      LeastIsAttained(attempts, w, n - 1);
    }
  }

  lemma {:induction false} ChangeOne(truths: seq<Truth>, i: nat, amount: nat, n: nat)
    requires i < |truths| && n <= |truths| && truths[i].isRetry
    ensures TrueTotal(truths[i := truths[i].(amount := amount)], n) ==
            TrueTotal(truths, n) + (if i < n then amount - truths[i].amount else 0)
  {
    if n > 0 {
      ChangeOne(truths, i, amount, n - 1);
    }
  }

  /** With a confirmed retry whose measurement is missing, every total from the counted one up is possible. */
  lemma AnyTotalAbove(attempts: seq<Attempt>, w: Which, total: nat) returns (truths: seq<Truth>)
    requires UnknownIn(ReportOf(attempts, |attempts|), w) > 0
    requires total >= TotalIn(ReportOf(attempts, |attempts|), w)
    ensures Completes(truths, attempts, w) && TrueTotal(truths, |attempts|) == total
  {
    hide LinkOf, ReportOf;
    ReportPartitions(attempts, |attempts|, w);
    LeastIsAttained(attempts, w, |attempts|);
    var least := LeastTruth(attempts, w);
    var i :| 0 <= i < |attempts| && LinkOf(attempts, i) == Confirmed && Recorded(attempts[i], w) == None;
    var amount := total - TotalIn(ReportOf(attempts, |attempts|), w);
    ChangeOne(least, i, amount, |attempts|);
    truths := least[i := least[i].(amount := amount)];
  }

  /** What each printed total promises over every completion of the missing data. */
  ghost predicate Sound(shown: Shown, attempts: seq<Attempt>, w: Which) {
    match shown
    case Exactly(total) => forall c :: Completes(c, attempts, w) ==> TrueTotal(c, |attempts|) == total
    case AtLeast(bound) =>
      && (forall c :: Completes(c, attempts, w) ==> TrueTotal(c, |attempts|) >= bound)
      && (exists c :: Completes(c, attempts, w) && TrueTotal(c, |attempts|) == bound)
    case NoRetryLinks => forall c :: Completes(c, attempts, w) ==> TrueTotal(c, |attempts|) == 0
    case Unknown => exists c :: Completes(c, attempts, w) && TrueTotal(c, |attempts|) == 0
    case NoRecords => attempts == []
  }

  lemma ReportIsSound(attempts: seq<Attempt>, w: Which)
    ensures Sound(Rendered(ReportOf(attempts, |attempts|), w), attempts, w)
  {
    hide LinkOf, ReportOf, Completes;
    ReportPartitions(attempts, |attempts|, w);
    forall c | Completes(c, attempts, w)
      ensures var r := ReportOf(attempts, |attempts|);
        && |c| == |attempts| && TrueTotal(c, |attempts|) >= TotalIn(r, w)
        && (UnknownIn(r, w) == 0 && r.linkUnknown + r.unmatched == 0 ==> TrueTotal(c, |attempts|) == TotalIn(r, w))
    {
      LengthOf(c, attempts, w);
      TotalBounds(c, attempts, w, |attempts|);
    }
    LeastIsAttained(attempts, w, |attempts|);
  }

  lemma LengthOf(c: seq<Truth>, attempts: seq<Attempt>, w: Which)
    requires Completes(c, attempts, w)
    ensures |c| == |attempts|
  {
  }

  /** All completions agree on the total. */
  ghost predicate Determined(attempts: seq<Attempt>, w: Which) {
    forall c, d :: Completes(c, attempts, w) && Completes(d, attempts, w) ==>
      |c| == |d| == |attempts| && TrueTotal(c, |attempts|) == TrueTotal(d, |attempts|)
  }

  lemma {:induction false} ChangeLink(truths: seq<Truth>, i: nat, n: nat)
    requires i < |truths| && n <= |truths| && !truths[i].isRetry
    ensures TrueTotal(truths[i := truths[i].(isRetry := true)], n) ==
            TrueTotal(truths, n) + (if i < n then truths[i].amount else 0)
  {
    if n > 0 {
      ChangeLink(truths, i, n - 1);
    }
  }

  /** The record leaves one amount for an attempt: a confirmed retry with its measurement, an
      attempt that is no retry, or an unresolved one recorded with zero. */
  ghost predicate Forced(attempts: seq<Attempt>, w: Which, i: nat)
    requires i < |attempts|
  {
    match LinkOf(attempts, i)
    case Confirmed => Recorded(attempts[i], w) != None
    case NotRetry => true
    case _ => Recorded(attempts[i], w) == Some(0)
  }

  /** The data settle the total exactly when every attempt is forced: otherwise two completions differ. */
  lemma DeterminedIff(attempts: seq<Attempt>, w: Which)
    ensures Determined(attempts, w) <==> forall i :: 0 <= i < |attempts| ==> Forced(attempts, w, i)
  {
    hide LinkOf, Forced, Completes, TrueTotal;
    if forall i :: 0 <= i < |attempts| ==> Forced(attempts, w, i) {
      forall c | Completes(c, attempts, w)
        ensures |c| == |attempts| && TrueTotal(c, |attempts|) == TrueTotal(LeastTruth(attempts, w), |attempts|)
      {
        LengthOf(c, attempts, w);
        ForcedTotal(c, attempts, w, |attempts|);
      }
    } else {
      var i :| 0 <= i < |attempts| && !Forced(attempts, w, i);
      var c, d := TwoCompletions(attempts, w, i);
    }
  }

  lemma {:induction false} ForcedTotal(c: seq<Truth>, attempts: seq<Attempt>, w: Which, n: nat)
    requires Completes(c, attempts, w) && n <= |attempts| && forall i :: 0 <= i < |attempts| ==> Forced(attempts, w, i)
    ensures TrueTotal(c, n) == TrueTotal(LeastTruth(attempts, w), n)
  {
    hide LinkOf;
    if n > 0 {
      ForcedTotal(c, attempts, w, n - 1);
      assert Forced(attempts, w, n - 1);
    }
  }

  /** An attempt that is not forced leaves two completions with different totals. */
  lemma TwoCompletions(attempts: seq<Attempt>, w: Which, i: nat) returns (c: seq<Truth>, d: seq<Truth>)
    requires i < |attempts| && !Forced(attempts, w, i)
    ensures Completes(c, attempts, w) && Completes(d, attempts, w)
    ensures |c| == |d| == |attempts| && TrueTotal(c, |attempts|) != TrueTotal(d, |attempts|)
  {
    hide LinkOf, TrueTotal;
    c := LeastTruth(attempts, w);
    LeastIsAttained(attempts, w, |attempts|);
    if LinkOf(attempts, i) == Confirmed {
      d := c[i := c[i].(amount := 1)];
      ChangeOne(c, i, 1, |attempts|);
    } else {
      if Recorded(attempts[i], w) == None {
        c := c[i := Truth(false, 1)];
      }
      d := c[i := c[i].(isRetry := true)];
      ChangeLink(c, i, |attempts|);
    }
  }
}
