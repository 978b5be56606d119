/** Resolving the extension status files into one record per install
    (scripts/dev/scoreboard.py:690-721). */
module ExtStatus {
  import opened Text
  import opened Scoreboard

  /** A status file as read: its record, or nothing when it could not be read. */
  type File = Option<Record>

  /** The first record with a key among the files, in the order they are listed. */
  function FirstOf(files: seq<File>, key: Key): Option<Record> {
    if files == [] then None
    else if files[0].Some? && files[0].value.key == key then Some(files[0].value)
    else FirstOf(files[1..], key)
  }

  function Unreadable(files: seq<File>): nat {
    if files == [] then 0 else (if files[0] == None then 1 else 0) + Unreadable(files[1..])
  }

  lemma {:induction false} FirstOfAppend(files: seq<File>, f: File, key: Key)
    ensures FirstOf(files + [f], key) ==
            if FirstOf(files, key).Some? then FirstOf(files, key)
            else if f.Some? && f.value.key == key then f else None
  {
    if files == [] {
      assert files + [f] == [f] && [f][1..] == [];
    } else {
      assert (files + [f])[1..] == files[1..] + [f] && (files + [f])[0] == files[0];
      FirstOfAppend(files[1..], f, key);
    }
  }

  lemma {:induction false} UnreadableAppend(files: seq<File>, f: File)
    ensures Unreadable(files + [f]) == Unreadable(files) + (if f == None then 1 else 0)
  {
    if files == [] {
      assert files + [f] == [f] && [f][1..] == [];
    } else {
      assert (files + [f])[1..] == files[1..] + [f] && (files + [f])[0] == files[0];
      UnreadableAppend(files[1..], f);
    }
  }

  predicate DistinctRecords(records: seq<Record>) {
    forall i, j :: 0 <= i < j < |records| ==> records[i].key != records[j].key
  }

  /** The records are, key by key, the first of these files; a key is listed once. */
  ghost predicate Lists(records: seq<Record>, files: seq<File>) {
    && DistinctRecords(records)
    && (forall i :: 0 <= i < |records| ==> FirstOf(files, records[i].key) == Some(records[i]))
    && (forall key :: FirstOf(files, key).Some? ==> FirstOf(files, key).value in records)
  }

  /** One more file: its record is new exactly when no listed one has its key. */
  lemma ListsStep(records: seq<Record>, files: seq<File>, f: File)
    requires Lists(records, files)
    ensures f == None ==> Lists(records, files + [f])
    ensures f.Some? && HasKey(records, f.value.key) ==> Lists(records, files + [f])
    ensures f.Some? && !HasKey(records, f.value.key) ==> Lists(records + [f.value], files + [f])
  {
    forall key ensures FirstOf(files + [f], key) ==
                       if FirstOf(files, key).Some? then FirstOf(files, key)
                       else if f.Some? && f.value.key == key then f else None
    {
      FirstOfAppend(files, f, key);
    }
    hide FirstOf;
    if f.Some? && HasKey(records, f.value.key) {
      var i :| 0 <= i < |records| && records[i].key == f.value.key;
      assert FirstOf(files, f.value.key).Some?;
    }
    if f.Some? && !HasKey(records, f.value.key) {
      assert FirstOf(files, f.value.key).Some? ==> FirstOf(files, f.value.key).value in records;
      KeyOfFirst(files, f.value.key);
      var next := records + [f.value];
      assert next[|records|] == f.value;
    }
  }

  lemma {:induction false} KeyOfFirst(files: seq<File>, key: Key)
    ensures FirstOf(files, key).Some? ==> FirstOf(files, key).value.key == key
  {
    if files != [] {
      KeyOfFirst(files[1..], key);
    }
  }

  predicate HasKey(records: seq<Record>, key: Key) {
    exists i :: 0 <= i < |records| && records[i].key == key
  }

  /** Keyed files first, then flat ones: the first reading of a key wins, so a keyed record is
      never replaced by a flat one, and every readable file is listed, superseded, or a second
      keyed reading. */
  method ReadStatus(keyed: seq<File>, flat: seq<File>)
    returns (records: seq<Record>, problems: nat, superseded: nat, ghost repeated: nat, shared: set<string>)
    ensures Lists(records, keyed + flat)
    ensures forall key :: FirstOf(keyed, key).Some? ==> FirstOf(keyed + flat, key) == FirstOf(keyed, key)
    ensures problems == Unreadable(keyed + flat)
    ensures |records| + superseded + repeated + problems == |keyed| + |flat| && repeated <= |keyed|
    ensures forall install :: install in shared <==> SharedInstall(records, install)
  {
    hide Lists, FirstOf, Unreadable, HasKey, SharedInstall;
    records, problems, superseded, repeated := [], 0, 0, 0;
    NothingListed();
    assert keyed[..0] == [];
    for i := 0 to |keyed|
      invariant Lists(records, keyed[..i]) && problems == Unreadable(keyed[..i])
      invariant |records| + repeated + problems == i && repeated <= i
    {
      assert keyed[..i + 1] == keyed[..i] + [keyed[i]];
      ListsStep(records, keyed[..i], keyed[i]);
      UnreadableAppend(keyed[..i], keyed[i]);
      if keyed[i] == None {
        problems := problems + 1;
      } else if HasKey(records, keyed[i].value.key) {
        repeated := repeated + 1;
      } else {
        records := records + [keyed[i].value];
      }
    }
    assert keyed[..|keyed|] == keyed && keyed + flat[..0] == keyed;
    for i := 0 to |flat|
      invariant Lists(records, keyed + flat[..i]) && problems == Unreadable(keyed + flat[..i])
      invariant |records| + superseded + repeated + problems == |keyed| + i
    {
      assert keyed + flat[..i + 1] == keyed + flat[..i] + [flat[i]];
      ListsStep(records, keyed + flat[..i], flat[i]);
      UnreadableAppend(keyed + flat[..i], flat[i]);
      if flat[i] == None {
        problems := problems + 1;
      } else if HasKey(records, flat[i].value.key) {
        superseded := superseded + 1;
      } else {
        records := records + [flat[i].value];
      }
    }
    assert flat[..|flat|] == flat;
    forall key ensures FirstOf(keyed, key).Some? ==> FirstOf(keyed + flat, key) == FirstOf(keyed, key) {
      FirstStays(keyed, flat, key);
    }
    ListsDistinct(records, keyed + flat);
    shared := SharedInstalls(records);
  }

  lemma ListsDistinct(records: seq<Record>, files: seq<File>)
    requires Lists(records, files)
    ensures DistinctRecords(records)
  {
  }

  lemma NothingListed()
    ensures Lists([], []) && Unreadable([]) == 0
  {
  }

  lemma {:induction false} FirstStays(a: seq<File>, b: seq<File>, key: Key)
    ensures FirstOf(a, key).Some? ==> FirstOf(a + b, key) == FirstOf(a, key)
  {
    if a != [] {
      assert (a + b)[1..] == a[1..] + b && (a + b)[0] == a[0];
      FirstStays(a[1..], b, key);
    }
  }

  /** An install id that two machines report. */
  predicate SharedInstall(records: seq<Record>, install: string) {
    exists i, j :: 0 <= i < j < |records| && records[i].key.install == install == records[j].key.install
  }

  method SharedInstalls(records: seq<Record>) returns (shared: set<string>)
    requires DistinctRecords(records)
    ensures forall install :: install in shared <==> SharedInstall(records, install)
    ensures forall install <- shared :: exists i, j ::
              0 <= i < j < |records| && records[i].key.install == install == records[j].key.install &&
              records[i].key.machine != records[j].key.machine
  {
    var byId: map<string, set<string>> := map[];
    for n := 0 to |records|
      invariant forall id :: id in byId ==> byId[id] == Machines(records[..n], id)
      invariant forall id :: id !in byId ==> Machines(records[..n], id) == {}
    {
      var key := records[n].key;
      assert records[..n + 1] == records[..n] + [records[n]];
      forall id ensures Machines(records[..n + 1], id) == Machines(records[..n], id) + (if id == key.install then {key.machine} else {}) {
        MachinesAppend(records[..n], records[n], id);
      }
      byId := byId[key.install := (if key.install in byId then byId[key.install] else {}) + {key.machine}];
    }
    assert records[..|records|] == records;
    shared := set id | id in byId && |byId[id]| > 1;
    forall id ensures |Machines(records, id)| > 1 <==> SharedInstall(records, id) {
      TwoMachines(records, id);
    }
    forall install | install in shared
      ensures exists i, j ::
                0 <= i < j < |records| && records[i].key.install == install == records[j].key.install &&
                records[i].key.machine != records[j].key.machine
    {
      var i, j :| 0 <= i < j < |records| && records[i].key.install == install == records[j].key.install;
      assert records[i].key != records[j].key;
    }
  }

  function Machines(records: seq<Record>, install: string): set<string> {
    set r | r in records && r.key.install == install :: r.key.machine
  }

  lemma MachinesAppend(records: seq<Record>, r: Record, install: string)
    ensures Machines(records + [r], install) ==
            Machines(records, install) + (if r.key.install == install then {r.key.machine} else {})
  {
    forall x ensures x in records + [r] <==> x in records || x == r {
    }
  }

  lemma TwoMachines(records: seq<Record>, install: string)
    requires DistinctRecords(records)
    ensures |Machines(records, install)| > 1 <==> SharedInstall(records, install)
  {
    var ms := Machines(records, install);
    if i, j :| 0 <= i < j < |records| && records[i].key.install == install == records[j].key.install {
      var a, b := records[i].key.machine, records[j].key.machine;
      assert records[i] in records && records[j] in records && records[i].key != records[j].key;
      assert {a, b} <= ms && a != b;
      assert |{a, b}| == 2 && ms == {a, b} + (ms - {a, b});
    }
    if |ms| > 1 {
      var a :| a in ms;
      assert ms - {a} != {} by {
        assert |ms - {a}| == |ms| - 1;
      }
      var b :| b in ms - {a};
      var x :| x in records && x.key.install == install && x.key.machine == a;
      var y :| y in records && y.key.install == install && y.key.machine == b;
      var i :| 0 <= i < |records| && records[i] == x;
      var j :| 0 <= j < |records| && records[j] == y;
      assert i != j;
      if i < j {
        assert SharedInstall(records, install);
      } else {
        assert records[j].key.install == install == records[i].key.install;
      }
    }
  }

  /** So the records of a status directory make a well-formed run. */
  lemma ListedRunIsWellFormed(records: seq<Record>, files: seq<File>, now: int)
    requires Lists(records, files) && forall r <- records :: DistinctRows(r.rows)
    ensures WellFormed(Run(now, records))
  {
  }
}
