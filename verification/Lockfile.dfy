/** The citation lockfile: rendering, parsing and checking it
    (scripts/check-citation-drift.py:808-918). */
module Lockfile {
  import opened Text
  import opened LineBreaks

  datatype Entry = Entry(digest: string, lines: int, citedBy: seq<string>, snippet: string)

  // ---------------------------------------------------------------- rendering

  /** `str(n)` */
  function IntText(n: int): string {
    if n < 0 then "-" + Decimal(-n) else Decimal(n)
  }

  function AfterKey(e: Entry): string {
    "  " + e.digest + "  lines=" + IntText(e.lines)
  }

  function KeyLine(key: string, e: Entry): string {
    key + AfterKey(e)
  }

  function CiteLine(e: Entry): string {
    "  <- " + Join(e.citedBy, ", ") + "  :: " + e.snippet
  }

  function Body(entries: map<string, Entry>, order: seq<string>): seq<string>
    requires forall k <- order :: k in entries
  {
    if order == [] then []
    else [KeyLine(order[0], entries[order[0]]), CiteLine(entries[order[0]])] + Body(entries, order[1..])
  }

  /** The lockfile's text: comment lines, a blank line, two lines per key in the given order,
      and a final line feed. */
  function RenderLock(header: seq<string>, entries: map<string, Entry>, order: seq<string>): string
    requires forall k <- order :: k in entries
  {
    Join(header + [""] + Body(entries, order) + [""], "\n")
  }

  /** The loop that renders the lockfile in the order of the sorted keys. */
  method Render(header: seq<string>, entries: map<string, Entry>, order: seq<string>) returns (text: string)
    requires forall k <- order :: k in entries
    ensures text == RenderLock(header, entries, order)
  {
    var out := header + [""];
    assert order[0..] == order;
    for i := 0 to |order|
      invariant out + Body(entries, order[i..]) == header + [""] + Body(entries, order)
    {
      assert order[i..][1..] == order[i + 1..];
      out := out + [KeyLine(order[i], entries[order[i]]), CiteLine(entries[order[i]])];
    }
    assert order[|order|..] == [];
    assert out + [] == out;
    text := Join(out + [""], "\n");
  }

  // ------------------------------------------------------------------ parsing

  /** Length of the leading run of characters that are, or are not, whitespace. */
  function RunOf(s: string, space: bool): (n: nat)
    ensures n <= |s| && (n < |s| ==> IsSpace(s[n]) != space)
    ensures forall k :: 0 <= k < n ==> IsSpace(s[k]) == space
  {
    if s == "" || IsSpace(s[0]) != space then 0 else 1 + RunOf(s[1..], space)
  }

  /** `s.split()` */
  function Words(s: string): seq<string>
    decreases |s|
  {
    var from := RunOf(s, true);
    if from == |s| then []
    else
      var n := RunOf(s[from..], false);
      [s[from..][..n]] + Words(s[from..][n..])
  }

  /** `s.partition(sep)` without the separator */
  function Partition(s: string, sep: string): (string, string) {
    var k := Find(s, sep, 0);
    if k < 0 then (s, "") else (s[..k], s[k + |sep|..])
  }

  function Cleaned(pieces: seq<string>): seq<string> {
    if pieces == [] then []
    else (if Strip(pieces[0]) == "" then [] else [Strip(pieces[0])]) + Cleaned(pieces[1..])
  }

  /** What reading has come to: entries, a line the parser gives up on with exit code 2, or a
      count on which Python raises. */
  datatype Reading =
    | Reading(entries: map<string, Entry>, pending: Option<string>)
    | Died
    | Raised

  /** The digits of a number, with single underscores allowed between them. */
  function DigitsOf(s: string): Option<string> {
    var parts := Split(s, '_');
    if forall p <- parts :: p != "" && AllDigits(p) then
      Some(Join(parts, ""))
    else None
  }

  lemma {:induction false} JoinedDigits(parts: seq<string>)
    requires forall p <- parts :: AllDigits(p)
    ensures AllDigits(Join(parts, ""))
  {
    if parts != [] {
      assert parts[0] in parts;
      JoinedDigits(parts[1..]);
    }
  }

  /** `int(s)` for a word, or None where it raises. */
  function IntOf(s: string): Option<int> {
    var signed := s != "" && (s[0] == '-' || s[0] == '+');
    var digits := DigitsOf(if signed then s[1..] else s);
    match digits
    case None => None
    case Some(d) =>
      JoinedDigits(Split(if signed then s[1..] else s, '_'));
      var n: int := Number(d);
      Some(if signed && s[0] == '-' then -n else n)
  }

  /** `lines=12` to 12, or None where the code raises: no `=` in the word, or no number behind
      the first. */
  function LineCount(word: string): Option<int> {
    var k := IndexOfChar(word, '=');
    if k < |word| then IntOf(word[k + 1..]) else None
  }

  function StepLine(line: string, r: Reading): Reading {
    if !r.Reading? then r
    else if Strip(line) == "" || "#" <= LStrip(line) then r
    else if "  <- " <= line then
      if r.pending == None || r.pending.value !in r.entries then r
      else
        var (cited, snippet) := Partition(line[5..], "  :: ");
        var key := r.pending.value;
        var e := r.entries[key];
        Reading(r.entries[key := e.(citedBy := Cleaned(Split(cited, ',')), snippet := snippet)], None)
    else
      var words := Words(line);
      if |words| < 3 then Died
      else if LineCount(words[2]) == None then Raised
      else Reading(r.entries[words[0] := Entry(words[1], LineCount(words[2]).value, [], "")], Some(words[0]))
  }

  function ReadLines(lines: seq<string>, r: Reading): Reading {
    if lines == [] then r else ReadLines(lines[1..], StepLine(lines[0], r))
  }

  function ReadLock(text: string): Reading {
    ReadLines(SplitLines(text), Reading(map[], None))
  }

  /** The loop over the lines; what stops it stays. */
  method ParseLock(text: string) returns (r: Reading)
    ensures r == ReadLock(text)
  {
    hide StepLine, SplitLines;
    var lines, st := SplitLines(text), Reading(map[], None);
    assert lines[0..] == lines;
    for i := 0 to |lines|
      invariant ReadLines(lines[i..], st) == ReadLines(lines, Reading(map[], None))
    {
      assert lines[i..][0] == lines[i] && lines[i..][1..] == lines[i + 1..];
      st := StepLine(lines[i], st);
    }
    assert lines[|lines|..] == [];
    r := st;
  }

  // ---------------------------------------------------------------- checking

  ghost predicate Matches(entries: map<string, Entry>, locked: map<string, Entry>) {
    entries.Keys == locked.Keys && forall k <- entries.Keys :: entries[k].digest == locked[k].digest
  }

  /** The lockfile on disk. */
  class Lock {
    var text: Option<string>

    constructor (text: Option<string>)
      ensures this.text == text
    {
      this.text := text;
    }

    /** `--update`: nothing is written while the documents have problems. */
    method Update(header: seq<string>, entries: map<string, Entry>, order: seq<string>, problems: nat) returns (exit: nat)
      requires forall k <- order :: k in entries
      modifies this
      ensures exit == if problems > 0 then 1 else 0
      ensures text == if problems > 0 then old(text) else Some(RenderLock(header, entries, order))
    {
      if problems > 0 {
        return 1;
      }
      var rendered := Render(header, entries, order);
      text := Some(rendered);
      return 0;
    }

    /** The default mode: 0 when everything matches, 2 without a lock or on a line of too few
        words, 1 on any failure and when a line's count is no number. */
    method Check(entries: map<string, Entry>, problems: nat) returns (exit: nat)
      ensures exit == 0 <==> text.Some? && ReadLock(text.value).Reading? && problems == 0 &&
                             Matches(entries, ReadLock(text.value).entries)
      ensures exit == 2 <==> text == None || ReadLock(text.value) == Died
      ensures exit == 0 || exit == 1 || exit == 2
    {
      hide ReadLock;
      if text == None {
        return 2;
      }
      var read := ParseLock(text.value);
      if read == Died {
        return 2;
      }
      if read == Raised {
        return 1;
      }
      var locked, failures := read.entries, problems;
      var left := entries.Keys;
      while left != {}
        invariant left <= entries.Keys && failures >= problems
        invariant failures == 0 <==> problems == 0 && forall k <- entries.Keys - left ::
                    k in locked && entries[k].digest == locked[k].digest
        decreases left
      {
        var k :| k in left;
        if k !in locked || entries[k].digest != locked[k].digest {
          failures := failures + 1;
        }
        left := left - {k};
      }
      var unused := set k | k in locked && k !in entries;
      failures := failures + |unused|;
      assert unused == {} <==> forall k <- locked.Keys :: k in entries.Keys;
      return if failures > 0 then 1 else 0;
    }
  }
}
