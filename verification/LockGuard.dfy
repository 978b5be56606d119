/** What the lockfile is for: the entries that `collect` makes of the citations, and that a check
    passes exactly while every cited text is what it was at the update
    (scripts/check-citation-drift.py:361-383, 733-788, 849-918). */
module LockGuard {
  import opened Text
  import opened LineBreaks
  import opened LineIndex
  import opened Citations
  import opened Relocate
  import opened Lockfile
  import opened LockRoundTrip

  // ------------------------------------------------------------------ collecting

  /** `key`: the file and the range as it is written. */
  function KeyOf(c: Citation): string {
    c.target + ":" + SpanText(c.start, c.end)
  }

  /** `where` */
  function Where(c: Citation): string {
    c.doc + ":" + Decimal(c.docLine)
  }

  /** Two citations have one key exactly when they cite the same lines of the same file. */
  lemma KeyIff(a: Citation, b: Citation)
    ensures KeyOf(a) == KeyOf(b) <==> a.target == b.target && a.start == b.start && a.end == b.end
  {
    hide SpanText, ChunkRange, IsChunk, SpansOf, PathOf;
    SpanTextReadsBack(a.start, a.end);
    SpanTextReadsBack(b.start, b.end);
    SpansOfParts(a.target, SpanText(a.start, a.end));
    SpansOfParts(b.target, SpanText(b.start, b.end));
  }

  predicate Ranges(citations: seq<Citation>, sources: map<string, seq<string>>) {
    forall c <- citations :: 1 <= c.start <= c.end && c.target in sources
  }

  predicate Within(c: Citation, sources: map<string, seq<string>>) {
    c.target in sources && c.end <= |sources[c.target]|
  }

  const SNIPPET_LEN := 60

  /** The first line that is not blank, cut to the length of a snippet. */
  function Snippet(body: seq<string>): string {
    if body == [] then ""
    else if body[0] == "" then Snippet(body[1..])
    else if |body[0]| > SNIPPET_LEN then body[0][..SNIPPET_LEN - 1] + "\U{2026}"
    else body[0]
  }

  /** The snippet of a range whose first line that is not blank is its `i`th. */
  lemma {:induction false} SnippetMeans(body: seq<string>, i: nat)
    requires i <= |body| && (forall j :: 0 <= j < i ==> body[j] == "") && (i < |body| ==> body[i] != "")
    ensures i == |body| ==> Snippet(body) == ""
    ensures i < |body| && |body[i]| <= 60 ==> Snippet(body) == body[i]
    ensures i < |body| && |body[i]| > 60 ==> Snippet(body) == body[i][..59] + "\U{2026}"
  {
    if i > 0 {
      SnippetMeans(body[1..], i - 1);
    }
  }

  function CitedBy(citations: seq<Citation>, key: string): seq<string> {
    if citations == [] then []
    else
      var last := citations[|citations| - 1];
      CitedBy(citations[..|citations| - 1], key) + if KeyOf(last) == key then [Where(last)] else []
  }

  function Outside(citations: seq<Citation>, sources: map<string, seq<string>>): nat {
    if citations == [] then 0
    else
      var last := citations[|citations| - 1];
      Outside(citations[..|citations| - 1], sources) + if Within(last, sources) then 0 else 1
  }

  /** The entry of a cited range: its digest, its number of lines, and who cites it. */
  predicate EntryFor(hash: string -> string, citations: seq<Citation>, sources: map<string, seq<string>>, c: Citation, e: Entry)
    requires 1 <= c.start <= c.end && Within(c, sources)
  {
    && Some(e.digest) == Digest(hash, sources[c.target], c.start, c.end) && e.lines == c.end - c.start + 1
    && e.snippet == Snippet(Normalised(sources[c.target][c.start - 1..c.end]))
    && e.citedBy == CitedBy(citations, KeyOf(c))
  }

  /** One entry for every range that lies in its file, and no other. */
  ghost predicate Collected(hash: string -> string, citations: seq<Citation>, sources: map<string, seq<string>>,
                            entries: map<string, Entry>)
    requires Ranges(citations, sources)
  {
    && (forall key :: key in entries <==> exists c :: c in citations && Within(c, sources) && KeyOf(c) == key)
    && (forall c <- citations :: Within(c, sources) ==>
          KeyOf(c) in entries && EntryFor(hash, citations, sources, c, entries[KeyOf(c)]))
  }

  /** The loop over the citations. */
  method Collect(hash: string -> string, citations: seq<Citation>, sources: map<string, seq<string>>)
    returns (entries: map<string, Entry>, problems: nat)
    requires Ranges(citations, sources)
    ensures Collected(hash, citations, sources, entries)
    ensures problems == Outside(citations, sources)
    ensures problems == 0 <==> forall c <- citations :: c.end <= |sources[c.target]|
    ensures forall c <- citations :: c.end <= |sources[c.target]| <==> KeyOf(c) in entries
  {
    OutsideNone(citations, sources);
    SameRanges(citations, sources);
    entries, problems := map[], 0;
    for i := 0 to |citations|
      invariant Ranges(citations[..i], sources) && Collected(hash, citations[..i], sources, entries)
      invariant problems == Outside(citations[..i], sources)
    {
      hide Collected, EntryFor, Ranges, KeyOf, Snippet, CitedBy, Outside, Where, Join;
      var c := citations[i];
      assert citations[..i + 1] == citations[..i] + [c];
      OneMore(citations[..i], c, sources);
      RangeOf(citations, sources, c);
      if Within(c, sources) {
        var body := Normalised(sources[c.target][c.start - 1..c.end]);
        var entry := if KeyOf(c) in entries then entries[KeyOf(c)]
                     else Entry(hash(Join(body, "\n")), c.end - c.start + 1, [], Snippet(body));
        CollectedMore(hash, citations[..i], sources, c, entries, entry);
        entries := entries[KeyOf(c) := entry.(citedBy := entry.citedBy + [Where(c)])];
      } else {
        problems := problems + 1;
        CollectedSame(hash, citations[..i], sources, c, entries);
      }
    }
    assert citations[..|citations|] == citations;
  }

  lemma SameRanges(citations: seq<Citation>, sources: map<string, seq<string>>)
    ensures forall c, d :: c in citations && d in citations && KeyOf(c) == KeyOf(d) ==> (Within(c, sources) <==> Within(d, sources))
  {
    hide KeyOf;
    forall c, d | c in citations && d in citations && KeyOf(c) == KeyOf(d) ensures Within(c, sources) <==> Within(d, sources) {
      KeyIff(c, d);
    }
  }

  lemma RangeOf(citations: seq<Citation>, sources: map<string, seq<string>>, c: Citation)
    requires Ranges(citations, sources) && c in citations
    ensures 1 <= c.start <= c.end && c.target in sources
  {
  }

  lemma {:induction false} NeverCited(citations: seq<Citation>, key: string)
    requires forall c <- citations :: KeyOf(c) != key
    ensures CitedBy(citations, key) == []
  {
    hide KeyOf, Where;
    if citations != [] {
      NeverCited(citations[..|citations| - 1], key);
    }
  }

  lemma SameRange(citations: seq<Citation>, sources: map<string, seq<string>>, c: Citation)
    ensures forall d :: d in citations && KeyOf(d) == KeyOf(c) ==>
              d.target == c.target && d.start == c.start && d.end == c.end && (Within(d, sources) <==> Within(c, sources))
  {
    forall d | d in citations && KeyOf(d) == KeyOf(c)
      ensures d.target == c.target && d.start == c.start && d.end == c.end
    {
      KeyIff(d, c);
    }
  }

  lemma CollectedMore(hash: string -> string, citations: seq<Citation>, sources: map<string, seq<string>>, c: Citation,
                      entries: map<string, Entry>, entry: Entry)
    requires Ranges(citations, sources) && Collected(hash, citations, sources, entries)
    requires 1 <= c.start <= c.end && Within(c, sources) && Ranges(citations + [c], sources)
    requires if KeyOf(c) in entries then entry == entries[KeyOf(c)]
             else var body := Normalised(sources[c.target][c.start - 1..c.end]);
                  entry == Entry(hash(Join(body, "\n")), c.end - c.start + 1, [], Snippet(body))
    ensures Collected(hash, citations + [c], sources, entries[KeyOf(c) := entry.(citedBy := entry.citedBy + [Where(c)])])
  {
    hide KeyOf, Where, Snippet, CitedBy, Join, Normalised;
    var all, after := citations + [c], entries[KeyOf(c) := entry.(citedBy := entry.citedBy + [Where(c)])];
    SameRange(all, sources, c);
    OneMore(citations, c, sources);
    assert EntryFor(hash, citations, sources, c, entry) by {
      if KeyOf(c) in entries {
        var d :| d in citations && Within(d, sources) && KeyOf(d) == KeyOf(c);
        assert d in all && EntryFor(hash, citations, sources, d, entry);
      } else {
        forall d | d in citations ensures KeyOf(d) != KeyOf(c) {
          assert d in all;
        }
        NeverCited(citations, KeyOf(c));
      }
    }
    forall d | d in all && Within(d, sources) ensures KeyOf(d) in after && EntryFor(hash, all, sources, d, after[KeyOf(d)]) {
    }
    forall key ensures key in after <==> exists d :: d in all && Within(d, sources) && KeyOf(d) == key {
      if key == KeyOf(c) {
        assert c in all;
      }
    }
  }

  lemma CollectedSame(hash: string -> string, citations: seq<Citation>, sources: map<string, seq<string>>, c: Citation,
                      entries: map<string, Entry>)
    requires Ranges(citations, sources) && Collected(hash, citations, sources, entries)
    requires !Within(c, sources) && Ranges(citations + [c], sources)
    ensures Collected(hash, citations + [c], sources, entries)
  {
    hide KeyOf, Where, Snippet, CitedBy, Digest, Normalised;
    var all := citations + [c];
    SameRange(all, sources, c);
    OneMore(citations, c, sources);
    forall d | d in all && Within(d, sources) ensures KeyOf(d) in entries && EntryFor(hash, all, sources, d, entries[KeyOf(d)]) {
      assert d in citations;
    }
  }

  lemma OneMore(citations: seq<Citation>, c: Citation, sources: map<string, seq<string>>)
    ensures Outside(citations + [c], sources) == Outside(citations, sources) + if Within(c, sources) then 0 else 1
    ensures forall key :: CitedBy(citations + [c], key) == CitedBy(citations, key) + if KeyOf(c) == key then [Where(c)] else []
    ensures Ranges(citations, sources) && 1 <= c.start <= c.end && c.target in sources ==> Ranges(citations + [c], sources)
  {
    assert (citations + [c])[..|citations|] == citations;
  }

  // ------------------------------------------------------------- a later check

  /** The lock of some entries matches others exactly when these have the same keys, each with the
      same digest. */
  lemma LaterMatchesIff(header: seq<string>, locked: map<string, Entry>, order: seq<string>, current: map<string, Entry>)
    requires CommentLines(header) && forall k :: k in order <==> k in locked
    requires forall k <- locked :: GoodKey(k) && OneLined(locked[k])
    ensures var read := ReadLock(RenderLock(header, locked, order));
      read.Reading? &&
      (Matches(current, read.entries) <==>
        (forall k :: k in current <==> k in locked) && forall k <- current :: k in locked && current[k].digest == locked[k].digest)
  {
    hide ReadLock, RenderLock, GoodKey, OneLined, CommentLines;
    GoodLockRead(header, locked, order);
    forall k | k in locked ensures AsRead(locked[k]).digest == locked[k].digest {
      DigestStays(locked[k]);
    }
    hide AsRead;
    var read := AllAsRead(locked, order);
    assert forall k :: k in read <==> k in locked;
    if Matches(current, read) {
      assert forall k :: k in current.Keys <==> k in read.Keys;
    }
    if (forall k :: k in current <==> k in locked) && forall k <- current :: current[k].digest == locked[k].digest {
      assert current.Keys == read.Keys;
    }
  }

  lemma DigestStays(e: Entry)
    ensures AsRead(e).digest == e.digest
  {
    hide Partition, Cleaned, Split, Told;
  }

  /** The cited lines are all there still, each as it was but for the blanks around it. */
  ghost predicate Unchanged(c: Citation, was: map<string, seq<string>>, now: map<string, seq<string>>) {
    && Within(c, was) && Within(c, now) && 1 <= c.start <= c.end
    && forall k :: 0 <= k <= c.end - c.start ==> SameStripped(was[c.target], c.start, now[c.target], c.start, k)
  }

  ghost predicate Readable(citations: seq<Citation>, sources: map<string, seq<string>>) {
    Ranges(citations, sources) && forall c, l :: c in citations && l in sources[c.target] ==> BreakFree(l)
  }

  lemma {:induction false} OutsideNone(citations: seq<Citation>, sources: map<string, seq<string>>)
    ensures Outside(citations, sources) == 0 <==> forall c <- citations :: Within(c, sources)
  {
    if citations != [] {
      var init, last := citations[..|citations| - 1], citations[|citations| - 1];
      assert citations == init + [last];
      OutsideNone(init, sources);
    }
  }

  lemma NoneOutside(citations: seq<Citation>, sources: map<string, seq<string>>)
    requires Ranges(citations, sources) && forall c <- citations :: c.end <= |sources[c.target]|
    ensures Outside(citations, sources) == 0
  {
    OutsideNone(citations, sources);
  }

  /** Everything is there still, and every digest with it, exactly when every cited text is. */
  lemma DigestsIff(hash: string -> string, citations: seq<Citation>, was: map<string, seq<string>>, now: map<string, seq<string>>,
                   locked: map<string, Entry>, current: map<string, Entry>)
    requires forall x, y :: hash(x) == hash(y) ==> x == y
    requires Readable(citations, was) && Readable(citations, now) && Outside(citations, was) == 0
    requires Collected(hash, citations, was, locked) && Collected(hash, citations, now, current)
    ensures Outside(citations, now) == 0 && (forall k :: k in current <==> k in locked) &&
            (forall k <- current :: k in locked && current[k].digest == locked[k].digest)
            <==> forall c <- citations :: Unchanged(c, was, now)
  {
    hide KeyOf, Digest, SameStripped, Snippet, CitedBy, Outside;
    OutsideNone(citations, was);
    OutsideNone(citations, now);
    forall c | c in citations && Within(c, now)
      ensures KeyOf(c) in locked && KeyOf(c) in current &&
              (current[KeyOf(c)].digest == locked[KeyOf(c)].digest <==> Unchanged(c, was, now))
    {
      OneDigest(hash, citations, was, now, locked, current, c);
    }
    if forall c <- citations :: Unchanged(c, was, now) {
      hide EntryFor, Unchanged;
      forall k | k in current ensures k in locked && current[k].digest == locked[k].digest {
        var c :| c in citations && Within(c, now) && KeyOf(c) == k;
      }
      forall k ensures k in current <==> k in locked {
        if k in locked {
          var c :| c in citations && Within(c, was) && KeyOf(c) == k;
          IsWithin(c, was, now);
        }
      }
    }
  }

  lemma IsWithin(c: Citation, was: map<string, seq<string>>, now: map<string, seq<string>>)
    ensures Unchanged(c, was, now) ==> Within(c, now)
  {
  }

  lemma OneDigest(hash: string -> string, citations: seq<Citation>, was: map<string, seq<string>>, now: map<string, seq<string>>,
                  locked: map<string, Entry>, current: map<string, Entry>, c: Citation)
    requires forall x, y :: hash(x) == hash(y) ==> x == y
    requires Readable(citations, was) && Readable(citations, now)
    requires Collected(hash, citations, was, locked) && Collected(hash, citations, now, current)
    requires c in citations && Within(c, was) && Within(c, now)
    ensures KeyOf(c) in locked && KeyOf(c) in current
    ensures current[KeyOf(c)].digest == locked[KeyOf(c)].digest <==> Unchanged(c, was, now)
  {
    hide KeyOf, Snippet, CitedBy, SameStripped;
    forall l | l in was[c.target] || l in now[c.target] ensures Lacks(l, '\n') {
      NoLineFeed(l);
    }
    hide Digest;
    DigestIff(hash, was[c.target], c.start, c.end, now[c.target], c.start, c.end);
  }

  lemma NoLineFeed(l: string)
    ensures BreakFree(l) ==> Lacks(l, '\n')
  {
  }

  // ----------------------------------------------------------------- main result

  lemma {:induction false} SnippetBreakFree(body: seq<string>)
    requires forall l <- body :: BreakFree(l)
    ensures BreakFree(Snippet(body))
  {
    if body != [] {
      assert body[0] in body;
      SnippetBreakFree(body[1..]);
      assert !IsBreak('\U{2026}');
    }
  }

  lemma StripBreakFree(l: string)
    ensures BreakFree(l) ==> BreakFree(Strip(l))
  {
    assert BreakFree(l) ==> forall ch <- l :: !IsBreak(ch);
    hide IsBreak, IsSpace;
    assert forall ch <- Strip(l) :: ch in l;
  }

  lemma {:induction false} CitedByBreakFree(citations: seq<Citation>, key: string)
    requires forall c <- citations :: BreakFree(c.doc)
    ensures forall w <- CitedBy(citations, key) :: BreakFree(w)
  {
    hide BreakFree, KeyOf, Where;
    if citations != [] {
      var last := citations[|citations| - 1];
      assert last in citations;
      CitedByBreakFree(citations[..|citations| - 1], key);
      WhereBreakFree(last);
    }
  }

  lemma WhereBreakFree(c: Citation)
    requires BreakFree(c.doc)
    ensures BreakFree(Where(c))
  {
    DigitsBreakFree(Decimal(c.docLine));
    hide IsBreak, Decimal;
    assert Where(c) == c.doc + (":" + Decimal(c.docLine));
  }

  lemma DigitsBreakFree(s: string)
    requires AllDigits(s)
    ensures BreakFree(":" + s)
  {
  }

  lemma EntryOneLined(hash: string -> string, citations: seq<Citation>, sources: map<string, seq<string>>, c: Citation, e: Entry)
    requires 1 <= c.start <= c.end && Within(c, sources) && EntryFor(hash, citations, sources, c, e)
    requires (forall x :: Solid(hash(x))) && (forall d <- citations :: BreakFree(d.doc)) && forall l <- sources[c.target] :: BreakFree(l)
    ensures OneLined(e)
  {
    hide IsBreak, CitedBy, Snippet, Strip, Solid, Join;
    CitedByBreakFree(citations, KeyOf(c));
    var lines := sources[c.target][c.start - 1..c.end];
    forall i | 0 <= i < |lines| ensures BreakFree(Normalised(lines)[i]) {
      assert lines[i] == sources[c.target][c.start - 1 + i] && lines[i] in sources[c.target];
      StripBreakFree(lines[i]);
      NormalisedAt(lines);
    }
    SnippetBreakFree(Normalised(lines));
  }

  /** The law of the lockfile: written without problems, it passes a later check exactly when every
      cited line is there still, unchanged but for the blanks around it. */
  method UpdateThenCheckLater(lock: Lock, hash: string -> string, header: seq<string>, order: seq<string>,
                              citations: seq<Citation>, was: map<string, seq<string>>, now: map<string, seq<string>>,
                              locked: map<string, Entry>)
    returns (exit: nat)
    requires (forall x, y :: hash(x) == hash(y) ==> x == y) && forall x :: Solid(hash(x))
    requires Readable(citations, was) && Readable(citations, now) && forall c <- citations :: c.end <= |was[c.target]|
    requires CommentLines(header) && Collected(hash, citations, was, locked) && forall k :: k in order <==> k in locked
    requires forall c <- citations :: GoodKey(KeyOf(c)) && BreakFree(c.doc)
    modifies lock
    ensures exit == 0 <==> forall c <- citations :: Unchanged(c, was, now)
  {
    hide ReadLock, RenderLock, OneLined, GoodKey, KeyOf, Outside, Unchanged, CommentLines, EntryFor, Within, Ranges, BreakFree, Solid, Matches;
    NoneOutside(citations, was);
    forall k | k in locked ensures GoodKey(k) && OneLined(locked[k]) {
      var c :| c in citations && Within(c, was) && KeyOf(c) == k;
      RangeOf(citations, was, c);
      EntryOneLined(hash, citations, was, c, locked[k]);
    }
    var _ := lock.Update(header, locked, order, 0);
    var current, problems := Collect(hash, citations, now);
    LaterMatchesIff(header, locked, order, current);
    DigestsIff(hash, citations, was, now, locked, current);
    exit := lock.Check(current, problems);
  }
}
