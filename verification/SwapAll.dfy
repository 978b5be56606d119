/** Any number of span lists swapped in a document at once: which citations the parser then
    reads (scripts/check-citation-drift.py:512-599). */
module SwapAll {
  import opened Text
  import opened Citations
  import opened CitationParser
  import opened CitationScope
  import opened CitationPlaces
  import opened SpanSwap
  import opened SwapStops
  import opened SwapScope

  /** Regions of one line, in order and apart, each of which can be swapped. */
  predicate InOrder(tree: Tree, line: string, rs: seq<Region>) {
    && (forall k :: 0 <= k < |rs| ==> Swappable(line, rs[k]) && Quiet(tree, line, rs[k]) && LegalList(rs[k].text))
    && (forall k :: 0 < k < |rs| ==> rs[k - 1].end < rs[k].start)
  }

  lemma InOrderTail(tree: Tree, line: string, rs: seq<Region>)
    requires InOrder(tree, line, rs) && rs != []
    ensures InOrder(tree, line, rs[1..]) && rs[0].start < rs[0].end <= |line|
    ensures Swappable(line, rs[0]) && Quiet(tree, line, rs[0]) && LegalList(rs[0].text)
    ensures |rs| > 1 ==> rs[0].end < rs[1].start
  {
    hide Swappable, Quiet, LegalList;
    InOrderEnds(tree, line, rs);
    forall k | 0 < k < |rs[1..]| ensures rs[1..][k - 1].end < rs[1..][k].start {
      assert rs[1..][k - 1] == rs[k] && rs[1..][k] == rs[k + 1];
    }
  }

  lemma InOrderEnds(tree: Tree, line: string, rs: seq<Region>)
    requires InOrder(tree, line, rs) && rs != []
    ensures rs[0].start < rs[0].end <= |line|
  {
    hide IsSpanList, IsPathChar, Quiet, LegalList;
  }

  /** The line with every region swapped, the last one first. */
  function Rewoven(tree: Tree, line: string, rs: seq<Region>): (u: string)
    requires InOrder(tree, line, rs)
    ensures rs == [] ==> u == line
    ensures rs != [] ==> rs[0].start <= |line| && rs[0].start <= |u| && u[..rs[0].start] == line[..rs[0].start]
  {
    hide InOrder;
    if rs == [] then line
    else
      InOrderTail(tree, line, rs);
      Swapped(Rewoven(tree, line, rs[1..]), rs[0])
  }

  lemma RewovenUnfold(tree: Tree, line: string, rs: seq<Region>)
    requires InOrder(tree, line, rs) && rs != []
    ensures InOrder(tree, line, rs[1..]) && rs[0].start <= rs[0].end <= |Rewoven(tree, line, rs[1..])|
    ensures Rewoven(tree, line, rs) == Swapped(Rewoven(tree, line, rs[1..]), rs[0])
  {
    InOrderTail(tree, line, rs);
    hide InOrder;
  }

  /** The first region can still be swapped when those behind it are. */
  lemma FirstStays(tree: Tree, line: string, rs: seq<Region>)
    requires InOrder(tree, line, rs) && rs != []
    ensures InOrder(tree, line, rs[1..])
    ensures var u, r := Rewoven(tree, line, rs[1..]), rs[0];
      && Swappable(u, r) && Quiet(tree, u, r) && u[r.start..r.end] == line[r.start..r.end]
  {
    InOrderTail(tree, line, rs);
    hide InOrder, Rewoven;
    var u, r := Rewoven(tree, line, rs[1..]), rs[0];
    if |rs| > 1 {
      assert rs[1..][0] == rs[1];
      PrefixSwappable(tree, line, u, rs[1].start, r);
    }
  }

  lemma SameSlices(t: string, u: string, n: nat, x: nat, y: nat)
    requires n <= |t| && n <= |u| && u[..n] == t[..n] && x <= y <= n
    ensures u[x..y] == t[x..y] && (x < n ==> u[x] == t[x])
  {
    assert forall k :: 0 <= k < n ==> u[k] == u[..n][k] == t[..n][k] == t[k];
  }

  lemma PrefixSwappable(tree: Tree, line: string, u: string, n: nat, r: Region)
    requires Swappable(line, r) && Quiet(tree, line, r) && r.end < n <= |line| && n <= |u| && u[..n] == line[..n]
    ensures Swappable(u, r) && Quiet(tree, u, r) && u[r.start..r.end] == line[r.start..r.end]
  {
    hide IsSpanList, IsPathChar, LastRun;
    SameSlices(line, u, n, r.start, r.end);
    SameSlices(line, u, n, r.start - 1, r.start);
    SameSlices(line, u, n, r.end, r.end);
  }

  // ------------------------------------------------------------ one line's tokens

  /** Where columns behind the first region's start go. */
  predicate KeyKept(rs: seq<Region>, key: int, key': int) {
    if rs == [] || key <= rs[0].start then key' == key else key' > rs[0].start
  }

  /** The list at `key` read again: swapped where a region starts there, kept otherwise. */
  predicate ListReread(line: string, rs: seq<Region>, key: int, spans: string, spans': string) {
    && (forall k :: 0 <= k < |rs| && rs[k].start == key ==>
          rs[k].start <= rs[k].end <= |line| && Respanned(line[rs[k].start..rs[k].end], rs[k].text, spans, spans'))
    && ((forall k :: 0 <= k < |rs| ==> rs[k].start != key) ==> spans' == spans)
  }

  predicate SameToken(t: Token, t': Token) {
    t'.docLine == t.docLine && t'.explicit == t.explicit && t'.target == t.target && PathOf(t'.raw) == PathOf(t.raw)
  }

  /** A token after the regions of line `i` are swapped. */
  predicate LineReread(i: nat, line: string, rs: seq<Region>, t: Token, t': Token) {
    && SameToken(t, t')
    && if t.docLine == i + 1 then KeyKept(rs, Key(t), Key(t')) && ListReread(line, rs, Key(t), t.spans, t'.spans)
       else Key(t') == Key(t) && t'.spans == t.spans
  }

  predicate AllReread(i: nat, line: string, rs: seq<Region>, ts: seq<Token>, ts': seq<Token>) {
    |ts'| == |ts| && forall k :: 0 <= k < |ts| ==> LineReread(i, line, rs, ts[k], ts'[k])
  }

  lemma StartsAscend(tree: Tree, line: string, rs: seq<Region>)
    requires InOrder(tree, line, rs)
    ensures forall k :: 0 < k < |rs| ==> rs[0].end < rs[k].start
    decreases |rs|
  {
    if |rs| > 1 {
      InOrderTail(tree, line, rs);
      InOrderTail(tree, line, rs[1..]);
      hide InOrder;
      StartsAscend(tree, line, rs[1..]);
      forall k | 0 < k < |rs| ensures rs[0].end < rs[k].start {
        assert rs[k] == rs[1..][k - 1];
      }
    }
  }

  /** One more region in front. */
  lemma ListRereadFirst(tree: Tree, line: string, rs: seq<Region>, key: int, spans: string, spans1: string, spans2: string)
    requires InOrder(tree, line, rs) && rs != [] && ListReread(line, rs[1..], key, spans, spans1)
    requires if key == rs[0].start then rs[0].end <= |line| && Respanned(line[rs[0].start..rs[0].end], rs[0].text, spans1, spans2)
             else spans2 == spans1
    ensures ListReread(line, rs, key, spans, spans2)
  {
    StartsAscend(tree, line, rs);
    InOrderTail(tree, line, rs);
    hide InOrder, Respanned;
    assert forall k :: 0 < k < |rs| ==> rs[k] == rs[1..][k - 1];
    assert forall k :: 0 <= k < |rs[1..]| ==> rs[1..][k] == rs[k + 1];
  }

  lemma TokenRereadFirst(tree: Tree, i: nat, line: string, rs: seq<Region>, was: string, t: Token, t1: Token, t2: Token)
    requires InOrder(tree, line, rs) && rs != [] && LineReread(i, line, rs[1..], t, t1)
    requires rs[0].end <= |line| && was == line[rs[0].start..rs[0].end] && TokenMoves(Site(i, rs[0]), was, t1, t2)
    ensures LineReread(i, line, rs, t, t2)
  {
    InOrderTail(tree, line, rs);
    hide InOrder, Respanned, PathOf, ListReread;
    if t.docLine == i + 1 {
      assert |rs| > 1 ==> rs[1..][0] == rs[1];
      ListRereadFirst(tree, line, rs, Key(t), t.spans, t1.spans, t2.spans);
      assert KeyKept(rs, Key(t), Key(t2));
    }
  }

  lemma {:induction false} SwapLine(doc: string, tree: Tree, lines: seq<string>, i: nat, rs: seq<Region>)
    requires i < |lines| && InOrder(tree, lines[i], rs)
    ensures var was, now := Parse(doc, tree, lines), Parse(doc, tree, lines[i := Rewoven(tree, lines[i], rs)]);
            AllReread(i, lines[i], rs, was.tokens, now.tokens) && (was.problems == [] ==> now.problems == [])
    decreases |rs|
  {
    hide Parse, InOrder, TokenMoves, LineReread, Swapped, IsSpanList, IsPathChar, Quiet, LegalList;
    var line := lines[i];
    if rs == [] {
      assert lines[i := line] == lines;
      NothingReread(i, line, Parse(doc, tree, lines).tokens);
    } else {
      InOrderTail(tree, line, rs);
      FirstStays(tree, line, rs);
      RewovenUnfold(tree, line, rs);
      hide Rewoven;
      SwapLine(doc, tree, lines, i, rs[1..]);
      var u, x := Rewoven(tree, line, rs[1..]), Site(i, rs[0]);
      var lines1 := lines[i := u];
      SwapReadsTheSame(doc, tree, lines1, x);
      assert SwappedIn(lines1, x) == lines[i := Rewoven(tree, line, rs)];
      var ts, ts1, ts2 := Parse(doc, tree, lines).tokens, Parse(doc, tree, lines1).tokens, Parse(doc, tree, SwappedIn(lines1, x)).tokens;
      forall k | 0 <= k < |ts| ensures LineReread(i, line, rs, ts[k], ts2[k]) {
        TokenRereadFirst(tree, i, line, rs, Was(lines1, x), ts[k], ts1[k], ts2[k]);
      }
    }
  }

  lemma NothingReread(i: nat, line: string, ts: seq<Token>)
    ensures AllReread(i, line, [], ts, ts)
  {
    hide PathOf;
  }

  // ------------------------------------------------------------------- all lines

  ghost predicate AllInOrder(tree: Tree, lines: seq<string>, rss: seq<seq<Region>>) {
    |rss| == |lines| && forall i :: 0 <= i < |lines| ==> InOrder(tree, lines[i], rss[i])
  }

  ghost function RewovenLines(tree: Tree, lines: seq<string>, rss: seq<seq<Region>>): (r: seq<string>)
    requires AllInOrder(tree, lines, rss)
    ensures |r| == |lines|
  {
    seq(|lines|, i requires 0 <= i < |lines| => Rewoven(tree, lines[i], rss[i]))
  }

  /** A token after the first `n` lines are rewoven. */
  predicate Reread(lines: seq<string>, rss: seq<seq<Region>>, n: nat, t: Token, t': Token)
    requires n <= |lines| == |rss|
  {
    && SameToken(t, t')
    && if 1 <= t.docLine <= n then ListReread(lines[t.docLine - 1], rss[t.docLine - 1], Key(t), t.spans, t'.spans)
       else Key(t') == Key(t) && t'.spans == t.spans
  }

  lemma RereadNext(lines: seq<string>, rss: seq<seq<Region>>, n: nat, t: Token, t1: Token, t2: Token)
    requires n < |lines| == |rss| && Reread(lines, rss, n, t, t1) && LineReread(n, lines[n], rss[n], t1, t2)
    ensures Reread(lines, rss, n + 1, t, t2)
  {
    hide ListReread, PathOf;
  }

  lemma {:induction false} SwapLines(doc: string, tree: Tree, lines: seq<string>, rss: seq<seq<Region>>, n: nat)
    requires AllInOrder(tree, lines, rss) && n <= |lines|
    ensures var now := Parse(doc, tree, RewovenLines(tree, lines, rss)[..n] + lines[n..]);
            var was := Parse(doc, tree, lines);
            && |now.tokens| == |was.tokens| && (was.problems == [] ==> now.problems == [])
            && forall k :: 0 <= k < |was.tokens| ==> Reread(lines, rss, n, was.tokens[k], now.tokens[k])
    decreases n
  {
    hide Parse, InOrder, Reread, LineReread, Rewoven;
    var all := RewovenLines(tree, lines, rss);
    var ts := Parse(doc, tree, lines).tokens;
    if n == 0 {
      assert all[..0] + lines[0..] == lines;
      forall k | 0 <= k < |ts| ensures Reread(lines, rss, 0, ts[k], ts[k]) {
        RereadNone(lines, rss, ts[k]);
      }
    } else {
      SwapLines(doc, tree, lines, rss, n - 1);
      var lines1 := all[..n - 1] + lines[n - 1..];
      var lines2 := all[..n] + lines[n..];
      assert lines1[n - 1] == lines[n - 1];
      assert lines1[n - 1 := Rewoven(tree, lines[n - 1], rss[n - 1])] == lines2;
      SwapLine(doc, tree, lines1, n - 1, rss[n - 1]);
      var ts1, ts2 := Parse(doc, tree, lines1).tokens, Parse(doc, tree, lines2).tokens;
      forall k | 0 <= k < |ts| ensures Reread(lines, rss, n, ts[k], ts2[k]) {
        RereadNext(lines, rss, n - 1, ts[k], ts1[k], ts2[k]);
      }
    }
  }

  lemma RereadNone(lines: seq<string>, rss: seq<seq<Region>>, t: Token)
    requires |lines| == |rss|
    ensures Reread(lines, rss, 0, t, t)
  {
    hide PathOf;
  }

  /** With any of its span lists swapped, a document reads the same token by token, but for the
      lists swapped. */
  lemma SwappedDocumentReads(doc: string, tree: Tree, lines: seq<string>, rss: seq<seq<Region>>)
    requires AllInOrder(tree, lines, rss)
    ensures var was, now := Parse(doc, tree, lines), Parse(doc, tree, RewovenLines(tree, lines, rss));
            && |now.tokens| == |was.tokens| && (was.problems == [] ==> now.problems == [])
            && forall k :: 0 <= k < |was.tokens| ==> Reread(lines, rss, |lines|, was.tokens[k], now.tokens[k])
  {
    hide Parse, InOrder, Reread, Rewoven;
    SwapLines(doc, tree, lines, rss, |lines|);
    var all := RewovenLines(tree, lines, rss);
    assert all[..|lines|] + lines[|lines|..] == all;
  }
}
