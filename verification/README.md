# Verified models of the repository's scripts

This project states, in Dafny, what the repository's Python scripts promise, and proves it. The centre is
the citation-relocation engine: documents cite source lines as `path:12` or `path:12-20,30`, the sources
move, and `scripts/relocate-citations.py` rewrites the numbers so that every citation pins the text it
pinned before. Around it stand seven independent cores of other scripts, each with its own theorem.

`dafny verify dfyconfig.toml` checks everything.

## How the project is laid out

Each algorithm that loops in the source is a method with the loop, proved against a specification
function; the theorems are lemmas about those functions. Objects that the source mutates are classes.

| files | what they model |
|---|---|
| `Text`, `LineBreaks` | the string operations used, and editing lines of a document in place |
| `LineIndex` | a file's normalised lines joined into one string, and block search in it |
| `Relocate`, `Across`, `Decide`, `Agreement`, `TieBreak` | one side's search for a citation's text, also between files of different separators; the vote over all sides of a merge, and which sides have one |
| `Citations`, `Patterns`, `CitationParser`, `CitationScope`, `CitationPlaces`, `ParseMeans` | citation tokens and the texts they are read from, the parser's walk, what its result means, where its tokens stand, and what it answers at every place |
| `TokenRewrite`, `Plan`, `WholeTokens` | rewriting tokens in a line, planning a document, comma lists |
| `Commit` | the run over all documents: plan, write, roll back, read back |
| `SpanSwap`, `SwapStops`, `SwapScope`, `SwapAll` | what the parser reads when span lists in a document are exchanged: matches, stops, one list, any number |
| `PlannedLines`, `Landing` | where a plan's rewrites land, and what the written document reads as |
| `CitedDocument` | a cited file that the run itself rewrites |
| `SecondRun` | a second run over the same sides, and a citation that it moves once too often |
| `Astray`, `UrlPort` | a run that ends well with a citation left stale, and a URL's port that is moved |
| `Lockfile`, `LockRoundTrip`, `LockReading`, `LockGuard` | the lockfile's text, reading it back, reading any text, update and check, and what a later check says of the cited lines |
| `RustLexer`, `RustForms`, `RustScan`, `RustReport` | the lexical walk over Rust source, where its strings, comments and calls end, the scan and what it reports |
| `ExtStatus`, `Scoreboard`, `ScoreHistory` | status records, one scoreboard run, and any sequence of runs |
| `Inventory`, `InventoryPlaces`, `InventoryReport` | the capped walk over a JSON document, what it counts there, and its report |
| `ParentChain` | the walk over parent links |
| `MarkerBlock`, `NormalForm`, `SourcePages`, `PageTree` | replacing the block between two markers and comparing two blocks; the source pages |
| `RetryReport`, `RetryRecords` | retry totals over incomplete data, and the records they are read from |
| `WipeVerdict` | the verdict of a wipe and re-collect cycle |

Three results carry the engine. `Commit.RunKeepsTheText`: for every citation that a run moves, each deciding
side of the merge wrote that very token, and its lines at the old range are the working file's lines at the
new range and stand nowhere else in it. `Commit.Worktree.Run`: a run is refused iff a document does not parse
cleanly or the tokens to rewrite on some line have no place on it; otherwise, when it ends well every document has
exactly its planned lines changed and parses cleanly, and each expected anchor is read somewhere in its
document; when it ends badly every document not named as stranded has its old text, and the read-back fails only
if the planned documents do not read back. A good end does not say that the tokens that moved are the ones
rewritten, and they need not be. `Landing.LandsAsDecidedIff` says when: the written document parses to the old
citations, in order, each at the range decided, iff every replaced token stands whole where the parser found it
with no identical whole token between it and the one before. `Landing.HomeReadsBack` takes it to the run: when
that holds of every document the read-back cannot fail, and every moved citation is at its new range. Both rest
on `SwapAll.SwappedDocumentReads`: exchanging span lists in a document changes nothing else of what the parser
reads, unless a colon right behind a list makes a file's name of its last number, before or after, and the
exchange changes that number (`SpanSwap.QuietIff`).

## Where the code and its own words differ

The models follow the code. What they show:

- `SourceIndex` says a match can only start on a line boundary (scripts/relocate-citations.py:218-240).
  `LineIndex.SearchExactIff` says for which files: those in which no stripped line begins or ends with NUL, and
  those of nothing but NULs. Elsewhere two different texts are taken for one and a stale citation is called
  right (`Relocate.LongSeparatorMisplaces`). Two files whose separators differ in length can be misread even
  when both are searched exactly: a citation is moved to lines 2-3 of a file of two lines
  (`Relocate.UnequalSeparatorsMisplace`). `Across.RightAcrossIff` says when the answer is right all the same: when
  the old text reads as the cited lines under the working file's separator, or as lines that stand in the
  working file just as the cited ones do. An empty file "contains" a single empty line; `locate` asks for blank
  blocks first, so that case reaches no decision.
- `rewrite_line` may rewrite an identical token in front of the one that was meant
  (`TokenRewrite.FirstOfTwoIsRewritten`); `LandsWherePlannedIff` says when. The read-back is there to notice it
  (scripts/relocate-citations.py:1197-1207), but it compares sets of anchors: `Astray.GoodEndStaleCitation` is
  a run that ends well, leaves the citation stale and rewrites the prose before it.
  `Landing.LandsAsDecidedIff` is the exact condition for a document. Its side condition is that no replaced list
  followed by a colon gives a file its name there, because that name changes with the number
  (`SpanSwap.NumberNameTurns`); without files named by digits and dashes alone it always holds
  (`Landing.NamesAreLeft`).
- A second run is said to be "a refusal and not a second relocation", because no side writes a citation that was
  already relocated (scripts/relocate-citations.py:47-50, 713-719). But a side may have written just that token at
  the new range, about another line: `SecondRun.MovedTwice` moves a sentence about `c` from line 2 to line 3, where
  `c` went, and then to line 4, on `e`. `SecondRun.SecondMoveIff` is the exact condition, for every relocated
  citation; `SecondRun.SecondMoveLosesText` says that a second move always leaves the text, and
  `SecondRun.StaysUnlessWritten` that there is none when no side's document writes the new token at the new range.
- A cited file can be one of the documents that the run rewrites, and then the text just pinned changes under the
  citation, with no word from the run. `CitedDocument.MovedTextStaysIff`: the new range holds the cited text after
  the run iff no planned edit of that document is of a line in the range.
- `replace_lines` with an empty replacement can merge two line terminators (`LineBreaks.EmptyingMayMerge`,
  `ReplaceKeepsStructureIff`). The planner never produces one (`WholeTokens.PlannedEditsAreLineEdits`).
- A URL's port, as in `https://host/a.ts:80`, is not a file name, but in a sentence that already cites a
  file it is recorded as a citation of that file (scripts/check-citation-drift.py:538-569), and it is moved
  with that file's lines, although `identity_refusal` is there to keep a token from standing for a file it does
  not name (`UrlPort.PortIsRead`, `UrlPort.PortIsMoved`). `CitationPlaces.PathNamesFileIff` is the condition: a
  written path names its file iff no URL's colon stands before it, and `UrlPort.MovedNamesItsFile` carries it
  over to every citation a plan moves.
- An oracle whose JSON result is `null` counts as having run while no metric is compared, so a fallen recall
  can end as `held` (`WipeVerdict.NullResultHolds`; `HeldIff` is the exact condition).
- `apply` settles after one run exactly when every page will name its source's id, no header holds the end
  marker, and the headers of new pages have no outer newlines; `PageTree.ApplySettlesIff` reads all of it off the
  pages and headers before the run. A page with text in front of its block keeps failing the check after `apply`.
- The bounded inventory marks a document of exactly `MAX_NODES` nodes as truncated when the last thing in it is
  an object with a field to look at, and not otherwise (`InventoryReport.CapInsideObject`); `TakeInventory` gives
  the exact condition.
- A lock line of too few words ends the check with exit code 2, but a count that is no number raises and ends it
  with 1 (`Lockfile.Lock.Check`). A key with whitespace in it, as of a cited file under a directory named with a
  space, is written but never read back: the check right after a good update fails
  (`LockRoundTrip.LockMatchesIff`, `UpdateThenCheck`). A citer whose name lets the separator occur early is not
  read back either, although the check still passes (`LockRoundTrip.LockReadsBackIff`).

## Model

| member | source | states |
|---|---|---|
| LineBreaks.ReplaceLines | scripts/relocate-citations.py:889-904 | the in-place edit loop over the split parts computes `Replaced`, and refuses an edit whose line is not there |
| LineBreaks.ResplitIff | scripts/relocate-citations.py:869-904 | joining alternating contents and terminators and splitting again gives them back iff no bare CR and LF meet |
| LineBreaks.SplitConcat | scripts/relocate-citations.py:889-904 | splitting loses nothing: the parts concatenate to the document |
| LineBreaks.ReplaceKeepsStructureIff | scripts/relocate-citations.py:889-904 | the rewritten document splits into the old parts with exactly the edited lines substituted, iff no edit empties a line between CR and LF |
| LineBreaks.ReplacePreservesLines | scripts/relocate-citations.py:889-904 | with non-empty break-free texts every terminator and every other line is the old one, and the line count is unchanged |
| LineBreaks.ReplaceNothing | scripts/relocate-citations.py:889-904 | with no edits the document is returned as it is |
| LineBreaks.EmptyingMayMerge | scripts/relocate-citations.py:889-904 | a concrete edit with empty text that loses a line |
| LineIndex.SourceIndex.Windows | scripts/relocate-citations.py:259-269 | the search loop over the joined string returns the specified list of line numbers |
| LineIndex.BuildIndex | scripts/relocate-citations.py:242-250 | the separator-lengthening loop builds the index with the shortest run of NULs found in no line |
| LineIndex.WindowsExactIff | scripts/relocate-citations.py:218-269 | under any separator that no line holds or has the character of at an end, the hits are exactly the lines where the block stands, in increasing order, except for one empty line sought in an empty file |
| LineIndex.SearchExactIff | scripts/relocate-citations.py:218-269 | over all files: the search finds every block that is not empty throughout exactly where it stands iff no line begins or ends with NUL, or every line is only NULs |
| LineBlocks.CountIsIndex | scripts/relocate-citations.py:259-269 | the number of separators before a line's frame is the line's index |
| Relocate.PlainIndexIff | scripts/relocate-citations.py:218-250 | a file's index is one that `LocateExact` speaks about iff no stripped line has a NUL at an end |
| Relocate.LongSeparatorMisplaces | scripts/relocate-citations.py:242-250 | a concrete citation called right on lines that are not the cited ones |
| Relocate.UnequalSeparatorsMisplace | scripts/relocate-citations.py:242-269 | a concrete citation moved to a line behind the end of the file |
| Across.LocateAcross | scripts/relocate-citations.py:456-518 | whatever the two separators are, `locate` answers for the lines that the old text reads as under the working file's separator |
| Across.RightAcrossIff | scripts/relocate-citations.py:242-269 | and that is right about the cited lines iff they are those lines, or stand in the working file as those do |
| Across.ReadsUnderNul | scripts/relocate-citations.py:242-250 | under the separator of a working file without NULs every old text reads as lines |
| Relocate.LocateExact | scripts/relocate-citations.py:456-518 | with one separator and no NUL at a line's end, every result of `locate` in terms of the two files' lines: right in place, unique elsewhere, ambiguous, missing, blank or out of range |
| Relocate.IsRightIff | scripts/relocate-citations.py:456-462 | the comparison of joined blocks is equality of the cited lines in place |
| Relocate.ShiftedMeans | scripts/relocate-citations.py:465-518 | a shift keeps the length, its lines equal the cited ones, and they stand nowhere else |
| Relocate.ShiftedIff | scripts/relocate-citations.py:465-518 | a citation shifts to a place iff its text, not blank, stands there and only there, and not where the citation says |
| Relocate.FoundWhenUnique | scripts/relocate-citations.py:465-518 | a block that stands in one place is found there |
| Relocate.ShiftsCompose | scripts/relocate-citations.py:465-518 | two shifts in a row land where one direct search lands, or the direct search says the citation is right |
| Relocate.PlacementKeepsDigest | scripts/check-citation-drift.py:742-752 | for any hash, the digest at the new range of the new file is the digest at the old range of the old one |
| Relocate.DigestIff | scripts/check-citation-drift.py:742-752 | with a hash that tells texts apart, two digests are equal iff the ranges have as many lines and each is the same but for the blanks around it |
| Decide.ReadParent | scripts/relocate-citations.py:319-366 | reading a commit's documents collects, for each token written on a line, exactly the files it names there |
| Decide.AddCitations | scripts/relocate-citations.py:319-350 | the claim map gains exactly the citations' files |
| Decide.Tally | scripts/relocate-citations.py:681-792 | gathering the owners' votes in the lists and comparing them in the code's order gives the specified verdict |
| Decide.DecideCitation | scripts/relocate-citations.py:681-792 | the whole decision, refusals first, equals the specification `Decided` |
| TieBreak.LineDecides | scripts/relocate-citations.py:705-713 | when two sides or more wrote the token and one of them alone the line, that side decides as it would alone, whatever the texts of the others are |
| TieBreak.EveryClaimVotes | scripts/relocate-citations.py:705-792 | in every other case each side that wrote the token has a vote: a common vote is followed, and without one the answer is ambiguous |
| TieBreak.DecisionIff | scripts/relocate-citations.py:681-792 | when each refusal is given, over links, tokens, paths and trees: a link, another file, a token cut in two, nobody's numbers, and a range right as it is |
| TieBreak.ThroughLinkIff | scripts/relocate-citations.py:523-568 | a path goes through a link iff the link is the path or a directory above it |
| Agreement.OrderDoesNotMatter | scripts/relocate-citations.py:681-792 | permuting the sides of the merge changes neither status nor new range |
| Agreement.UnanimousOrRefused | scripts/relocate-citations.py:605-792 | shifted iff nothing refuses, someone owns the citation, and every owner votes for that range; any owner that cannot place it is a veto; blank and unknown are never returned |
| Agreement.UnclaimedNeverMoves | scripts/relocate-citations.py:408-430 | a citation no side writes is never moved |
| Agreement.ShiftedMovesAway | scripts/relocate-citations.py:681-792 | a relocated citation never keeps its line |
| Agreement.VoteMeans | scripts/relocate-citations.py:465-518 | a side's vote to keep or to move, as equality of lines and uniqueness |
| Agreement.RelocationSound | scripts/relocate-citations.py:539-792 | a shifted citation is not bare, names one file on every owner, goes through no symlink, and every owner's cited lines are the new lines, found nowhere else |
| Agreement.OwnerWroteIt | scripts/relocate-citations.py:408-430 | an owner has the token, with that file, in one of its commit's documents |
| Agreement.RelocationKeepsDigest | scripts/check-citation-drift.py:742-752 | the lockfile digest of a relocated citation equals its digest on each owner |
| CitationParser.StopList | scripts/check-citation-drift.py:513-524 | the stops are exactly the sentence ends and blank lines, in order |
| CitationParser.PassingIsStopped | scripts/check-citation-drift.py:525-532 | advancing the stop cursor passes a stop iff one lies between two code spans |
| CitationParser.ParseText | scripts/check-citation-drift.py:490-599 | the nested loops compute the specified parse: citations, problems and names asked for |
| ParseMeans.ParseAnswers | scripts/check-citation-drift.py:512-599 | a parse answers every place where a span list stands once, in order: the file that the name there means, the file its sentence last cited, a problem, or nothing; its tokens, citations, problems and questions are those of the answers |
| ParseMeans.AnswersAreOne | scripts/check-citation-drift.py:533-596 | the text, the tree and the citations before leave one answer at each place |
| ParseMeans.ExplicitMeans | scripts/check-citation-drift.py:436-487 | an explicit citation means the file of that path; failing that, and without a slash, the file its sentence last cited when that has the base name; failing that, the one file with the name |
| ParseMeans.NameAnswered | scripts/check-citation-drift.py:403-487 | a name that asks for a file is an explicit citation iff it means one of these three, and otherwise a problem: so is a name shared by two files |
| Patterns.SpanListEndIff | scripts/check-citation-drift.py:80-83 | the list found is the longest run of numbers and pairs, joined by commas, that nothing behind makes part of something else |
| Patterns.NextMatchIff | scripts/check-citation-drift.py:75-83 | the next match is the first colon with a list behind it, with the path in front when the run of path characters there ends in a known extension |
| Patterns.NextSpanIff | scripts/check-citation-drift.py:72-73 | the next code span is the first pair of backticks with something other than backticks between |
| Patterns.ExtensionIff | scripts/check-citation-drift.py:403-429 | a name has an extension iff something other than dots stands before its last dot |
| CitationScope.InheritedFromItsSentence | scripts/check-citation-drift.py:512-599 | a bare `:N` has the target of an earlier explicit resolved token with no stop between their spans |
| CitationScope.RefusedOnlyOutsideSentence | scripts/check-citation-drift.py:569-580 | a `:N` is refused as naming no file only when every earlier token lies across a stop |
| CitationScope.CitationsAreWritten | scripts/check-citation-drift.py:585-596 | every citation comes from a written token, with its file and the legal range of one of its spans |
| CitationScope.ParsedInWholeTokens | scripts/check-citation-drift.py:585-596 | a parse with no problems is a sequence of whole tokens in line order |
| CitationPlaces.ParsePlaced | scripts/check-citation-drift.py:533-596 | every token is its line's text at its column, and the tokens' colons come in document order |
| CitationPlaces.PathNamesFileIff | scripts/check-citation-drift.py:388-575 | a token that writes a path with a slash names that file iff no URL's colon stands before it |
| Citations.SpanTextReadsBack | scripts/relocate-citations.py:937-1022 | a range written as a span reads back as the same range |
| TokenRewrite.FindToken | scripts/relocate-citations.py:817-845 | the search loop returns the first whole occurrence of the token |
| TokenRewrite.RewriteLine | scripts/relocate-citations.py:848-866 | the replacement loop computes `Rewritten` |
| TokenRewrite.RewriteSucceedsIff | scripts/relocate-citations.py:848-866 | it fails iff the tokens have no ordered, disjoint, whole placement, and otherwise the result is the line spliced at one |
| TokenRewrite.GreedyIsLeftmost | scripts/relocate-citations.py:848-866 | the greedy placement is at or before any other, position by position |
| TokenRewrite.RestIsUntouched | scripts/relocate-citations.py:848-866 | replacing tokens by themselves gives the line back |
| TokenRewrite.LandsWherePlannedIff | scripts/relocate-citations.py:848-866 | the planned occurrences are the ones rewritten iff no identical whole token stands before one of them |
| TokenRewrite.FirstOfTwoIsRewritten | scripts/relocate-citations.py:848-866 | a concrete line where the wrong one of two identical tokens is rewritten |
| Plan.GroupChunksTakesToken | scripts/relocate-citations.py:795-807 | grouping takes exactly one token's citations |
| Plan.RunsAreBuckets | scripts/relocate-citations.py:953-965 | grouping by line cuts no token |
| Plan.DecideSpans | scripts/relocate-citations.py:966-984 | the loop over a token's spans: its decisions, its new spans, and whether it moved or is stuck |
| Plan.PlanToken | scripts/relocate-citations.py:966-1010 | a stuck token's shifts are taken back and nothing is replaced; otherwise the whole token is |
| Plan.PlanDoc | scripts/relocate-citations.py:937-1022 | planning a document gives the settled decisions token by token, the edits and the problems |
| WholeTokens.DecisionsAligned | scripts/relocate-citations.py:1094-1098 | decisions line up one to one with the citations they are zipped with |
| WholeTokens.ShiftsAreDecided | scripts/relocate-citations.py:984-1004 | a shift that survives the plan is the sides' own decision |
| WholeTokens.WholeOrNotAtAll | scripts/relocate-citations.py:984-1010 | a token is rewritten iff a shift remains, and then every span is right or shifted; only shifts are demoted |
| WholeTokens.RewrittenTokenSays | scripts/relocate-citations.py:1005-1012 | the rewritten token keeps its file and its spans read back as the decided ranges |
| WholeTokens.PlannedEditsAreLineEdits | scripts/relocate-citations.py:1005-1022 | planned edits name distinct existing lines with non-empty break-free text, so applying them changes those lines only |
| Commit.Worktree.WriteAtomic | scripts/relocate-citations.py:907-934 | a write happens completely or leaves the document as it was, and is on record with its outcome |
| Commit.Worktree.WritePhase | scripts/relocate-citations.py:1143-1190 | all documents are written in order, or the first write that fails is followed by putting back those before it, and exactly the stranded ones keep their new text |
| Commit.Worktree.ReadBack | scripts/relocate-citations.py:1196-1210 | succeeds iff the written documents parse cleanly and every expected anchor is there |
| Commit.Worktree.PlanDocs | scripts/relocate-citations.py:1081-1110 | every citing document is planned as specified, refusals are counted, and the run is blocked iff on some line the tokens to rewrite have no ordered, disjoint, whole placement |
| Commit.Worktree.Run | scripts/relocate-citations.py:1072-1260 | refused iff the documents do not parse cleanly or some line is blocked; otherwise a dry run iff asked for; the writes tried and the state of every document at each exit; success means every document is at its planned text, parses cleanly and has each expected anchor somewhere; the read-back fails only when that is not so of the planned texts; exit 0 iff done or dry, with no refusal |
| Commit.PlanEditsLines | scripts/relocate-citations.py:1139-1155 | a plan's new text differs from the old in the planned lines only |
| Commit.RunKeepsTheText | scripts/relocate-citations.py:1072-1260 | every planned move pins, for each deciding side, the lines that were pinned before, found nowhere else |
| Commit.Expected | scripts/relocate-citations.py:1200-1205 | the expected anchors are exactly the shifted citations' new ranges |
| SpanSwap.ListThen | scripts/check-citation-drift.py:80-83 | a span list with no path character behind it is matched up to there, or on through the list behind a comma |
| SpanSwap.ColonMoves | scripts/check-citation-drift.py:80-83 | exchanging one list leaves every colon between the same texts, with a list behind it that ends where it did |
| SpanSwap.NextMatchMoves | scripts/check-citation-drift.py:80-83 | the next match of the pattern is the old one at the moved places |
| SpanSwap.ReadMoves | scripts/check-citation-drift.py:540-575 | a match names the same file, or as little, as before, and writes the same path and list but for the exchanged one |
| SpanSwap.QuietIff | scripts/check-citation-drift.py:403-429 | the match at a colon right behind an exchanged list reads the same iff the list's last number stays, or names no file before or after |
| SpanSwap.NumberNameTurns | scripts/check-citation-drift.py:403-429 | with a file named `5`, a concrete exchange that takes a name away |
| SwapStops.StoppedAlike | scripts/check-citation-drift.py:513-532 | a stop lies between two code spans iff one did before the exchange |
| SwapScope.SwapReadsTheSame | scripts/check-citation-drift.py:490-599 | with one list exchanged a document reads the same token by token: file, path and list, but for that list |
| SwapAll.SwappedDocumentReads | scripts/check-citation-drift.py:490-599 | the same for any number of lists on any lines |
| PlannedLines.SplicedIsRewoven | scripts/relocate-citations.py:848-866 | splicing replacements into a line is exchanging their span lists |
| PlannedLines.BlockedIff | scripts/relocate-citations.py:1013-1022 | planning a document has problems iff on some line the tokens to rewrite have no ordered, disjoint, whole placement |
| PlannedLines.PlannedText | scripts/relocate-citations.py:1005-1022 | the written document's lines are the old ones, each with all of its line's replacements made |
| Landing.HomeIff | scripts/relocate-citations.py:817-866 | the tokens rewritten on a line are those the parser found iff these stand whole and none is preceded by an identical whole token |
| Landing.LandsAsPlannedIff | scripts/relocate-citations.py:1072-1207 | the written document parses cleanly to as many citations; they are the old ones in order at the ranges decided if every line is such, and only if, when every move changes its range |
| Landing.LandsAsDecidedIff | scripts/relocate-citations.py:1072-1207 | with comparable indexes: they are that iff every line is such |
| Landing.NamesAreLeft | scripts/check-citation-drift.py:403-429 | without files named by digits and dashes alone no plan changes what a colon's name is |
| Landing.HomeReadsBack | scripts/relocate-citations.py:1182-1226 | if every document's replacements land, the documents as planned say what was decided, citation by citation, and the read-back cannot fail |
| CitedDocument.RewriteOutlastsStrip | scripts/relocate-citations.py:848-866 | a line that the plan changes differs from the old one also when both are stripped |
| CitedDocument.PinnedStaysIff | scripts/relocate-citations.py:1005-1155 | the pinned lines of a planned document stay iff the plan edits none of them |
| CitedDocument.MovedTextStaysIff | scripts/relocate-citations.py:1072-1155 | a relocated citation's new range holds, after the run, the text it had on each deciding side iff no planned edit of the cited document is in the range |
| SecondRun.SecondMoveIff | scripts/relocate-citations.py:408-430 | a relocated citation is relocated again by the same sides iff some side writes the new token at the new range, all that do mean the same file, and the text of every deciding side there stands at one same other place only |
| SecondRun.SecondMoveLosesText | scripts/relocate-citations.py:713-719 | no side that decided the first time has its text where a second relocation puts the citation |
| SecondRun.StaysUnlessWritten | scripts/relocate-citations.py:47-50 | no second relocation when no side's document, parsed in its own tree, writes the new token at the new range |
| SecondRun.SecondRunMovesOn | scripts/relocate-citations.py:1072-1260 | the same of two whole runs: a moved citation is read at its new range, and moved on only under that condition, off its text |
| SecondRun.MovedTwice | scripts/relocate-citations.py:713-719 | a concrete citation moved to where its text went and then to another line |
| Astray.GoodEndStaleCitation | scripts/relocate-citations.py:1197-1207 | a concrete planned run that passes the read-back with a moved citation left at its old range |
| UrlPort.MovedNamesItsFile | scripts/relocate-citations.py:605-678 | a moved citation that writes a path names that file iff its token is not the tail of a URL |
| UrlPort.PortIsRead | scripts/check-citation-drift.py:388-575 | a concrete line whose URL port is read as a citation |
| UrlPort.PortIsMoved | scripts/relocate-citations.py:605-792 | that citation is moved, although its path is not its file's |
| Lockfile.Render | scripts/check-citation-drift.py:808-815 | the rendering loop writes the header, a blank line and two lines an entry |
| Lockfile.ParseLock | scripts/check-citation-drift.py:824-846 | the reading loop computes `ReadLock`: entries, or that it dies on a line of too few words or raises on a count that is no number |
| Lockfile.Lock.Update | scripts/check-citation-drift.py:849-860 | nothing is written while there are problems |
| Lockfile.Lock.Check | scripts/check-citation-drift.py:863-918 | exit 0 iff the lock is read, there is no problem, and keys and digests are equal; exit 2 iff there is no lock or a line of too few words; 1 otherwise, also when a count raises |
| LockRoundTrip.LockMatchesIff | scripts/check-citation-drift.py:808-918 | a lock just rendered matches its entries, for any key order and comment header, iff every key is one word that does not start with the comment mark |
| LockRoundTrip.LockReadsBackIff | scripts/check-citation-drift.py:808-846 | it gives the whole entries back iff, besides, no citer list lets the separator occur early and no citer has a comma or anything to strip |
| LockRoundTrip.IntReadsBack | scripts/check-citation-drift.py:812-843 | `int` reads back what was written, negative counts included |
| LockRoundTrip.CitersBackIff | scripts/check-citation-drift.py:840-846 | a citer list split at commas and stripped is the list that was joined iff no citer has a comma or anything to strip |
| LockRoundTrip.UpdateThenCheck | scripts/check-citation-drift.py:849-918 | a check right after a successful update passes iff every key is such |
| LockReading.LockReads | scripts/check-citation-drift.py:824-846 | what reading gives for any text: it dies or raises at the first key line of too few words or without a count, and otherwise each key has the digest and count of its last key line, and the citers and snippet of the arrow behind it |
| LockReading.WordsIff | scripts/check-citation-drift.py:841 | the words of a line are what stands between its white space |
| LockReading.CountIff | scripts/check-citation-drift.py:845 | a count is a numeral, with a sign or without, its digits in groups joined by single underscores |
| LockReading.IgnoredIff | scripts/check-citation-drift.py:828-829 | a line is passed over iff it is blank or a comment mark stands first on it |
| LockGuard.Collect | scripts/check-citation-drift.py:755-788 | the loop over the citations gives one entry for every range that lies in its file, with its digest, length, snippet and citers in order, and one problem for every other |
| LockGuard.KeyIff | scripts/check-citation-drift.py:374-378 | two citations have one key iff they cite the same lines of the same file |
| LockGuard.LaterMatchesIff | scripts/check-citation-drift.py:863-918 | the lock of some entries matches others iff these have the same keys, each with the same digest |
| LockGuard.UpdateThenCheckLater | scripts/check-citation-drift.py:742-918 | a lock written without problems passes a later check iff every cited line is there still, unchanged but for the blanks around it |
| RustLexer.ParseString | scripts/_user_strings.py:141-230 | the string walk ends where `StringEnd` says: escapes, raw strings, and unterminated ones |
| RustLexer.FindMatchingParen | scripts/_user_strings.py:257-289 | the walk finds the closing parenthesis at depth zero, or none |
| RustForms.CloseIff | scripts/_user_strings.py:257-289 | the close is the first position of the walk at which as many closing parentheses have been met as opening ones, and the answer is -1 iff there is none |
| RustForms.RawEndIff | scripts/_user_strings.py:141-230 | a raw string ends behind the first quote that as many hashes follow as stand in front |
| RustForms.QuotedEndIff | scripts/_user_strings.py:141-230 | any other string ends at the first quote that stands between its characters and escapes |
| RustForms.EscapeIff | scripts/_user_strings.py:166-225 | what an escape takes: the indentation of a continued line, all up to a brace, two characters, or one |
| RustForms.CharIff | scripts/_user_strings.py:232-255 | a quote opens a character literal iff a character or an escape and a quote follow |
| RustForms.LexIff | scripts/_user_strings.py:257-289 | what stands at a position: a character literal, a string, a comment to its end, or a plain character |
| RustLexer.FirstStringLiteral | scripts/_user_strings.py:291-318 | the second, bounded walk finds the first literal among the positions of the first walk, wholly inside the call |
| RustLexer.CloseOfCall | scripts/_user_strings.py:257-289 | the close lies behind the opening, is a parenthesis, and is a position the walk visits |
| RustLexer.BoundedStep | scripts/_user_strings.py:291-318 | before the close, a bounded step equals the unbounded one and never passes the close |
| RustLexer.NothingBetween | scripts/_user_strings.py:257-289 | no position inside a token is visited |
| RustScan.Advance | scripts/_user_strings.py:340-494 | one token's effect on the flags and the brace stack follows the region it tracks |
| RustScan.Scan | scripts/_user_strings.py:321-494 | the scan's hits are the calls' first literals, tagged by the test block their call begins in |
| RustScan.TracksMeans | scripts/_user_strings.py:321-494 | `in_test` holds iff a test label is on the stack, and there is at most one |
| RustReport.ScanReports | scripts/_user_strings.py:321-494 | the scan reports, in order, the first literal of each tracked call that is closed, and says it is in a test iff a brace opened behind a test attribute is still open there |
| RustReport.TokenIff | scripts/_user_strings.py:341-494 | what is matched first at a position: a literal or comment, an attribute, a brace, a type's keyword, a tracked call, or nothing |
| RustReport.CallIff | scripts/_user_strings.py:47-82 | a tracked call is one of the named macros, also with its crate in front, or a context method, and its parenthesis |
| RustReport.CfgTestIff | scripts/_user_strings.py:379-408 | an attribute is a test's iff `cfg`, a parenthesis and a word `test` stand in it in this form |
| RustReport.AttrEndIff | scripts/_user_strings.py:379-406 | an attribute ends at the first bracket that its own walk comes to |
| ParentChain.BuildLinks | scripts/deepseek-response-probe.py:86-97 | the id map, or that an id is unusable or repeated |
| ParentChain.Analyze | scripts/deepseek-response-probe.py:82-123 | the finding is the fate of the orbit, in at most one step more than there are messages |
| ParentChain.FindingIff | scripts/deepseek-response-probe.py:82-123 | the finding over the messages themselves: unread without distinct usable ids and a usable leaf, absent when no message is the leaf, else where the chain of parents ends, or that it never does |
| ParentChain.Trichotomy | scripts/deepseek-response-probe.py:100-123 | closed iff a null parent is reached, open iff the walk leaves the set, a cycle iff it stays inside for ever, else a missing or unusable parent |
| ParentChain.OrderIgnored | scripts/deepseek-response-probe.py:82-123 | permuting the messages changes nothing |
| ParentChain.CycleMeansForever | scripts/deepseek-response-probe.py:103-106 | a repeated position means the walk never ends |
| ExtStatus.ReadStatus | scripts/dev/scoreboard.py:690-721 | per key the first keyed record, else the first flat one; every file is listed, superseded, repeated or unreadable; shared ids are those of two records |
| ExtStatus.SharedInstalls | scripts/dev/scoreboard.py:718-721 | an id is shared iff two records carry it, and these are on two machines |
| ExtStatus.ListedRunIsWellFormed | scripts/dev/scoreboard.py:714-717 | the listed records make the run the scoreboard expects |
| Scoreboard.UpdatePlatforms | scripts/dev/scoreboard.py:1988-2008 | a record's rows update exactly their platforms' tracks, and the rising ones are reported |
| Scoreboard.Evaluate | scripts/dev/scoreboard.py:1960-2034 | the new state and the rising anomalies of one run |
| Scoreboard.JudgeQuiet | scripts/dev/scoreboard.py:2036-2069 | the no-new-capture rule fires as specified, and only when the status could be read in this run |
| ScoreHistory.TrackIsHistory | scripts/dev/scoreboard.py:1926-2034 | after any runs a track holds its latest counters, its first and last report, and the latest run where captured rose |
| ScoreHistory.RisingFiresIff | scripts/dev/scoreboard.py:1988-2005 | pending-rising fires iff pending exceeds its value at the most recent earlier report, however long ago |
| ScoreHistory.InstallsStay | scripts/dev/scoreboard.py:1926-2034 | no install is forgotten and its first clock never changes |
| ScoreHistory.InstallIsHistory | scripts/dev/scoreboard.py:1926-2034 | an install is in the state iff some run listed it, with the clocks of the first and the latest such run, and present iff the last run did |
| ScoreHistory.ReportIff | scripts/dev/scoreboard.py:1960-2008 | what a run reports of a platform is the row that the install's record holds for it |
| ScoreHistory.QuietFiresIff | scripts/dev/scoreboard.py:2036-2069 | the quiet rule in terms of the whole history of reports and of whether the status could be read |
| ScoreHistory.FirstRunIsSilent | scripts/dev/scoreboard.py:1960-2069 | a first run fires neither rule |
| Inventory.Walker.Walk | scripts/takeout-format-inventory.py:72-119 | an uncut walk counts exactly what the uncapped inventory counts; a walk is cut iff the value is too deep, or its counts do not fit the caps, looked at once more behind a last field; no count of a cut walk is too high |
| Inventory.Walker.WalkItems | scripts/takeout-format-inventory.py:79-86 | the loop over a list's items, under the same promise |
| Inventory.Walker.WalkFields | scripts/takeout-format-inventory.py:108-119 | the loop over an object's chosen fields, under the same promise |
| Inventory.Walker.ChooseFields | scripts/takeout-format-inventory.py:90-101 | unknown keys are counted, a path beyond the cap is skipped and marks the walk cut |
| Inventory.Walker.PresentFields | scripts/takeout-format-inventory.py:103-106 | presence is counted once a field, and never more often than its parent was visited |
| Inventory.FieldPathSplits | scripts/takeout-format-inventory.py:96 | two fields with one path are one field of one parent path |
| InventoryPlaces.EveryCount | scripts/takeout-format-inventory.py:58-119 | each count of the uncapped inventory is the number of places of the document that it counts: values by path and kind, objects by path, fields by object and key, by path, by kind and by emptiness, and fields whose key is not allowed |
| Inventory.KindIff | scripts/takeout-format-inventory.py:43-57 | the kind of each JSON value: a truth value is a boolean and never a number |
| Inventory.EmptyIff | scripts/takeout-format-inventory.py:108-115 | the empty states are null and the empty text, list and object |
| InventoryReport.PresentPlusMissing | scripts/takeout-format-inventory.py:122-132 | present plus missing is the number of objects visited at the parent path: the cut at zero never applies |
| InventoryReport.FullAccounts | scripts/takeout-format-inventory.py:103-115 | in a whole inventory every field present has one kind, and null or empty values are counted under their kind |
| InventoryReport.Trim | scripts/takeout-format-inventory.py:144-155 | the fewest entries go, shapes before fields, and the report says so iff it did not fit |
| InventoryReport.TakeInventory | scripts/takeout-format-inventory.py:59-156 | the untrimmed report is marked truncated iff the document is too deep or does not fit the caps; an unmarked one is exact; every count of a marked one is at most the document's, and every field entry adds up |
| InventoryReport.CapInsideObject | scripts/takeout-format-inventory.py:72-119 | two concrete documents of as many nodes as the cap, of which the list passes and the object does not |
| MarkerBlock.KeepsTheRest | scripts/gen-support-matrix.py:1241-1246 | a replacement keeps every byte up to the start marker and from the end marker on |
| MarkerBlock.LastReplacementWins | scripts/gen-support-matrix.py:1241-1246 | an earlier replacement leaves no trace under a later one |
| MarkerBlock.ReplaceIsIdempotentIff | scripts/gen-support-matrix.py:1241-1246 | twice is once iff the content does not hold the end marker |
| MarkerBlock.ReadsBackIff | scripts/gen-support-matrix.py:1219-1250 | after a replacement the block read back normalises to the content, or is refused iff the content holds a marker |
| NormalForm.NormalizeIff | scripts/gen-support-matrix.py:1249-1250 | the normal form is all of the content but the newlines around it and the blanks at its line ends |
| NormalForm.StrippedIff | scripts/gen-support-matrix.py:1241-1246 | what is written between the markers is the content between its outer newlines |
| MarkerBlock.CountedOnceIff | scripts/gen-support-matrix.py:1232-1233 | a marker that cannot overlap itself is counted once iff it stands at one place |
| MarkerBlock.ExtractedIff | scripts/gen-support-matrix.py:1219-1238 | a block is read iff each marker stands at one place, the start before the end, and it is the text between |
| MarkerBlock.CountIsOne | scripts/gen-support-matrix.py:1232-1233 | a count of one means no occurrence behind the first |
| SourcePages.SkeletonBody | scripts/gen-source-pages.py:641-648 | the loop over the fixed headings builds the skeleton |
| SourcePages.CheckBody | scripts/gen-source-pages.py:826-839 | the heading loop finds the missing headings and whether those found are in order |
| SourcePages.CheckPage | scripts/gen-source-pages.py:798-839 | the check of one page, with its early ends, reports exactly the specified failures |
| SourcePages.QuietPageIff | scripts/gen-source-pages.py:798-839 | nothing is reported iff the page opens with its one marker pair, the header between is the generated one, and every heading stands in the body, in order |
| SourcePages.SkeletonHasHeadings | scripts/gen-source-pages.py:641-648 | the skeleton has every fixed heading, in order |
| SourcePages.OpensIff | scripts/gen-source-pages.py:810-812 | a page whose first start marker ends its line opens with it iff only blanks stand before it |
| SourcePages.HeadingFound | scripts/gen-source-pages.py:827-831 | each heading is found at its own line of the skeleton |
| PageTree.FreshPagePassesIff | scripts/gen-source-pages.py:651-655 | a freshly created page passes the check iff its header holds no marker |
| PageTree.ReplacedPage | scripts/gen-source-pages.py:651-655 | a replaced page keeps its hand-written body |
| PageTree.ReplacedPageFailures | scripts/gen-source-pages.py:798-839 | applying leaves exactly the failures that a header cannot mend |
| PageTree.FreshRenderedAgainIff | scripts/gen-source-pages.py:651-655 | a created page is stable iff its header has no outer newlines and no end marker |
| PageTree.Tree.Apply | scripts/gen-source-pages.py:868-909 | pages are written one by one up to a refusal or an exception, the index last |
| PageTree.Tree.Check | scripts/gen-source-pages.py:770-840 | the loop over index, unowned pages and each page reports nothing iff the index is fresh, the Markdown pages on disk are exactly the sources' pages, and each of them is sound |
| PageTree.AppliedMeans | scripts/gen-source-pages.py:868-905 | every source before the one that stops the run has its page, rendered from the tree before the run; nothing else moved |
| PageTree.ApplySettlesIff | scripts/gen-source-pages.py:868-909 | a second apply changes nothing iff each id stands in what is kept of its page or in its header, no header holds the end marker, and new pages' headers have no outer newlines |
| PageTree.ApplyTwiceIsOnce | scripts/gen-source-pages.py:868-909 | with headers that name their id, a second apply writes nothing new |
| PageTree.FreshTreePasses | scripts/gen-source-pages.py:770-909 | in a tree without pages, apply creates all of them and the check passes |
| RetryReport.ReadEvents | scripts/push-retry-report.py:77-110 | all attempts in order with unique ids, or the first faulty line |
| RetryRecords.RowIff | scripts/push-retry-report.py:68-107 | a record is read exactly as its fields say, each under its key, and refused for the first thing it lacks |
| RetryRecords.StreamIsRead | scripts/push-retry-report.py:77-110 | a stream that is read gives one attempt a record, in order, with new ids |
| RetryRecords.RefusedIff | scripts/push-retry-report.py:77-110 | it is refused at the first line that is no record, lacks something or repeats an id, and for that |
| RetryReport.Summarize | scripts/push-retry-report.py:113-149 | the counting loop computes the report: a confirmed retry names an earlier interrupted attempt |
| RetryRecords.LinkIff | scripts/push-retry-report.py:113-149 | a retry is confirmed iff an earlier attempt of the id it names was interrupted; when it is unmatched, unknown or none |
| RetryRecords.CountsMean | scripts/push-retry-report.py:113-149 | every count of the report is the number of records of its kind |
| RetryRecords.ShownIff | scripts/push-retry-report.py:152-187 | which form is printed, by whether there are retries, measured or not, and unresolved links |
| RetryReport.ReportPartitions | scripts/push-retry-report.py:113-149 | confirmed, unmatched, unknown and no-retry records partition the stream |
| RetryReport.TotalBounds | scripts/push-retry-report.py:113-149 | every completion's total is at least the counted one, and equal when nothing is missing |
| RetryReport.LeastIsAttained | scripts/push-retry-report.py:152-172 | some completion has exactly the counted total |
| RetryReport.AnyTotalAbove | scripts/push-retry-report.py:152-172 | with a measurement missing, every total from the counted one up is possible |
| RetryReport.ReportIsSound | scripts/push-retry-report.py:113-187 | an exact total holds in every completion; "at least" is a bound that some completion attains; zero is zero |
| RetryReport.DeterminedIff | scripts/push-retry-report.py:152-172 | the records settle the total iff each attempt's amount is forced |
| WipeVerdict.PlatformEntries | scripts/extval-stress.py:230-250 | the split into web and harness entries loses and repeats none |
| WipeVerdict.WebIff | scripts/extval-stress.py:230-250 | a web session's name is the platform, a dot, and an id without dots |
| WipeVerdict.HarnessIff | scripts/extval-stress.py:230-250 | a local harness session's name has another dot behind that |
| WipeVerdict.WipesSomething | scripts/extval-stress.py:287-301 | a wipe of some sessions is never empty, and wipe-all takes all |
| WipeVerdict.OnlyWebSessionsWiped | scripts/extval-stress.py:230-301 | only web sessions that were there are wiped |
| WipeVerdict.OracleRegressions | scripts/extval-stress.py:438-451 | the labels reported are exactly the counts that moved the wrong way or are missing; it raises iff Python cannot order two counts |
| WipeVerdict.CountsCompared | scripts/extval-stress.py:438-451 | between numbers a count moves iff it gets worse, and one that is the same on both sides never does |
| WipeVerdict.CountsGuarded | scripts/extval-stress.py:413-451 | with the counts measured on both sides a run is regressed iff a session is broken, recall.found fell, or RED or SHORT rose; a held run lost none |
| WipeVerdict.NothingWorseIff | scripts/extval-stress.py:413-451 | nothing got worse iff none of the three counts, each at its path in the result, is missing or moved its wrong way |
| WipeVerdict.MissingCountNeverHolds | scripts/extval-stress.py:438-451 | a count missing from a result that is there is never passed over |
| WipeVerdict.RowsMean | scripts/extval-stress.py:397-419 | each session's row by what was there before and after, whether it was wiped, and whether the collect step ran |
| WipeVerdict.BrokenIff | scripts/extval-stress.py:564-579 | a run is broken iff a session that was there is lost, was changed, or went missing without being wiped |
| WipeVerdict.TextLessIff | scripts/extval-stress.py:438-451 | texts are ordered by the first place at which they differ |
| WipeVerdict.ListLessIs | scripts/extval-stress.py:438-451 | lists are ordered by the first items that differ |
| WipeVerdict.JudgeSessions | scripts/extval-stress.py:564-579 | the rows cover every session before or after, and the broken ones are those lost, changed or anomalous |
| WipeVerdict.Execute | scripts/extval-stress.py:503-634 | the verdict and the exit code of a run, whatever the collect step left behind |
| WipeVerdict.HeldIff | scripts/extval-stress.py:559-634 | held iff a session was wiped, every step ran, every snapshotted session is back with its digest, and no compared count got worse |
| WipeVerdict.NullResultHolds | scripts/extval-stress.py:438-441 | a concrete run that is held while recall was not measured |

## Left out

- Git, the file system, `mkstemp`/`fsync` and decoding: a commit is a map from paths to lines with its symlinks, the working tree a map from documents to text, and each write freely succeeds or fails.
- SHA-256: a parameter; `Relocate.DigestIff` and `LockGuard` ask besides that it tell texts apart, of which its first 12 digits are taken to be enough.
- Regular expressions: each is the predicate it denotes; `\d` and `\w` are taken over ASCII, and `int()` over signs, ASCII digits and single underscores, of any length.
- Relocate.LocateExact: asks for indexes with one separator and no NUL at the end of a stripped line. `SearchExactIff` says which files the second shuts out, and nothing is said of what is found in them.
- Across.RightAcrossIff: for two separators it asks that the old text read as lines under the working file's; when runs of NULs in it cannot be cut into that separator nothing is said.
- Commit.Worktree.Run: a good end says what the code compares, sets of anchors; which tokens were rewritten is in Landing.
- Landing.LandsAsPlannedIff: asks that no replaced list with a colon behind it change the name of a file there; otherwise the next token's meaning changes with the number.
- LockRoundTrip.LockMatchesIff: digests are words and citers and snippets single lines, as the scripts make them.
- Wording of decisions and reports, and the `via` commit named in a decision.
- Semantic bindings and requirement checks of scripts/check-citation-drift.py, and with them the problems they add in `collect`.
- LockGuard.UpdateThenCheckLater: the citations are the same at both times, as of documents that were not edited between; keys are single words and documents' names single lines.
- The sort order of lockfile keys, of report fields and of written documents: the theorems hold for any order.
- RustLexer.ParseString: the literal's end only, not its displayed or decoded value (the source decodes every `\u{...}` as `?`).
- RustScan.Scan: the tokens come from the function `TokenAt`, stated over the text in `RustReport.TokenIff`, so the scan's own attribute loop and pattern branches are not modelled as code; doc-comment, attribute and clap help texts, the tracking of clap types for them, and the final sorting and merging of hits are left out.
- Scoreboard: state files with damaged entries, floating clocks, the local-tool rules, probing, overview and oracle inputs, producer labels, and all rendering.
- ExtStatus.ReadStatus: a file that parses is given as its record; the field checks of one status file are not modelled.
- Inventory: reading the file and its size limit; `size` of a report is a parameter.
- SourcePages: how headers and the index are made from the registry; a header is a parameter.
- PageTree.Tree.Apply: raising is modelled as an exit of its own, since nothing in the script catches it.
- WipeVerdict: path isolation, tree snapshots and the report's text; the random choice is a parameter; numbers are exact, and NaN is not modelled.
- `cell_status`, `harness_status` and `harness_root_entries` of scripts/gen-support-matrix.py: these tables are not modelled.
- The pattern-checking scripts, the Rust CLI, the extension and the native host are not part of this model.
