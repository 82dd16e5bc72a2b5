# A verified model of the branching, bitemporal fact store and its Rayfall front end

This project models two cores of the repository in Dafny and proves what they promise.

**The brain** (`src/brain.rs`) is an append-only transaction log with tables of facts, beliefs and branches.
Writes stamp rows in place; branches inherit from their ancestors; reads sort and deduplicate the same rows for
every branch and for every past transaction. `Brain.Brain` is the object itself, with the source's fields and
loops. Every method is proved to produce exactly the store a specification function computes from the old one
(`BrainWrites`, `BrainMerge`, and the reads in `BrainReads`), and the theorems are about those functions:

- `BranchChain`, `BranchRuns`: ancestor chains, the 257-row guard, re-used ids.
- `RowSelection`, `FactHeads`: sort-and-dedup is per-id selection.
- `WriteLaws`, `RevisionLaws`: what each call answers and writes, field by field, and where a revision shows.
- `AnswerLaws`: which rows the valid-time, bitemporal and belief views list, by their fields.
- `BrainInvariant`, `BrainSteps`: the invariant of every reachable store.
- `LayeredModel`, `LayeredRuns`, `MarkerRuns`: the store refines a map of layers, which decides refusals itself.
- `TimeTravel`, `Bitemporal`, `ExactRetraction`, `BitemporalRuns`: past answers do not change, or exactly when they
  do.
- `ChainEffects`, `Isolation`: what one write touches.
- `MergeViews`, `MergeRuns`: what a merge does to both views, and its report.

**The Rayfall front end** (`src/rayfall_ast.rs`, `src/rayfall_parser.rs`, `src/rules.rs`):

- `RayfallSyntax`, `RayfallParser`, `SyntaxLaws`: printer and parser.
- `RayfallLowering`, `LoweringLaws`: canonical forms, and the exom of every form.
- `RuleColumns`, `FindColumns`, `IdPositions`: the fixpoint over Datalog rules, and the places that bind ids.
- `FormSplitter`, `MutationLexer`, `RuleText`, `RuleHeads`, `ScannerLaws`: the hand-written scanners, against the
  printer and the parser, and on text that neither of them made.

**The calendar** (`Calendar`, `Timestamps`, `TimestampText`): the two day-to-date algorithms, what a printed
timestamp says, and why timestamps may be compared as strings.

Conventions. A `Vec<&Row>` of the source is a sequence of row references (row index, id, depth, transaction). The
clock is a function from transaction ids to timestamps, read once per allocation, so theorems hold for every
clock unless they say otherwise. Time is a string ordered lexicographically. Errors are `Result` values with one
constructor per `bail!`. Text is indexed by character where the source indexes bytes; every character the source
tests for is ASCII, so the positions correspond.

Some things the source's comments or names suggest are not so, and the project says exactly when they hold:

- `retract_fact` overwrites an explicit `valid_to`, and then a past bitemporal answer changes
  (`Bitemporal.RetractKeepsAnswersIff`, `Bitemporal.OverwrittenEndShows`, `BitemporalRuns.OverwrittenEndRun`).
- `retract_fact_exact` keeps explicit ends, but a row that ended at the retraction's own time reads open
  afterwards, and within one second that happens without any explicit end. Past answers are kept if and only if
  no such row is uncovered, a finite test before the call (`ExactRetraction.ExactKeepsAnswersIff`,
  `BitemporalRuns.ExactRetractionRun`, `BitemporalRuns.CoveredRun`).
- A new branch shows its parent's view only below the guard and below a parent whose first row is not archived
  (`BranchChain.ChainOfNewBranch`); re-using an archived id breaks that (`BranchRuns.ReusedParentIsCutOff`).
- Two timestamps compare chronologically if and only if their years have equally many digits or the shorter
  year is at most the leading digits of the longer (`Timestamps.TimestampOrderIff`), so all pairs below a bound
  do exactly when the bound is at most the start of the year 10000 (`Timestamps.OrderedUpTo`).
- `find_columns_are_ids` depends on rule order: a rule head called before its first rule is read as an EDB
  (`RuleColumns.SelfCallOvershoots`, `RuleColumns.OnlyFirstPassOvershoots`).
- `parse_fact_mutation_args` undoes only the escaped quote (`MutationLexer.MutationAgreesIff`).
- `extract_inline_rule_body` does not look at strings. It returns the printed clauses if and only if the raw
  parentheses of their text cut it into balanced pieces (`RuleText.InlineBodyIff`); a lone parenthesis in a string
  can break that (`RuleText.LoneParenIsRefused`) and need not (`RuleText.CrossedComesOutRight`).
- `split_forms` skips ASCII whitespace only, while the parser skips all of it: a no-break space becomes part of an
  atom (`FormSplitter.NoBreakSpaceIsAnAtom`, `FormSplitter.SplitPrintedForms`).
- `parse_rule_head` counts tokens of text, and a quoted list is several (`RuleHeads.QuotedListCountsTwice`). For a
  head balanced in raw parentheses, whose arguments close the strings and parentheses they open, the count is
  right if and only if each argument is one token (`RuleHeads.HeadOfPrinted`). Other heads can come out right by
  accident (`RuleHeads.SwallowedCountsRight`, `RuleHeads.CutHeadCountsRight`).
- `split_forms` does not recognise the kind of a form that consists of its head alone
  (`FormSplitter.KindOfPrinted`).

Run `dafny verify dfyconfig.toml` to check everything.

## Model

| member | source | states |
|---|---|---|
| BranchChain.WalkTruncatesLineage | src/brain.rs:864-886 | following first-row parents ends by itself; the guard only truncates that list |
| BranchChain.LineageDescends | src/brain.rs:864-886 | along a chain the first-row index strictly decreases |
| BranchChain.ChainHasNoRepeats | src/brain.rs:864-886 | a chain has no repeats, at most 257 entries, and is the lineage, its first 257 entries, or just the id |
| BranchChain.ChainSuffix | src/brain.rs:864-886 | from any ancestor on, a chain is a prefix of that ancestor's own chain, and all of it when the guard cut nothing |
| BranchChain.ChainOfNewBranch | src/brain.rs:812-847 | a never-used id extends its parent's chain by itself if and only if the parent's first row is not archived and the guard leaves room |
| BranchRuns.ReusedParentIsCutOff | src/brain.rs:812-886 | a run that creates, archives and creates a branch again, and then a child of it: the child's chain is the child alone |
| RowSelection.NewestRowsSelects | src/brain.rs:917-934 | a row is selected exactly when it is eligible and no eligible row of its id is nearer, or equally near and newer; one row per id, in sort order |
| RowSelection.SelectionKeptIff | src/brain.rs:917-934 | a weaker keep test leaves the selection as it was if and only if no newly kept row comes before all eligible rows of its id |
| FactHeads.NewestIsNearest | src/brain.rs:917-949 | now, the selected row of an id is the newest local version on the nearest branch that has one |
| FactHeads.ViewIsLiveRows | src/brain.rs:970-993 | `facts_on_branch` lists, once each, exactly the live row of every id that has one |
| FactHeads.FactHeadAgrees | src/brain.rs:979-988 | `fact_head` answers with that same deciding row, active exactly when `facts_on_branch` lists it |
| FactHeads.ViewIsOrdered | src/brain.rs:929-932 | a view is listed nearest branch first, newest transaction first |
| AnswerLaws.LiveFactsAre | src/brain.rs:966-977 | as of a transaction a branch shows exactly the rows that are visible to it, nearest and newest of their id, and not revoked by then |
| AnswerLaws.UnknownTxReadsMain | src/brain.rs:1182-1196 | a transaction that is not in the log is asked on `main` |
| AnswerLaws.ValidAtIs | src/brain.rs:1208-1213 | `facts_valid_at_on_branch` lists, in view order, exactly the rows of the view whose interval holds the time |
| AnswerLaws.BitemporalAnswerIs | src/brain.rs:1215-1251 | `facts_bitemporal(t, ts)` lists exactly the rows visible to `t`, of an id listed as of `t`, unrevoked then, valid at `ts` as far as `t` knows, and nearest and newest of their id among those |
| AnswerLaws.BeliefViewIs | src/brain.rs:1187-1196 | a belief view lists exactly the active rows that are nearest and newest of their id, each the first of its claim text |
| AnswerLaws.BitemporalBeliefsAre | src/brain.rs:1266-1277 | `beliefs_bitemporal` does the same among the rows in effect by then, and leaves out those that ended |
| Brain.Brain.constructor | src/brain.rs:212-234 | a new brain holds `main` and nothing else |
| Brain.Brain.AllocTx | src/brain.rs:406-439 | unknown branch, closed session (unless the close marker is written) and exhausted ids refuse and change nothing; otherwise one log entry, linked to the one before |
| Brain.Brain.BranchAncestors | src/brain.rs:864-886 | the guarded loop returns the chain the specification walks |
| Brain.Brain.AssertFact | src/brain.rs:559-621 | the stamping loop closes exactly the branch's open rows of the id and the new row is appended; a refusal changes nothing |
| Brain.Brain.RetractFact | src/brain.rs:623-666 | a local head's unstamped rows are revoked and closed now, an inherited head gets a local tombstone |
| Brain.Brain.RetractFactExact | src/brain.rs:668-721 | the same for rows that hold the exact tuple, keeping an explicit end |
| Brain.Brain.ReviseBelief | src/brain.rs:723-768 | one active row is appended, inheriting the visible support when none is given |
| Brain.Brain.RevokeBelief | src/brain.rs:776-810 | one revoked copy of the visible belief is appended, or the call is refused |
| Brain.Brain.CreateBranch | src/brain.rs:812-847 | a live parent and an unused or archived id append one row |
| Brain.Brain.ArchiveBranch | src/brain.rs:850-860 | the first row of the id is marked; `main` and unknown ids are refused |
| Brain.Brain.MergeBranch | src/brain.rs:1022-1121 | the loop over the source view performs the specified rounds, keeps the writes before a refusal, and reports ids and conflicts |
| WriteLaws.AssertOutcome | src/brain.rs:406-576 | an assertion is refused, in this order, for a bad predicate name, a branch that is not live, a closed session, or want of ids; the characters are written out |
| WriteLaws.RetractOutcome | src/brain.rs:623-643 | a retraction needs a shown row of the id, and then what every write needs |
| WriteLaws.RetractExactOutcome | src/brain.rs:668-696 | an exact one needs a shown row with that id, predicate and value |
| WriteLaws.ReviseOutcome | src/brain.rs:723-752 | a revision needs what every write needs |
| WriteLaws.RevokeOutcome | src/brain.rs:776-796 | a revocation also needs a shown belief of the id |
| WriteLaws.CreateOutcome | src/brain.rs:812-832 | a branch needs a live parent and an id that is not live, and then what every write needs |
| WriteLaws.MergeOutcome | src/brain.rs:1030-1043 | a merge is refused for its source before its target, and then writes nothing |
| WriteLaws.AssertWrites | src/brain.rs:577-621 | an accepted assertion logs itself, appends the claim field by field, and supersedes exactly the open rows of its id on its branch |
| WriteLaws.RetractWrites | src/brain.rs:637-666 | an accepted retraction revokes and ends exactly the unstamped rows of the id on its branch, or appends a tombstone of the inherited row |
| WriteLaws.RetractExactWrites | src/brain.rs:690-721 | an exact one does so for the unrevoked rows of the tuple and keeps their ends |
| WriteLaws.CreateWrites | src/brain.rs:833-847 | the new branch row, field by field, and the log entry on the parent |
| WriteLaws.MergeLogsLast | src/brain.rs:1108-1121 | a finished merge answers with its own transaction, the last in the log, which names source and target |
| WriteLaws.LogOutcome | src/brain.rs:1108-1114 | the closing log entry needs what every write on the target needs |
| WriteLaws.LogWrites | src/brain.rs:1108-1121 | it changes nothing but the log |
| WriteLaws.BeliefWritesCommit | src/brain.rs:745-800 | revisions and revocations log themselves under their own actions |
| WriteLaws.ArchiveWrites | src/brain.rs:850-860 | the first row of an id is marked, `main` and unknown ids are refused, and nothing is logged |
| RevisionLaws.RevisionWrites | src/brain.rs:723-768 | a revision appends one active row with the given text, rationale, times and support, or the support that showed before |
| RevisionLaws.RevisionShowsFirst | src/brain.rs:1187-1190 | afterwards the branch's list of beliefs starts with that row |
| RevisionLaws.RevisionIsInherited | src/brain.rs:1187-1190 | a descendant without a nearer row of the id lists it too if and only if no nearer or newer active belief there makes the same claim |
| RevisionLaws.RevocationWrites | src/brain.rs:776-810 | a revocation appends a revoked copy of a shown belief, ended now, and is refused exactly when none shows |
| BrainInvariant.NewestVersion | src/brain.rs:593-663 | per branch and id at most one row is open-ended; it is the newest version, and the newest is never superseded |
| BrainSteps.StepEffect | src/brain.rs:559-860 | every call keeps the invariant; a refused call changes nothing; any other is a one-transaction step that stamps only rows of its own branch |
| BrainSteps.RunKeepsInv | src/brain.rs:559-860 | every reachable store has dense linked log entries, supersede stamps that name the very next version with its close time, open rows that are newest, and tombstones that are first |
| LayeredModel.RunRefines | src/brain.rs:559-721 | over every run without archiving, within the depth limit, the store keeps matching the layered map, which takes the calls the store accepts |
| LayeredModel.BrainRefinesLayers | src/brain.rs:991-993 | from a new brain, every branch's view is exactly what the layered map shows once it took the accepted calls: nearest layer wins, a dead cell hides |
| LayeredModel.RetractRefusedIff | src/brain.rs:623-636 | a retraction finds nothing to retract if and only if the layered map shows nothing for the id |
| LayeredModel.RetractExactRefusedIff | src/brain.rs:668-688 | an exact retraction does so if and only if the layered map does not show that tuple |
| LayeredRuns.ClosedIff | src/brain.rs:406-439 | when no open marker row has an explicit end, the session is closed in the store if and only if some branch's marker cell is live in the layered map |
| LayeredRuns.AcceptedIff | src/brain.rs:406-439 | then, with ids left, a fact write or branch creation succeeds if and only if the layered map, which knows no store, lets it through |
| LayeredRuns.BrainRefinesOwnRun | src/brain.rs:559-847 | from a new brain, every branch's view is exactly what the layered map shows after running the same calls by itself, deciding every refusal on its own, closed sessions included |
| MarkerRuns.EndingMarkerDiffers | src/brain.rs:406-439 | a run that gives the close marker an explicit end: the store stays closed and the layered map does not |
| LayeredModel.NewBranchShowsParent | src/brain.rs:812-847 | a branch under a never-used id shows exactly its parent's rows, and the parent still does |
| TimeTravel.FactsAsOfStable | src/brain.rs:1182-1184 | `facts_as_of(t)` gives the same rows in the same order in every later store |
| TimeTravel.FactsAsOfIsThePast | src/brain.rs:1182-1184 | after any later run without archiving it lists exactly what `facts_on_branch` listed right after `t`, and those rows gained at most later stamps |
| TimeTravel.LatestIsNow | src/brain.rs:970-993 | as of the latest transaction a branch shows what it shows now |
| TimeTravel.BeliefTimeTravel | src/brain.rs:1193-1196 | belief rows never change, and `beliefs_as_of` and `beliefs_bitemporal` keep their answers in every later store |
| TimeTravel.BeliefViewIsUnique | src/brain.rs:1542-1546 | a belief view has at most one row per belief id and one per claim text |
| TimeTravel.BitemporalBeliefsAreUnique | src/brain.rs:1270-1277 | so does the answer of `beliefs_bitemporal` |
| TimeTravel.ActiveBeliefsComplete | src/brain.rs:1542-1546 | no active claim is dropped unless another listed row makes the same claim |
| TimeTravel.RevokeHides | src/brain.rs:776-810 | a successful revocation makes its own row the newest local one of the id |
| TimeTravel.RevokedIsHidden | src/brain.rs:1187-1190 | while that row is newest, no earlier or inherited claim of the id shows |
| TimeTravel.RevokedStaysOut | src/brain.rs:1187-1190 | this lasts through every run that does not revise the id on that branch |
| Bitemporal.RetractionKeepsReadingsIff | src/brain.rs:1215-1235 | a retraction keeps every past reading of every row's end if and only if a test on the rows it stamps holds before the call |
| Bitemporal.RetractKeepsAnswersIff | src/brain.rs:652-662 | `retract_fact` keeps every past bitemporal answer if and only if it overwrites no explicit end |
| Bitemporal.OverwrittenEndShows | src/brain.rs:1217-1218 | when it overwrites one, this past answer at this timestamp differs |
| Bitemporal.OwnTimeEndShows | src/brain.rs:699-717 | in particular, a never superseded row that ended at the retraction's own time makes this past answer at this timestamp differ |
| ExactRetraction.AnswerKeptIff | src/brain.rs:668-721 | an exact retraction keeps one past answer if and only if no row that it reopens comes, in that answer, before every shown row of the id |
| ExactRetraction.ExactKeepsAnswersIff | src/brain.rs:668-721 | it keeps all past answers if and only if a finite test on the store before the call holds |
| BitemporalRuns.OverwrittenEndRun | src/brain.rs:652-662 | a two-call run of `retract_fact`: one assertion with an explicit end, then the retraction, and an answer about the assertion changes |
| BitemporalRuns.ExactRetractionRun | src/brain.rs:699-717 | a three-call run without explicit ends: two assertions of one tuple and its exact retraction, all within one second, and an answer changes |
| BitemporalRuns.CoveredRun | src/brain.rs:699-717 | the same call after two equal assertions: a row reopens, and every past answer stays |
| Bitemporal.BitemporalStable | src/brain.rs:1238-1251 | along every run whose retractions pass the test, `facts_bitemporal(t, ts)` keeps its answer for every committed `t` |
| Bitemporal.PlainHistoryIsStable | src/brain.rs:1238-1251 | from a new brain, without explicit ends, no later call changes any bitemporal answer; only exact retractions need a clock that strictly increases |
| Bitemporal.LatestContainsValidNow | src/brain.rs:1208-1213 | at the latest transaction the bitemporal view contains every row its branch shows as valid |
| ChainEffects.AssertTouches | src/brain.rs:593-618 | an assertion changes one version chain and its row becomes the newest version there |
| ChainEffects.RetractTouches | src/brain.rs:644-663 | a retraction changes one version chain and leaves its newest version revoked |
| Isolation.StampsAreLocal | src/brain.rs:593-663 | every stamp on a row comes from a transaction of the row's own branch |
| Isolation.WritesAreIsolated | src/brain.rs:593-604 | a write leaves rows of other branches identical in all fields, and the fact and belief views of every branch whose chain lacks the written branch |
| Isolation.RunsAreIsolated | src/brain.rs:990-993 | the same over whole runs |
| MergeViews.MergeKeepsSourceList | src/brain.rs:1022-1121 | a merge, finished or refused halfway, leaves the source's list of rows as it was, even when the target is an ancestor |
| MergeViews.MergeResultView | src/brain.rs:1044-1106 | after a finished merge the target shows, for exactly the overridden ids, a row with the source row's content and valid time and the provenance `merged-from:` the source, and for all others the very row it showed before; no id is lost |
| MergeViews.SecondMergeAddsNothing | src/brain.rs:1022-1121 | an identical second merge writes no fact row, adds nothing, and can only be refused for want of ids |
| MergeViews.MergeFinishes | src/brain.rs:1022-1121 | with no close marker open, live branches and enough ids, every merge finishes |
| MergeRuns.MergeIsARun | src/brain.rs:1044-1106 | every merge is a run of ordinary writes on its target |
| MergeRuns.MergeReportIsExact | src/brain.rs:1086-1103 | `added` lists exactly the overridden ids, and `conflicts` exactly the differing ids with both values, under `Manual` alone |
| Calendar.DayNumberIncreases | src/exom.rs:174-213 | counting days orders dates |
| Calendar.CivilIsExact | src/brain.rs:1594-1609 | the closed form yields a valid Gregorian date whose day number is the day it started from |
| Calendar.DatesAgree | src/brain.rs:1594-1609 | a date counts `n` days if and only if the closed form yields it for `n` |
| Calendar.DaysToYmd | src/exom.rs:174-209 | the year and month loops return the date of the closed form, for every day since the epoch |
| Timestamps.ClockFieldsAgree | src/exom.rs:164-172 | both ways to split the seconds of a day agree |
| TimestampText.NowIsoReads | src/brain.rs:1575-1592 | the six numbers of a printed timestamp read back as the date of the closed form and the clock of the day |
| Timestamps.TimestampOrder | src/brain.rs:1611-1617 | up to the end of the year 9999 one printed timestamp is smaller than another if and only if it is earlier |
| Timestamps.OrderEndsWithYear9999 | src/brain.rs:1614-1617 | the first second of the year 10000 prints as smaller than the second before it |
| Timestamps.TimestampOrderIff | src/brain.rs:1611-1617 | for any two instants the printed order is the order of time if and only if the years' digits are in order |
| Timestamps.OrderedUpTo | src/brain.rs:1611-1617 | all pairs of instants below a bound compare correctly if and only if the bound is at most the start of the year 10000 |
| Timestamps.ValidAtSeconds | src/brain.rs:1565-1567 | the valid-time test on printed timestamps is the half-open interval test on seconds |
| Timestamps.CloseAtSeconds | src/brain.rs:588-592 | the close time chosen by comparing strings is the earlier instant |
| RayfallSyntax.StringRoundTrip | src/rayfall_ast.rs:596-609 | reading an escaped string gives the string back, for every string |
| RayfallSyntax.RoundTrip | src/rayfall_ast.rs:40-50 | the printed text of a printable expression parses back to it and leaves the rest of the input |
| RayfallSyntax.PrintedFormParses | src/rayfall_ast.rs:328-335 | as a whole source it is exactly one form, the expression printed |
| RayfallSyntax.ParsedIsPrintable | src/rayfall_ast.rs:796-883 | everything the parser returns is printable |
| RayfallSyntax.ReparsingIsStable | src/rayfall_ast.rs:315-326 | printing the forms of any accepted source and parsing again gives the same forms |
| SyntaxLaws.BracketsAreParentheses | src/rayfall_ast.rs:810-832 | a list in brackets parses as the list in parentheses, and the other kind of closer is an error |
| SyntaxLaws.EscapeStandsFor | src/rayfall_ast.rs:834-863 | after a backslash `n`, `r` and `t` are control characters and every other character is itself |
| SyntaxLaws.SymbolCharIs | src/rayfall_ast.rs:871-890 | a symbol is made of everything but whitespace and the seven punctuation characters |
| SyntaxLaws.CommentIsSkipped | src/rayfall_ast.rs:774-794 | a comment runs from two semicolons to the end of its line |
| SyntaxLaws.WhitespaceIsSkipped | src/rayfall_ast.rs:774-794 | whitespace counts for nothing between tokens |
| SyntaxLaws.LoneSemicolon | src/rayfall_ast.rs:774-883 | one semicolon starts neither a comment nor a symbol |
| SyntaxLaws.EndOfInput | src/rayfall_ast.rs:796-832 | nothing but blanks is no form at top level and an error anywhere else |
| SyntaxLaws.LoneCloser | src/rayfall_ast.rs:796-808 | a closer without its list is an error |
| SyntaxLaws.StringErrorsPass | src/rayfall_ast.rs:834-863 | an error in the rest of a string is the string's |
| SyntaxLaws.OneForm | src/rayfall_ast.rs:328-335 | a source for one form must hold exactly one |
| RayfallParser.Parser.SkipBlanks | src/rayfall_ast.rs:774-794 | the loops skip whitespace and `;;` comments as the grammar says |
| RayfallParser.Parser.ParseStringLiteral | src/rayfall_ast.rs:834-863 | the loop reads a literal, or fails, as the grammar says |
| RayfallParser.Parser.ParseSymbolName | src/rayfall_ast.rs:871-883 | the loop takes the longest symbol |
| RayfallParser.Parser.ParseList | src/rayfall_ast.rs:810-832 | the loop collects items up to the matching closer, or reports the first error |
| RayfallParser.Parser.ParseExpression | src/rayfall_ast.rs:796-808 | on every input the parser ends with the grammar's result and the index behind it |
| RayfallParser.ParseAllForms | src/rayfall_ast.rs:315-326 | the top-level loop returns the grammar's forms or its first error |
| RayfallLowering.SlashIdempotent | src/rayfall_ast.rs:542-572 | rewriting `::` to `/` once is enough |
| RayfallLowering.LoweredIsCanonical | src/rayfall_ast.rs:363-572 | whatever lowering accepts from parsed source is canonical |
| RayfallLowering.CanonicalRoundTrip | src/rayfall_ast.rs:261-313 | a canonical form prints to text that parses back and lowers to itself, whatever the defaults |
| RayfallLowering.LoweredRoundTrip | src/rayfall_ast.rs:337-339 | so does every form lowered from an accepted source with well-formed defaults |
| RayfallLowering.InExomIsItsChildren | src/rayfall_ast.rs:407-427 | an `in-exom` block lowers exactly when each child may stand there and to the concatenation of its children made explicit, in order |
| LoweringLaws.BlockChildRefused | src/rayfall_ast.rs:407-427 | what may not stand in a block is refused by its head |
| LoweringLaws.NestedHeads | src/rayfall_ast.rs:359-405 | within a block every other head is an unsupported nested one |
| LoweringLaws.OtherHeads | src/rayfall_ast.rs:359-405 | at top level every other head is unsupported |
| LoweringLaws.NoForms | src/rayfall_ast.rs:359-380 | what is no list, or has no head symbol, is refused as such |
| LoweringLaws.BlockRefusals | src/rayfall_ast.rs:407-427 | a block needs a name and a body |
| LoweringLaws.RetractTakesId | src/rayfall_ast.rs:506-540 | a retraction of two arguments is by exom and id |
| LoweringLaws.WrongNumberOfArguments | src/rayfall_ast.rs:474-540 | every other number of arguments is refused |
| LoweringLaws.NoArgumentsAtAll | src/rayfall_ast.rs:429-540 | so is an empty form, for its exom first |
| LoweringLaws.QueryByDefault | src/rayfall_ast.rs:429-450 | a query without an exom gets the query default, whatever the rule default is, or is refused without one |
| LoweringLaws.RuleByDefault | src/rayfall_ast.rs:452-472 | a rule without an exom gets the rule default, whatever the query default is, or is refused without one |
| LoweringLaws.MutationNeedsExom | src/rayfall_ast.rs:474-511 | fact mutations have no default exom |
| LoweringLaws.GivenExomIsTaken | src/rayfall_ast.rs:429-472 | a given exom is taken in its slash spelling whatever the defaults |
| LoweringLaws.MutationTakesArguments | src/rayfall_ast.rs:474-540 | a mutation takes exom, id, predicate and value in this order, or is refused for the first wrong one |
| LoweringLaws.SlashReplacesFirst | src/rayfall_ast.rs:542-572 | the leftmost `::` becomes a slash and the rest is rewritten in turn |
| RuleColumns.PassGrows | src/rayfall_ast.rs:660-685 | a pass only flips flags from false to true, and one that reports a change leaves fewer unset, so the loop ends |
| RuleColumns.BodyMonotone | src/rayfall_ast.rs:705-758 | knowing more id columns of the called relations binds no fewer variables |
| RuleColumns.SettledIsClosed | src/rayfall_ast.rs:660-685 | the final table names exactly the rule heads and is closed under every rule |
| RuleColumns.RuleColumnsContainLeast | src/rayfall_ast.rs:660-685 | it contains every stage of the least fixpoint, whatever the rule order |
| RuleColumns.OnlyFirstPassOvershoots | src/rayfall_ast.rs:714-716 | it stays within a closed set if and only if the first pass does |
| RuleColumns.RuleColumnsAreLeast | src/rayfall_ast.rs:660-685 | when every called head has an earlier rule it is the least closed set, hence a fixpoint |
| RuleColumns.SelfCallOvershoots | src/rayfall_ast.rs:714-716 | a rule that calls only itself is flagged although nothing is derivable |
| FindColumns.CollectIdVars | src/rayfall_ast.rs:705-758 | the loops add to the out-set exactly the variables the atom binds to ids |
| FindColumns.SettleRuleColumns | src/rayfall_ast.rs:660-685 | the loop over all rules ends with the fixpoint table |
| FindColumns.FindColumnsAreIds | src/rayfall_ast.rs:639-686 | one answer per find term, read off that table; a parse error is passed on |
| IdPositions.IdVarsAre | src/rayfall_ast.rs:629-758 | a body binds a variable to an id exactly when an atom, reached through `and` and `or` alone, holds it in a triple slot, an id column of a call, an id result of `min` or `max`, or a complete `by` key over an id column |
| IdPositions.ReaderReads | src/rayfall_ast.rs:714-717 | a known rule is looked up; of every other relation all columns hold ids but column 2 of `facts_i64` |
| IdPositions.SetReaderReads | src/rayfall_ast.rs:714-717 | the same for the sets of columns that the fixpoint is compared with |
| IdPositions.TermIsIdIff | src/rayfall_ast.rs:688-695 | the answer for a find term by those places; symbols are ids unless they are numbers, strings and quotes always, lists never |
| IdPositions.ClauseIsFirst | src/rayfall_ast.rs:641-648 | the first clause of a name counts |
| IdPositions.RulesAreInOrder | src/rayfall_ast.rs:651-659 | the rules are exactly the forms that are one, in order |
| IdPositions.FactsValueIsNumber | src/rayfall_ast.rs:629-638 | the query for integer facts answers id, id, number |
| FindColumns.NoIdIsMissed | src/rayfall_ast.rs:629-638 | a column that holds ids by what the rules derive is never reported as a number |
| FindColumns.AnswerIsLeast | src/rayfall_ast.rs:629-638 | when every called head has an earlier rule, the answer is the one under the least closed set |
| FormSplitter.Split | src/rayfall_parser.rs:28-103 | the nested loops compute the specified forms, on every input |
| FormSplitter.SplitPrintedForms | src/rayfall_parser.rs:28-103 | printed list forms, with any text between them that the parser skips, are split into exactly those forms if and only if every whitespace character outside comments is ASCII, whatever their strings hold |
| FormSplitter.ParserAgrees | src/rayfall_ast.rs:315-326 | the parser reads the same forms from every such text |
| FormSplitter.NoBreakSpaceIsAnAtom | src/rayfall_parser.rs:28-49 | after a no-break space the splitter takes a whole list for an atom that the parser reads as the list |
| FormSplitter.KindOfPrinted | src/rayfall_parser.rs:105-117 | the kind is that of the head symbol when more items follow it, and `Other` in every other case |
| ScannerLaws.FirstWordDecides | src/rayfall_parser.rs:105-117 | on any text the first word decides the kind, after an opening parenthesis if there is one |
| ScannerLaws.KindIs | src/rayfall_parser.rs:105-117 | five words name a kind and no other word does |
| ScannerLaws.NoInside | src/rayfall_parser.rs:119-129 | what is no list has no inner text |
| FormSplitter.InnerOfPrinted | src/rayfall_parser.rs:119-129 | the inner text is the other items printed, with the closing parenthesis |
| MutationLexer.ParseMutationArgs | src/rayfall_parser.rs:133-140 | the lexer object reads exom, entity, predicate and value as specified, or stops at the first error |
| MutationLexer.PrintedMutationLexes | src/rayfall_parser.rs:133-225 | from a printed mutation splitter and lexer recover kind, exom and predicate exactly, and both strings with four escapes left spelled out |
| MutationLexer.MutationAgreesIff | src/rayfall_parser.rs:213-225 | they recover the arguments exactly if and only if neither string holds a backslash, line feed, carriage return or tab |
| ScannerLaws.TokenReads | src/rayfall_parser.rs:142-166 | a bare token ends before ASCII whitespace or a closing parenthesis |
| ScannerLaws.StringReads | src/rayfall_parser.rs:142-200 | a string without escapes is read as it stands, as an exom too |
| ScannerLaws.BlankIsSkipped | src/rayfall_parser.rs:153-157 | ASCII whitespace between arguments is skipped |
| ScannerLaws.FirstFailureCounts | src/rayfall_parser.rs:133-140 | the first argument that fails is the one reported |
| ScannerLaws.EscapeReads | src/rayfall_parser.rs:213-225 | an escaped quote becomes a quote and every other escape stays as spelled |
| ScannerLaws.StringErrors | src/rayfall_parser.rs:168-200 | what is no string, or does not close, is refused |
| ScannerLaws.QuoteIsOptional | src/rayfall_parser.rs:202-211 | the quote before a predicate may be left out |
| RuleText.ScanBalancedFromOpen | src/rules.rs:23-40 | the loop returns the first balanced parenthesis, if there is one |
| RuleText.ExtractInlineRuleBody | src/rules.rs:47-74 | the loop collects the clauses' text as specified, or the first error |
| RuleText.TokenizeHeadArgs | src/rules.rs:113-166 | the loops count the tokens after the first |
| RuleText.InlineBodyIff | src/rules.rs:47-74 | for a printed rule whose clauses are lists, the result is exactly the printed list of its clauses if and only if their text falls into pieces balanced in raw parentheses, one space apart |
| RuleText.InlineBodyOfPrinted | src/rules.rs:47-74 | it does so whenever the parentheses within each string nest |
| RuleText.LoneParenIsRefused | src/rules.rs:47-74 | a lone parenthesis in a string makes a well-formed printed rule fail |
| ScannerLaws.JunkIsSkipped | src/rules.rs:60-70 | text before a balanced clause is passed over |
| ScannerLaws.HeadBehind | src/rules.rs:77-86 | the head is the first balanced clause, whether or not the text opens with a parenthesis of its own |
| ScannerLaws.NoRule | src/rules.rs:47-52 | text that does not start with `(rule` is refused |
| ScannerLaws.NameAlone | src/rules.rs:53-59 | a rule of a name alone is malformed |
| ScannerLaws.NoClauses | src/rules.rs:60-74 | one without clauses is empty |
| ScannerLaws.NoHead | src/rules.rs:77-100 | without a parenthesis there is no head, and a head needs a word |
| RuleText.CrossedComesOutRight | src/rules.rs:47-74 | nesting is not needed: one string may open what the next one closes |
| RuleHeads.HeadOfPrinted | src/rules.rs:77-108 | a printed head balanced in raw parentheses, with self-contained arguments, yields its predicate and the tokens of its arguments, and their number if and only if each is one token |
| RuleHeads.PlainHeadIff | src/rules.rs:77-166 | when strings nest and no quote holds one, the argument count is right if and only if no quote holds whitespace |
| RuleHeads.QuotedListCountsTwice | src/rules.rs:113-166 | an argument that is a quoted list of two symbols counts as two |
| RuleHeads.SwallowedCountsRight | src/rules.rs:113-166 | a quoted string that swallows the next argument, so that two arguments count as two by accident |
| RuleHeads.CutHeadCountsRight | src/rules.rs:23-40 | a lone parenthesis that cuts the head short, so that one argument counts as one by accident |
| RuleHeads.HeadOfPrintedRule | src/rules.rs:169-188 | composed, a printed rule yields the predicate of its head, and its arity under the same condition |

## Left out

- `rebuild_splay`, `save`, `open_exom` and everything else that touches files or the splay tables: the model is the in-memory mode, where they do nothing.
- `reset`, `replace_state` and imports: they replace history, and no theorem ranges over them.
- `archive_branch` is a call of the model and keeps the invariant, but it changes chains, so theorems about past answers, isolation and refinement range over runs without it.
- Branch claims, sessions, scaffolding, `precheck_write`, `default_fork_target`: file-system work with shallow logic.
- LayeredRuns.BrainRefinesOwnRun: ranges over assertions, both retractions and branch creation, over runs that give the session-close marker no explicit end and do not use up the ids; `MarkerRuns.EndingMarkerDiffers` is a run with such an end in which the two sides part.
- Observations, confidence, transaction notes and the user, agent and model of a transaction: carried data that no modelled branch reads.
- `FactValue` is three cases with structural equality; its display text, and so the text inside a merge conflict, is not modelled: a conflict holds the two values.
- `TxId` wrap-around: allocation at the largest 64-bit id is refused with an error of the model's own, where the source would overflow.
- Calendar.DaysToYmd: years are unbounded integers, while the source narrows them to 32 bits.
- RuleColumns.RuleColumnsAreLeast: one direction only, under the rule-order condition; `RuleColumns.OnlyFirstPassOvershoots` gives the exact condition for the general case in terms of the first pass.
- RuleHeads.HeadOfPrinted: says nothing of a head whose raw parentheses do not balance at its end, or of an argument that leaves a string or parenthesis open in its tokens, which only a quote that holds a string or a list whose strings hold parentheses can; such a head can be counted right by accident, as `RuleHeads.CutHeadCountsRight` and `RuleHeads.SwallowedCountsRight` show.
- Number recognition and column indices (`parse::<f64>`, `parse::<usize>`) are parameters of the column analysis.
- FormSplitter.Split: the nesting depth is an unbounded integer, while the source counts in 32 bits.
- `rewrite_body_literals_with_schema`, `derive_rule_param_attrs`, `append_rules_to_query`, `rewrite_query_with_rules`: literal pinning and rule splicing are not modelled.
- `parse_rule_line` beyond its composition, `derived_predicates`, `src/path.rs`, transports, commands, datom export and foreign calls.
