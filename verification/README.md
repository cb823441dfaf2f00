# Models of the perf tooling and the f2fs tests

A Dafny model of the parts of this repository whose correctness is not apparent from reading one function, and proofs
of what they promise. `dafny verify dfyconfig.toml` checks all of it. Each file is one module.

| file | models |
|---|---|
| `SqlRing.dfy`, `SqlSafety.dfy`, `SqlRuns.dfy`, `SqlOrder.dfy`, `SqlAnnounce.dfy`, `SqlFetcher.dfy` | the shared-memory record ring between the SQL fetcher process and the viewer: producer, reader thread and consumer as one state machine with a step per shared access; its safety; runs of it; exactly which records come in order; exactly when all are announced; the methods on the shared array |
| `MetricExpr.dfy` | metric expressions: meaning over the reals with partial operators, structural equality, substitution, simplification |
| `MetricRewrite.dfy` | rewriting a system of metrics in terms of one another, over values defined by an acyclic reference graph |
| `MetricPrint.dfy`, `MetricGrammar.dfy`, `MetricBrackets.dfy` | printing with minimal brackets, reading by precedence, the grammar with one production for each level that this agrees with, and why no bracket can be left out |
| `CText.dfy`, `StringTable.dfy`, `EventTable.dfy`, `EventNames.dfy` | strings as escaped text of C literals; the compressed string table of the generated events; the encoding and decoding of records in it; a condition on records under which a table holds them |
| `TimeRanges.dfy`, `TimeText.dfy`, `RunWork.dfy` | the time-range algebra, the times as text, and the job runner of parallel-perf |
| `RetryLedger.dfy`, `Patterns.dfy` | the concurrent write ledger of the retry-race test, and the position-determined patterns it writes |
| `OatWriter.dfy` | the header-last mmap writer over a page cache that may be written back at any moment |
| `SchedMigration.dfy`, `GeckoThread.dfy`, `MemRanges.dfy` | runqueue load accounting, interned stack tables, and the range tree of memory types |
| `Sorting.dfy`, `Decimal.dfy`, `Common.dfy` | sorted listings of a set under a total order; decimal notation; what several modules share |

Code that works by changing fields, lists or arrays is modelled by classes and methods with loops. Each such method is
proved against a function of the old state, and what the code promises is proved about that function. Classes carry the
fields of the original. Fields and parameters marked `ghost` record history only. Environment inputs (observed values of
a shared variable, results of polls, what a write returns, when the kernel writes pages back) are parameters over which
every theorem quantifies.

Where the code fails its own promise, the code is modelled as it is, and the exact condition is proved:

- Ring: if the head wraps over waiting records and the shared tail is still 0 when it is read again, the empty and the
  full ring look alike. A step of this kind is called blind. Without one the ring is a FIFO (`FifoSafety`). Of records
  that the ring can carry one by one, those taken are delivered in order in every interleaving if and only if all of
  them with their headers take up less than the buffer (`InOrderIffAllFit`); else there is a run in which one is
  overwritten unread (`BlindReloadLosesRecord`). In a given state, the room granted after a blind reload covers an unread
  record if and only if there is one and the consumer has not come past that room (`GrantAfterWrap`,
  `BlindGrantMayBeFree`).
- Waiting: a record that is smaller than the buffer may be waited for for ever, although everything before it has been
  taken off, because the free bytes above the head and those below the tail are not used together (`WaitsForEver`):
  exactly if neither part alone has room (`WaitsForEverIff`).
- Reader thread: it reads the count and then asks whether fetching is done, so that it can leave with counted records
  never announced (`LastBatchCanBeLost`). Nothing is lost if and only if the count it read last is still the count when
  it leaves (`NothingLostIffUpToDate`), that is, if and only if every raise of the count is followed by a read of it
  (`AnnouncedIffCountsRead`, `DeliveredIffCountsRead`).
- Header slot: a pickled length must fit it (`DeliveredIffFits`); with Python 3 lengths from 65536 on take 17 bytes, more
  than the 16 of source/scripts/python/exported-sql-viewer.py:110. Where the original would raise on a header that is cut
  off, the model reads some other length.
- Simplification raises on two constant operands and, testing for a factor 1, on a right operand that only becomes
  constant by simplification (source/pmu-events/metric.py:165 and 187): `SimplifyReturns` says for which trees it
  returns. A condition spelt "-0" is taken for true (`SelectByConstant`, `MinusZeroChosen`). Simplifying once more may
  change the result again, or even raise (`SimplifyTwice`): `SimplifyAgain` says for which results it does not.
- String table: strings are folded by their escaped text, so that one may be folded into another at a place inside an
  escape, where the compiler reads something else (`FoldInsideEscape`). Every string is read back if and only if none is
  (`BigCString.Compute`); events and metrics that `c_len` measures right and whose names need no escapes never are
  (`PlainNamesReadable`). `c_len` is off by two for every backslash that three zeros follow, and right otherwise
  (`CLenExact`).
- The self test of parallel-perf fails for ranges that touch, which its validation accepts
  (source/scripts/python/parallel-perf.py:651): it passes if and only if neighbours have a gap.
- A time such as "0.-5" is read as a negative number (`NegativeTime`, `NegativeTimeRead`).
- The write ledger is reliable if and only if no fsync chunk exceeds the file and the slots written with fsync end before
  the background slots begin (`ReplayIffReliable`); chunks that fit their half of the file are enough. Background chunks
  larger than the file do no harm: their offset is negative, and the worker stops at its first write.
- A switch by an unexpected task is meant to be reported, but the report itself raises
  (source/scripts/python/sched-migration.py:341); `SchedSwitch` returns false there.

One observation is not part of the model: source/pmu-events/jevents.py:456 looks a metric up by its bare name in a
dictionary keyed by pairs of pmu and name, so the rewritten expressions are never put to use there. The rewriting is
modelled by itself.

## Model

| member | source | states |
|---|---|---|
| `SqlSafety.FifoSafety` | source/scripts/python/exported-sql-viewer.py:2585-2739 | in every interleaving of producer, reader thread and consumer without a blind reload, for any staleness of the tail, any way of pickling integers, and records of any size whose pickled length fits the header slot, the records removed are exactly a prefix, in order, of the records added |
| `SqlSafety.FifoIfTailFirst` | source/scripts/python/exported-sql-viewer.py:2594-2607 | the same whenever the consumer has published a tail by the time the producer first wraps over records |
| `SqlOrder.InOrderIffAllFit` | source/scripts/python/exported-sql-viewer.py:2585-2739 | exactly which records are delivered in order whatever the interleaving: of any records each of which the ring can carry by itself, and of which the first does not come again, every run that takes some of the first of them removes a prefix of what it adds if and only if all of them with their headers take up less than the buffer |
| `SqlOrder.NeverWraps` | source/scripts/python/exported-sql-viewer.py:2585-2618 | while the records taken are among some that fit the buffer together, the head never wraps and stands behind all that were added |
| `SqlRuns.DeliveredIffFits` | source/scripts/python/exported-sql-viewer.py:2609-2618 | which records the ring carries: a record added and taken off again by itself comes back if and only if its pickled length fits the header slot, provided a pickle that is cut off does not read as the whole |
| `SqlSafety.StepKeeps` | source/scripts/python/exported-sql-viewer.py:2585-2739 | each single access by any of the three parties, other than a blind reload, keeps the invariant behind that |
| `SqlSafety.UnreadBytesKept` | source/scripts/python/exported-sql-viewer.py:2585-2634 | no step overwrites a byte of a frame that the consumer has not removed yet |
| `SqlSafety.NeverOutOfRange` | source/scripts/python/exported-sql-viewer.py:2585-2618 | whenever the producer is to mark the top, write a header or write a record, the slice lies inside the buffer |
| `SqlSafety.SeekKeeps` | source/scripts/python/exported-sql-viewer.py:2585-2597 | asking for room keeps every waiting record and, after a wrap, leaves a top that the consumer will skip |
| `SqlSafety.HeaderKeeps` | source/scripts/python/exported-sql-viewer.py:2615-2616 | once room is granted, writing the length keeps every waiting record and the mark at the top |
| `SqlSafety.BodyKeeps` | source/scripts/python/exported-sql-viewer.py:2617-2618 | writing the record adds it whole and leaves all waiting ones whole |
| `SqlSafety.ReloadKeeps` | source/scripts/python/exported-sql-viewer.py:2602-2606 | re-reading the shared tail is safe unless the head has wrapped over waiting records and the tail read is still 0 |
| `SqlSafety.RemoveTakes` | source/scripts/python/exported-sql-viewer.py:2720-2731 | wherever the head has wrapped, what the consumer takes off the ring is the very record its tail stands at, and its tail ends up behind it |
| `SqlSafety.LengthTakes` | source/scripts/python/exported-sql-viewer.py:2721-2727 | the length read at the consumer tail, or after a 0 the one read at the bottom, is that of the next record, and the frame it goes with is the next one |
| `SqlSafety.GrantAfterWrap` | source/scripts/python/exported-sql-viewer.py:2594-2607 | after a wrap over waiting records with an unmoved tail, room granted from the re-read tail covers a record that the published tail does not if and only if that tail is 0; it covers an unread record if and only if besides there is one and the room reaches past where the consumer has come; with tail 0 it is granted for every record smaller than the buffer |
| `SqlSafety.GrantIffRoom` | source/scripts/python/exported-sql-viewer.py:2585-2597 | exactly when room is granted, and where: if and only if more than the bytes asked for lie between the head and the end of what is known to be removed, or the end of the buffer, or, with the head not below that end, between the bottom and that end; at the head if they lie there |
| `SqlSafety.GrantIffFree` | source/scripts/python/exported-sql-viewer.py:2585-2597 | the same by the records: as long as some wait, and the first of them is where its predecessor ends, room is granted if and only if the bytes at the head or, before a wrap, at the bottom belong to no waiting record |
| `SqlSafety.ReloadGrants` | source/scripts/python/exported-sql-viewer.py:2599-2607 | a producer that was refused is granted room by its next look at the shared tail if and only if that tail leaves room |
| `SqlSafety.HeadPublished` | source/scripts/python/exported-sql-viewer.py:2620-2634 | the head that the producer publishes is the place where the last record added ends, or the bottom if none has been added since the last wrap |
| `SqlSafety.WaitsForEverIff` | source/scripts/python/exported-sql-viewer.py:2599-2607 | with everything added also removed and published, a waiting producer is never granted room if and only if neither the part above the head nor the part below the tail has it |
| `SqlOrder.WaitsForEver` | source/scripts/python/exported-sql-viewer.py:2585-2607 | a run that ends so: of any two records smaller than the buffer that do not fit it together, and of which the second is not the smaller, the second is waited for for ever although the first has been taken off |
| `SqlOrder.BlindGrantMayBeFree` | source/scripts/python/exported-sql-viewer.py:2594-2607 | a run with a blind reload after which the room granted covers no unread record, because the consumer has not published its tail yet |
| `SqlOrder.BlindReloadLosesRecord` | source/scripts/python/exported-sql-viewer.py:2594-2607 | the failing run, for every buffer size and pickling, any records that fit the buffer together and any next one that does not fit behind them: all are added, and the consumer is handed the last one first |
| `SqlAnnounce.NothingLostIffUpToDate` | source/scripts/python/exported-sql-viewer.py:2689-2704 | the step that decides: when the reader thread leaves, then in whatever follows every record added has been announced if and only if the count it read last is still the count |
| `SqlAnnounce.UpToDateIffCountsRead` | source/scripts/python/exported-sql-viewer.py:2620-2704 | at every point of every interleaving, whatever becomes of the records, the reader thread knows the current count if and only if every raise of the count has been followed by a read of it |
| `SqlAnnounce.AnnouncedIffCountsRead` | source/scripts/python/exported-sql-viewer.py:2620-2704 | of a run after which the reader thread has left: all records added have been announced if and only if every raise of the count was followed by a read of it |
| `SqlAnnounce.DeliveredIffCountsRead` | source/scripts/python/exported-sql-viewer.py:2585-2739 | and, without a blind reload, they have all been removed, in order, by the time the consumer has nothing more to do, under just that condition |
| `SqlAnnounce.NoticeSignals` | source/scripts/python/exported-sql-viewer.py:2689-2704 | the reader thread announces as many records as the count has grown by, if it has grown; if not, it leaves with a last 0 exactly if fetching is done |
| `SqlAnnounce.LastBatchCanBeLost` | source/scripts/python/exported-sql-viewer.py:2689-2704 | a run in which a record is added and counted, yet the reader thread leaves without announcing it |
| `SqlAnnounce.ExitIsFinal` | source/scripts/python/exported-sql-viewer.py:2697-2699 | once the reader thread has left, no later step of anyone announces or adds anything more |
| `SqlFetcher.DrainTakesNext` | source/scripts/python/exported-sql-viewer.py:2733-2737 | taking an announced number of records in one go yields just the next so many records added, whole and in order |
| `SqlFetcher.SQLFetcherProcess.HasSpace` | source/scripts/python/exported-sql-viewer.py:2585-2597 | the method on the shared array has the result, the new head and the buffer contents of the step that SeekKeeps is about |
| `SqlFetcher.SQLFetcherProcess.WaitForSpace` | source/scripts/python/exported-sql-viewer.py:2599-2607 | for any sequence of values seen in the shared tail, the loop ends in the state of asking again after each of them |
| `SqlFetcher.WaitStops` | source/scripts/python/exported-sql-viewer.py:2599-2607 | waiting ends with the first tail seen that leaves room, and goes on with the next one as long as none has |
| `SqlFetcher.SQLFetcherProcess.PutRecord` | source/scripts/python/exported-sql-viewer.py:2609-2618 | the two slice assignments have the combined effect of the header and body steps |
| `SqlFetcher.SQLFetcher.RemoveFromBuffer` | source/scripts/python/exported-sql-viewer.py:2720-2731 | the method takes the record, and leaves the tail, of the step that RemoveTakes is about |
| `SqlFetcher.SQLFetcher.ProcessData` | source/scripts/python/exported-sql-viewer.py:2733-2737 | takes the announced number of records one after the other and publishes the tail only at the end |
| `MetricExpr.EqualsIsEquality` | source/pmu-events/metric.py:192-196 | structural comparison is equality of trees when every function name has one arity |
| `MetricExpr.EqualsNeedsArity` | source/pmu-events/metric.py:288-294 | without fixed arities the comparison is not even symmetric: the first argument list may be a prefix of the second |
| `MetricExpr.EvalReadsRefs` | source/pmu-events/metric.py:311-332 | the value of an expression depends only on the events it names |
| `MetricExpr.BitsAddUp` | source/pmu-events/metric.py:98-109 | or and and of two integers add up to their sum, and differ by their exclusive or |
| `MetricExpr.ApplyLaws` | source/pmu-events/metric.py:98-109 | of less, equal and greater exactly one holds of two numbers, and a difference undoes a sum |
| `MetricExpr.QuotientLaws` | source/pmu-events/metric.py:98-109 | a quotient undoes a product, and is missing exactly for the divisor 0 |
| `MetricExpr.RemainderLaws` | source/pmu-events/metric.py:98-109 | a remainder has the sign of the dividend, is smaller than the divisor and differs from the dividend by a multiple of it |
| `MetricExpr.IntegersOnly` | source/pmu-events/metric.py:98-109 | bitwise operators have a value for integers only, and remainders for integers with a divisor other than 0 |
| `MetricExpr.TotalHasValue` | source/pmu-events/metric.py:98-109 | an expression without those and without quotients has a value wherever the things that it names have one |
| `MetricExpr.Arities` | source/pmu-events/metric.py:384-419 | ratio, min and max are of two arguments, and the event functions of one event |
| `MetricExpr.CallLaws` | source/pmu-events/metric.py:276-286 | min and max are the two arguments in order, and a ratio is that of its arguments, or 0 over 0 |
| `MetricExpr.SubstituteMeaning` | source/pmu-events/metric.py:198-205 | replacing an expression by a name that has its value keeps the value of the whole, defined or not |
| `MetricExpr.SubstituteShrinks` | source/pmu-events/metric.py:198-205 | a substitution that changes the tree makes it strictly smaller |
| `MetricExpr.SubstituteFinds` | source/pmu-events/metric.py:198-205 | a substitution changes an expression if and only if the replaced one, not just a name or a number, stands somewhere in it |
| `MetricExpr.SubstituteLeavesNone` | source/pmu-events/metric.py:198-205 | one substitution leaves no occurrence behind, unless the replaced expression has the new name in it |
| `MetricExpr.SubstituteRefs` | source/pmu-events/metric.py:296-303 | a substitution that changes the tree names one event more at most, and only when the tree already named all that the replaced expression names |
| `MetricExpr.SubstituteWellFormed` | source/pmu-events/metric.py:246-252 | substitution keeps arities, and functions of an event stay applied to an event |
| `MetricExpr.SimplifyReturns` | source/pmu-events/metric.py:161-190 | simplification returns if and only if, in the tree given, no two subtrees that reduce to numerals are to be folded, except a ratio by 0, and no right factor other than 0 only reduces to a numeral; what a subtree reduces to is read off the tree |
| `MetricExpr.PlainReturns` | source/pmu-events/metric.py:161-190 | for trees without choices and without the constant 0: if and only if nothing is applied to two constants |
| `MetricExpr.SimplifyRaises` | source/pmu-events/metric.py:164-187 | a tree for each way to raise: folding two constants, and a right factor that a choice reduces to a constant |
| `MetricExpr.SlotsNamed` | source/pmu-events/metric.py:174-177 | the event spared by a product with 0 is any that has "slots" in its name, in whatever case |
| `MetricExpr.ZeroTimes` | source/pmu-events/metric.py:174-177 | 0 times an event is 0, but the product with a slots event is kept |
| `MetricExpr.LowerLetters` | source/pmu-events/metric.py:174-177 | case is that of the letters A to Z |
| `MetricExpr.SimplifyRefines` | source/pmu-events/metric.py:161-190 | whenever simplification returns, the result has no more nodes and the same value in every environment where the input has one, with bitwise or on integers, d_ratio by zero, and products of 0 with slots events among the cases; only conditions that reduce to a zero spelt otherwise than "0" are excepted |
| `MetricExpr.SimplifyOperatorRefines` | source/pmu-events/metric.py:164-190 | the same for one operator over already simplified operands |
| `MetricExpr.SimplifySelectRefines` | source/pmu-events/metric.py:228-238 | the same for a choice, whether its condition is constant or its branches are alike |
| `MetricExpr.SimplifyFunctionRefines` | source/pmu-events/metric.py:276-286 | the same for a function of two arguments; a ratio by the constant 0 is 0 |
| `MetricExpr.SelectByConstant` | source/pmu-events/metric.py:232-233 | choosing by a constant condition keeps the value for every two simplified branches if and only if the condition is not a zero spelt otherwise than "0", such as "-0" |
| `MetricExpr.MinusZeroChosen` | source/pmu-events/metric.py:232-233 | with the condition "-0" the wrong one of two constants is chosen |
| `MetricExpr.SimplifyAgain` | source/pmu-events/metric.py:161-190 | exactly when simplifying a result once more gives it back: when no operator in it has a left operand that is a unit or a zero of it, that is 0 under addition and bitwise or, 1 under multiplication, or 0 under multiplication unless the right operand is a slots event |
| `MetricExpr.SimplifySettles` | source/pmu-events/metric.py:161-190 | what simplification returns is no bigger, folds no two constants, has no right operand that is a unit or a zero, and no choice by a constant or between equals |
| `MetricExpr.SimplifyTwice` | source/pmu-events/metric.py:161-190 | two results for which it does not: one that a second simplification makes smaller, and one on which it raises |
| `MetricRewrite.ValuationExists` | source/pmu-events/metric.py:573-603 | an acyclic system of metrics has a value for every metric over any base events of each pmu |
| `MetricRewrite.ValuationUnique` | source/pmu-events/metric.py:573-603 | and only one |
| `MetricRewrite.PmuDefault` | source/pmu-events/metric.py:573-592 | a metric without a pmu is one of the pmu "cpu", in whatever case that is written |
| `MetricRewrite.StepValuation` | source/pmu-events/metric.py:597 | one substitution of a metric into another of its pmu keeps every valuation of the system |
| `MetricRewrite.StepAcyclic` | source/pmu-events/metric.py:592-597 | one substitution never closes a reference cycle, though it adds a reference |
| `MetricRewrite.DerivationKeepsValues` | source/pmu-events/metric.py:582-603 | at every intermediate point of the rewriting of an acyclic system the rewritten system has a unique valuation, and it equals the original one for every metric |
| `MetricRewrite.Pass` | source/pmu-events/metric.py:588-597 | one turn of the inner loop is a chain of permitted substitutions, and it either makes the expression smaller or leaves it unchanged with nothing left to substitute |
| `MetricRewrite.RewriteOne` | source/pmu-events/metric.py:586-602 | the inner loop ends; only this metric is updated, and no occurrence of another metric is left in it |
| `MetricRewrite.RewriteMetricsInTermsOfOthers` | source/pmu-events/metric.py:573-603 | the result comes from the original system by permitted substitutions; exactly the metrics that changed are returned, each smaller than it was; no expression still contains the final expression of an earlier metric or the original one of a later metric of its pmu |
| `MetricPrint.PrintParse` | source/pmu-events/metric.py:98-155 | the printed form of every expression is read back, by a left-associative precedence grammar with calls and choices, as exactly that expression |
| `MetricPrint.ParsePrinted` | source/pmu-events/metric.py:153-155 | the same in any context that does not bind more tightly than the expression |
| `MetricPrint.ParseOperand` | source/pmu-events/metric.py:121-151 | an operand, bracketed or not as the operator asks, is read back as the operand |
| `MetricPrint.ParseSelectOpen` | source/pmu-events/metric.py:218-222 | a printed choice is read back as the choice of the three expressions |
| `MetricPrint.ParseCallOfTwo` | source/pmu-events/metric.py:266-269 | a printed call of two arguments is read back as the call of both |
| `MetricGrammar.SameReading` | source/pmu-events/metric.py:98-109 | every text is read alike by precedence and by a grammar that has one production for each level of operators, named one by one |
| `MetricGrammar.PrintRead` | source/pmu-events/metric.py:98-155 | the printed form of every expression is read back by that grammar as exactly that expression |
| `MetricGrammar.Groups` | source/pmu-events/metric.py:98-109 | how two operators in a row group, for all pairs: to the right exactly if the second one binds more tightly, products before sums before comparisons before and, exclusive or, and or |
| `MetricGrammar.NestedLeft` | source/pmu-events/metric.py:143-145 | an operator on the left of another is printed in brackets exactly if it binds more loosely |
| `MetricGrammar.NestedRight` | source/pmu-events/metric.py:146-148 | an operator on the right of another is printed in brackets unless it binds more tightly |
| `MetricBrackets.BracketsNeeded` | source/pmu-events/metric.py:121-151 | no operand bracket is superfluous, wherever in a tree: without the brackets of any one operand of any operator, at any depth, the text is read back as another expression |
| `MetricBrackets.PrintWithout` | source/pmu-events/metric.py:121-151 | which expression that is: its printed form is the text without the two brackets |
| `MetricBrackets.ShortestText` | source/pmu-events/metric.py:121-155 | no text with fewer tokens than the printed one is read back as the same expression |
| `MetricBrackets.PrintAttachRight` | source/pmu-events/metric.py:121-151 | which expression a left operand printed without its brackets would be read as |
| `MetricBrackets.PrintAttachLeft` | source/pmu-events/metric.py:121-151 | which expression a right operand printed without its brackets would be read as |
| `StringTable.ExtensionsContiguous` | source/pmu-events/jevents.py:138-155 | in string order, whatever lies between a string and an extension of it is an extension of it |
| `StringTable.SuffixIsPrefixReversed` | source/pmu-events/jevents.py:139-148 | one string ends with another exactly when its reverse begins with the reverse of the other |
| `StringTable.BestTakesAll` | source/pmu-events/jevents.py:149-155 | in the sorted list the scan that stops at the first non-extension has seen every extension |
| `StringTable.BestIsMaximal` | source/pmu-events/jevents.py:156-157 | the string that another one is folded into is not folded itself |
| `StringTable.SuffixIsFolded` | source/pmu-events/jevents.py:149-157 | every string that another string of the table ends with is folded |
| `StringTable.FoldTarget` | source/pmu-events/jevents.py:156-157 | it is folded into a different string of the table that ends with it and is emitted |
| `StringTable.FindFolds` | source/pmu-events/jevents.py:149-157 | the nested scan folds exactly the strings that end another one, each into the one of those it ends whose reverse is the last in order, which is not folded itself |
| `StringTable.LastExtension` | source/pmu-events/jevents.py:150-155 | the inner scan finds the end of the run of extensions |
| `StringTable.EmissionOrder` | source/pmu-events/jevents.py:174-178 | event strings come before metric strings, each kind in the order of first insertion, every string once |
| `StringTable.EmittedEndNone` | source/pmu-events/jevents.py:177-188 | no emitted string ends any other string of the table |
| `StringTable.Emit` | source/pmu-events/jevents.py:177-188 | exactly the unfolded strings are emitted, each with the sum of the lengths c_len gave for those before it |
| `StringTable.EmittedReadBack` | source/pmu-events/jevents.py:177-188 | emitted strings that c_len measures right are read at their offsets by the compiler |
| `StringTable.FoldOffsets` | source/pmu-events/jevents.py:190-194 | every lookup of a fold target succeeds, and every string is given the offset at which it was emitted or that of the end of its target |
| `StringTable.FoldedReadsBack` | source/pmu-events/jevents.py:190-194 | at that place the compiler reads the folded string if and only if it does not begin inside an escape of its target |
| `StringTable.BigCString.Add` | source/pmu-events/jevents.py:126-133 | a string keeps the place and the kind of its first insertion |
| `StringTable.BigCString.Compute` | source/pmu-events/jevents.py:135-194 | the table is just the strings that no other one ends with, in emission order; of any strings that c_len measures right, every one is read at its offset if and only if none is folded into another at a place inside an escape |
| `StringTable.FoldInsideEscape` | source/pmu-events/jevents.py:149-157 | a table of two strings of which one is folded inside an escape of the other |
| `CText.CLenExact` | source/pmu-events/jevents.py:82-98 | c_len gives the length of the string less two for every backslash of it that three zeros follow |
| `CText.EndsByText` | source/pmu-events/jevents.py:149-157 | a string ends with another if and only if its text ends with the text of the other, and not from inside an escape |
| `CText.UnescapeEscape` | source/pmu-events/jevents.py:208-214 | the compiler reads back every string that is written with escapes |
| `CText.EscapeClear` | source/pmu-events/jevents.py:208-214 | what is written between the quotes has no NUL and no line break in it |
| `EventNames.PlainNamesReadable` | source/pmu-events/jevents.py:414-428 | in a table of events and metrics none is folded inside an escape, and c_len measures all of them right, if their names need no escapes and no value has a backslash that three zeros follow; all other attributes may have escapes |
| `EventTable.BuildCString` | source/pmu-events/jevents.py:414-428 | the loop over the texts of the attributes builds the text of the encoded record |
| `EventTable.DecompressField` | source/pmu-events/jevents.py:842-853 | one attribute is decoded to the value it was encoded from, and the next one is found |
| `EventTable.Decompress` | source/pmu-events/jevents.py:838-873 | decoding at an offset where an encoded record stands gives back all its fields, reading nothing outside it |
| `EventTable.CompressAndDecompress` | source/pmu-events/jevents.py:126-194 | end to end: for any list of events and metrics that the table holds, adding them, compressing the table, looking each up by its own string and decoding it there gives back every field, with absent and empty text the same |
| `EventTable.AddAll` | source/pmu-events/jevents.py:620-642 | the table of any records that c_len measures right holds them all if and only if none is folded inside an escape |
| `EventTable.ToCString` | source/pmu-events/jevents.py:430-437 | the lookup of a record by its string never fails and leads to the record |
| `EventTable.EncodeInjective` | source/pmu-events/jevents.py:414-428 | two records share a table entry exactly when they are the same but for absent versus empty |
| `EventTable.FieldPrefixFree` | source/pmu-events/jevents.py:424-427 | no encoded attribute can be mistaken for one that runs on into what follows |
| `TimeRanges.IntersectTimeRanges` | source/scripts/python/parallel-perf.py:457-488 | the loop that deletes, trims, inserts and advances terminates and leaves the list equal to the specified intersection, for any lists |
| `TimeRanges.IntersectCovers` | source/scripts/python/parallel-perf.py:457-488 | an instant is covered by that intersection exactly when both lists cover it |
| `TimeRanges.IntersectValid` | source/scripts/python/parallel-perf.py:457-488 | the intersection of sorted disjoint lists is sorted and disjoint, without empty ranges |
| `TimeRanges.IntersectPieces` | source/scripts/python/parallel-perf.py:457-488 | every piece lies inside one range of each list |
| `TimeRanges.RecombineTimeRanges` | source/scripts/python/parallel-perf.py:624-635 | the in-place merging loop computes the specified recombination |
| `TimeRanges.RecombineCanonical` | source/scripts/python/parallel-perf.py:624-635 | recombining a valid list, or one with empty ranges right behind their predecessors, leaves a valid list with a gap between all neighbours |
| `TimeRanges.RecombineCovers` | source/scripts/python/parallel-perf.py:624-635 | recombining keeps exactly the instants covered |
| `TimeRanges.CanonicalUnique` | source/scripts/python/parallel-perf.py:624-635 | a list with gaps is determined by the instants it covers |
| `TimeRanges.RecombineRestores` | source/scripts/python/parallel-perf.py:783-784 | recombining any such list that covers the same instants gives back the original ranges if and only if these have gaps |
| `TimeRanges.SplitSingleTimeRangeIntoN` | source/scripts/python/parallel-perf.py:582-595 | the loop cuts the specified pieces; a range too short for n pieces stays whole |
| `TimeRanges.PiecesPartition` | source/scripts/python/parallel-perf.py:591-594 | the n pieces partition the range |
| `TimeRanges.PiecesEqual` | source/scripts/python/parallel-perf.py:587-594 | all pieces but the last have the same duration, and the last at least that |
| `TimeRanges.SplitTimeRangesByInterval` | source/scripts/python/parallel-perf.py:606-613 | each range is cut into the number of parts whose total comes nearest to its duration, the even one of two equally near, all but the last of equal duration; into one if that number is below 2 or above its duration |
| `TimeRanges.SplitAllPartitions` | source/scripts/python/parallel-perf.py:606-613 | splitting by any positive interval gives valid ranges that cover the same instants |
| `TimeRanges.SplitTimeRangesIntoN` | source/scripts/python/parallel-perf.py:615-622 | the result is valid and covers the same instants; split by the n-th part of the total, or by the minimum if that is more, each range makes the nearest number of parts, so that a single range is split into exactly n unless that would leave parts below the minimum or empty |
| `TimeRanges.NearestUnique` | source/scripts/python/parallel-perf.py:609-612 | that number is unique |
| `TimeRanges.TotalIsCovered` | source/scripts/python/parallel-perf.py:600-604 | the total duration is the number of instants covered |
| `TimeRanges.RangeCount` | source/scripts/python/parallel-perf.py:559-561 | the number of ranges for a cpu is the one nearest to its samples over the interval, but at least 1 |
| `TimeRanges.CPUTimeRange.CalcTimeRangesByCPU` | source/scripts/python/parallel-perf.py:413-426 | what one sample does to the ranges, the position and the two counters |
| `TimeRanges.FromCutsPartition` | source/scripts/python/parallel-perf.py:420-426 | ranges cut at times that never go back cover the whole time without a gap |
| `TimeRanges.FromCutsValid` | source/scripts/python/parallel-perf.py:420-426 | none of them is empty if and only if every cut is later than the one before |
| `TimeRanges.IntersectTame` | source/scripts/python/parallel-perf.py:457-488 | intersecting such ranges with valid ones leaves an empty range only right behind its predecessor |
| `TimeRanges.SplitBySamples` | source/scripts/python/parallel-perf.py:558-574 | counting down a cpu's samples makes at most n ranges, cut at the time of every d-th sample but not of the last one |
| `TimeRanges.SampleInRange` | source/scripts/python/parallel-perf.py:566-574 | with samples at different times each range but the first and the last has exactly d of them, the first one less: which sample is in which range is given exactly |
| `TimeRanges.PerRange` | source/scripts/python/parallel-perf.py:562-565 | d is the samples over the ranges, rounded up |
| `TimeRanges.SplitByDensity` | source/scripts/python/parallel-perf.py:552-580 | one cpu's share: fewer cuts than ranges wanted, intersected with the ranges given; with cut times that never go back the result covers the same instants and passes the self test if and only if the ranges given have gaps; with increasing ones it is valid |
| `TimeRanges.CheckTimeRanges` | source/scripts/python/parallel-perf.py:780-788 | passes exactly when every list recombines to the ranges given |
| `TimeRanges.SelfTestAfterInterval` | source/scripts/python/parallel-perf.py:780-788 | after the interval split the self test passes if and only if the ranges given have gaps between neighbours |
| `TimeRanges.SelfTestAfterDensity` | source/scripts/python/parallel-perf.py:780-788 | after the density split at times that never go back, equal ones included, too |
| `TimeRanges.TouchingRangesFail` | source/scripts/python/parallel-perf.py:780-788 | the valid ranges [0, 4] and [5, 9] fail the self test after every interval split |
| `TimeText.TimeRoundTrip` | source/scripts/python/parallel-perf.py:134-140 | every non-negative time printed and read back is itself, whatever the default |
| `TimeText.FractionRead` | source/scripts/python/parallel-perf.py:656-669 | seconds with any number of decimals are read as nanoseconds, with zeros for those missing and without those beyond nine |
| `TimeText.WholeSeconds` | source/scripts/python/parallel-perf.py:656-669 | seconds without decimals are read as so many times a thousand million |
| `TimeText.BlanksIgnored` | source/scripts/python/parallel-perf.py:657-659 | blanks around a time do not matter, and blanks alone are the default |
| `TimeText.SignedParse` | source/scripts/python/parallel-perf.py:663 | a sign, or none, and digits are read as the integer that they denote |
| `TimeText.SplitJoins` | source/scripts/python/parallel-perf.py:660 | the parts of a text between its points have none, and give it back when joined |
| `Decimal.StrDigits` | source/scripts/python/parallel-perf.py:134-140 | a number below ten is its digit, and every tenfold has one digit more |
| `TimeText.TimeShape` | source/scripts/python/parallel-perf.py:134-140 | a time is printed as its whole seconds, without superfluous zeros, a point, and the nanoseconds in nine digits |
| `TimeText.OpenEndIsDefault` | source/scripts/python/parallel-perf.py:656-659 | an open end is printed as nothing and read as the default |
| `TimeText.NegativeTime` | source/scripts/python/parallel-perf.py:663-668 | a time that is read is negative exactly when its whole part is 0 and its fraction is written negative, which the sign test misses |
| `TimeText.NegativeTimeRead` | source/scripts/python/parallel-perf.py:663-668 | "0.-5" is such a time |
| `RunWork.RunInv` | source/scripts/python/parallel-perf.py:192-251 | in every run, whatever the polls return, jobs start in order, nothing is lost or duplicated, and the limit holds after every round |
| `RunWork.InOnePlace` | source/scripts/python/parallel-perf.py:192-251 | every job is not started, running or done, in exactly one place and once, until something fails; no job is started twice |
| `RunWork.NeverTooMany` | source/scripts/python/parallel-perf.py:208-214 | never more than nr_jobs jobs run: neither after a round of polls nor when the next round has started its jobs |
| `RunWork.StartFills` | source/scripts/python/parallel-perf.py:208-214 | starting jobs goes on until none is left or nr_jobs run, in order |
| `RunWork.SomeJobRuns` | source/scripts/python/parallel-perf.py:206-214 | as long as the loop goes on, some job runs once the round has started its jobs |
| `RunWork.TrueAfter` | source/scripts/python/parallel-perf.py:206-239 | if every poll reports success, the result is True exactly from the round on that the number of jobs over nr_jobs, rounded up, gives |
| `RunWork.RoundFinishes` | source/scripts/python/parallel-perf.py:215-239 | a round in which no poll reports failure and some running job has succeeded makes more jobs done |
| `RunWork.DoneMeansZero` | source/scripts/python/parallel-perf.py:225-230 | a job counts as done only after one of its polls returned 0 |
| `RunWork.AllDoneMeansAllZero` | source/scripts/python/parallel-perf.py:206-207 | True is returned only if every job has polled 0 |
| `RunWork.FailureKillsRest` | source/scripts/python/parallel-perf.py:231-239 | after a failure every started job has failed itself, has polled 0 or has been killed |
| `RunWork.FailureConserves` | source/scripts/python/parallel-perf.py:215-239 | after a failure the jobs started are, each once, those done, the one that failed, those killed and those whose last poll was 0 |
| `RunWork.OverIsFinal` | source/scripts/python/parallel-perf.py:206-239 | once the loop has been left nothing changes: nothing starts after a failure |
| `RunWork.Runner.StartJobs` | source/scripts/python/parallel-perf.py:208-214 | the inner loop moves jobs, in order, until the limit or the end of the list |
| `RunWork.Runner.PollJobs` | source/scripts/python/parallel-perf.py:217-241 | the polling loop has the effect of polling all running jobs up to the first failure, and of killing the others then |
| `RunWork.FalseIffFails` | source/scripts/python/parallel-perf.py:206-239 | the answer is False if and only if, in some round that the loop gets to, a job that is running then polls a nonzero code |
| `RunWork.DoRunWork` | source/scripts/python/parallel-perf.py:192-251 | for whatever the polls return the runner answers False exactly if the specified run has failed, and True exactly if all its jobs are done |
| `RetryLedger.AssignedWorkerSlots` | shared_with_qemu/test/utils/f2fs_retry_race.py:83-95 | raises exactly on the four bad inputs; otherwise yields, ascending, just the slots congruent to the worker, and at least one |
| `RetryLedger.SlotsFill` | shared_with_qemu/test/utils/f2fs_retry_race.py:364-409 | there are as many slots of a kind as fit its half of the file, and one if none does |
| `RetryLedger.SlotsShared` | shared_with_qemu/test/utils/f2fs_retry_race.py:83-95 | every slot belongs to just one worker of its kind, and just the workers that are started have one |
| `RetryLedger.RegionsFollow` | shared_with_qemu/test/utils/f2fs_retry_race.py:364-428 | regions of a kind follow one another, those written with fsync from the beginning of the file and the others from its middle |
| `RetryLedger.RegionBounds` | shared_with_qemu/test/utils/f2fs_retry_race.py:371-438 | every region lies inside the file whose size its chunk does not exceed; with a larger chunk a background region begins before the file |
| `RetryLedger.RegionsDisjoint` | shared_with_qemu/test/utils/f2fs_retry_race.py:363-438 | regions in the file of different slots or workers never overlap in a reliable configuration |
| `RetryLedger.FittingChunksAreSeparate` | shared_with_qemu/test/utils/f2fs_retry_race.py:364-428 | they are apart whenever each chunk size fits its half of the file |
| `RetryLedger.StepKeeps` | shared_with_qemu/test/utils/f2fs_retry_race.py:372-442 | every partial write and every log entry of any worker keeps each byte explained by the write in progress, the log or the baseline |
| `RetryLedger.LedgerReplays` | shared_with_qemu/test/utils/f2fs_retry_race.py:507-522 | with all workers stopped, the baseline overlaid with a file's entries in their order is the file, byte for byte |
| `RetryLedger.ReliableReplays` | shared_with_qemu/test/utils/f2fs_retry_race.py:346-522 | in every run of every interleaving that has come to rest |
| `RetryLedger.SeedsDiffer` | shared_with_qemu/test/utils/f2fs_retry_race.py:363-433 | two writes of a worker have the same seed only if they are its same write to the same file, as long as there are at most 257 files |
| `RetryLedger.LogOutOfOrder` | shared_with_qemu/test/utils/f2fs_retry_race.py:376-385 | where two regions share a byte, a run in which both write it and log in the opposite order, so that the replay differs from the file |
| `RetryLedger.ReplayIffReliable` | shared_with_qemu/test/utils/f2fs_retry_race.py:346-522 | exactly when the log can be relied on, for every accepted configuration: every run replays if and only if there are no files, or no fsync chunk exceeds the file and the slots written with fsync end before the background slots begin, unless background chunks exceed the file |
| `RetryLedger.GrownFileFails` | shared_with_qemu/test/utils/f2fs_retry_race.py:363-385 | an fsync chunk larger than the file makes the file grow, so that no replay matches |
| `RetryLedger.UnreliableConfig` | shared_with_qemu/test/utils/f2fs_retry_race.py:364-428 | a valid configuration whose log cannot be relied on |
| `RetryLedger.LastWriteLedger.NoteWrite` | shared_with_qemu/test/utils/f2fs_retry_race.py:214-220 | an entry replaces the one of its region and gets the next number; numbers stay distinct |
| `RetryLedger.LastWriteLedger.OverlaysFor` | shared_with_qemu/test/utils/f2fs_retry_race.py:222-230 | lists just the entries of the file, in the order in which they were made |
| `Patterns.RepeatBytes` | shared_with_qemu/test/utils/patterns.py:45-62 | raises exactly on an empty token; otherwise byte i is the one of the token repeated for ever from the start index, negative ones included |
| `Patterns.FillTokens` | shared_with_qemu/test/utils/patterns.py:58-61 | the copying loop fills the rest with the repetition and leaves the beginning alone |
| `Patterns.RenderPatternBytes` | shared_with_qemu/test/utils/patterns.py:65-81 | in every mode the bytes are a function of mode, seed, token, overlay offset and absolute position alone |
| `Patterns.CounterBytes` | shared_with_qemu/test/utils/patterns.py:71-77 | counters count up by one in a ring of 256 or 251 bytes, from 0 at the position opposite to the seed |
| `Patterns.TokenBytes` | shared_with_qemu/test/utils/patterns.py:78-81 | a token stands whole at each multiple of its length from the beginning of the file or, repeated, from the overlay |
| `Patterns.GenerateExpectedDirect` | shared_with_qemu/test/utils/patterns.py:84-101 | the expected bytes are the region, whatever the chunk size, in every mode |
| `Patterns.FillPattern` | shared_with_qemu/test/utils/io.py:73-76 | byte i is (seed + absolute position) mod 251 |
| `Patterns.PwritePattern` | shared_with_qemu/test/utils/io.py:78-94 | for every chunk size and every sequence of short writes exactly the first `total` bytes of the region are written and all else is untouched; `total` is what the writes took |
| `Patterns.ProgressWritesAll` | shared_with_qemu/test/utils/io.py:85-94 | if no write comes back empty, all of it is written in the end |
| `Patterns.PwritePatternConfig` | shared_with_qemu/test/utils/io.py:101-111 | raises on a short write or an unrenderable pattern, having written just the bytes before; otherwise the whole region is written |
| `Patterns.WrittenAt` | shared_with_qemu/test/utils/io.py:89 | a write replaces exactly the bytes it covers; a gap behind the old end is zero |
| `Patterns.PatternsAgree` | shared_with_qemu/test/utils/io.py:73-76 | the writer's pattern is the renderer's mod251 pattern |
| `OatWriter.WriteOatwriterLikeFile` | shared_with_qemu/test/utils/oatwriter_mmap.py:137-220 | for every content and every schedule of background writeback: each disk state that a crash can leave with anything in the header page holds the whole rest of the file as expected, and in the end file and disk are exactly the expected bytes |
| `OatWriter.ExpectedHoldsAll` | shared_with_qemu/test/utils/oatwriter_mmap.py:173-178 | the expected file holds header, section table, every blob and the extra bytes whole: nothing overwrites anything |
| `OatWriter.PiecesAscending` | shared_with_qemu/test/utils/oatwriter_mmap.py:148-161 | the pieces lie in order behind the header page and end with the file |
| `OatWriter.BlobsAligned` | shared_with_qemu/test/utils/oatwriter_mmap.py:148-156 | each blob has its payload and starts at the first multiple of 4 from the end of its predecessor on |
| `OatWriter.WriteBody` | shared_with_qemu/test/utils/oatwriter_mmap.py:182-209 | before the header is touched, everything else is in memory and on disk, through one map or two, and no header byte ever reached the disk |
| `OatWriter.WriteHeader` | shared_with_qemu/test/utils/oatwriter_mmap.py:211-212 | while the header is stored and flushed, every disk state already holds the rest |
| `OatWriter.StoreExtra` | shared_with_qemu/test/utils/oatwriter_mmap.py:190-205 | cut at the end of the first map, the extra bytes arrive as one piece |
| `OatWriter.HeaderLast` | shared_with_qemu/test/utils/oatwriter_mmap.py:173-211 | storing the header last makes the same file as storing it first |
| `OatWriter.RoundUp` | shared_with_qemu/test/utils/oatwriter_mmap.py:23-26 | the least multiple of the alignment that is not below the value |
| `OatWriter.Device.Background` | shared_with_qemu/test/utils/oatwriter_mmap.py:33-45 | the kernel may write pages back at any moment: every page that the schedule names reaches the disk as it is in memory, and every state of the disk is recorded |
| `OatWriter.Device.Memcpy` | shared_with_qemu/test/utils/oatwriter_mmap.py:33-36 | out of range it changes nothing; otherwise the bytes are replaced one by one, and before each of them the pages that the schedule names reach the disk, which holds some mixture of old and new |
| `OatWriter.Device.Msync` | shared_with_qemu/test/utils/oatwriter_mmap.py:39-45 | afterwards the flushed pages are on disk; the pages behind them are as before or as in memory |
| `SchedMigration.ProcessTrace` | source/scripts/python/sched-migration.py:333-359 | after any sequence of events every recorded slice has the total of all cpus' loads, queues without duplicates and an end that is its successor's start; the queues are those the events make one after the other; idle is on each of them if no event took it off; it tells when the original raises |
| `SchedMigration.EventEffect` | source/scripts/python/sched-migration.py:333-359 | who is queued where and who is current after an event, said of each kind of event by its fields alone; it is refused exactly if it is a switch from a task other than the known current one |
| `SchedMigration.SwitchMembers` | source/scripts/python/sched-migration.py:104-124 | after a switch the outgoing task is queued exactly if it can still run, the incoming one always, and no other task is touched |
| `SchedMigration.MigrateMembers` | source/scripts/python/sched-migration.py:126-148 | migration removes, and arrival adds, exactly the one task |
| `SchedMigration.TotalUpdate` | source/scripts/python/sched-migration.py:175-177 | adding the difference of one queue's loads keeps the total the sum over all cpus |
| `SchedMigration.LoadCountsTasks` | source/scripts/python/sched-migration.py:150-153 | the load is the number of tasks other than idle when idle is queued |
| `SchedMigration.AcceptedIffLinked` | source/scripts/python/sched-migration.py:333-349 | a trace is accepted if and only if every switch is from the task that the last one on its cpu was to, where there was one to a task other than -1; and that task is the one remembered |
| `SchedMigration.QueuedAlong` | source/scripts/python/sched-migration.py:333-359 | along an accepted trace each event decides who is queued where from who was before it |
| `SchedMigration.IdleStays` | source/scripts/python/sched-migration.py:104-148 | idle stays on every queue if no event puts it to sleep or migrates it |
| `SchedMigration.TimeSliceList.GetTimeSlice` | source/scripts/python/sched-migration.py:224-237 | ends the last slice at the given time and starts from its queues and load |
| `SchedMigration.TimeSliceList.SchedSwitch` | source/scripts/python/sched-migration.py:333-349 | rejects exactly a switch by a task other than the current one; otherwise one cpu's queue changes, with a new slice exactly if it does |
| `SchedMigration.TimeSliceList.Migrate` | source/scripts/python/sched-migration.py:191-208 | two queues change, recorded in one new slice unless the cpus are the same |
| `SchedMigration.TimeSliceList.WakeUp` | source/scripts/python/sched-migration.py:210-222 | one queue gains the woken thread, recorded in a new slice exactly if it was not there |
| `GeckoThread.KeyInjective` | source/scripts/python/gecko.py:130 | the textual keys of different stacks differ |
| `GeckoThread.UnwindGrows` | source/scripts/python/gecko.py:128-194 | what is added to the tables later never changes what a stack id leads to |
| `GeckoThread.UnwindInjective` | source/scripts/python/gecko.py:128-138 | in tables without duplicates, different ids lead to different stacks |
| `GeckoThread.UnwindPush` | source/scripts/python/gecko.py:133-138 | an interned stack unwinds to its prefix followed by its leaf, and links point backwards |
| `GeckoThread.StringInterned` | source/scripts/python/gecko.py:140-148 | a string is added only if the table does not hold it, and its id leads to it |
| `GeckoThread.FrameInterned` | source/scripts/python/gecko.py:150-175 | a frame string gets one frame, whose id leads to it, and the tables stay free of duplicates and only grow |
| `GeckoThread.StackInterned` | source/scripts/python/gecko.py:128-138 | a stack gets one entry; its id leads to the stack below it with the frame on top |
| `GeckoThread.FramesInterned` | source/scripts/python/gecko.py:189-190 | a stack interned frame by frame is found at the id of its last frame |
| `GeckoThread.CategoriesKept` | source/scripts/python/gecko.py:159-174 | after any stack, every frame has the category that its string asks for |
| `GeckoThread.KernelFrames` | source/scripts/python/gecko.py:159-161 | a frame is of the kernel if and only if it has "kallsyms" or "/vmlinux" somewhere in it or ends with ".ko)" |
| `GeckoThread.SampleRecorded` | source/scripts/python/gecko.py:189-194 | every sample recorded before and the new one unwind to the stacks that were given; one without frames is dropped |
| `GeckoThread.Thread.SharedIffEqual` | source/scripts/python/gecko.py:177-194 | two samples share a stack id if and only if their stacks are equal |
| `GeckoThread.Thread.InternString` | source/scripts/python/gecko.py:140-148 | the method changes the tables, and answers, as the function that StringInterned is about |
| `GeckoThread.Thread.InternFrame` | source/scripts/python/gecko.py:150-175 | as the function that FrameInterned is about, with the category of the frame string |
| `GeckoThread.Thread.InternStack` | source/scripts/python/gecko.py:128-138 | as the function that StackInterned is about |
| `GeckoThread.Thread.Fold` | source/scripts/python/gecko.py:189-190 | the reduction has the effect that FramesInterned is about |
| `GeckoThread.Thread.AddSample` | source/scripts/python/gecko.py:177-194 | every sample ever recorded still unwinds to the stack it was given, the new one included; a sample without frames is dropped |
| `MemRanges.PhysMem.FindMemoryType` | source/scripts/python/mem-phys-addr.py:61-74 | for any well-nested listing the result is the range with the largest indent that holds the address, and none exactly if no range does |
| `MemRanges.CandidateHolds` | source/scripts/python/mem-phys-addr.py:66-71 | the entry before the insertion point is the one range of its level that can hold the address, also when there is none before it and the last one is looked at |
| `MemRanges.PhysMem.ParseIomem` | source/scripts/python/mem-phys-addr.py:37-59 | the assertion fails exactly when an indented range lies within no earlier one; otherwise each parent link is to the innermost range around |
| `MemRanges.ParentWhenRead` | source/scripts/python/mem-phys-addr.py:55-58 | the deepest range so far that holds the first address is the innermost range around it in the whole listing |
| `MemRanges.PhysMem.ProcessEvent` | source/scripts/python/mem-phys-addr.py:112-123 | every sample is counted once, for the deepest range that holds it |
| `MemRanges.OwnOrChild` | source/scripts/python/mem-phys-addr.py:81-89 | an address of a range is its own or belongs to exactly one of its children |
| `MemRanges.HitsSplit` | source/scripts/python/mem-phys-addr.py:87-89 | a range's samples are its own and those of its children |
| `MemRanges.PhysMem.AddChildren` | source/scripts/python/mem-phys-addr.py:80-89 | after the bottom-up pass every count is the number of samples that the range holds, and the ranges without indent add up to the total counted before |
| `MemRanges.PhysMem.TopsAddUp` | source/scripts/python/mem-phys-addr.py:80-104 | each sample within any range is within exactly one range without indent |
## Left out

- Everything outside the files above: user interfaces, database access, SQL text, report formatting, CSV and benchmark
  scripts, syscall counters, process start, mount and device control, kernel log and sysrq handling. They are plumbing
  or foreign systems, or would only add easy members.
- SqlSafety.FifoSafety: promises a prefix of the records; that all of them arrive is `SqlAnnounce.DeliveredIffCountsRead`.
  When waiting never ends is `SqlSafety.WaitsForEverIff`, for a ring from which everything has been taken off.
- SqlOrder.InOrderIffAllFit: is about records each of which is smaller than the buffer and has a length that fits the header
  slot, and of which the first does not come again, so that the overwriting shows.
- SqlFetcher.SQLFetcherProcess.WaitForSpace: the events that wake the loop are left out; a turn of the loop is a value read
  from the shared tail. How many records the viewer asks for and the shutdown order are left out too: the producer may
  take any record at any time.
- Pickling: `Codec` is any encoding of lengths that can be read back off the front of a slot; a record is the bytes that
  pickling an object gives.
- MetricExpr.SimplifyRefines: arithmetic is on reals, without decimal rounding of constants; constants are the strings
  that the original stores, and what they denote is a parameter with "0" and "1" fixed. It assumes that a condition which
  reduces to a zero reduces to "0", which `SelectByConstant` shows to be needed.
- Escapes in event names, legacy names, printing as Python, and parsing with Python's own grammar
  (source/pmu-events/metric.py:306-308 and 531-570).
- MetricPrint.PrintParse: text is a sequence of tokens; a name, a number or a literal is one token, and the replacement of
  slashes in event names is left out.
- MetricRewrite.RewriteMetricsInTermsOfOthers: requires distinct metric names within a pmu, and functions of one fixed
  arity; a name refers to a metric when it is spelt the same.
- StringTable.BigCString.Compute: characters are bytes, so that text beyond ASCII is reversed and ordered byte by byte; the
  comments in the generated text and the tables around it are left out. Escapes other than those of NUL, newline, carriage
  return, quote and backslash are not modelled. Sets are iterated in some order, and the result does not depend on it.
- EventTable.CompressAndDecompress: requires records that the table holds, which is exact for the table (`AddAll`) and
  follows from `EventNames.PlainNamesReadable`; text attributes hold no NUL and enumeration values are one digit, as the
  decoder needs.
- describe_metricgroup (source/pmu-events/jevents.py:1209-1239): its keys are sorted with a suffix that is not part of the
  comparison at run time.
- TimeRanges.SplitByDensity: one cpu's share; counting the samples, the parsing of command output, the choice of the
  target interval and the loop over cpus are left out. Divisions of floating-point numbers and their rounding are exact.
- TimeRanges.SplitTimeRangesIntoN: the result may be the very list given in the original; sharing of lists is not modelled.
- TimeText.TimeRoundTrip: digits are ASCII, and underscores within numbers, which Python accepts, are not modelled.
- RunWork.DoRunWork: what a poll does inside a job with a consumer, waiting for killed jobs, error files and messages are
  left out; a poll returns nothing or an exit status.
- RetryLedger.ReplayIffReliable: a worker picks any of its slots and any file each time, where the original draws from a
  generator seeded for the worker; that a log is unreliable means that some such choice makes it so. Writes that fail other
  than before the beginning of the file, fsync, pauses, counters and the time limit on joining threads are left out. How a
  validation plan is compared with the file is not part of this model; overlaying is writing the region's pattern.
- Reading sizes such as "4k" (shared_with_qemu/test/utils/patterns.py:15-42).
- OatWriter.WriteOatwriterLikeFile: the bytes of header, table and blobs are parameters, and no more is used of the
  header than that it has some. A page is persisted whole, the file's size is always durable, and failing system
  calls are left out.
- SchedMigration.ProcessTrace: the event objects and colours kept for drawing, and their sharing between snapshots, are
  left out; slices are values in the list. Searching slices by time is left out.
- GeckoThread.Thread.AddSample: the latest thread name, the constant columns of a frame and the JSON output are left out.
- MemRanges.PhysMem.ParseIomem: requires a listing that is sorted and nested, as the kernel prints it; reading the text of
  a line, the event name and the printed table are left out.
