# Vortara: a verified model

Vortara is a reverse ETL engine: it extracts rows, decides per entity what to do, and delivers to a destination,
with durable state that makes runs repeatable. This project models its core in Dafny and proves what it is built
for. Where the code changes things step by step the model does too: classes with the same fields, methods with the
same loops, each proved against a pure specification; the theorems are about those specifications, over all inputs,
all traces or all histories of runs.

| files | what they model |
|---|---|
| `Lru.dfy` | the cache: a map plus a linked list with expiry, as a recency list |
| `ExprGrammar.dfy`, `ExprParser.dfy`, `ExprRoundTrip.dfy`, `ExprPrefix.dfy`, `ExprEval.dfy`, `ExprTexts.dfy` | the filter-expression language: tokens and grammar, lexer and parser, printing, how much of a text is read, meaning, example texts |
| `StringOrder.dfy`, `Json.dfy`, `Fingerprint.dfy` | canonical JSON text and fingerprints |
| `Flatten.dfy`, `FlattenOrder.dfy` | flattening nested payloads in place, and when its order shows |
| `SqlInsert.dfy`, `PostgresUpsert.dfy`, `PostgresBatch.dfy` | the Postgres batch writer: statements and their meaning, regrouping, chunks, fallback, outcomes |
| `PostgresScd2.dfy` | slowly changing dimensions: closing and inserting versions |
| `DeliveryLog.dfy` | the delivery log, its batch buffer, the REST destination, and histories with crashes |
| `RunLock.dfy` | the run lock under every interleaving |
| `MissingSweep.dfy` | the sweep over entities missing from the source, paging through a listing it reorders |
| `Decision.dfy`, `Safety.dfy` | payload differences, rules, traces; limits and gates |
| `Engine.dfy`, `EngineRun.dfy` | a run as two folds, and the engine that computes them |
| `EngineLaws.dfy` | what a run counts and stores, said of its rows and deliveries one by one |
| `EngineRuns.dfy`, `EngineReruns.dfy`, `EngineOnce.dfy` | several runs: convergence, what a second run does row by row, once-rules |
| `EntityHistory.dfy` | the engine and the sweep together over a history of runs: the missing counter, dry runs |
| `WholeRuns.dfy` | delete limit and approval over the engine and the sweep of one run |
| `SweepLog.dfy` | the sweep and a delivery log together: when the destination loses an entity |
| `Redelivery.dfy` | the engine and a delivery log together: what the destination ends up holding |
| `Extraction.dfy` | keyset paging and the split of a key range in 64-bit arithmetic |
| `CircuitBreaker.dfy` | the circuit breaker over timed traces |
| `Common.dfy` | shared datatypes |

What the world does is given from outside, never fixed: a store call that may fail, a server that may refuse or drop a
connection, a destination's answer and the clock are nondeterministic, and a contract says what holds for each answer.
Constants like `reliable`, `steady` and `healthy` name the case in which such calls never fail; they only strengthen
conclusions.

Findings where the code does less than its comments or names suggest, each with a proof:

- A failed delivery also saves the new fingerprint (internal/engine/run.go:385-394), so `fingerprint_changed()` does not
  retry it: `EngineReruns.FailedIsNotRetried` at one entity; `DecidedAgainIff` and `SecondRunRow` say exactly what a second
  run decides on.
- The operation key of a delivery is made of entity, action and fingerprint, and stays in the log for good. A payload that
  changes and changes back is never delivered again: `Redelivery.ThereAndBack`, `StuckForEver`; `HeldIff` is the exact
  condition.
- Two rows of one entity in one extraction can fire a once-rule twice (`EngineOnce.WelcomedTwice`); repeated entities are the
  only way to that within a run (`NeverTwiceIff`).
- A seen entity that is skipped keeps its missing counter, so absences add up without being consecutive:
  `EntityHistory.SeenThenDeleted` deletes an entity one run after it was extracted, `CounterIsStreakIff` is the exact
  condition. The sweep has no dry-run case and writes states in dry runs too, against docs/state-model.md (`DryRunCountsAway`;
  `DryRunKeepsStatesIff` is the exact condition).
- Splitting a key range can read keys twice, in two classes of bounds: spans wider than 64 bits (`Extraction.OverflowOverlaps`),
  and more ranges than keys next to the largest key (`TopKeysReadTwice`). `SplitsExactlyIff` is the exact condition.
- Grouping rows by column set can reorder writes of one key (`PostgresUpsert.MixedColumnsReorder`); it is harmless exactly when
  it keeps the last value of every key and column (`RegroupedSameTableIff`). The multi-row path accepts rows the per-row path
  rejects (`PathsAgreeIffKeyed`).
- Paging by a cursor that repeats can lose rows at a page boundary (`Extraction.RepeatedCursorIsLost`); `EmittedIff` is the exact
  condition with and without a limit, `ResumedIff` the one for resuming.
- Flattening depends on the iteration order of maps in two ways: leaves of one joined name that can both be written last disagree,
  or a map is overwritten before it is expanded and its leaves are lost (`FlattenOrder.LostWithItsMap`). `OneResultWhen` says for all
  data when neither happens, `OneResultIff` is exact where no map can be overwritten. Two leaves of one joined name alone do not make
  a difference (`NestedAlwaysLasts`).
- A filter condition is read only up to the first place where no token starts; the rest is ignored without an error
  (`ExprPrefix.OnlyThePrefixCounts`).
- `OnlyContains` is exact only for lists without repetition (`Diff.OnlyContainsMeans`, `RepetitionPasses`).
- `Trace` is documented to give the plan of `Evaluate`; it does whenever it succeeds, but it can fail where `Evaluate` succeeds
  (`Decision.TraceFailsAlone`; `TraceRefinesEvaluate` says exactly when).
- The delete limit and the approval gate guard the delivery loop, and the sweep of the same run counts from zero and asks for
  no approval (internal/engine/run.go:474-590). A run can delete twice its limit, against docs/hubspot-restore.md:86 (`WholeRuns.LimitPassedTwice`) and delete without
  the approval that deletes are configured to need (`UnapprovedDelete`); `KeepsDeleteLimitIff` and `KeepsApprovalIff` are the
  exact conditions.
- The sweep loads deletes under the entity key. Once that is logged, every later delete of a reappeared entity is skipped while
  the state records it: `SweepLog.LostIff`, `SecondDeleteIsSkipped`.
- The run lock excludes only holders that finish before expiry (`RunLock.OutlivingBreaksExclusion`); the engine never
  extends its lock.
- One load with repeated row ids sends each of them: `DeliveryLog.RestDestination.Load` and `RepeatsIff` say exactly when. The
  engine itself loads single rows.

## Model

| member | source | states |
|---|---|---|
| `LruCache.Lru.Set` | internal/cache/lru.go:37-72 | on the map and the linked list together: the new contents are the old ones with the key first, value and expiry replaced, and the least recent slot dropped when a new key meets a full cache |
| `LruCache.Lru.Get` | internal/cache/lru.go:75-90 | a live slot is returned and becomes the most recent, an expired one is removed and reported as a miss |
| `LruCache.Lru.Delete` | internal/cache/lru.go:93-100 | exactly the slot of the key goes; order of the others is kept |
| `LruCache.Lru.Len` | internal/cache/lru.go:103-107 | the number of slots of the recency list |
| `LruCache.Lru.EvictOldest` | internal/cache/lru.go:109-117 | the list loses its last entry and the map loses that key |
| `LruCache.RunWellFormed` | internal/cache/lru.go:37-128 | over every timed trace: keys stay distinct and the size never exceeds the capacity |
| `LruCache.InclusionByOne` | internal/cache/lru.go:37-128 | one trace run with capacities n and n+1: the larger contents are the smaller ones with at most one more slot |
| `LruCache.Inclusion` | internal/cache/lru.go:37-128 | for any two capacities the smaller contents are a subsequence of the larger, and the sizes differ by at most the capacities’ difference |
| `LruCache.HitsAreMonotone` | internal/cache/lru.go:75-90 | more capacity never turns a hit into a miss, and the value is the same |
| `LruCache.RecentlyUsedSurvives` | internal/cache/lru.go:109-117 | a slot survives while fewer than `cap` other keys are used, with or without a TTL, as long as it has not expired at a Get of its key |
| `LruCache.Lifetime` | internal/cache/lru.go:37-90 | set at a time, left alone and not pushed out by capacity other keys, a key is hit with its value until its time to live is over, for ever without one; then it is missed and removed |
| `LruCache.HitIsLastSet` | internal/cache/lru.go:37-100 | over every trace a hit is the value of the last write of its key, which is a Set whose time is not over: deleted, replaced and expired values are never served |
| `ExprParser.Lexer.Next` | internal/steps/expr.go:78-144 | the lexer loop yields the next token of the token function and its end position; it ends on every input |
| `ExprParser.Parser.ParseOr` | internal/steps/expr.go:206-220 | the loop over the lexer answers exactly what the grammar over token sequences answers (likewise the six other parser methods) |
| `ExprParser.ParseExpr` | internal/steps/expr.go:15-27 | compiling a condition is the grammar applied to its tokens, and terminates on every input |
| `ExprRoundTrip.RoundTrip` | internal/steps/expr.go:78-339 | an expression printed with minimal parentheses compiles back to the same tree (AND/OR left-associative, NOT tightest) |
| `ExprRoundTrip.CompiledIffPrintable` | internal/steps/expr.go:206-339 | the trees the compiler can produce are exactly the printable ones |
| `ExprRoundTrip.IllegalByteEndsInput` | internal/steps/expr.go:126-131 | after a printed expression and a space, a byte that starts no token ends the input: whatever follows it is ignored and the condition is still accepted |
| `ExprPrefix.RestIsNeverRead` | internal/steps/expr.go:78-144 | for every condition: two texts that agree up to the first place where no token starts compile alike |
| `ExprPrefix.OnlyThePrefixCounts` | internal/steps/expr.go:78-144 | every condition compiles to what its prefix before that place compiles to |
| `ExprPrefix.ReadToTheEndIff` | internal/steps/expr.go:78-144 | that place is the end of the condition iff the condition is tokens and spaces throughout (the reading of `Stop` spelled out) |
| `ExprPrefix.LoneEqualsEndsInput` | internal/steps/expr.go:96-131 | a lone equals sign after a printed expression ends the input, whatever follows |
| `ExprTexts.AtomTexts` | internal/steps/expr.go:96-339 | every comparison and call is compiled from its spelled-out text |
| `ExprTexts.Precedence` | internal/steps/expr.go:206-260 | AND binds tighter than OR, NOT tightest, equal ones associate to the left, parentheses override: on texts |
| `ExprTexts.Keywords` | internal/steps/expr.go:126-144 | a word is AND, OR, NOT or a Boolean by its letters, in any case |
| `ExprTexts.ByteClasses` | internal/steps/expr.go:126-192 | which bytes are digits, letters and spaces, listed |
| `ExprTexts.NumeralsAccepted` | internal/steps/expr.go:169-339 | digits with or without one point are accepted iff their value rounds to a float; two points never are |
| `ExprEval.NegatedComparison` | internal/steps/expr.go:366-430 | `NOT f op v` equals `f opposite(op) v` iff the field is present with the literal’s type (and the operator exists for it); otherwise both comparisons fail |
| `ExprEval.ExactlyOneOrder` | internal/steps/expr.go:366-408 | for a comparable string or number exactly one of less, equal, greater holds |
| `ExprEval.NumbersCompare` | internal/steps/expr.go:366-430 | an integer field is more than, less than or equal to a numeral iff it is so to the value of the numeral |
| `ExprEval.NumbersGrow` | internal/steps/expr.go:403-410 | what is more than a numeral still is when it grows, what is less still is when it shrinks |
| `ExprEval.NumbersEnd` | internal/steps/expr.go:403-410 | small enough numbers are less and not more, large enough ones more and not less |
| `ExprEval.WholeNumbers` | internal/steps/expr.go:366-430 | against the text of a whole number the comparison is with that number |
| `ExprEval.DecimalPoint` | internal/steps/expr.go:319-339 | a numeral with a point has the value of its digits moved by the places behind the point |
| `ExprEval.OrEqual` | internal/steps/expr.go:366-430 | at least and at most are more or equal, and less or equal |
| `ExprEval.TextsCompare` | internal/steps/expr.go:366-430 | an extension is more than the text, the first byte that differs decides |
| `ExprEval.EqualsMeans` | internal/steps/expr.go:366-430 | equality and inequality of texts and Booleans for fields that are there with that type |
| `ExprEval.StartsWithMeans` | internal/steps/expr.go:478-488 | the field is the prefix and some text |
| `ExprEval.ContainsMeans` | internal/steps/expr.go:461-476 | the field is some text, the part, and some text |
| `ExprEval.AbsentFields` | internal/steps/expr.go:366-488 | a record without any of the fields is judged by the connectives alone |
| `ExprEval.PrintingKeepsMeaning` | internal/steps/expr.go:15-43 | the compiled printed text says about every record what the expression says |
| `Fingerprint.WriteCanonical` | internal/fingerprint/fingerprint.go:31-66 | the recursive writer appends the canonical text of the value without the excluded top-level keys |
| `Fingerprint.Of` | internal/fingerprint/fingerprint.go:18-29 | the bytes hashed are the canonical text of the payload without the excluded fields |
| `Fingerprint.EncodeInjective` | internal/fingerprint/fingerprint.go:31-66 | two JSON values have equal canonical text iff they are equal |
| `Fingerprint.ObjectText` | internal/fingerprint/fingerprint.go:31-66 | fields are written in ascending order of their names, quoted, with a colon, separated by a comma, without spaces |
| `Fingerprint.Texts` | internal/fingerprint/fingerprint.go:31-66 | the texts of null, Booleans, arrays and integers |
| `Fingerprint.StringTexts` | internal/fingerprint/fingerprint.go:31-66 | strings are quoted, with short escapes, most characters as they are |
| `Fingerprint.EscapedTexts` | internal/fingerprint/fingerprint.go:31-66 | which characters get a six-character escape |
| `Fingerprint.FingerprintsAgree` | internal/engine/run.go:655-666 | two payloads give the same pre-hash bytes iff they agree on every hashed top-level field; include and exclude lists hide top-level fields only |
| `EngineSpec.SameFingerprintIff` | internal/engine/run.go:148-158 | for every sync: two mapped payloads have one fingerprint iff they agree on every field that is included, not excluded by name, and not the destination of an excluded mapping entry |
| `EngineSpec.SameChange` | internal/engine/run.go:231-245 | rows that differ in hidden fields only are seen as changed or unchanged alike |
| `EngineReruns.OnlyShownFieldsCount` | internal/engine/run.go:148-245 | with the rule for changed entities, an entity stored for one row is decided on at another iff the mapped rows differ in a field that is not hidden |
| `EngineReruns.TouchIsSkipped` | internal/engine/run.go:148-158 | a touch time that is delivered under another name and excluded never makes a delivery |
| `StringOrder.SortedKeys` | internal/fingerprint/fingerprint.go:34-41 | the keys of a map collected in any order and sorted are the one ascending listing |
| `Flatten.Expand` | internal/steps/steps.go:161-171 | deleting one nested map and assigning its entries in any order is an expansion, and strictly lowers the number of map nodes |
| `Flatten.RangePass` | internal/steps/steps.go:159-172 | one range over the changing map: either something was expanded and the measure fell, or the data is flat |
| `Flatten.FlattenInto` | internal/steps/steps.go:156-174 | ends for every payload and every iteration order with no map values, in a result of some order of expansions; for unambiguous payloads the result is exactly joined path to leaf |
| `Flatten.ExpansionKeepsLeaves` | internal/steps/steps.go:161-171 | an expansion keeps the joined name and value of every leaf and adds no ambiguity |
| `Flatten.FlatteningUnique` | internal/steps/steps.go:156-174 | the flattening of unambiguous data is unique, hence independent of the iteration order |
| `Flatten.AmbiguityExposesOrder` | internal/steps/steps.go:156-174 | a concrete record in which two leaves below different maps share a joined name: two orders of expansion end in different data |
| `FlattenOrder.OneResultIff` | internal/steps/steps.go:156-174 | for data in which nothing is ever written over a map: all orders give one result iff, under every name, the leaves that can be written last agree |
| `FlattenOrder.ResultIsLast` | internal/steps/steps.go:161-171 | for all data: every result has under each name the value of a leaf that may be last, and has every name that is always there |
| `FlattenOrder.OneResultWhen` | internal/steps/steps.go:156-174 | for all data: one result when the leaves that may be last agree under every name and no such name depends on a map that may be overwritten before it is expanded |
| `FlattenOrder.ResultNames` | internal/steps/steps.go:156-174 | when no map shares its joined name, every result has exactly the names of the leaves |
| `FlattenOrder.LastIsResult` | internal/steps/steps.go:161-171 | where nothing is written over a map, every leaf that can be last is last in some result: the condition on ties is sharp |
| `FlattenOrder.NestedAlwaysLasts` | internal/steps/steps.go:156-174 | two leaves of one name with different values need not show the order: a nested leaf beside a top-level one is always written later |
| `FlattenOrder.LostWithItsMap` | internal/steps/steps.go:156-174 | a concrete record in which two maps share a joined name and no two leaves do: one order loses a leaf with its overwritten map, another keeps it |
| `FlattenOrder.LostWithoutHarm` | internal/steps/steps.go:156-174 | a concrete record in which two equal maps can overwrite each other and there is one result all the same: the condition for all data is not necessary |
| `SqlInsert.Db.Exec` | internal/connector/destination/postgres.go:912-942 | meaning of a generated INSERT: all records inserted, ignored or merged, or nothing when a record is refused or a key would be affected twice |
| `PostgresUpsert.BuildMultiWriteSQL` | internal/connector/destination/postgres.go:620-672 | the numbered placeholders resolve to the rows of the batch, row by row, with the right conflict clause |
| `PostgresUpsert.StatementIsInOrder` | internal/connector/destination/postgres.go:620-672 | a multi-row statement leaves the table that writing its rows one at a time leaves |
| `PostgresUpsert.SortKeeps` | internal/connector/destination/postgres.go:590-616 | sorting by key keeps the order of rows of one key |
| `PostgresUpsert.SortOrders` | internal/connector/destination/postgres.go:588-616 | sorted rows are in the order of their keys, numbers by size and texts by bytes, when the keys are of one kind |
| `PostgresUpsert.OrderAcrossKeysIrrelevant` | internal/connector/destination/postgres.go:484-586 | two write orders that agree on the order within every non-null key leave the same table |
| `PostgresUpsert.SortedSameTable` | internal/connector/destination/postgres.go:590-616 | writing sorted rows leaves the table of writing them in their order |
| `PostgresUpsert.RegroupedSameTable` | internal/connector/destination/postgres.go:484-508 | grouping by column set preserves the table when rows of one key share their columns (sufficient) |
| `PostgresUpsert.MixedColumnsReorder` | internal/connector/destination/postgres.go:494-508 | without that condition grouping can change which write comes last: a concrete batch |
| `PostgresUpsert.SameTableIff` | internal/connector/destination/postgres.go:484-586 | two orders of the same rows leave every start table alike iff, for every non-null key and every column but the match column, the last writable row carrying the column says the same |
| `PostgresUpsert.RegroupedSameTableIff` | internal/connector/destination/postgres.go:484-508 | the exact condition for grouping: it keeps the result on every start table iff it keeps those last values |
| `PostgresUpsert.PathsAgreeIffKeyed` | internal/connector/destination/postgres.go:844-910 | for an accepted row the multi-row and the per-row path agree iff the row carries the match column |
| `PostgresUpsert.UnwrittenIff` | internal/connector/destination/postgres.go:453-478 | whatever the table, a row is not written iff it has no columns or is to be merged without a match column that is configured and carried |
| `PostgresBatch.Destination.ExecRow` | internal/connector/destination/postgres.go:674-681 | the statement of one row does what the row asks for, or leaves the table as it was |
| `PostgresBatch.Destination.WriteSingleRow` | internal/connector/destination/postgres.go:453-478 | one row is loaded or reported, and the table is the one of writing it |
| `PostgresBatch.Destination.ExecChunk` | internal/connector/destination/postgres.go:528-553 | a chunk without repeated keys writes its rows in order, or is refused as a whole |
| `PostgresBatch.Destination.Flush` | internal/connector/destination/postgres.go:528-562 | a chunk, with the per-row fallback when refused: each row lands or fails once |
| `PostgresBatch.Destination.WriteGroup` | internal/connector/destination/postgres.go:510-586 | cuts a group at repeated keys and at the row and parameter limits; every statement is runnable |
| `PostgresBatch.Destination.GroupRows` | internal/connector/destination/postgres.go:489-508 | groups rows by column set in order of first appearance, losing none |
| `PostgresBatch.Destination.ChunkedWrite` | internal/connector/destination/postgres.go:484-586 | the table of writing the pending rows one at a time, and one outcome for every row |
| `PostgresBatch.ChunkFits` | internal/connector/destination/postgres.go:518-524 | rows times columns stays within 65000 parameters (for at most 65000 columns) and rows within 1000 |
| `PostgresBatch.Destination.CheckDelivered` | internal/connector/destination/postgres.go:395-430 | delivered rows are skipped, the others kept in order |
| `PostgresBatch.ToWriteMeans` | internal/connector/destination/postgres.go:395-430 | what is still to be written: in order, the rows not delivered, or all of them when appending |
| `PostgresBatch.Destination.InsertBatch` | internal/connector/destination/postgres.go:395-449 | a whole batch: each row skipped, loaded or reported once; the ids of the loaded rows and no others are marked delivered; the table is the one of writing the pending rows in order; no statement repeats a key or exceeds the limits |
| `PostgresScd2.BuildSCD2Close` | internal/connector/destination/postgres.go:286-313 | the generated UPDATE compares exactly the key columns and the non-key columns of the row |
| `PostgresScd2.BuildSCD2Insert` | internal/connector/destination/postgres.go:317-341 | the generated INSERT carries exactly the written columns of the row and its key |
| `PostgresScd2.StatementsAreLoadOne` | internal/connector/destination/postgres.go:206-273 | the two statements of one transaction close the superseded version and insert the new one, nothing else |
| `PostgresScd2.HistoryOnlyGrows` | internal/connector/destination/postgres.go:286-341 | versions only get closed, closed ones never change, at most one is added, at the end |
| `PostgresScd2.ExactlyOneCurrent` | internal/connector/destination/postgres.go:206-341 | a load of a keyed row leaves exactly one current version of its entity, which says what the row says |
| `PostgresScd2.OneCurrentKept` | internal/connector/destination/postgres.go:206-341 | every load keeps at most one current version per non-null key |
| `PostgresScd2.TemporalKept` | internal/connector/destination/postgres.go:206-341 | every load keeps the temporal chain: each version ends exactly when the next of its entity begins, and the last is current |
| `PostgresScd2.RunKeepsTemporal` | internal/connector/destination/postgres.go:206-273 | the same over every run of loads |
| `PostgresScd2.UnchangedIff` | internal/connector/destination/postgres.go:300-311 | a load changes nothing iff the row has a non-key column and the current version already says what it says; key-only rows always close and reinsert |
| `PostgresScd2.LastLoadWins` | internal/connector/destination/postgres.go:206-273 | after any run, the only current version of an entity says what its last loaded row said |
| `PostgresScd2.TimeTravel` | internal/connector/destination/postgres.go:286-341 | asked for any time, the final table shows exactly the versions that were current then |
| `PostgresScd2.Destination.Transact` | internal/connector/destination/postgres.go:237-265 | one transaction per row: committed loads change the table as specified, every failure leaves it alone (a commit that fails may have been applied) |
| `PostgresScd2.Destination.Scd2Batch` | internal/connector/destination/postgres.go:206-273 | a batch: the table is the fold of the committed loads in the order of their times; each row skipped, loaded or reported once; without failures the loads are the pending rows |
| `PostgresScd2.PendingOnce` | internal/connector/destination/postgres.go:206-273 | the rows a batch loads: no id twice or again, and only rows with columns to write |
| `PostgresScd2.PendingReached` | internal/connector/destination/postgres.go:206-273 | every undelivered row with columns to write has its id loaded, by itself or by an earlier row |
| `DeliveryLog.SqliteStore.IsDelivered` | internal/state/sqlite.go:434-449 | answers from the batch buffer first, then from the log |
| `DeliveryLog.SqliteStore.MarkDelivered` | internal/state/sqlite.go:451-470 | in a batch marking fills the buffer once per key and cannot fail; outside it writes the log |
| `DeliveryLog.SqliteStore.BeginBatch` | internal/state/sqlite.go:472-478 | an empty buffer; the log is untouched |
| `DeliveryLog.SqliteStore.CommitBatch` | internal/state/sqlite.go:480-508 | the log gains the whole buffer or, on failure, all or nothing of it; the buffer is gone either way |
| `DeliveryLog.SqliteStore.RollbackBatch` | internal/state/sqlite.go:510-516 | the buffer is dropped, the log untouched |
| `DeliveryLog.RestDestination.Check` | internal/connector/destination/restapi.go:97-116 | the check phase: undelivered rows are kept, the others skipped or reported |
| `DeliveryLog.RestDestination.SendAll` | internal/connector/destination/restapi.go:118-165 | the send phase in any order: what was reported accepted is what was marked, once per pending row |
| `DeliveryLog.RestDestination.Load` | internal/connector/destination/restapi.go:88-171 | check, then send: only undelivered keys are sent, every row is loaded, skipped or reported unless cancelled; with a store and an endpoint that never fail, a key is reported accepted twice iff it is twice among the undelivered ones |
| `DeliveryLog.RepeatedKeyIsSentTwice` | internal/connector/destination/restapi.go:97-164 | two rows of one load with one new key both stay in what has to be sent |
| `DeliveryLog.RepeatsIff` | internal/connector/destination/restapi.go:97-164 | what a load has to send is free of repetition iff no key that is neither logged nor buffered is named twice |
| `DeliveryProtocol.Conservation` | internal/connector/destination/restapi.go:97-164 | over every history with aborts, commits, failed commits and crashes: each send reported accepted is logged, buffered, in flight or lost, exactly one of these |
| `DeliveryProtocol.SentAtMost` | internal/state/sqlite.go:434-516 | an operation is reported accepted at most once more than runs lost their batch |
| `DeliveryProtocol.BoundIsReached` | internal/state/sqlite.go:480-516 | the bound is sharp: for every n a history with n lost runs and n+1 sends |
| `DeliveryProtocol.NoLossExactlyOnce` | internal/state/sqlite.go:434-516 | without lost batches nothing is sent twice, and between runs the log is exactly what was sent |
| `DeliveryProtocol.LoggedWasSent` | internal/state/sqlite.go:434-516 | the log holds only keys whose send was reported accepted |
| `DeliveryProtocol.AbortDiscardsNothing` | internal/engine/run.go:309-339 | a gate that stops a run rolls back an empty batch |
| `DeliveryLog.Engine.Run` | internal/engine/run.go:136-486 | a run of gates, loads and commit follows the protocol; only a failed commit loses anything; a gate leaves no trace |
| `DeliveryLog.Engine.Restart` | internal/state/sqlite.go:25-40 | after a crash a new process goes on with the committed log only |
| `RunLock.OwnedKeptIff` | internal/state/sqlite.go:531-560 | a step of any interleaving keeps “every running process owns its lock row” iff it does not delete the row of a running process |
| `RunLock.MutualExclusion` | internal/state/sqlite.go:531-560 | if every process is done before its lock expires, no two run the same sync together, over all interleavings of clock reading, cleanup, insert, unlock, tick and crash |
| `RunLock.AttemptSucceedsIff` | internal/state/sqlite.go:531-555 | an undisturbed attempt succeeds iff there is no lock or it has expired |
| `RunLock.CrashedLockIsTaken` | internal/state/sqlite.go:531-555 | the lock of a crashed process can be taken once it has expired, and not before |
| `RunLock.OutlivingBreaksExclusion` | internal/state/sqlite.go:557-560 | a second process gets in beside a holder iff the holder outlived its lock, and the holder’s unlock then removes the other’s row |
| `RunLock.OutlivingHappens` | internal/engine/run.go:112-116 | such a holder is reachable from an empty store |
| `RunLock.SqliteLocks.LockRun` | internal/state/sqlite.go:531-555 | the three statements run undisturbed are one attempt |
| `RunLock.SqliteLocks.UnlockRun` | internal/state/sqlite.go:557-560 | deletes by sync name, whoever owns the row |
| `EntityListing.SaveMovesToFront` | internal/state/sqlite.go:195-242 | a save with a later stamp moves its entity to the front of the newest-first listing and leaves everything behind it in place |
| `EntityListing.ListingUnique` | internal/state/sqlite.go:229-242 | a newest-first listing of distinct stamps is unique |
| `MissingSweep.EntityStore.ListEntityStates` | internal/state/sqlite.go:229-275 | a page is the slice of the listing that LIMIT and OFFSET name, with the states of that moment |
| `MissingSweep.EntityStore.SaveEntityState` | internal/state/sqlite.go:195-227 | a save replaces one row and stamps it later than every other |
| `MissingSweep.EachTreatedOnce` | internal/engine/run.go:524-637 | every stored entity is treated once, on its state before the sweep: counter plus one, or zero with the delete decision; seen ones stay |
| `MissingSweep.CompleteSweep` | internal/engine/run.go:524-637 | after a complete sweep any stored entity: seen ones as before, the others with counter plus one, or zero with the delete decision; below the threshold only the counter changes, at it an unlimited allowed delete always happens |
| `MissingSweep.TreatedAs` | internal/engine/run.go:524-630 | from configuration, stored states and seen entities alone: what a complete sweep does to any entity and how often it requests its delete and its clearing: nothing, only the counter, cleared once, or deleted once, and which of these |
| `MissingSweep.DeletesLimited` | internal/engine/run.go:546-590 | successful deletes never pass the limit and never exceed the requests; without the opt-in no delete is requested |
| `MissingSweep.DeletedEveryThreshold` | internal/engine/run.go:519-546 | with deletion allowed, the delete of an absent entity is decided in exactly every sweep whose number the threshold divides |
| `MissingSweep.CountedForever` | internal/engine/run.go:541-560 | otherwise its counter is the number of sweeps it was away |
| `MissingSweep.SweepsOfAbsent` | internal/engine/run.go:508-638 | after any sequence of complete, saved sweeps without a delete limit, an entity that none of them saw is what its own history of absences makes it (this carries the two rows above over to sweeps) |
| `MissingSweep.Sweep.Act` | internal/engine/run.go:547-626 | the on-missing action with its guards, requests and counter |
| `MissingSweep.Sweep.VisitOne` | internal/engine/run.go:536-630 | one entity of a page becomes what the specification says |
| `MissingSweep.Sweep.ProcessMissing` | internal/engine/run.go:508-638 | the paging loop ends and, when no listing fails, visits every stored entity exactly once although its own saves reorder the listing |
| `Diff.Compute` | internal/diff/diff.go:18-34 | both loops together report exactly the fields that are new, gone or print differently, with both values |
| `Diff.CheckOnlyContains` | internal/diff/diff.go:49-59 | same number of fields and every listed one changed |
| `Diff.OnlyContainsMeans` | internal/diff/diff.go:49-59 | the check means “exactly these fields changed” precisely for lists without repetition |
| `Diff.RepetitionPasses` | internal/diff/diff.go:49-59 | a repeated name passes although another field changed |
| `Decision.TransitionMeans` | internal/diff/diff.go:63-71 | a transition between two payloads: the field changed, printed the first value before and prints the second now |
| `Decision.OnlyChangedMeans` | internal/diff/diff.go:49-59 | a list without repetition asks for exactly its fields to differ between two payloads |
| `Decision.FirstPartDecides` | internal/decision/predicates.go:22-45 | of the parts of a predicate the first that is present decides, in the order of the code, and what each of them says |
| `Decision.AnyMeans` | internal/decision/predicates.go:47-58 | the early-return loop is the disjunction over the entries that are there |
| `Decision.AllMeans` | internal/decision/predicates.go:60-74 | the early-return loop is the conjunction over the entries that are there |
| `Decision.StillMeans` | internal/decision/predicates.go:22-83 | what a predicate says about a known, unchanged entity, read off its structure alone |
| `Decision.PlainNeverHoldsStill` | internal/decision/predicates.go:22-83 | a predicate without negation and without an `all` of missing entries only never holds for an unchanged entity |
| `Decision.Evaluate` | internal/decision/engine.go:18-70 | the loop returns the plan of the first rule that has not fired and matches, the default when none does, an error iff the store failed for a rule that was reached |
| `Decision.PlanMeans` | internal/decision/engine.go:40-70 | the plan: action or default or skip, the name of the rule, and the remembered values with the time for `now()` |
| `Decision.TriggeredHadNotFired` | internal/decision/engine.go:29-39 | a once-rule decides only after the store answered that it had not fired |
| `Decision.StillGetsDefault` | internal/decision/engine.go:60-69 | an unchanged entity gets the default when no rule holds still |
| `Decision.Trace` | internal/decision/trace.go:23-76 | an entry for every rule with its outcome; succeeds iff the store answers for all rules |
| `Decision.TraceRefinesEvaluate` | internal/decision/trace.go:20-22 | a successful trace has the plan of the evaluation; it fails beside a successful evaluation iff the store fails behind the deciding rule |
| `Decision.TraceFailsAlone` | internal/decision/trace.go:20-45 | two concrete rules: the first decides, the lookup for the second fails, and only the trace fails |
| `Decision.OneWinner` | internal/decision/trace.go:54-65 | at most one entry is the winner: the first matched one |
| `Safety.Allow` | internal/safety/safety.go:30-46 | allowed iff the limit of the action’s kind is off or not reached |
| `Safety.Record` | internal/safety/safety.go:92-101 | counts the action’s kind and nothing else |
| `Safety.CheckFieldRatios` | internal/safety/safety.go:50-63 | passes iff no configured field changed in more than its share of the rows |
| `Safety.ApprovalRequired` | internal/safety/safety.go:67-89 | needed iff the total is over the threshold or an action that needs approval is pending |
| `Safety.ApprovalIsMonotone` | internal/safety/safety.go:67-89 | what needs approval still needs it with more of the same |
| `EngineRun.ApplyMapping` | internal/engine/run.go:711-727 | a destination field is there iff an entry feeds it from a source field that is there, and holds the source value of the last such entry; without a mapping the row itself |
| `EngineRun.Engine.Decide` | internal/engine/run.go:207-297 | one row: skipped, errored or pending, with key, fingerprint, difference and plan as specified; each firing lookup fails or answers by itself |
| `EngineRun.Engine.DecideRows` | internal/engine/run.go:196-297 | the first loop is the fold of the decisions; nothing is written |
| `EngineRun.Engine.Succeed` | internal/engine/run.go:424-465 | after a success the new state is saved, once-rules are marked, the action is counted |
| `EngineRun.Engine.SaveFailures` | internal/engine/run.go:402-417 | every reported row error counts once and saves the failed state |
| `EngineRun.Engine.Deliver` | internal/engine/run.go:351-465 | one delivery, every branch: limit, no destination, load error, already delivered, row errors, success |
| `EngineRun.Engine.DeliverRows` | internal/engine/run.go:347-466 | the second loop is the fold of the deliveries, stopping when cancelled |
| `EngineRun.Engine.RunOnce` | internal/engine/run.go:82-471 | a run: decide, pass the gates or stop with nothing sent and nothing written, deliver |
| `EngineSpec.DeliveriesAccounted` | internal/engine/run.go:347-466 | loaded, skipped and errored rows are the deliveries plus what loads report beyond one outcome |
| `EngineSpec.RowsAreConserved` | internal/engine/run.go:196-471 | every extracted row is loaded, skipped or errored exactly once when loads give one outcome; a stopped run leaves exactly the rest uncounted |
| `EngineLaws.RowMeans` | internal/engine/run.go:198-297 | what becomes of a row: incomplete or without a key it is skipped before the store is asked, a store failure is an error, the rules decide about the others |
| `EngineLaws.RowsCounted` | internal/engine/run.go:196-297 | skipped, errored and pending rows are counted as what they are |
| `EngineLaws.SeenMeans` | internal/engine/run.go:220-232 | the seen entities are those of the rows |
| `EngineLaws.PendingCounted` | internal/safety/safety.go:92-101 | pending creates with upserts, updates, and deletes are counted by kind |
| `EngineLaws.ChangesCounted` | internal/engine/run.go:280-297 | each field is counted in the decided deliveries that change it |
| `EngineLaws.RatioGate` | internal/safety/safety.go:50-63 | the ratio gate holds a run back iff some field changes in more decided deliveries than its share of the extracted rows |
| `EngineLaws.DeliveriesCounted` | internal/engine/run.go:347-466 | when loads give one outcome: made deliveries are loaded, refused ones errored, held back or repeated ones skipped |
| `EngineLaws.ChainStores` | internal/engine/run.go:730-764 | over a chain of saves the version counts them, and payload, fingerprint and their previous ones are those of the last two |
| `EngineLaws.ChainRemembers` | internal/engine/run.go:738-746 | over a chain of saves every remembered name has the value of the last delivery that remembers it |
| `EngineSpec.CountsAreDeliveries` | internal/engine/run.go:465-471 | creates plus updates plus deletes is the number of loaded rows |
| `EngineSpec.CountsAreBounded` | internal/safety/safety.go:30-46 | per kind the delivery loop delivers no more than the limit allows and than was pending (for the run with its sweep see WholeRuns) |
| `EngineSpec.NothingUnapproved` | internal/engine/run.go:319-339 | after the gates passed without approval, the delivery loop never delivers what would need approval, wherever it stops (the sweep is not gated, see WholeRuns) |
| `WholeRuns.KeepsDeleteLimitIff` | internal/engine/run.go:319-590 | delivery loop and sweep together: with a delete limit L, every possible run over an extraction deletes at most L iff a gate stops it or min(L, pending deletes) + min(L, due absent entities) is at most L |
| `WholeRuns.KeepsApprovalIff` | internal/engine/run.go:319-590 | without approval, no possible run over an extraction delivers, sweep included, what would need approval iff a gate stops it, or no delete is due or deletes do not always need approval, and the most that can be delivered is within the threshold |
| `WholeRuns.AtMostMost` | internal/engine/run.go:345-590 | no run, whatever its loads, saves and listings, delivers more of any kind than the most computed before it |
| `WholeRuns.MostHappens` | internal/engine/run.go:345-590 | some run delivers exactly that |
| `WholeRuns.DeleteRequestedIff` | internal/engine/run.go:508-590 | a sweep of the whole listing requests a delete iff one is due, whatever approval is configured |
| `WholeRuns.UnapprovedDelete` | internal/engine/run.go:319-339 | deletes always need approval, nothing is extracted, one entity is stored: the gates pass without approval and the sweep requests its delete |
| `WholeRuns.LimitPassedTwice` | internal/engine/run.go:519-590 | a limit of one, one row to delete and one absent entity: two deletes in one run |
| `EngineRuns.DeliveredStates` | internal/engine/run.go:424-446 | when everything pending was delivered and saved the store holds each entity’s new state |
| `EngineRuns.SecondRunIsQuiet` | internal/engine/run.go:196-466 | convergence: a second run over the same rows skips all, loads nothing and leaves the store alone |
| `EngineRuns.PlainRulesSettle` | internal/decision/predicates.go:22-83 | rules without negation and empty `all` meet the condition of convergence |
| `EngineRuns.HoldingStillNeverSettles` | internal/decision/predicates.go:76-80 | with a rule that holds for unchanged entities as the only one, an unchanged entity is decided on again |
| `EngineReruns.DecidedInEveryRun` | internal/engine/run.go:196-466 | such an entity is decided on again in every run while its row stays as it is, over any history of runs, whatever becomes of the deliveries |
| `EngineRuns.OnceRulesFireOnce` | internal/engine/run.go:448-454 | over any sequence of runs with distinct entities whose firing marks are kept, a once-rule triggers at most one successful delivery of an entity, exactly when the pair becomes marked |
| `EngineRuns.RepeatedEntityFiresTwice` | internal/engine/run.go:347-454 | two rows of one entity that both decide by a rule count as two of its deliveries |
| `EngineOnce.NeverTwiceIff` | internal/engine/run.go:196-466 | for given rows: no settings, store, readings or failures make a once-rule trigger two successful deliveries of one entity in the run, iff no entity has two rows |
| `EngineOnce.WelcomedTwice` | internal/engine/run.go:347-454 | a concrete once-rule and two rows of one new entity: it is delivered twice |
| `EngineReruns.SavedIsSkipped` | internal/engine/run.go:385-446 | an entity saved for what the row says is skipped whatever the saved status, failed included |
| `EngineReruns.DecidedAgainIff` | internal/engine/run.go:347-466 | a delivery decided on in one run is decided on in the next iff no state was saved for it (and a firing mark kept all the same does not silence its rule): failed loads, limits, skips by the destination and successes alike |
| `EngineReruns.MarkedThoughIff` | internal/engine/run.go:424-454 | the corner of kept marks without a saved state: the row is decided on iff the first rule that applies and is not a once-rule of a triggered name asks for a delivery |
| `EngineReruns.SecondRunRow` | internal/engine/run.go:196-466 | the same for whole runs wherever they stop: rows skipped stay skipped, rows not got to are decided on, the others iff still owed |
| `EngineReruns.FailedIsNotRetried` | internal/engine/run.go:385-394 | a new entity whose load fails is skipped by the next run (`SampleRow` is one) |
| `EntityHistory.RunCounts` | internal/engine/run.go:136-638 | one run with its sweep moves the stored counter of an entity by its event: stopped or cancelled, away, skipped, or saved |
| `EntityHistory.HistoryCounts` | internal/engine/run.go:136-638 | over any history of runs with their sweeps, without a delete limit, the stored counter is the count of the events |
| `EntityHistory.CounterIsAways` | internal/engine/run.go:424-546 | the counter is the number of absences since the last save or delete |
| `EntityHistory.CounterIsStreakIff` | internal/engine/run.go:424-546 | it is the streak of absences the entity is in iff, since then, the entity did not come back after an absence without being saved |
| `EntityHistory.DeletedAfterOneAbsence` | internal/engine/run.go:524-560 | threshold two: away, back but skipped, away: the delete is decided after a streak of one |
| `EntityHistory.SeenThenDeleted` | internal/engine/run.go:136-638 | the same as three runs of the engine with their sweeps: the entity is extracted in the second and deleted in the third |
| `EntityHistory.DryRunSweeps` | internal/engine/run.go:508-638 | a dry run delivers nothing to the store, yet its sweep moves the counter of an absent entity as a real run does |
| `EntityHistory.DryRunKeepsStatesIff` | internal/engine/run.go:508-638 | a dry run leaves the states as they are iff it does not sweep or has extracted every stored entity but those it would delete again at once (with a delete limit: only if) |
| `EntityHistory.DryRunCountsAway` | docs/state-model.md:27 | a concrete dry run that writes: nothing extracted, one entity stored, its counter goes from zero to one |
| `SweepLog.LoadsAreRequests` | internal/engine/run.go:567-604 | the loads of the model are the requests of the sweep, in order |
| `SweepLog.LostIff` | internal/engine/run.go:567-604 | over any sweeps with anything in between: a destination with a delivery log loses an entity in a sweep iff that asks for its delete and no earlier one asked for a delete or clearing of it; so at most once |
| `SweepLog.SecondDeleteIsSkipped` | internal/engine/run.go:567-594 | deleted, back, and gone again: the state records a second delete and the destination keeps the entity |
| `Redelivery.HeldIff` | internal/engine/run.go:347-465 | after a run that tried to deliver an entity, a destination with a delivery log holds what was decided iff that operation was not logged before or is the last one accepted for the entity |
| `Redelivery.StuckForEver` | internal/engine/run.go:359-383 | a row that asks for a logged operation while another is held stays so over every further history of runs: decided on each time, never delivered |
| `Redelivery.ThereAndBack` | internal/engine/run.go:359-383 | a payload, another one, the first again, with no failure anywhere: the third run is stuck and the destination keeps the second payload (`SamplePayloads` are two such) |
| `Extraction.PostgresSource.ExtractNumeric` | internal/connector/source/postgres.go:236-307 | the paging loop emits the pages and returns the cursor of the last row out; a failure leaves a prefix |
| `Extraction.PagingIsExact` | internal/connector/source/postgres.go:236-307 | with unique cursors exactly the first rows above the cursor up to the limit, for any batch size |
| `Extraction.ResumeIsSum` | internal/connector/source/postgres.go:236-307 | resuming from the returned cursor with a second limit is one call with the summed limit |
| `Extraction.CompleteIff` | internal/connector/source/postgres.go:250-306 | an extraction without a limit loses nothing iff no full page ends between rows of one cursor |
| `Extraction.EmittedIff` | internal/connector/source/postgres.go:236-307 | when cursors may repeat, with or without a limit: a call emits exactly the rows asked for iff, among them, no full page ends between rows of one cursor |
| `Extraction.ResumedIff` | internal/connector/source/postgres.go:236-307 | a limited call and its resumption emit exactly the rows of both limits iff no page of either, nor the boundary between them, falls between rows of one cursor |
| `Extraction.RepeatedCursorIsLost` | internal/connector/source/postgres.go:250-306 | two rows with one cursor, pages of one row: the second is lost |
| `Extraction.SplitRange` | internal/connector/source/postgres.go:476-490 | the loop computes the ranges of 64-bit arithmetic |
| `Extraction.NoOverflow` | internal/connector/source/postgres.go:476-490 | when the number of keys and max plus parallelism fit, nothing wraps |
| `Extraction.ExactlyOneRange` | internal/connector/source/postgres.go:476-490 | then every key from min to max is in exactly one range, the forced range size of one included (sufficient) |
| `Extraction.SplitsExactlyIff` | internal/connector/source/postgres.go:476-490 | the exact condition, for all 64-bit bounds with min below max and every 64-bit number of ranges: each key is in exactly one range unless there are more ranges than keys and the last start wraps, or the span does not fit and a range reaches the smallest 64-bit value exactly |
| `Extraction.OverflowOverlaps` | internal/connector/source/postgres.go:476-480 | a span beyond 64 bits can put every key into both ranges |
| `Extraction.TopKeysReadTwice` | internal/connector/source/postgres.go:476-490 | two keys at the very top split five ways are both in two ranges: nothing is wide here |
| `HttpCircuitBreaker.NewCircuitBreaker` | internal/connector/http/circuitbreaker.go:36-49 | no breaker iff the threshold is zero; a cooldown of zero or less becomes thirty seconds |
| `HttpCircuitBreaker.CircuitBreaker.Allow` | internal/connector/http/circuitbreaker.go:52-82 | the object, its fields and inner lock, does one step of the protocol and grants what that grants |
| `HttpCircuitBreaker.CircuitBreaker.RecordSuccess` | internal/connector/http/circuitbreaker.go:85-101 | likewise for a success |
| `HttpCircuitBreaker.CircuitBreaker.RecordFailure` | internal/connector/http/circuitbreaker.go:104-127 | likewise for a failure |
| `BreakerProtocol.AlwaysSound` | internal/connector/http/circuitbreaker.go:52-153 | over every trace: half-open iff a probe is in flight iff the lock is held; closed means fewer failures than the threshold |
| `BreakerProtocol.OpensIff` | internal/connector/http/circuitbreaker.go:104-127 | a closed breaker opens exactly at the failure that makes `threshold` in a row without a success |
| `BreakerProtocol.GrantsWaitForCooldown` | internal/connector/http/circuitbreaker.go:62-68 | outside closed a request is granted only when every recorded failure is a cooldown ago |
| `BreakerProtocol.GrantsAreSeparated` | internal/connector/http/circuitbreaker.go:70-78 | between two requests granted outside closed a result was recorded |
| `BreakerProtocol.StateIff` | internal/connector/http/circuitbreaker.go:52-127 | the state after any trace, read off the trace: closed iff nothing tripped it or it recovered since, half-open iff not and a request was let through since the last failure |
| `BreakerProtocol.GrantedIff` | internal/connector/http/circuitbreaker.go:52-82 | a request is granted iff requests are free, or the last failure is a cooldown ago and none was let through since |
| `BreakerProtocol.SuccessCloses` | internal/connector/http/circuitbreaker.go:85-101 | a success recorded while half-open leaves a breaker as good as new |
| `BreakerProtocol.FreeUntilStreak` | internal/connector/http/circuitbreaker.go:52-127 | from closed on every request is granted until `threshold` failures in a row |

## Left out

- ExprParser.ParseExpr: does not model error messages or where in the input an error is found; a rejected condition is `None`.
- ExprRoundTrip.RoundTrip: keeps numerals as text; that a float64 prints and parses back to itself is not modelled.
- ExprRoundTrip.CompiledIffPrintable: is about trees with numerals as text, for the same reason.
- ExprEval.ExactlyOneOrder: compares integers exactly, for the reason given for NegatedComparison.
- ExprEval.NegatedComparison: compares numbers exactly; rounding of large integers to float64 is not modelled, nor are float leaves in records.
- Fingerprint.Of: stops at the bytes that are hashed; SHA-256, floats and invalid UTF-8 are not modelled.
- FlattenOrder.OneResultWhen: goes one way; where a map can be overwritten, the results may still agree, because what overwrites it brings the same leaves (`LostWithoutHarm`). `OneResultIff` is exact elsewhere.
- SqlInsert.Db.Exec: decides acceptance by the incoming record; a constraint that only the merged row breaks is not represented.
- PostgresUpsert.SortKeeps: models the stable sort of the library as insertion; it is that sort when the keys of a batch are of one type, where the comparison is a strict weak order.
- PostgresBatch.Destination.InsertBatch: leaves out context cancellation between statements.
- PostgresScd2.Destination.Scd2Batch: leaves out context cancellation, and takes the match columns as already split and trimmed.
- PostgresScd2.TemporalKept: asks that no key column carries the prefix of the history columns, which the statements do not write.
- DeliveryLog.RestDestination.Load: orders the parallel sends row by row; interleavings inside one row's send and mark are not modelled.
- DeliveryLog.RestDestination.SendAll: takes the send and the mark of a row as one step, and a send that is not reported accepted as not received, although a retried or cancelled request may have reached the endpoint.
- DeliveryLog.Engine.Run: takes the operation keys as opaque, and the gates as one Boolean (they are in `EngineRun.Engine.RunOnce`).
- DeliveryLog.Engine.Restart: restarts the object between calls; a crash inside a send is a step of `DeliveryProtocol` only.
- Redelivery.HeldIff: takes the log as one that never fails and never loses a batch, and each load as taking one row; failures of both are in `DeliveryLog`.
- RunLock.MutualExclusion: has no heartbeat step, since the engine does not call it; a database error ends an attempt as a crash does.
- MissingSweep.EntityStore.SaveEntityState: takes every save to be stamped later than the ones before; two saves with equal clock readings, whose order in the listing the query leaves open, are excluded.
- EntityHistory.HistoryCounts: is about runs with an on-missing action whose sweeps, unless cancelled, list every entity, save, and have no delete limit; failures and limits of one sweep are in `MissingSweep.Sweep.ProcessMissing` and `WholeRuns`.
- EntityHistory.DryRunKeepsStatesIff: leaves out the time stamp of a saved state; with a delete limit it goes one way, since what is deleted then depends on the loads.
- SweepLog.LostIff: takes the log as one that never fails and never loses a batch.
- MissingSweep.Sweep.Act: takes a clearing as one request; the payload it sends, the stored one with the listed fields null, is not modelled.
- MissingSweep.Sweep.ProcessMissing: leaves out the loaded and errored totals of the run, the dead-letter queue and the decision record; the in-memory store, which does not stamp saves, is not covered.
- EngineRun.Engine.Decide: takes payload normalisation of times as done and the printed form of values as any function; reasons of plans are left out.
- EngineRun.Engine.Succeed: leaves out the ids that a destination returns for its rows.
- EngineRun.Engine.RunOnce: does not call the sweep, the batch buffer and the lock, which have their own modules; watermarks, artifacts, metrics, alerts and the first error are left out.
- EngineRuns.SecondRunIsQuiet: asks that the store answers in both runs and that entities are distinct; runs with failures are in `EngineReruns.SecondRunRow`, which still asks the store to answer the readings.
- Safety.CheckFieldRatios: computes ratios exactly instead of in float64.
- Replace strategy with its staging table, COPY loading and schema introspection: separate code paths around SQL features.
- HTTP transports, authentication, rate limiting and retry timing of the destinations and sources.
- Offset paging and custom queries of the source, change data capture, Kafka and webhook sources.
- Template, add and if steps, and the step pipeline around flattening.
- Command line, configuration loading, logging, API server and scheduling.
