# pg_ducklake: the bridge between PostgreSQL and DuckDB, modelled and proved

pg_ducklake runs DuckDB inside PostgreSQL. This project models the code where the two engines meet and
proves what that code promises, in Dafny 4.11. `dafny verify dfyconfig.toml` checks everything.

Each module follows one part of the program.

- **TupleStreams, TableReader, PollOrder, ScanProtocol, ScanProgress, ScanRuns**: a parallel scan. DuckDB threads take batches of
  tuples, under a lock, from the queues of PostgreSQL workers. `TableReader` is the round-robin reader as a
  class over an array that shrinks. `ScanProtocol` is the state machine of the threads: create, call, locked
  read, convert, unregister, emit. `BatchRead` is what the first proves and the second assumes, so the two
  fit together. A run is any interleaving of any number of threads. `Delivers` says in which orders the
  workers' streams can be handed over; the polling loop and the threads reach every one of them, however
  the batches are shared, and however the threads are scheduled they come to an end.
- **Numerics**: the conversion of decimals to and from PostgreSQL's base-10000 digits, first over the
  integers and then at the width of the four machine types. Every step of a method is checked against the
  machine type; a step that would leave it yields `None`.
- **ListAppend**: a multi-dimensional array is flattened into nested offset/length vectors in place.
- **LikePattern, Expressions, ExpressionText, FilterPushdown, FilterOutcome**: filters become SQL text. The text of an
  expression is modelled as tokens, and PostgreSQL's reading of it as an operator-precedence parser; both
  engines have a three-valued evaluator, each with its own text order and case folding.
- **Sorting, OrderPushdown, PushdownComplete, LimitedScan, TopNScan, ScanColumns, EmittedOrder**: ORDER BY
  and Top-N move into the scan query. A plan is given the set of results it may return, because a sort
  leaves ties open and a scan may be read through several workers; DuckDB has one order on values and
  PostgreSQL one for every column, by its type and collation. The rewritten plan must return only results
  the original plan may return, and every sort that can move must have moved. `EmittedOrder` follows a sort key down to the column name in the query text.
- **Transactions, TransactionBlocks**: the command-id scheme that refuses a transaction that writes in both engines, with the
  claims of plans and of DuckDB commands, the set of temporary tables that follows commit and abort, and
  what one transaction leaves to the next.
- **MaintenanceSlots, MaintenanceTxn**: the launcher, the workers and the shared slot table, and the
  transaction around each maintenance operation.
- **InlinedFlush, InlinedHistory, FlushScan**: a flush of inlined rows deletes by position, so it depends on
  the read order, and its read is an ORDER BY query that pushdown may move. What it must leave is given by
  the history of commits that made the table.
- **Star**: the one-pass machine that puts `*` back into a query.
- **Basics**: an option type and three facts that several modules use.

Where the code does not do what it promises, the code is kept as it is, an input shows the failure, and a
condition says exactly when the promise holds:

- Writing a decimal overflows its machine type for some values when its scale is too large. The 16-, 32- and
  64-bit multiplication is unchecked, so the `None` of the model stands for a wrong number there
  (`ScaleSafeIff`).
- Appending an array of three or more dimensions can write past the reserved cells (`ReservedIff`).
- `NOT` on the left, or `IS NULL` on the right, of a comparison is read differently by PostgreSQL
  (`ReadAsIntendedIff`).
- An ORDER BY that moved into the scan is lost when several workers read the scan, because their rows are
  merged as they arrive (`OrderKeepsIff`, `TwoWorkersLoseOrder`); a flush can then bring back an older
  version of a row (`FlushSafeIff`). A Top-N is safe from this: a plan with a limit runs in-process. That an
  ORDER BY read through one worker keeps its order rests on DuckDB handing up rows in the order in which
  they are read, although several of its threads may read even one worker.
- A sort, a Top-N or a comparison of text that moves is decided by the collation of the column, which the
  code never compares with the order DuckDB uses, bytes by default (`OrderKeepsIff`,
  `OtherOrderLosesOrder`, `TopNKeepsIff`, `ComparisonHoldsIff`, `LinguisticOrderLosesRow`).
- A sort over a scan that already has a pushed limit clears that limit (`OrderKeepsIff`, `TopNKeepsIff`).
  The comment in the optimizer says that a stacked ORDER BY still sees the scan; it does not mention that a
  limit is lost.
- A DROP OWNED reaches the drop trigger without the claim that DROP TABLE and DROP VIEW make first, so its
  forced claim hides earlier PostgreSQL writes (`CommitsIff`, `UndetectedIff`).
- A transaction that ends while DuckDB is not initialized leaves the temporary tables and the saved set as
  they are (`AbortRestoresIff`, `CommitSurvivesIff`), and also the expected command id and the forced
  override: a failed CREATE TABLE can make the next block refuse a lone DuckDB write (`ReadyAgainIff`,
  `NextByItselfIff`, `LeftClaimRefuses`).
- A maintenance worker that ends on an error never releases its slot (`LaunchesIff`,
  `LostDatabaseNeverLaunched`, `AllLostStopsMaintenance`).

Three conditions are limits rather than broken promises. Reading a decimal is exact except for digits that
were not stripped, and stored numbers always are (`DecimalExactIff`, `StrippedExact`). An OR filter must
have a child (`OrHoldsIff`). A column must not be scanned twice, or its first use gets no name
(`NameReadsIff`).

Assumptions. A worker's tuple queue answers finitely often before it is done, so a reader that keeps
polling makes progress. A spin lock or the global lock makes the section it protects one step. The answer
of the index lookup, case folding, the orders that the engines give to values, the queries of a maintenance
run and the times at which interrupts or process ends occur are parameters. An order on values is a strict
total order; a collation that holds different strings equal is not modelled.

## Model

| member | source | states |
|---|---|---|
| `TupleStreams.TakenConcat` | libpgduckdb/scan/postgres_table_reader.cpp:326-339 | what two successive reads take from the queues is what one read of both batches takes |
| `TupleStreams.DeliversOne` | libpgduckdb/scan/postgres_table_reader.cpp:374-420 | a single worker's stream is handed over in its own order and in no other |
| `TupleStreams.DeliversBack` | libpgduckdb/scan/postgres_table_reader.cpp:374-420 | of two streams the second one can be handed over first |
| `TableReader.AfterDone` | libpgduckdb/scan/postgres_table_reader.cpp:386-398 | removing a finished reader keeps the round: every reader not yet seen empty is still ahead of the cursor |
| `TableReader.AfterBlocked` | libpgduckdb/scan/postgres_table_reader.cpp:404-416 | when a full round saw only empty queues, a wait follows and every live queue was seen empty since the last wait |
| `TableReader.PostgresTableReader.RemoveReader` | libpgduckdb/scan/postgres_table_reader.cpp:386-398 | the array loses exactly the reader at the cursor, later ones move down, the cursor wraps at the end |
| `TableReader.PostgresTableReader.VisitReader` | libpgduckdb/scan/postgres_table_reader.cpp:374-420 | one poll keeps the round invariant, takes at most one tuple, and otherwise makes progress |
| `TableReader.PostgresTableReader.GetNextWorkerTuple` | libpgduckdb/scan/postgres_table_reader.cpp:374-420 | takes the front tuple of some queue, which one being a function of the answers and the cursor, or none and only when every queue is done; it waits only after every live queue was seen empty since the last wait, with fewer than 2 polls per live reader between waits |
| `TableReader.PostgresTableReader.GetNextMinimalWorkerTuples` | libpgduckdb/scan/postgres_table_reader.cpp:326-339 | a batch holds the next tuples of each worker in order, nothing else is taken, and it is short only when every queue is done |
| `TableReader.PostgresTableReader.Cleanup` | libpgduckdb/scan/postgres_table_reader.cpp:167-204 | after the reader array is freed the reader can be used again if and only if no reader was left |
| `PollOrder.EveryOrderReturned` | libpgduckdb/scan/postgres_table_reader.cpp:374-420 | for all streams and every order they can be handed over in, there are answers of the queues with those rows for which the polling loop returns the tuples in that order |
| `PollOrder.DrainsReady` | libpgduckdb/scan/postgres_table_reader.cpp:374-420 | the tuples that a queue has ready are returned one after the other before another queue is asked |
| `ScanProtocol.NextInv` | libpgduckdb/scan/postgres_scan.cpp:568-642 | every step of every thread keeps: no tuple lost or duplicated, the counter equals the active threads, chunk sizes in bounds |
| `ScanProtocol.OwnersPartition` | libpgduckdb/scan/postgres_scan.cpp:576-642 | the threads partition the tuples that were read |
| `ScanProtocol.ExactlyOnce` | libpgduckdb/scan/postgres_scan.cpp:576-642 | in every run in which all threads finish, the chunks of all threads together hold each worker tuple exactly once, each thread emits what it read in read order, and the reader has been cleaned up |
| `ScanProtocol.NothingLostEver` | libpgduckdb/scan/postgres_scan.cpp:576-642 | at every moment the tuples read are a prefix of each worker's stream and every tuple read is held by its thread |
| `ScanProtocol.CleanupSafe` | libpgduckdb/scan/postgres_scan.cpp:464-498 | the reader is cleaned up at most once, with no active thread and no live queue; afterwards nobody registers and nothing is read |
| `ScanProtocol.ExhaustedAtEnd` | libpgduckdb/scan/postgres_scan.cpp:605-621 | a thread is exhausted only when every queue is done and all its tuples were read |
| `ScanProtocol.OneThreadDelivers` | libpgduckdb/scan/postgres_scan.cpp:605-621 | in every run a single thread hands over the streams of the workers, each in its own order, interleaved somehow |
| `ScanProgress.WorkDecreases` | libpgduckdb/scan/postgres_scan.cpp:576-642 | whatever the threads do and in whatever order, every step of a thread decreases one measure, so that no schedule goes on for ever |
| `ScanProgress.CanWork` | libpgduckdb/scan/postgres_scan.cpp:576-642 | a thread that has not finished can always take a step |
| `ScanProgress.AlwaysFinishes` | libpgduckdb/scan/postgres_scan.cpp:576-642 | from every reachable state, with any number of threads at any point, all threads can finish, and no schedule takes more steps than the measure allows |
| `ScanProgress.ReadAtEndExhausts` | libpgduckdb/scan/postgres_scan.cpp:605-621 | in every run a thread that reads when every queue is done reads nothing and is exhausted by that |
| `ScanRuns.EveryShareHappens` | libpgduckdb/scan/postgres_scan.cpp:576-642 | for every number of threads, every order in which the tuples can be read and every assignment of its batches to the threads, some run ends with all threads finished, each having handed over its share |
| `ScanRuns.EveryReadHappens` | libpgduckdb/scan/postgres_scan.cpp:576-642 | every interleaving of the streams, of any length, is handed over by some run of a single thread |
| `Numerics.RepresentsUnique` | libpgduckdb/pgddb_types.cpp:1544-1599 | a digit array stands for at most one scaled integer at its display scale |
| `Numerics.DecimalExactIff` | libpgduckdb/pgddb_types.cpp:1544-1599 | the conversion is exact if and only if there are no digits, the last digit overshoots the scale by at most four places, or the fraction is zero |
| `Numerics.StrippedExact` | libpgduckdb/pgddb_types.cpp:1544-1599 | every stored (stripped) number that is exact at its display scale converts exactly, whatever its weight |
| `Numerics.UnstrippedLosesFraction` | libpgduckdb/pgddb_types.cpp:1578-1593 | 1.5 with an extra trailing zero digit is read as 1.0 |
| `Numerics.StoredInRange` | libpgduckdb/pgddb_types.cpp:1145 | a stored number below 10^width with scale at most width meets the range condition of the conversion and converts to its scaled integer |
| `Numerics.InRangeStaysInside` | libpgduckdb/pgddb_types.cpp:1544-1599 | no intermediate value of the conversion of a number in range leaves the machine type, for all four types |
| `Numerics.ConvertDecimal` | libpgduckdb/pgddb_types.cpp:1544-1599 | the loops succeed if and only if no intermediate value leaves the machine type and no power is missing from its table, as for every number in range, and then yield the value |
| `Numerics.ConvertIntegral` | libpgduckdb/pgddb_types.cpp:1553-1564 | the digits before the point times the power of ten of the scale, if and only if that product fits |
| `Numerics.ConvertFraction` | libpgduckdb/pgddb_types.cpp:1568-1595 | the digits behind the point, scaled at the last one, if and only if every intermediate value fits |
| `Numerics.NumericOfRepresents` | libpgduckdb/pgddb_types.cpp:392-453 | the digits produced for a scaled integer stand for that integer at that scale |
| `Numerics.RoundTrip` | libpgduckdb/pgddb_types.cpp:392-453 | writing and reading is the identity for every integer and every scale |
| `Numerics.ConvertNumeric` | libpgduckdb/pgddb_types.cpp:392-453 | at machine width it succeeds if and only if negation and the alignment of the fraction fit, and then produces exactly those digits |
| `Numerics.SplitDigits` | libpgduckdb/pgddb_types.cpp:422-427 | the digit loop stays within its fixed buffer and yields the base-10000 digits |
| `Numerics.MakeResult` | libpgduckdb/include/pgddb/vendor/pg_numeric_c.hpp:496-598 | stripping zero digits on both ends keeps the value and leaves the stored form |
| `Numerics.WriteAndReadBack` | libpgduckdb/pgddb_types.cpp:392-453 | for every value below 10^width, writing, storing and reading at machine width gives the value back if and only if the aligned fraction fits |
| `Numerics.ScaleSafeIff` | libpgduckdb/pgddb_types.cpp:429-434 | every value of a type can be written if and only if the scale is at most 4, 8, 16 or 36 |
| `Numerics.UnsafeScaleWitness` | libpgduckdb/pgddb_types.cpp:433 | for every larger scale one half cannot be written |
| `ListAppend.PreviousIsCount` | libpgduckdb/pgddb_types.cpp:1647 | with leading extents of one, the previous extent is the number of lists on a level |
| `ListAppend.ReservedIff` | libpgduckdb/pgddb_types.cpp:1646-1666 | the reserved cells never exceed the elements, and equal them if and only if all extents but the last two are one |
| `ListAppend.CubeWritesPastEnd` | libpgduckdb/pgddb_types.cpp:1646-1687 | a 2x2x2 array reserves four cells for eight elements |
| `ListAppend.OldItemsKept` | libpgduckdb/pgddb_types.cpp:1620-1691 | however far an append got, items that were in the vectors before read as before, on every level |
| `ListAppend.NewItemsRead` | libpgduckdb/pgddb_types.cpp:1620-1691 | every list written on a level reads as its sub-array in row-major order |
| `ListAppend.ReadBack` | libpgduckdb/pgddb_types.cpp:1620-1691 | the written row reads as the nested array with its nulls, every other row as before |
| `ListAppend.EmptyReadBack` | libpgduckdb/pgddb_types.cpp:1667-1672 | an array without dimensions reads as the empty list, other rows as before |
| `ListAppend.ListColumn.AddDimensions` | libpgduckdb/pgddb_types.cpp:1644-1666 | the descent writes the lists of every level it reaches and fails exactly when the column is not that deep |
| `ListAppend.ListColumn.WriteCells` | libpgduckdb/pgddb_types.cpp:1679-1687 | the elements fill the reserved cells in order, and it succeeds exactly when they fit |
| `ListAppend.ListColumn.AppendList` | libpgduckdb/pgddb_types.cpp:1620-1691 | an array is appended if and only if it is empty or has as many dimensions as the column is deep and leading extents of one, and each error has its exact condition; whatever the outcome no other row changes, and when appended the row reads back as the array |
| `LikePattern.EscapeIsQuotedLike` | libpgduckdb/scan/postgres_scan.cpp:59-86 | the successive replacements escape every character once for LIKE and double the quotes |
| `LikePattern.QuoteRoundTrip` | libpgduckdb/scan/postgres_scan.cpp:251-256 | reading a quoted string constant gives the string back |
| `LikePattern.LikeLiteralReadsBack` | libpgduckdb/scan/postgres_scan.cpp:59-86 | reading the emitted literal gives the intended pattern |
| `LikePattern.LikeMeansFunction` | libpgduckdb/scan/postgres_scan.cpp:59-86 | for every haystack and needle, LIKE on the emitted pattern holds if and only if the needle is a substring, prefix or suffix |
| `ExpressionText.ParsesAsGrouped` | libpgduckdb/scan/postgres_scan.cpp:136-266 | PostgreSQL reads the emitted text as the expression regrouped by operator precedence, for every expression that is emitted |
| `ExpressionText.ReadAsIntendedIff` | libpgduckdb/scan/postgres_scan.cpp:136-266 | it is read as meant if and only if no comparison has NOT on its left or IS NULL on its right and no AND or OR is empty |
| `ExpressionText.IntendedMeans` | libpgduckdb/scan/postgres_scan.cpp:136-266 | in any one engine the intended SQL has the three-valued result of the DuckDB expression for every column value |
| `ExpressionText.EvalAgrees` | libpgduckdb/scan/postgres_scan.cpp:136-266 | an expression has the same value in two engines that agree on the text order and the case folding it uses |
| `ExpressionText.PushdownKeepsMeaning` | libpgduckdb/scan/postgres_scan.cpp:136-266 | a safe expression keeps its three-valued result through text, parser and evaluation in the other engine, when both agree on the text order and case folding it uses |
| `ExpressionText.BetweenReadIff` | libpgduckdb/scan/postgres_scan.cpp:176-193 | the text of a BETWEEN without nulls is true in PostgreSQL if and only if the value is above the lower and below the upper bound, or on a bound that is inclusive, for all four combinations |
| `ExpressionText.NotOnTheLeftChangesMeaning` | libpgduckdb/scan/postgres_scan.cpp:139-174 | an expression with NOT on the left of a comparison for which PostgreSQL keeps a row DuckDB drops |
| `ExpressionText.IsNullOnTheRightChangesMeaning` | libpgduckdb/scan/postgres_scan.cpp:148-174 | the same for IS NULL on the right |
| `ExpressionText.AcceptedIff` | libpgduckdb/scan/postgres_scan.cpp:136-266 | an expression is accepted if and only if all its nodes have a translation, whatever the column is called |
| `ExpressionText.TextTyped` | libpgduckdb/scan/postgres_scan.cpp:98-100 | over a text column an expression that can be text is accepted as a haystack, and one that is accepted yields text or null |
| `ExpressionText.AcceptanceIgnoresName` | libpgduckdb/scan/postgres_scan.cpp:510-513 | so acceptance with a stand-in name answers for every column name |
| `FilterPushdown.ExtractQueryFilters` | libpgduckdb/scan/postgres_scan.cpp:270-327 | the recursive extraction with its loop computes the clause function that the sandwich is proved about |
| `FilterPushdown.NeverUndefined` | libpgduckdb/scan/postgres_scan.cpp:309-313 | an accepted filter never dereferences a missing translation |
| `FilterPushdown.JoinedTrue` | libpgduckdb/scan/postgres_scan.cpp:285-304 | a joined clause is true when all (AND) or some (OR) of its parts are |
| `FilterPushdown.ComparisonHoldsIff` | libpgduckdb/scan/postgres_scan.cpp:274-279 | a pushed comparison of text keeps the same rows in both engines if and only if their orders agree at its constant |
| `FilterPushdown.LinguisticOrderLosesRow` | libpgduckdb/scan/postgres_scan.cpp:274-279 | the row B and the filter < a: kept in byte order, lost in a linguistic order |
| `FilterPushdown.FullImpliesExtracted` | libpgduckdb/scan/postgres_scan.cpp:270-327 | a row kept by the whole filter is kept by the extracted clause, when the engines agree on its comparisons |
| `FilterPushdown.ExtractedImpliesMandatory` | libpgduckdb/scan/postgres_scan.cpp:270-327 | a row kept by the extracted clause satisfies the filter with optional parts taken as true, when the engines agree on its comparisons |
| `FilterPushdown.WhereSandwich` | libpgduckdb/scan/postgres_scan.cpp:400-416 | both directions for the whole WHERE clause over all filtered columns, each column with its own collation |
| `FilterPushdown.OrHoldsIff` | libpgduckdb/scan/postgres_scan.cpp:285-304 | an OR over well-formed children lets through only rows it keeps, for every row, if and only if it has a child |
| `FilterOutcome.CoveredNeverThrows` | libpgduckdb/scan/postgres_scan.cpp:305-327 | when every filter without a translation lies under an optional filter, no exception is raised, for every column |
| `FilterOutcome.OutcomeIff` | libpgduckdb/scan/postgres_scan.cpp:270-327 | an exception is raised if and only if a filter without a translation lies under no optional filter and is reached; nothing is sent if and only if the tree says nothing in SQL and no exception is raised |
| `FilterOutcome.PassesIff` | libpgduckdb/scan/postgres_scan.cpp:270-327 | PostgreSQL returns exactly the rows that satisfy what can be said of the filter in SQL, optional parts included |
| `FilterOutcome.WhereKeepsIff` | libpgduckdb/scan/postgres_scan.cpp:400-416 | the same for the whole WHERE clause |
| `OrderPushdown.SuffixAgrees` | libpgduckdb/scan/postgres_scan.cpp:46-57 | for every direction and null order, PostgreSQL reads the emitted suffix as the direction DuckDB sorts in, with default_null_order set to postgres |
| `OrderPushdown.FetchedIsSorted` | libpgduckdb/scan/postgres_table_reader.cpp:374-420 | a scan read through one stream hands its rows up in the order of its query |
| `OrderPushdown.StackAllowed` | libpgduckdb/scan/order_pushdown_optimizer.cpp:181-195 | a stack of projections over a scan returns exactly the images of what the scan may fetch |
| `OrderPushdown.ResolvesToValue` | libpgduckdb/scan/order_pushdown_optimizer.cpp:197-228 | the column a key resolves to holds the value the key evaluates to, through any stack of projections |
| `OrderPushdown.SortedThrough` | libpgduckdb/scan/order_pushdown_optimizer.cpp:197-228 | rows sorted by the scan are sorted above the projections, by PostgreSQL's order of values |
| `OrderPushdown.SortedAlike` | libpgduckdb/scan/order_pushdown_optimizer.cpp:45-125 | where both engines order the key columns alike, they are sorted for DuckDB too |
| `OrderPushdown.PushedRefines` | libpgduckdb/scan/order_pushdown_optimizer.cpp:307-313 | where both engines order the key columns alike, sort, offset and limit in the scan return a result the Top-N may return however the scan is run, and for an ORDER BY when one stream is read |
| `OrderPushdown.ClearedRefines` | libpgduckdb/scan/order_pushdown_optimizer.cpp:274-306 | when the sort stays, clearing the order of a scan without limit changes nothing |
| `OrderPushdown.PushdownRefines` | libpgduckdb/scan/order_pushdown_optimizer.cpp:316-327 | for every plan in which no sort finds a limit below it and every sort moves safely, every result of the rewritten plan is a result of the original, over every table, split and interleaving |
| `OrderPushdown.PushableIsSafe` | libpgduckdb/scan/order_pushdown_optimizer.cpp:316-327 | it is enough that no sort stands over a Top-N through projections only, that the engines order the scanned columns alike and, for a plan with an ORDER BY, that a setting keeps scans to one worker |
| `OrderPushdown.BindData.PushdownOneOperator` | libpgduckdb/scan/order_pushdown_optimizer.cpp:230-314 | writing the bind data in place leaves the rewritten plan, moves the sort exactly when all keys resolve and an index supports them, and touches nothing unless the sort stands over a PostgreSQL scan |
| `PushdownComplete.ResolvesIff` | libpgduckdb/scan/order_pushdown_optimizer.cpp:127-228 | a key resolves to a column if and only if it refers to it through projections and the column is a whole column of the table |
| `PushdownComplete.PushesIff` | libpgduckdb/scan/order_pushdown_optimizer.cpp:230-314 | a sort over a scan moves if and only if the scan is a PostgreSQL scan, there is a key, every key refers to a whole column and an index supports that order |
| `PushdownComplete.MovedNamesColumns` | libpgduckdb/scan/order_pushdown_optimizer.cpp:286-313 | a sort that moves leaves a scan that is sorted by the columns its keys refer to, with its limit and offset, and is otherwise unchanged |
| `PushdownComplete.KeptSortClears` | libpgduckdb/scan/order_pushdown_optimizer.cpp:274-306 | a sort that stays clears the order, limit and offset of a PostgreSQL scan below it, and nothing changes when there is no such scan |
| `PushdownComplete.PushdownSortsByWhole` | libpgduckdb/scan/order_pushdown_optimizer.cpp:291-294 | no pushdown, anywhere in any plan, makes a scan sort by a nested or virtual column |
| `PushdownComplete.PushdownLeavesNothing` | libpgduckdb/scan/order_pushdown_optimizer.cpp:316-327 | every sort that can move is gone from the rewritten plan, at every depth, and a second pass changes nothing |
| `LimitedScan.OrderKeepsIff` | libpgduckdb/scan/order_pushdown_optimizer.cpp:230-314 | an ORDER BY over any PostgreSQL scan keeps its meaning for every table, split over workers and interleaving if and only if the scan has no limit and, if the sort moves, both engines order the key columns alike and at most one worker reads it |
| `LimitedScan.OrderKeepsSettingsIff` | libpgduckdb/scan/postgres_table_reader.cpp:211-245 | the same in terms of the settings, the estimated rows, the kind of table and the nodes of the scan plan that decide how many workers read |
| `LimitedScan.TwoWorkersLoseOrder` | libpgduckdb/scan/postgres_table_reader.cpp:211-245 | for every moved ORDER BY that two workers may read and every size from two rows on, a table whose order is lost |
| `LimitedScan.OtherOrderLosesOrder` | libpgduckdb/scan/order_pushdown_optimizer.cpp:45-125 | for every moved ORDER BY with a key column that PostgreSQL orders differently, a table of two rows that comes back in the wrong order |
| `TopNScan.PushedTopNResult` | libpgduckdb/scan/order_pushdown_optimizer.cpp:307-313 | pushed or kept, a Top-N returns a cut of the whole table's output, sorted by PostgreSQL's or by DuckDB's order of values |
| `TopNScan.Lift` | libpgduckdb/scan/order_pushdown_optimizer.cpp:307-313 | every order of the output rows comes from an order of the table in which rows with equal output are in scan order |
| `TopNScan.TopNKeepsIff` | libpgduckdb/scan/order_pushdown_optimizer.cpp:230-314 | a Top-N over any PostgreSQL scan keeps its meaning for every table, however the scan is run, if and only if it asks for no rows, or the scan has no limit and the engines agree on the key columns of a sort that moves, or it stays within a limit without offset whose order it does not contradict, the engines again agreeing unless that limit is one row |
| `TopNScan.PrefixIsCompatible` | libpgduckdb/scan/order_pushdown_optimizer.cpp:230-314 | a sort whose resolved keys begin with the keys of the scan does not contradict its order |
| `ScanColumns.CollectAttributes` | libpgduckdb/scan/postgres_scan.cpp:337-344 | dropped attributes are skipped and the others kept in order |
| `ScanColumns.OrderByAttribute` | libpgduckdb/scan/postgres_scan.cpp:345-351 | the map sends each attribute to the last scanned column that uses it |
| `ScanColumns.ScanColumnNames` | libpgduckdb/scan/postgres_scan.cpp:355-363 | each scanned column has the name of its table column, or none if it is scanned again later |
| `EmittedOrder.NameReadsIff` | libpgduckdb/scan/postgres_scan.cpp:345-363 | the recorded name of a scanned column reads as its value, dropped columns or not, if and only if the column is not scanned again later and holds what the table column holds, as a whole column does and a nested or virtual one need not |
| `EmittedOrder.EmitOrderBy` | libpgduckdb/scan/postgres_scan.cpp:418-432 | the loop writes one key per sort key with its name and suffix, and raises an error exactly when an index is out of range |
| `EmittedOrder.EmittedOrderMeansKeys` | libpgduckdb/scan/postgres_scan.cpp:337-432 | for a scan of different columns every emitted key names the column its sort key evaluates to above any stack of projections, in the same direction |
| `EmittedOrder.ResolvedIsEmitted` | libpgduckdb/scan/postgres_scan.cpp:421-424 | a resolved key never raises the index error |
| `Transactions.CounterInvariant` | pg_duckdb/src/pgduckdb_xact.cpp:56-129 | in every run of a block, DuckDB commands and utility commands included, the command id is the claims plus the PostgreSQL writes, the expected id lags behind it by the writes that are still seen, and a refused run mixes |
| `Transactions.RunsIff` | pg_duckdb/src/pgduckdb_xact.cpp:56-129 | a block runs to its end if and only if none of its statements is refused, which depends on the statements before it only |
| `Transactions.CommitsIff` | pg_duckdb/src/pgduckdb_xact.cpp:235-250 | every block commits if and only if none of its statements is refused and it does not end with a PostgreSQL write that is still seen next to a DuckDB write |
| `Transactions.CommitsUnlessMixes` | pg_duckdb/src/pgduckdb_xact.cpp:235-250 | when no DROP OWNED follows a PostgreSQL write, a block commits if and only if it does not mix; in particular never after writes in both engines |
| `Transactions.SeenIff` | pg_duckdb/src/pgduckdb_ddl.cpp:1402-1659 | a PostgreSQL write is still seen if and only if no DROP OWNED came after it |
| `Transactions.NoFalseAlarm` | pg_duckdb/src/pgduckdb_xact.cpp:76-85 | outside a block or with an override nothing is ever refused |
| `Transactions.UndetectedIff` | pg_duckdb/src/pgduckdb_ddl.cpp:1402-1659 | a block commits with writes in both engines if and only if DuckDB wrote, there were PostgreSQL writes but a DROP OWNED came after all of them, and no statement was refused |
| `Transactions.DropOwnedHidesWrite` | pg_duckdb/src/pgduckdb_ddl.cpp:667-680 | a PostgreSQL write followed by a DROP OWNED of a DuckDB table commits |
| `TransactionBlocks.ReadyAgainIff` | pg_duckdb/src/pgduckdb_xact.cpp:216-262 | every transaction, however it ends, leaves nothing to the next one if and only if DuckDB is initialized at its end or it claimed no id and left no writes forced |
| `TransactionBlocks.NextByItselfIff` | pg_duckdb/src/pgduckdb_xact.cpp:235-262 | the next block commits by its own statements, whatever they are, if and only if nothing is left over |
| `TransactionBlocks.BlocksIndependent` | pg_duckdb/src/pgduckdb_xact.cpp:216-262 | over any sequence of transactions every block without the setting commits exactly when it is asked to, no command of it fails and its own statements allow it, whatever came before |
| `TransactionBlocks.LeftClaimRefuses` | pg_duckdb/src/pgduckdb_ddl.cpp:470-472 | a DuckDB command that fails after its claim, before DuckDB is initialized, makes the next block refuse its first DuckDB write |
| `Transactions.SavedAtStart` | pg_duckdb/src/pgduckdb_xact.cpp:189-209 | the saved set is taken at the first change only and is the set at the start of the transaction |
| `Transactions.TempTablesTransactional` | pg_duckdb/src/pgduckdb_xact.cpp:189-262 | over every sequence of transactions the set holds exactly the changes of the committed ones |
| `Transactions.AbortRestoresIff` | pg_duckdb/src/pgduckdb_xact.cpp:216-262 | an abort restores the set if and only if DuckDB is initialized or nothing changed in the end |
| `Transactions.CommitSurvivesIff` | pg_duckdb/src/pgduckdb_xact.cpp:227-262 | what a transaction commits survives the abort of an empty next one if and only if DuckDB is initialized at its end or nothing changed |
| `Transactions.XactState.ClaimCurrentCommandId` | pg_duckdb/src/pgduckdb_xact.cpp:110-129 | claims the current id, or fails and changes nothing when PostgreSQL wrote in between |
| `Transactions.XactState.RunDuckPlan` | pg_duckdb/src/pgduckdb_hooks.cpp:328-383 | the hooks around a DuckDB plan take the step that the invariant is proved about |
| `Transactions.XactState.RunPostgresWrite` | pg_duckdb/src/pgduckdb_hooks.cpp:256-258 | a PostgreSQL write is refused exactly when DuckDB has written in the block |
| `Transactions.XactState.RunDuckCommand` | pg_duckdb/src/pgduckdb_ddl.cpp:416-432 | the hooks around a DuckDB command take the step that the invariant is proved about: a claim first, then the forced claim over what PostgreSQL changed |
| `Transactions.XactState.RegisterDuckdbTempTable` | pg_duckdb/src/pgduckdb_xact.cpp:193-200 | adds the table, saving the old set on the first change |
| `Transactions.XactState.UnregisterDuckdbTempTable` | pg_duckdb/src/pgduckdb_xact.cpp:202-209 | removes the table, saving the old set on the first change |
| `Transactions.XactState.TransactionCallback` | pg_duckdb/src/pgduckdb_xact.cpp:216-292 | commit checks and resets, abort restores, and nothing happens while DuckDB is not initialized |
| `MaintenanceSlots.ActiveIsBusy` | pg_ducklake/src/maintenance_worker.cpp:94-102 | with distinct databases the slots in use are as many as the busy databases |
| `MaintenanceSlots.SlotTable.HasWorkerForDatabase` | pg_ducklake/src/maintenance_worker.cpp:85-92 | true if and only if some slot in use is for the database |
| `MaintenanceSlots.SlotTable.CountActiveWorkers` | pg_ducklake/src/maintenance_worker.cpp:94-102 | the number of slots in use |
| `MaintenanceSlots.SlotTable.ClaimSlot` | pg_ducklake/src/maintenance_worker.cpp:104-116 | takes the first free slot and changes no other, or returns -1 exactly when all are in use |
| `MaintenanceSlots.SlotTable.ReleaseSlot` | pg_ducklake/src/maintenance_worker.cpp:118-126 | frees the first slot of the database and changes no other |
| `MaintenanceSlots.SlotTable.UpdatePid` | pg_ducklake/src/maintenance_worker.cpp:251-259 | puts the pid into the first slot of the database and changes nothing else |
| `MaintenanceSlots.SlotTable.TryClaim` | pg_ducklake/src/maintenance_worker.cpp:510-517 | the launcher's section claims only when the database has no slot and the bound is not reached |
| `MaintenanceSlots.NextKeeps` | pg_ducklake/src/maintenance_worker.cpp:505-538 | every step of launcher and workers, lost processes included, keeps: distinct databases, at most max_workers in use, slots in use are exactly those of unfinished attempts, pids match |
| `MaintenanceSlots.RunKeeps` | pg_ducklake/src/maintenance_worker.cpp:473-555 | that invariant holds in every state of every run |
| `MaintenanceSlots.OneWorkerPerDatabase` | pg_ducklake/src/maintenance_worker.cpp:505-538 | at most one worker is alive per database, in every run |
| `MaintenanceSlots.WorkersBounded` | pg_ducklake/src/maintenance_worker.cpp:510-517 | never more than max_workers workers are alive |
| `MaintenanceSlots.LaunchesIff` | pg_ducklake/src/maintenance_worker.cpp:510-520 | an attempt starts if and only if its database holds no slot and fewer than max_workers are held: a claim under the bound always finds a slot |
| `MaintenanceSlots.FinishFreesOwnSlot` | pg_ducklake/src/maintenance_worker.cpp:467-471 | a worker that finishes, and a launcher whose worker is refused, free the slot of that attempt, which is there, and no other, though they release by database |
| `MaintenanceSlots.GivenBackIsLaunched` | pg_ducklake/src/maintenance_worker.cpp:533-537 | a database whose slot was given back, by the end of its worker or by a refused registration, is launched by the next attempt |
| `MaintenanceSlots.LostDatabaseNeverLaunched` | pg_ducklake/src/maintenance_worker.cpp:510-520 | after a process ended without releasing, its database is never launched again |
| `MaintenanceSlots.AllLostStopsMaintenance` | pg_ducklake/src/maintenance_worker.cpp:510-520 | after max_workers such ends no database is launched again |
| `MaintenanceTxn.CommitAnywayIff` | pg_ducklake/src/maintenance_worker.cpp:133-141 | committing after failures would be right if and only if no failed operation had written anything |
| `MaintenanceTxn.CommittedByCompleted` | pg_ducklake/src/maintenance_worker.cpp:320-454 | a row is committed if and only if an operation that completed wrote it |
| `MaintenanceTxn.Session.Execute` | pg_ducklake/src/maintenance_worker.cpp:183-215 | queries run until the first that does not succeed; success if and only if all do |
| `MaintenanceTxn.Session.RunOperation` | pg_ducklake/src/maintenance_worker.cpp:323-354 | success, reported failure or raised error: all of a completed operation is committed, nothing of any other, and transaction and snapshots are balanced |
| `MaintenanceTxn.Session.MaintainDatabase` | pg_ducklake/src/maintenance_worker.cpp:320-454 | after any round, interrupted or not, the committed rows are those of the completed operations before the first interrupt, and the session is idle |
| `InlinedFlush.OneFlushOrder` | pg_ducklake/src/pgducklake_metadata_manager.cpp:389-402 | with unique (row_id, begin_snapshot) the flush order has exactly one result |
| `InlinedFlush.FlushKeepsRead` | pg_ducklake/src/pgducklake_metadata_manager.cpp:364-402 | deleting the positions of the ended versions from the all-versions read leaves exactly the live read, in the same order |
| `InlinedFlush.RowOnlySafeIff` | pg_ducklake/src/pgducklake_metadata_manager.cpp:381-388 | ordering by row_id alone keeps the live read, for every order the ties may fall in, if and only if no row has both a live and an ended version |
| `InlinedFlush.SameRows` | pg_ducklake/src/pgducklake_metadata_manager.cpp:381-388 | two reads ordered by row_id alone have the same row_id at every position |
| `InlinedHistory.TableWellFormed` | pg_ducklake/src/pgducklake_metadata_manager.cpp:381-388 | every table that a history of commits makes has distinct begins and at most one live version per row, at every snapshot |
| `InlinedHistory.ReadIsContents` | pg_ducklake/src/pgducklake_metadata_manager.cpp:364-379 | a read at a snapshot returns exactly the rows that the commits up to it left, with their values, in the order of their ids |
| `InlinedHistory.FlushIsContents` | pg_ducklake/src/pgducklake_metadata_manager.cpp:381-402 | a flush at a snapshot leaves in its file exactly those rows |
| `FlushScan.FlushSafeIff` | pg_ducklake/src/pgducklake_metadata_manager.cpp:389-402 | with integer keys ordered alike in both engines, a flush keeps what a read sees, for every table and every way its scan may be read, if and only if its ORDER BY stays in DuckDB or at most one worker reads the scan it moves into |
| `FlushScan.SafeFileInOrder` | pg_ducklake/src/pgducklake_metadata_manager.cpp:389-402 | every file written through a sort that moves safely holds all visible versions in flush order |
| `FlushScan.ResultIsFile` | pg_ducklake/src/pgducklake_metadata_manager.cpp:389-402 | whatever the rewritten query returns is a file of the versions in the table |
| `Star.OneStarPerRun` | pg_duckdb/src/pgduckdb_ruleutils.cpp:246-258 | of a run with a row column exactly its first row column is written |
| `Star.StarReconstruction.CheckForStarStart` | pg_duckdb/src/pgduckdb_ruleutils.cpp:182-243 | the look-ahead opens a star if and only if the run that starts at the entry has a row column |
| `Star.StarReconstruction.Step` | pg_duckdb/src/pgduckdb_ruleutils.cpp:261-320 | an entry is skipped if and only if it is in a run with a row column and is not the first one |
| `Star.WrittenEntries` | libpgduckdb/vendor/pg_ruleutils_17.c:6050-6064 | for every target list the loop writes exactly the entries that are not to be dropped, in order |

## Left out

- The in-process mode, the COUNT(*) mode and the destructor clean-up of a scan; the local state counter is an unbounded integer.
- ScanProtocol.ExactlyOnce: speaks of runs in which every thread finishes; ScanProgress shows that every run can be continued to such a one in a bounded number of steps, if threads that can go on are scheduled at all.
- NaN and infinite numerics, the DOUBLE path, detoasting, and the numeric type modifier helpers, which would add only easy members.
- A write past the end of a vector is an outcome of `ListAppend.ListColumn.AppendList`, not a state of memory.
- The operators `~~`, `!~~` and the `like_escape` functions, which the model refuses; how DuckDB prints the constants of simple filters.
- ExpressionText.ReadAsIntendedIff: is about how the text is read; an expression outside the condition can still happen to have the same result for some columns.
- The text inside a filter clause is tokens, and a WHERE clause is a tree of them; the tokenizer is not modelled.
- OrderPushdown.BindData.PushdownOneOperator: writes the bind data of one scan in place; the operator tree around it is a value, so moving the operator slot is not modelled.
- OrderPushdown.PushdownRefines: requires that no sort finds a limit below it and that every sort moves safely; for a single sort LimitedScan and TopNScan give the exact condition.
- FilterPushdown.WhereSandwich: requires that the engines agree on the comparisons of every filter; for a single comparison ComparisonHoldsIff gives the exact condition.
- How DuckDB puts the chunks of several threads in order; the meaning of a scan is the order in which its rows are read. Quoting of column names.
- References by column binding, projections with several children, and the index lookup, whose answer is arbitrary.
- A DROP that mixes DuckDB relations with other objects, which raises an error; command ids that are used but not yet incremented, subtransactions, nested commands and PREPARE TRANSACTION.
- A crash after which the postmaster resets shared memory; it starts a new run with an empty slot table.
- What a maintenance query does inside DuckDB; it is a list of rows it writes and the way it ends. The list of tables is given.
- InlinedFlush.FlushKeepsRead: takes the file as one list; the split by partition and the sort keys of a sorted table are not modelled. The SQL that stamps the versions is not modelled; InlinedHistory takes a commit to end the current versions of the rows it changes and to begin the new ones.
- Junk entries of a target list, and what a row column expands to.
- SPI, settings, foreign data wrappers, secrets, extension installation, EXPLAIN output, schema names, hashing and the table access method.
