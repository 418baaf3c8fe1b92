# Uptrace: verified models of its core logic

These modules model the parts of the Uptrace server in which a mistake is easy to make and
hard to see, and prove what they promise for all inputs, all runs and all interleavings. Each
module stands for one component; `Basics` holds the few definitions that they share.

| component | modules |
|---|---|
| a trace as a tree: putting it together, walking it, the self time of each span | `TraceTree`, `TraceWalk`, `TraceShow`, `SelfTime` |
| ClickHouse migrations: a table of signed rows that is read with collapsing | `Migrations` |
| alerts: concurrent writers, the check of a series, anti-flapping, the notification ladder | `AlertProtocol`, `AlertWriters`, `AlertOutcomes`, `AntiFlapping`, `MetricCheck`, `NotificationLadder` |
| cumulative counters and histograms turned into deltas | `CounterConversion`, `HistogramConversion` |
| the join of metric series | `TimeseriesJoin` |
| the service graph: pairing client and server spans in a bounded store | `ServiceGraphStore`, `ServiceGraph` |
| operator precedence in queries | `QueryPrecedence`, `QuerySuffixes` |
| WHERE clauses and the rows of a query | `WhereBuilder`, `WhereText`, `QueryRows` |
| the time grid of charts | `TimeGrid` |
| the tokenizer of SQL statements | `SqlTokenizer` |

Where the program changes things step by step, so does the model: spans, slices with their
capacity, caches, list and table of the edge store, the lexer and the rows of a query are
classes or arrays that methods update, each method proved against a specification function.
The results about whole runs are lemmas about these functions.

## Where the code does not do what it seems to promise

The model follows the code. In these cases a lemma shows an input for which the expectation
fails, and another one says exactly when it holds.

- Precedence: `x + b * c * d` is read as `(x + (b * c)) * d` (`ProductAfterSumMisread`).
  `GroupedConventionallyIff` decides it for every chain by looking at the ranks of its operators.
- The span-query parser rewrites every suffix of a chain, and misreads `a - b - c - d` and
  `a / b / c + d` (`DifferencesMisread`, `QuotientsMisread`); `SuffixesGroupedIff` decides it for
  every chain.
- Join: once the result has outgrown its first allocation, the map built from the left operand
  points into memory that is no longer part of the result, and partners that come after that
  are ignored (`LatePartnerIgnored`, `JoinIsOuterJoinIff`).
- Spans that name each other as parents are lost from the page (`CycleLosesSpans`,
  `AllReachIffAcyclic`); the number of spans is too small if several have no parent
  (`TwoParentlessMiscounted`, `CountExactIff`).
- Metric alerts are all stored with the hash 0, which the unique index refuses for the second
  one of a project (`SecondMetricAlertIsRefused`). `Database.InsertAlert` stores an alert if and
  only if project and hash are not taken; so a project never has two (`OneMetricAlertPerProject`).
- An open alert whose monitor has been set to check more points than the window of the series
  holds ends in an index out of range: `CheckOpenAlert` says that this happens if and only if the
  series has fewer points than are to be checked.
- `nextSpanCountThreshold` does not end for counts from 15 625 times 2 to the 50th on
  (`NoShiftExceedsLastRung`, `ClimbEndsIff`).
- The edge store never stores the key of a node and tests its expiry the wrong way round. The
  model has a switch for both lines: what is proved for the code as it stands reaches up to the
  first eviction; after it the table belongs to no list any more, unless the key of the evicted
  node was zero (`EvictionAsBuiltOutgrows`, `EdgeStore.WithEdge`). With both lines repaired the
  invariant holds in all runs (`RunGood`).
- Client and server span of different projects give an edge that depends on their order
  (`OtherProjectsDiffer`, `SidesCommuteIff`).
- After an eviction from the counter cache a late point can be counted twice
  (`LateAfterEvictionCountsTwice`). `NeverTooMuchIff` says for which arrivals no eviction can do
  harm.
- A grouping interval that is given skips the rounding of the bounds; then the first value of a
  chart can be lost (`UnalignedLosesFirst`, `ValueLostIff`), and buckets and grid disagree
  (`GridAgreesIff`). Values and times of a chart can even differ in number
  (`ColumnsOfDifferentLengths`); `ColumnsMatchIff` says when each value stands at its own time.
- A NUL byte in a SQL statement ends its tokens (`ZeroLosesTheRest`, `LosslessIff`).
- In the text of a WHERE clause a group cannot be told from a condition that contains parentheses
  (`GroupLooksLikeQuery`). The text can be read back if and only if no condition and no separator
  that is left contains one (`TextRoundTripIff`); as long as they balance, two programs have the
  same text if and only if they agree but for groups in the place of conditions that hold the text
  of the group (`SameTextIff`).
- A stream of rows that fails before its first row is reported as one without rows: `ScanOne` says
  that this, and only this, loses the error.

## Model

| member | source | states |
|---|---|---|
| QueryPrecedence.ExprPrecedence | pkg/tracing/tql/ast.go:246-278 | the in-place recursion ends on every tree because each call shortens the right spine, and its result always unwraps to a binary node, so the "not reached" panic is never reached |
| QueryPrecedence.Rotate | pkg/tracing/tql/ast.go:259-269 | regrouping `l op (m op' r)` shortens the right spine |
| QueryPrecedence.UnwrapKeepsOrder | pkg/tracing/tql/ast.go:280-289 | removing parentheses keeps operands and operators in order |
| QueryPrecedence.BinaryExprPrecedence | pkg/tracing/tql/ast.go:239-244 | the loop over the table applies every row once, in order |
| QueryPrecedence.ExprPrecedenceKeepsOrder | pkg/tracing/tql/ast.go:246-278 | for every tree and every row the sequence of operands and operators stays the same |
| QueryPrecedence.RewriteKeepsOrder | pkg/tracing/tql/ast.go:229-289 | the whole rewriting keeps the sequence of operands and operators |
| QueryPrecedence.PassMerges | pkg/tracing/tql/ast.go:246-278 | a pass only applies operators of its own row, from left to right: merging its result by that row is merging its input by it |
| QueryPrecedence.PassShape | pkg/tracing/tql/ast.go:246-278 | which operators a pass leaves in the chain, and whether the last operand is then in parentheses |
| QueryPrecedence.RewriteLeavesOne | pkg/tracing/tql/ast.go:239-244 | the rewriting leaves a single operator of every chain outside of parentheses |
| QueryPrecedence.GroupedConventionallyIff | pkg/metrics/mql/ast/ast.go:352-398 | for every chain of the table's operators one rewriting gives the conventional grouping if and only if the ranks of the operators pass a check that needs no rewriting |
| QueryPrecedence.UniformChainsNestLeft | pkg/metrics/mql/ast/ast.go:342-409 | a right-nested chain of one precedence level becomes its left-nested form |
| QueryPrecedence.ProductAfterSumMisread | pkg/metrics/mql/ast/ast.go:342-409 | `x + b * c * d` is grouped as `(x + (b * c)) * d` |
| QuerySuffixes.PairRewritten | pkg/tracing/tql/ast.go:239-278 | a rewriting of two operators puts the second one into parentheses if it binds tighter and its right operand is a plain term, and the first one otherwise |
| QuerySuffixes.ConventionalSplits | pkg/tracing/tql/ast.go:229-237 | applying the operators rank by rank, as the table orders them, makes the last one of the loosest operators the root and groups both sides alike |
| QuerySuffixes.ParsedShape | pkg/tracing/tql/parser.go:1434-1478 | what the span-query parser makes of any chain: which operator is at the root, and that the others are applied from right to left |
| QuerySuffixes.SuffixesGroupedIff | pkg/tracing/tql/parser.go:1434-1478 | for every chain of the table's operators the span-query parser, which rewrites every suffix, gives the conventional grouping if and only if the ranks of the operators pass a check that needs no rewriting |
| QuerySuffixes.DifferencesMisread | pkg/tracing/tql/parser.go:1434-1478 | `a - b - c - d` is grouped as `(a - (b - c)) - d` |
| QuerySuffixes.QuotientsMisread | pkg/tracing/tql/parser.go:1434-1478 | `a / b / c + d` is grouped as `(a / (b / c)) + d` |
| TimeseriesJoin.NewTimeseriesFrom | pkg/metrics/mql/timeseries.go:31-47 | a series with the same attributes and a new array of equal length, all zero |
| TimeseriesJoin.Append | pkg/metrics/mql/engine.go:278-290 | what Go's append does: in place while there is room, else into a larger copy that leaves the old array alone |
| TimeseriesJoin.MakeTimeseriesMap | pkg/metrics/mql/engine.go:306-315 | the map names, for each attribute set, the last left series that has it |
| TimeseriesJoin.IndexIsLast | pkg/metrics/mql/engine.go:306-315 | of several left series with the same attributes the map names the last one |
| TimeseriesJoin.Pointwise | pkg/metrics/mql/engine.go:294-300 | the operator applied point by point, in a new array |
| TimeseriesJoin.JoinedSlice.UpdateThroughMap | pkg/metrics/mql/engine.go:288-300 | a write through a pointer of the map changes the result only while it has not outgrown its first allocation |
| TimeseriesJoin.JoinedSlice.Push | pkg/metrics/mql/engine.go:289-291 | the result grows by one series, whether or not it is moved |
| TimeseriesJoin.JoinRounds | pkg/metrics/mql/engine.go:281-301 | the loop over the right operand yields what the specification by indices and capacity says |
| TimeseriesJoin.JoinTimeseries | pkg/metrics/mql/engine.go:278-303 | the join of two non-empty operands, with no write to anything that an operand refers to |
| TimeseriesJoin.Join | pkg/metrics/mql/engine.go:251-304 | the whole join: an empty operand counts as zero at every point of the other one, on its own side of the operator; exactly when each of the two errors is returned; else the join of both |
| TimeseriesJoin.EvalNumLeft | pkg/metrics/mql/engine.go:397-414 | `op(number, v)` at every point, in new arrays |
| TimeseriesJoin.EvalNumRight | pkg/metrics/mql/engine.go:451-468 | `op(v, number)` at every point, in new arrays |
| TimeseriesJoin.JoinExactly | pkg/metrics/mql/engine.go:278-303 | for distinct attributes on each side: left series in order, each combined with its partner unless that comes too late, then the right-only series in order with `op(0, v)` |
| TimeseriesJoin.JoinPoints | pkg/metrics/mql/engine.go:275-303 | the same point by point: which values of which operands each value of the result is made of, and where each right-only series stands |
| TimeseriesJoin.JoinIsOuterJoinIff | pkg/metrics/mql/engine.go:278-303 | the result is the outer join if and only if combining the late partners would change nothing |
| TimeseriesJoin.JoinFits | pkg/metrics/mql/engine.go:278-303 | it is the outer join whenever left series and right-only series together fit the first allocation |
| TimeseriesJoin.LatePartnerIgnored | pkg/metrics/mql/engine.go:278-303 | two left series, two new right ones and then a partner of the first left one: the partner is ignored |
| Migrations.Migrator.AppliedMigrations | pkg/go-clickhouse/chmigrate/migrator.go:435-446 | a collapsing read returns exactly the last state rows of the names with a positive sum of signs, in any order |
| Migrations.Migrator.MigrationsWithStatus | pkg/go-clickhouse/chmigrate/migrator.go:91-114 | the sorted migrations with their status, and the largest applied group id |
| Migrations.Migrator.Mark | pkg/go-clickhouse/chmigrate/migrator.go:391-409 | appends one signed row; a failing insert may or may not have stored it |
| Migrations.Migrator.HandleOne | pkg/go-clickhouse/chmigrate/migrator.go:214-240 | mark first or mark last, depending on the mode, with a failure possible at either step, and exactly when the migration is known to be marked |
| Migrations.HandledExactly | pkg/go-clickhouse/chmigrate/migrator.go:215-290 | exactly the rows before the first failure are stored, and the one of the migration that fails if it was marked before its function failed or its row was stored all the same |
| Migrations.Migrator.MarkAll | pkg/go-clickhouse/chmigrate/migrator.go:214-242 | the loop marks the migrations in order up to the first failure |
| Migrations.Migrator.CancelAll | pkg/go-clickhouse/chmigrate/migrator.go:264-289 | the loop cancels them from the last one on up to the first failure |
| Migrations.UnappliedOf | pkg/go-clickhouse/chmigrate/migration.go:155-164 | the loop selects the unapplied migrations, ascending |
| Migrations.LastGroupIDOf | pkg/go-clickhouse/chmigrate/migration.go:168-177 | the running maximum is the largest group id, or 0 |
| Migrations.LastGroupOf | pkg/go-clickhouse/chmigrate/migration.go:180-193 | the migrations of the largest group id, in the order of the list, and none if that id is 0 |
| Migrations.SortSorts | pkg/go-clickhouse/chmigrate/migration.go:241-245 | sorting yields the same migrations in ascending order of their names |
| Migrations.Migrator.Migrate | pkg/go-clickhouse/chmigrate/migrator.go:192-244 | the table after any failures (an error and no change if no migration is registered), a group id above all applied ones, and in the returned group the first of the unapplied migrations, all of them unless something failed |
| Migrations.Migrator.Rollback | pkg/go-clickhouse/chmigrate/migrator.go:246-293 | the table after any failures, and the group that was undone, or what was undone of it before a failure |
| Migrations.ReplayReads | pkg/go-clickhouse/chmigrate/migrator.go:435-446 | if the rows replay as pushes and pops of one stack, a collapsing read returns exactly that stack |
| Migrations.AppliedIsStack | pkg/go-clickhouse/chmigrate/migrator.go:96-114 | the applied migrations are the stack, ordered by group id and name |
| Migrations.MigratePushes | pkg/go-clickhouse/chmigrate/migrator.go:192-244 | Migrate only pushes, in order, under a new group id; if nothing fails it pushes everything unapplied |
| Migrations.RollbackPops | pkg/go-clickhouse/chmigrate/migrator.go:246-293 | Rollback only pops, and only members of the last group; if nothing fails the whole group goes and the stack shrinks unless it was empty |
| Migrations.StepKeepsGood | pkg/go-clickhouse/chmigrate/migrator.go:192-293 | every operation, in both modes and with any failures, keeps the table replayable |
| Migrations.RunGood | pkg/go-clickhouse/chmigrate/migrator.go:192-293 | every reachable table is replayable |
| Migrations.NetIsZeroOrOne | pkg/go-clickhouse/chmigrate/migrator.go:435-446 | in every reachable table the signs of a name add up to 0 or 1, and to 1 only for registered names |
| Migrations.StackInMarkOrder | pkg/go-clickhouse/chmigrate/migrator.go:391-399 | the stack holds the migrations in the order in which they were last marked |
| Migrations.CancelsLastMarked | pkg/go-clickhouse/chmigrate/migrator.go:402-409 | last in, first out over every run: each cancelled migration was applied at that point, and all others applied then had been marked before it |
| Migrations.MigrateApplies | pkg/go-clickhouse/chmigrate/migrator.go:192-244 | in every run Migrate leaves applied migrations as they are, gives new ones the largest id plus one and its own time, and without a failure leaves exactly the registered ones applied |
| Migrations.RollbackRemovesLastGroup | pkg/go-clickhouse/chmigrate/migrator.go:246-293 | in every run a Rollback without a failure removes exactly the last group |
| Migrations.RollbackUndoesMigrate | pkg/go-clickhouse/chmigrate/migrator.go:192-293 | after a Migrate that had something to do, a Rollback restores exactly what was applied before |
| Migrations.RollbackAll | cmd/uptrace/command/ch.go:132-140 | rolling back until the group id is 0 ends, and without a failure nothing is applied any more |
| SelfTime.SweepCountsSwept | pkg/tracing/trace_handler.go:75-81 | for children in any order the sweep takes off exactly the number of instants that it passes |
| SelfTime.SelfTimeBounds | pkg/tracing/span.go:153-171 | for children in any order the self time lies between the duration minus the union of the children and the duration, and is the former under an exact condition |
| SelfTime.SelfTimeExact | pkg/tracing/span.go:153-171 | for children sorted by start time it is the duration minus the size of the union of their intervals, clipped to the span |
| TraceTree.AllReachIffAcyclic | pkg/tracing/span.go:210-233 | every span hangs below the root if and only if the parent relation has no cycle |
| TraceTree.RootIsLast | pkg/tracing/span.go:189-206 | the root is the last span without a parent, and there is one if any span is without |
| TraceTree.LookupIsLast | pkg/tracing/span.go:191-202 | the span that is found for an id is the last one with it that names a parent |
| TraceTree.ClimbsToRoot | pkg/tracing/span.go:210-233 | without cycles the steps to the parent lead to the root, within as many steps as there are spans |
| TraceTree.SiblingsApart | pkg/tracing/span.go:210-233 | subtrees of different nodes of one depth have nothing in common |
| TraceTree.CountExactIff | pkg/tracing/span.go:189-236 | the returned number of spans is never too large, and exact if and only if at most one span has no parent |
| TraceTree.TwoParentlessMiscounted | pkg/tracing/span.go:189-236 | of two spans without a parent one is not counted |
| TraceTree.CycleLosesSpans | pkg/tracing/span.go:210-233 | with a cycle there is a span that the walk from the root misses |
| TraceWalk.Span.AddChild | pkg/tracing/span.go:145-147 | the child comes last in the list |
| TraceWalk.Span.AddEvent | pkg/tracing/span.go:149-151 | the event comes last in the list |
| TraceWalk.Span.UpdateDurationSelf | pkg/tracing/span.go:153-171 | takes off the part of the child that lies after the last end and inside the span |
| TraceWalk.IndexSpans | pkg/tracing/span.go:190-204 | the root is the last span without a parent, and the map holds exactly the other spans under their ids |
| TraceWalk.IndexedBySpans | pkg/tracing/span.go:190-204 | in the fields of the spans: there is a root if and only if some span that is no event has no parent, and it is one; what the map holds under an id is a span of that id that names a parent |
| TraceWalk.FindRoot | pkg/tracing/span.go:190-208 | without such a span a root is made up that begins with the first span |
| TraceWalk.AttachSpan | pkg/tracing/span.go:210-233 | one span or event is put at its place and nothing else moves |
| TraceWalk.AttachAll | pkg/tracing/span.go:210-233 | the second pass puts all of them at their places |
| TraceWalk.PutAllGathers | pkg/tracing/span.go:210-233 | below each node are exactly the spans whose parent it is, with it exactly its events, in input order; adopted spans name the root |
| TraceWalk.GatheredOnce | pkg/tracing/span.go:210-233 | each span and each event is at its own place once and nowhere else |
| TraceWalk.EventAttachedOnce | pkg/tracing/span.go:210-233 | each event is attached to exactly one node of the tree: its parent if that is a linked span, else the root |
| TraceWalk.BuildSpanTree | pkg/tracing/span.go:189-236 | root, links and number of spans of the tree for any list of spans with distinct ids, cycles included |
| TraceShow.KidsChronological | pkg/tracing/span_data.go:107-137 | spans that come in order of time are attached in order of time, below every node |
| TraceShow.SweepChildren | pkg/tracing/trace_handler.go:75-81 | the callback's loop over the children computes the sweep |
| TraceShow.ShowSpan | pkg/tracing/trace_handler.go:71-88 | the callback finishes one node and touches no other |
| TraceShow.Subtree | pkg/tracing/span.go:133-143 | a subtree is its node and the subtrees of the children |
| TraceShow.Walk | pkg/tracing/span.go:133-143 | the walk ends, visits each node of the subtree exactly once and finishes it, and leaves all other nodes alone |
| TraceShow.TreeStartEndTime | pkg/tracing/span.go:103-116 | the tightest window that holds every span of the subtree |
| TraceShow.WalkedIsPage | pkg/tracing/trace_handler.go:68-88 | after the walk every node has been visited once, lies in the window, has sorted children and the swept self time, which is exact if the spans came in order of time |
| TraceShow.ShowTree | pkg/tracing/trace_handler.go:68-88 | window and walk together give such a page |
| TraceShow.ShowTrace | pkg/tracing/trace_handler.go:51-95 | from any list of spans with distinct ids and no cycle of parents to such a page; its root is the last span without a parent or made up, and each node holds exactly its events |
| NotificationLadder.NextSpanCountThreshold | pkg/alerting/span_error.go:198-216 | below the last rung the climb ends, without overflow, with the least rung above the count |
| NotificationLadder.FirstRungs | pkg/alerting/span_error.go:198-216 | the ladder begins with 100, 1000, ten thousand, a hundred thousand and a million |
| NotificationLadder.NextRungIsLeast | pkg/alerting/span_error.go:198-216 | every other rung above the count is at least the result |
| NotificationLadder.ClimbEndsIff | pkg/alerting/span_error.go:198-216 | with 64-bit shifts the loop ends if and only if the count is below 15 625 times 2 to the 50th |
| NotificationLadder.NoShiftExceedsLastRung | pkg/alerting/span_error.go:198-216 | no number of 64-bit shifts exceeds that count |
| NotificationLadder.TriggersIffPassesRung | pkg/alerting/span_error.go:69-75 | the new count triggers the alert if and only if a rung lies above the old count and not above the new one |
| NotificationLadder.TriggersAtMostRungs | pkg/alerting/span_error.go:69-112 | over any run of counts that do not go down there are at most as many triggers as rungs passed |
| NotificationLadder.TriggersAreLogarithmic | pkg/alerting/span_error.go:69-112 | more than `5 + k` triggers need a count of two million times 2 to the k-th |
| MetricCheck.Bounds.IsOutlier | pkg/madalarm/alarm.go:100-108 | -1 below the minimum, 1 above the maximum, and zero exactly for values inside the bounds and for NaN |
| MetricCheck.Checker.Check | pkg/madalarm/alarm.go:59-98 | fires if and only if the last `duration` values are all outside after holes have become 0, and counts 0 if and only if none is; fills all holes, and with too few values touches nothing |
| MetricCheck.FillHoles | pkg/madalarm/alarm.go:68-74 | every NaN becomes the number 0 and nothing else changes |
| MetricCheck.CountOutliers | pkg/madalarm/alarm.go:87-92 | the counter is the number of positions whose values lie outside of the bounds |
| MetricCheck.AllOutIff | pkg/madalarm/alarm.go:59-108 | which points count as outside: those less than the minimum or greater than the maximum, with a hole taken as 0 |
| AlertProtocol.OvertakenNeverCommits | pkg/alerting/alert.go:260-291 | in every run a writer that another one has overtaken since it read the alert leaves no event and changes no alert, however late it commits: an event id never comes back |
| AlertProtocol.DerivedFollows | pkg/alerting/manager.go:332-417 | what a writer derives changes the status if it is named a status change, keeps an alert open if it is a reminder, and a metric reminder comes at least an hour after the event it replaces |
| AlertProtocol.CommitOfReadKeepsGood | pkg/alerting/alert.go:361-384 | a commit of anything that was read at some time, however stale, keeps the invariant |
| AlertProtocol.CommitKeepsGood | pkg/alerting/alert.go:361-384 | so every commit step of every writer keeps it |
| AlertProtocol.TouchKeepsGood | pkg/alerting/span_error.go:81-93 | so does the update in place of an error alert's event |
| AlertProtocol.CreateKeepsGood | pkg/alerting/alert.go:324-359 | so does the creation of an alert |
| AlertProtocol.StepKeepsGood | pkg/alerting/alert.go:233-291 | every step of manager, users and error job keeps it |
| AlertProtocol.RunGood | pkg/alerting/alert.go:233-384 | it holds after every interleaving |
| AlertProtocol.SingleChain | pkg/alerting/alert.go:233-384 | in every interleaving the committed events of an alert form one chain from its creation to the event that it names, each copied from the one before; its events are exactly those of the chain, and each status change has the opposite status of its predecessor |
| AlertProtocol.NoSharedBasis | pkg/alerting/alert.go:260-291 | no two committed events, of whatever alerts, were copied from the same event |
| AlertProtocol.OneMetricAlertPerProject | pkg/alerting/manager.go:250-256 | a project never has two metric alerts, since all are created with hash 0 |
| AlertProtocol.SecondMetricAlertIsRefused | pkg/bunapp/pgmigrations/20220926100949_init.tx.up.sql:259 | of two metric alerts that are created for a project only the first one is stored |
| AlertWriters.Database.Select | pkg/alerting/alert.go:197-208 | reads the alert together with the event that it names |
| AlertWriters.Database.InsertAlertEvent | pkg/org/alert_event.go:78-89 | inserts the event under a new id unless it has no time; sets a missing time of creation |
| AlertWriters.Database.UpdateAlertEvent | pkg/alerting/alert.go:260-291 | succeeds if and only if the alert still names the event that was read; only then anything changes |
| AlertWriters.Database.InsertAlert | pkg/org/alert.go:102-143 | inserts the row if and only if project and hash are not taken |
| AlertWriters.Database.CommitEvent | pkg/alerting/alert.go:361-384 | insert and swap are one transaction that rolls back if either fails |
| AlertWriters.Database.CreateAlert | pkg/alerting/alert.go:324-359 | alert and first event are created together or not at all |
| AlertWriters.Database.ChangeAlertStatus | pkg/alerting/alert.go:233-258 | commits a copy of the event with the new status and user |
| AlertWriters.Database.CloseAlert | pkg/alerting/manager.go:389-402 | commits the closing action of the protocol |
| AlertWriters.Database.ReopenAlert | pkg/alerting/manager.go:404-417 | commits the reopening action of the protocol |
| AlertWriters.Database.RemindAboutAlert | pkg/alerting/manager.go:369-387 | commits the reminding action of the protocol |
| AlertWriters.Database.ChangeStatusByUser | pkg/alerting/alert_handler.go:117-144 | a user's change is committed exactly when the protocol allows it, that is when the status differs; otherwise nothing happens; the invariant of the protocol is kept |
| AlertWriters.CheckOpenAlert | pkg/alerting/manager.go:332-367 | an open alert is closed if no checked point is outside, and reminded of if all are and an hour has passed; with fewer points than are to be checked, and only then, the index is out of range and nothing has changed |
| AlertWriters.CheckTrimmed | pkg/alerting/manager.go:267-279 | the check of a series without its leading holes fires exactly when the last points are all outside |
| AlertWriters.CheckClosedAlert | pkg/alerting/manager.go:243-320 | a firing series reopens a closed alert within eight hours and creates a new one otherwise |
| AlertWriters.HandleError | pkg/alerting/span_error.go:55-111 | a group without an alert gets one; otherwise the event is committed if the alert is closed or its count passes a rung, and updated in place if not; the invariant of the protocol is kept |
| AlertWriters.DecisionKeepsGood | pkg/alerting/manager.go:332-367 | what the manager does with an open alert is a step that the protocol allows, and keeps its invariant for all other writers |
| AlertWriters.VerdictKeepsGood | pkg/alerting/manager.go:263-320 | so is what it does with a closed one |
| AlertWriters.CheckTimeseries | pkg/alerting/manager.go:243-320 | the state after the whole check of a series, with or without an alert that was read at some time, and when an index is out of range; the invariant of the protocol is kept |
| AlertOutcomes.CommitOutcome | pkg/alerting/alert.go:260-291 | a commit makes the alert name the new event, with a link to the one that was read, and changes no other alert or event; no alert and no event changes if somebody else was faster or the event has no time; the id is used up unless it has none |
| AlertOutcomes.CreateOutcome | pkg/org/alert.go:102-143 | a new alert that names one new event, unless project and hash are taken or the event has no time; its id is used up either way |
| AlertOutcomes.UserOutcome | pkg/alerting/alert.go:233-258 | what the event of an alert says after a user has set its status |
| AlertOutcomes.RepeatOutcome | pkg/alerting/span_error.go:95-111 | what it says after an error has been reported again |
| AlertOutcomes.TouchOutcome | pkg/alerting/span_error.go:81-93 | an error that is only noted changes time and parameters of one event |
| AlertOutcomes.TrimmedIff | pkg/alerting/manager.go:267-274 | the check begins at the first point, or at the last of the holes that the series begins with |
| AlertOutcomes.FiresIff | pkg/alerting/manager.go:276-290 | a series fires if and only if there are enough points from there and the last ones are all outside; the parameters name the side and the first of them |
| AlertOutcomes.ClosedOutcome | pkg/alerting/manager.go:267-320 | a closed alert whose series fires is reopened at the first of the points if that is less than eight hours after it was closed, and otherwise a new alert is created; if the series does not fire, nothing changes |
| AlertOutcomes.NewSeriesOutcome | pkg/alerting/manager.go:267-320 | without an alert, a series that fires gets one and any other leaves the database alone |
| AlertOutcomes.OpenOutcome | pkg/alerting/manager.go:332-402 | an open alert is closed if and only if none of the last points is outside, at the time of the first of them, and reminded of if and only if all are and an hour has passed; what its event then says |
| AntiFlapping.TurnKeepsSound | pkg/alerting/manager.go:243-367 | after every turn of manager or user each automatic opening and closing is justified by the points that the manager saw |
| AntiFlapping.WindowsApart | pkg/madalarm/alarm.go:59-98 | a window whose last N points are all outside and one whose last N are all inside end at least N ticks apart |
| AntiFlapping.OpeningAndClosingApart | pkg/alerting/manager.go:263-367 | in every run, whatever users do and whichever transactions fail, an automatic opening and an automatic closing are at least CheckNumPoint ticks apart, in either order |
| AlertOutcomes.TickOutcome | pkg/alerting/manager.go:243-367 | at a tick the manager opens the alert if and only if it is not open and the series fires, and closes it if and only if it is open and no checked point is outside |
| CounterConversion.Sub64 | pkg/metrics/datapoint_processor.go:268-289 | the difference of 64-bit integers, exact as long as it fits |
| CounterConversion.DeltaIsGrowth | pkg/metrics/datapoint_processor.go:283-288 | what a point of a counter adds is the growth of its value, and nothing if the value fell |
| Basics.TruncatedIsLast | pkg/metrics/datapoint_processor.go:191 | a truncated time is the last whole minute that is not later |
| CounterConversion.CumToDeltaConv.SwapPoint | pkg/metrics/cumtodelta.go:45-65 | stores the newer point and returns the one before; a late point changes nothing |
| CounterConversion.ProcessDatapoint | pkg/metrics/datapoint_processor.go:207-236 | what becomes of one datapoint, and whether it stays in the batch; a point that is older than the stored one changes nothing, any other one is stored with its time |
| CounterConversion.ProcessDatapoints | pkg/metrics/datapoint_processor.go:172-205 | a batch is walked backwards with deletions; exactly the converted datapoints stay, in their order, each converted as if it had arrived alone |
| CounterConversion.BatchIsRunOfEvents | pkg/metrics/datapoint_processor.go:172-205 | a batch leaves the cache of the run that goes on with its points, in the order in which they are walked |
| CounterConversion.BatchSumsAreTotal | pkg/metrics/datapoint_processor.go:172-205 | the sums that a batch leaves in the kept datapoints of a counter add up to what it adds to the counter's total |
| CounterConversion.ConservationAfter | pkg/metrics/cumtodelta.go:45-65 | whenever a counter starts anew in the cache, what follows without an eviction emits the value of its latest point minus that of its first one |
| CounterConversion.Conservation | pkg/metrics/cumtodelta.go:45-65 | without evictions, for a counter that does not go down in time and points in any order, the emitted deltas of a key add up to the value of the latest point minus the first stored one |
| CounterConversion.EvictionsLoseOnly | pkg/metrics/cumtodelta.go:45-65 | with any evictions but points in order of time they add up to no more than that |
| CounterConversion.Accounting | pkg/metrics/cumtodelta.go:45-65 | for every run, with any evictions and in any order: what is emitted for a counter is the value in the cache plus its values at each eviction, minus the values with which it started each time |
| CounterConversion.NeverTooMuchIff | pkg/metrics/cumtodelta.go:45-65 | the total stays within latest minus first wherever evictions take place, if and only if the values, in the order of arrival, never rise again after they have fallen |
| CounterConversion.LateAfterEvictionCountsTwice | pkg/metrics/cumtodelta.go:45-65 | with an eviction and a late point they can add up to more |
| HistogramConversion.MakeDeltaCounts | pkg/metrics/datapoint_processor.go:324-334 | overwrites the prior counts with the growth of each bucket; the current ones stay |
| HistogramConversion.DeltasAddUpIff | pkg/metrics/datapoint_processor.go:324-334 | the growths add up to the difference of the sums if and only if no bucket shrank, and to more otherwise |
| HistogramConversion.TotalAdds | pkg/metrics/otlp.go:524-532 | adding to a key, new or present, adds that much to the total |
| HistogramConversion.QuickHistogram.Add | pkg/metrics/otlp.go:524-532 | adds to the rounded key and moves the limits |
| HistogramConversion.RecordedTotal | pkg/metrics/otlp.go:534-575 | however the rounded keys collide, the histogram holds the sum of the counts |
| HistogramConversion.MeanStandsFor | pkg/metrics/otlp.go:550-570 | the mean of an inner bucket is as far from its lower bound as from its upper one and lies between them; the first bucket has the first bound, the last one the float after the last bound |
| HistogramConversion.RecordedUnder | pkg/metrics/otlp.go:524-575 | under each key stands the sum of the counts of exactly those buckets whose mean rounds to it, and no other key is in the map |
| HistogramConversion.MeanDivides | pkg/metrics/datapoint_processor.go:318 | the average times the count is the sum; for a count of 0 it is infinite or not a number |
| HistogramConversion.NewBFloat16Histogram | pkg/metrics/otlp.go:534-575 | the loops record every non-empty bucket at its mean, and the limits are the least and the greatest of the average and the recorded means; counts that do not fit the bounds give nothing |
| HistogramConversion.HistogramConserves | pkg/metrics/datapoint_processor.go:291-334 | the histogram of the deltas totals the difference of the sums if and only if no bucket shrank |
| HistogramConversion.HistogramCache.SwapPoint | pkg/metrics/cumtodelta.go:45-65 | stores the newer point and hands out the one before, a late point changes nothing; each point in the cache keeps buckets of its own |
| HistogramConversion.ConvertHistogramPoint | pkg/metrics/datapoint_processor.go:291-322 | what is emitted holds the difference of counts and sums and the histogram of the growths of the buckets; for two consistent points its total is the difference of the counts if and only if every bucket grew; its limits enclose average and means; the buckets of the stored points stay as they are |
| ServiceGraphStore.AnswerKeepsGood | pkg/tracing/service_graph.go:328-386 | every call keeps one incomplete node per key, at most `size` of them, and each inserted edge leaves at most once |
| ServiceGraphStore.RunGood | pkg/tracing/service_graph.go:328-386 | this holds in every run, across all evictions |
| ServiceGraphStore.AnswerConserves | pkg/tracing/service_graph.go:328-386 | each call passes on, keeps waiting, or refuses exactly the edge that it made; no other edge appears or is lost but the oldest one that it evicts |
| ServiceGraphStore.OthersWait | pkg/tracing/service_graph.go:328-386 | what waits under other keys stays as it is, but for the evicted node |
| ServiceGraphStore.RunKeepsOrder | pkg/tracing/service_graph.go:364-386 | in every run the nodes wait in the order in which they were inserted, so that the oldest one is evicted |
| ServiceGraphStore.MayBeRemovedIff | pkg/tracing/service_graph.go:304-306 | when a node counts as expired, as built and with the repaired line |
| ServiceGraphStore.EdgeStore.TryRemoveFront | pkg/tracing/service_graph.go:373-386 | removes the oldest node if it has expired; as built its entry stays in the table |
| ServiceGraphStore.EdgeStore.UpdateNode | pkg/tracing/service_graph.go:334-345 | the node of the key is updated and leaves list and table when it is complete |
| ServiceGraphStore.EdgeStore.MakeRoom | pkg/tracing/service_graph.go:356-362 | a full store makes room only by dropping an expired front |
| ServiceGraphStore.EdgeStore.Insert | pkg/tracing/service_graph.go:364-370 | a new node waits at the back of the list and in the table |
| ServiceGraphStore.EdgeStore.WithNewEdge | pkg/tracing/service_graph.go:347-371 | a call that finds no node does what the specification says |
| ServiceGraphStore.EdgeStore.WithEdge | pkg/tracing/service_graph.go:328-371 | list and table stay in step with the specification: always with key and expiry repaired, and as built up to the first eviction; after that they belong to some list of pending edges if and only if the key of the evicted node was zero |
| ServiceGraphStore.EvictionAsBuiltOutgrows | pkg/tracing/service_graph.go:347-386 | if no pending key is zero, an eviction as built leaves a table larger than the list, with an entry for a node that is gone |
| ServiceGraph.SidesCommuteIff | pkg/tracing/service_graph.go:107-190 | neither side completes an edge alone, both do in either order, and with the same edge if and only if they are of the same project |
| ServiceGraph.OtherProjectsDiffer | pkg/tracing/service_graph.go:107-190 | a call between two projects for which the two orders give different edges |
| ServiceGraph.ServiceGraphProcessor.ProcessSpan | pkg/tracing/service_graph.go:107-190 | a span that counts goes to the store of its trace's shard and to no other |
| ServiceGraph.ClientAlone | pkg/tracing/service_graph.go:110-139 | a client span completes its edge alone if and only if it names a service, database or address itself; and all that the edge says |
| ServiceGraph.NamedServerPassedOn | pkg/tracing/service_graph.go:110-139 | such an edge is passed on with this one span, and nothing waits for a server span |
| ServiceGraph.RootServerAlone | pkg/tracing/service_graph.go:140-188 | a server span without a parent completes its edge alone if the server has any name; its client is named by the type of the span; and all that the edge says |
| ServiceGraph.RootServerPassedOn | pkg/tracing/service_graph.go:140-188 | such an edge is passed on with this one span |
| ServiceGraph.MergedSays | pkg/tracing/service_graph.go:107-190 | type, time, client, environment, namespace and counts of the edge of a pair come from the client, the server name and its duration from the server |
| ServiceGraph.OthersIgnored | pkg/tracing/service_graph.go:107-192 | spans of other kinds and clients without a name leave everything as it is |
| ServiceGraph.ArrivalKeepsGood | pkg/tracing/service_graph.go:107-190 | after every arrival exactly the unmatched halves wait and exactly the matched pairs have been emitted |
| ServiceGraph.NothingEvicts | pkg/tracing/service_graph.go:356-362 | in such a run no call evicts, so that the specification is that of the code as built |
| ServiceGraph.OrderDoesNotMatter | pkg/tracing/service_graph.go:107-231 | for disjoint pairs and enough room every order of arrival, over any number of shards, emits the same multiset of edges and leaves every store empty |
| WhereBuilder.SelectQuery.AddFilter | pkg/go-clickhouse/ch/query_base.go:415-417 | appends one filter |
| WhereBuilder.SelectQuery.AddGroup | pkg/go-clickhouse/ch/query_base.go:419-431 | an empty group vanishes; any other is put in parentheses, without its first separator |
| WhereBuilder.SelectQuery.Where | pkg/go-clickhouse/ch/query_select.go:237-240 | appends a condition with AND |
| WhereBuilder.SelectQuery.WhereOr | pkg/go-clickhouse/ch/query_select.go:242-245 | appends a condition with OR |
| WhereBuilder.SelectQuery.WhereGroup | pkg/go-clickhouse/ch/query_select.go:247-259 | swapping the list out and back, at any depth of nesting, appends exactly the flattened group |
| WhereBuilder.SelectQuery.Build | pkg/go-clickhouse/ch/query_select.go:237-259 | a whole program of calls appends its flattened items |
| WhereBuilder.AppendWhere | pkg/go-clickhouse/ch/query_base.go:433-453 | the bytes appended for a filter list are the text of its tokens |
| WhereBuilder.RenderedIsMeaning | pkg/go-clickhouse/ch/query_base.go:419-453 | what is rendered is what the caller's tree, without empty groups and first separators, prints |
| WhereBuilder.ParsesPrinted | pkg/go-clickhouse/ch/query_base.go:433-453 | what is printed of a tree is read back as that tree, whatever follows |
| WhereBuilder.RoundTrip | pkg/go-clickhouse/ch/query_select.go:237-259 | for every nested program the tokens of the rendered clause parse, and to the program's own tree |
| WhereText.LexReads | pkg/go-clickhouse/ch/query_base.go:433-453 | a text is split into the tokens that it was made of, if no query and no separator contains a parenthesis |
| WhereText.TextRoundTripIff | pkg/go-clickhouse/ch/query_base.go:415-453 | for every nested program, the bytes of the clause are read back as the program's own tree if and only if the queries and separators of that tree contain no parenthesis |
| WhereText.TextRoundTrip | pkg/go-clickhouse/ch/query_base.go:415-453 | in particular if the program has none, whose bytes are then split into the rendered tokens |
| WhereText.GroupLooksLikeQuery | pkg/go-clickhouse/ch/query_base.go:419-453 | with parentheses this fails: every group is rendered like a single condition that holds the text of the group |
| WhereText.ClauseIsBalanced | pkg/go-clickhouse/ch/query_base.go:419-453 | if the parentheses of each query and each separator balance, those of the clause do, for every nested program |
| WhereText.ClauseSplits | pkg/go-clickhouse/ch/query_base.go:415-453 | with balanced queries, and separators without parentheses at the top, splitting the clause where no parenthesis is open gives exactly the program's items, each group as its text |
| WhereText.SameTextIff | pkg/go-clickhouse/ch/query_base.go:415-453 | two such programs have the same text if and only if they agree after each top-level group is replaced by a condition that holds its text |
| WhereText.GroupOutline | pkg/go-clickhouse/ch/query_base.go:419-430 | the text that stands for a group is that of its own clause |
| TimeGrid.CeilTimeIsCeil | pkg/org/filters.go:135-142 | for whole seconds rounding gives the least multiple that is not below |
| TimeGrid.PickInterval | pkg/org/filters.go:243-268 | the least of the usual intervals that cuts the range into at most `n` pieces, or a day |
| TimeGrid.SuitsOnce | pkg/org/filters.go:260-268 | there is only one such interval |
| TimeGrid.IntervalsAreUsual | pkg/org/filters.go:243-258 | the usual intervals are whole minutes, each longer than the one before and at most twice as long |
| TimeGrid.TimeFilter.Round | pkg/org/filters.go:125-127 | both bounds are rounded up |
| TimeGrid.TimeFilter.GroupingInterval | pkg/org/filters.go:108-123 | a given interval is used if and only if the range is shorter than a thousand of them, and leaves the bounds alone; else the interval that suits 120 pieces, but not below the least one, is used, both bounds become the least multiples not below them, and there are at most 121 points for an interval under a day |
| TimeGrid.FillTime | pkg/bunutil/fill_holes.go:76-91 | a column of the right length is returned as it is, any other replaced by the grid |
| TimeGrid.Fill | pkg/bunutil/fill_holes.go:44-74 | each place holds the value of the last row that belongs there, or the default; a column of as many rows as places, or with a row that does not fit, is returned as it is |
| TimeGrid.GridAgreesIff | pkg/bunutil/fill_holes.go:44-95 | the bucket of every time of the range has an index in range whose grid time is that bucket, if and only if the range is empty or both bounds are multiples of the interval |
| TimeGrid.FillLosesNothing | pkg/bunutil/fill_holes.go:44-74 | on such a grid every value is found at the place of its bucket, and the default everywhere else |
| TimeGrid.ShortcutAgrees | pkg/bunutil/fill_holes.go:55-58 | the shortcut for equal lengths agrees with the slow path |
| TimeGrid.ValueKeptIff | pkg/bunutil/fill_holes.go:44-74 | for any bounds, and rows that are buckets of times of the range: every value is found in the filled column, except for the first one if the first two rows go to one place |
| TimeGrid.ValueLostIff | pkg/bunutil/fill_holes.go:44-74 | a value is lost if and only if there are more or fewer rows than places, all fit, and of at least two rows the first begins before the range and the second less than an interval after its begin |
| TimeGrid.SecondTakesPlace | pkg/bunutil/fill_holes.go:60-73 | such columns of two rows, on every grid of one or more than two places |
| TimeGrid.UnalignedLosesFirst | pkg/bunutil/fill_holes.go:60-73 | with an interval of a minute, from half a minute after the epoch on, the value of the first minute is lost |
| TimeGrid.ColumnsMatchIff | pkg/bunutil/fill_holes.go:44-91 | for any bounds, and rows of the database: the columns have equal lengths and each value stands at its own time if and only if there are as many rows as places, or all rows fit and the grid begins at a multiple of the interval, unless there are none |
| TimeGrid.SecondRowUnplaced | pkg/bunutil/fill_holes.go:60-91 | of two rows on a grid of one place, which begins with the first, both values are shown and one time |
| TimeGrid.ColumnsOfDifferentLengths | pkg/bunutil/fill_holes.go:60-91 | so it is with an interval of a minute, of a minute and a half |
| SqlTokenizer.Lexer.Advance | pkg/bunlex/lexer.go:34-38 | one step, not beyond the end |
| SqlTokenizer.Lexer.Rewind | pkg/bunlex/lexer.go:40-44 | one step back, not before the beginning |
| SqlTokenizer.Lexer.NextByte | pkg/bunlex/lexer.go:46-53 | the next character, or NUL at the end |
| SqlTokenizer.Lexer.ReadQuotedSQL | pkg/bunlex/lexer.go:139-158 | reads up to the first quote that is neither escaped nor doubled, or to the end; the text is exactly what was read |
| SqlTokenizer.Lexer.Number | pkg/bunlex/lexer.go:160-197 | reads a number with at most one point and one exponent; the text is exactly what was read |
| SqlTokenizer.Tokenizer.Ident | pkg/sqlparser/tokenizer.go:74-86 | the longest run of identifier characters |
| SqlTokenizer.Tokenizer.QuotedText | pkg/sqlparser/tokenizer.go:93-111 | a quoted value or name, or the error for an unterminated one |
| SqlTokenizer.Tokenizer.NextToken | pkg/sqlparser/tokenizer.go:43-72 | the token that the scan of the remaining text gives |
| SqlTokenizer.ScanConsumes | pkg/sqlparser/tokenizer.go:43-113 | every token is exactly the non-empty text consumed for it, and an unterminated quote consumes the rest |
| SqlTokenizer.TokenBegins | pkg/sqlparser/tokenizer.go:43-113 | the type of a token by its first character, and how far each type reaches |
| SqlTokenizer.QuoteEndIff | pkg/bunlex/lexer.go:139-158 | a quoted text ends at a quote after a text of escaped characters, doubled quotes and others, and before no second quote |
| SqlTokenizer.AnyValueQuoted | pkg/bunlex/lexer.go:139-158 | any value, with its quotes and backslashes doubled, is read as one token |
| SqlTokenizer.NumberEndIff | pkg/bunlex/lexer.go:160-197 | a number is the longest text of digits with at most one point and one exponent, after which a minus may stand |
| SqlTokenizer.KeywordsConcat | pkg/tracing/span_attrs.go:327-349 | the keywords of a statement are those of its tokens one by one, in order |
| SqlTokenizer.LosslessIff | pkg/sqlparser/tokenizer.go:43-113 | the token texts together are always a prefix of the statement, and all of it if and only if no token begins at a NUL and no quote is unterminated |
| SqlTokenizer.CleanIffErrorFree | pkg/sqlparser/tokenizer.go:43-113 | without NUL bytes only errors make a scan stop early |
| SqlTokenizer.LosslessIffErrorFree | pkg/sqlparser/tokenizer.go:43-113 | of a statement without NUL bytes the token texts make up all of it if and only if the tokenizer meets no unterminated quote on its way |
| SqlTokenizer.QuotedValueIsKept | pkg/sqlparser/tokenizer.go:93-99 | a statement with a quoted value is such a statement |
| SqlTokenizer.ZeroLosesTheRest | pkg/bunlex/lexer.go:46-53 | what follows a NUL byte is lost |
| SqlTokenizer.HashDBStmt | pkg/tracing/span_attrs.go:327-349 | the loop ends on every statement, although an error does not stop it, and hashes its keywords in order |
| QueryRows.BlockIter.Release | pkg/go-clickhouse/ch/db.go:193-199 | the connection is handed back, as broken exactly if there was an error |
| QueryRows.BlockIter.Close | pkg/go-clickhouse/ch/proto.go:488-498 | afterwards the connection has been released exactly once |
| QueryRows.BlockIter.Read | pkg/go-clickhouse/ch/proto.go:523-561 | reads packets up to the next block, the end or an error, and passes over all others |
| QueryRows.BlockIter.Next | pkg/go-clickhouse/ch/proto.go:504-521 | the next block; at the end or after an error the connection is released, and never again |
| QueryRows.RowsAreBlocks | pkg/go-clickhouse/ch/proto.go:504-561 | from any position on, what is read are the rows of all blocks before the first packet that ends the stream |
| QueryRows.EndsWellIff | pkg/go-clickhouse/ch/proto.go:504-561 | the stream ends without an error if and only if that packet is there and is the end of the stream |
| QueryRows.StreamRows | pkg/go-clickhouse/ch/proto.go:504-561 | both for a whole stream |
| QueryRows.Rows.CloseNow | pkg/go-clickhouse/ch/db.go:551-555 | closes without reading on |
| QueryRows.Rows.Next | pkg/go-clickhouse/ch/db.go:569-585 | moves to the next row of the stream across block borders and empty blocks: none is skipped and none comes twice |
| QueryRows.Rows.Scan | pkg/go-clickhouse/ch/db.go:591-615 | hands out the row that Next has moved to, once; after the end it reports the error of the stream |
| QueryRows.Rows.Close | pkg/go-clickhouse/ch/db.go:538-549 | reads what is left; the connection is released exactly once, as broken exactly if the stream fails |
| QueryRows.ScanOne | pkg/go-clickhouse/ch/db.go:626-635 | the first row or the information that there is none; the error is lost if and only if the stream fails before its first row; the connection is released exactly once in every case |
| QueryRows.ReadAll | pkg/go-clickhouse/ch/db.go:569-615 | reading row by row gives what is left of the current block and then the rows of all blocks before the first packet that ends the stream, in order, and releases the connection exactly once |
| QueryRows.ReadStream | pkg/go-clickhouse/ch/db.go:538-615 | a query gives the rows of all blocks before the first packet that ends the stream; the connection is kept if and only if that one is there and is the end of the stream |

## Left out

- QueryPrecedence.ExprPrecedence: builds new trees where the code assigns `RHS` in place, so sharing of subtrees between queries is not captured.
- QueryPrecedence.GroupedConventionallyIff: says nothing about `=`, which the span grammar accepts but no row of the table lists, so that it has no precedence; the same goes for `SuffixesGroupedIff`.
- The grammars of the query languages, apart from how the parser calls the rewriting, and the ClickHouse text made from a span query: its case for parentheses calls itself on the same node.
- TimeseriesJoin.Join: keys series by their attributes, not by hashed bytes; hash collisions and the separator '0' between key parts are not modelled. Operands have equally many points, as a query returns them.
- TimeseriesJoin.JoinExactly: for distinct attributes on each side, as grouping gives them; that repeated ones find the last left series is part of `Join` only.
- The evaluation of other metric expressions, and aliases of metrics, of which only one branch is live.
- Migrations.RunGood: registered names are distinct and do not disappear between calls.
- The SQL of migrations, the migration lock, the dry-run option and the creation of migration files. A collapsing read is modelled by sums of signs, and the library's sort by an insertion sort on distinct names.
- TraceShow.ShowTrace: ids are distinct, as the query that reads spans makes them; without that the map keeps the last span of an id.
- TraceShow.ShowSpan: does not sort the events of a node and does not compute its two percentages, which no other part of the page depends on.
- TraceShow.Walk: takes the library's sort of children to give some ordered permutation.
- Events are kept as spans instead of being copied into event records; the id of a made-up root is a parameter; decoding of spans is left out.
- NotificationLadder.NextSpanCountThreshold: requires a count below the last rung, since by `ClimbEndsIff` the loop does not end otherwise.
- AlertWriters.HandleError: has the same requirement, and takes the alert that the query for the group found as a parameter.
- AlertWriters.CheckOpenAlert: takes CheckNumPoint to be positive.
- The deletion of alerts, the search for the alert of a series, the scheduling and delivery of notifications, and the texts of alerts.
- AntiFlapping.OpeningAndClosingApart: for one series with fixed bounds to which a point is added each minute and whose points do not change later.
- CounterConversion.Conservation: floating-point counters are real numbers, so rounding is not modelled; 64-bit integers wrap.
- CounterConversion.ProcessDatapoint: number points and gauges; the histogram cases of the switch are not part of it.
- CounterConversion.ProcessDatapoints: batches of counters and gauges, where the datapoints of one counter are all cumulative and come in without a sum; histogram points are converted by `ConvertHistogramPoint`. The key stands for metric and attributes without hash collisions, and evictions may hit any keys.
- Exponential histograms: their delta is computed but never stored.
- HistogramConversion.NewBFloat16Histogram: rounding to bfloat16 and the next float are arbitrary functions; the numbers themselves are real.
- ServiceGraphStore.EdgeStore.WithEdge: what later calls do to a stale table entry as built is not followed beyond the first eviction.
- ServiceGraph.OrderDoesNotMatter: the three durations of a side stand as one; dropping of edges when the channel is full is left out.
- WhereBuilder.RoundTrip: for non-empty queries and separators; the function of a group is given by the calls that it makes; formatting of arguments and PREWHERE are left out.
- TimeGrid.FillTime: buckets are multiples of the interval counted from the epoch, as the database computes them for these intervals; the filling of maps of columns is left out.
- SqlTokenizer.HashDBStmt: a digest is the sequence of written texts; characters stand for bytes and upper case is that of ASCII.
- QueryRows.Rows.Next: packets are blocks of whole rows, the end, an error, or something else; the wire format, the conversion of columns, cancellation and retries are left out.
- HTTP, gRPC and command handlers, authentication, configuration, the user interface, and the scheduling of goroutines and timers.
