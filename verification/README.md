# Verified model of the event analytics service

A Dafny model of the parts of the service whose correctness is hardest to see from the
code, with proofs. `dafny verify dfyconfig.toml` checks all of it.

- **Ingestion** (`Events`, `EventStore`, `StreamProtocol`, `PollProgram`,
  `DeliveryGuarantees`, `IngestionLoop`). One consumer reads a Redis Stream group, drops
  invalid payloads, stores valid events in one conflict-ignoring insert and acknowledges
  afterwards. `StreamProtocol` is a step machine in which every command can be carried out,
  refused, or carried out without an answer, and in which the process can die and the group
  can disappear between any two steps. `IngestionLoop` is the same loop as classes and
  methods, proved equal to the machine. The main result is that this retrying, crashing loop
  implements a plain fold over the stream in which the first write of an id wins. It drains
  the stream even when failures, crashes and restarts keep interleaving with successful
  iterations.
- **Explore queries** (`ExploreQueries`, `ExploreCompiler`, `ViewTableRows`). The validator
  accepts exactly the well-formed queries, and the compiler's column pruning preserves the
  set of legal answers of every query on every database.
- **Generated views** (`GeneratedViews`). The six views as aggregates of the stored events,
  consistent with each other and with the stream. The funnel is a LEFT JOIN under GROUP BY.
- **Tree walks** (`LazyImports`, `SqlPolicy`). The guard with mutable depth counters equals a
  judgement about ancestors. The flat relation walk of the SQL policy is compared with
  scope-aware name resolution: they agree exactly when no stored relation shares a name with
  a common table expression, and a query where they differ is given.
- **View catalog** (`ViewCatalog`). Soundness over all runs of create, replace and delete, in a
  database that would replace or drop a generated view if asked to: that none is lost is
  proved from the service's reserved names.
- **Event generator** (`Numerals`, `EventIds`, `EventTimes`, `Identifiers`,
  `TrafficWindows`). Event ids as a permutation of 64-bit numbers, the range of timestamps,
  fresh names with a pigeonhole bound, and the window schedule.
- **Small machines** (`PythonText`, `Traceparent`, `Lifecycle`). The `traceparent` parser of
  section 3.2.2 of W3C Trace Context, and the process lifecycle.

Code that updates state is a class or a method with a loop; its contract ties the new state
to a function, and the lemmas are about that function.

## Environment of the ingestion protocol

- XREADGROUP with id `0` returns the consumer's pending entries in id order and changes
  nothing; with id `>` it delivers the next entries, moves last-delivered past them and adds
  them to the pending list. XACK is one atomic removal. The insert is one atomic transaction.
- Any command may fail, and may take effect although the caller sees an error.
- There is one consumer name (backend/app/event_analytics/constants.py:10) and one running
  process. The batch size is fixed and at least 1
  (backend/app/platform/config/stream_config.py:26); only the progress results need that.
- Trimming (event_generator/sinks.py:80-86) never removes an entry that is undelivered or
  pending. When the group is lost and created again at 0-0, it starts over at the first
  entry that is still there.
- UTF-8 decoding, `json.loads` and the event schema are deterministic partial functions
  (`Codec`); random draws are arbitrary values in range.
- A message id is the position of the entry in the stream's history.

## Where code and documentation differ

- The generator calls the start time the lower bound of event timestamps
  (event_generator/generator.py:463). The code cuts it to milliseconds, so a timestamp can
  precede a start time that has finer microseconds. `EventTimes.NeverBeforeStartIff` gives
  the exact condition and `EventTimes.DrawableIff` the exact range.
- The output label of a joined query is documented as a stable qualified column name
  (backend/app/event_analytics/infrastructure/repositories/postgres_analytics_query_repository.py:482-491).
  Two columns can share one; `ExploreCompiler.LabelsDistinctIff` says when.
- The SQL policy says it extracts the physical relations of a query
  (backend/app/event_analytics/application/query_policy.py:251-259).
  `SqlPolicy.FlatWalkMeaning` says what it extracts.
- The policy is to validate manual SQL against the allowlist
  (backend/app/event_analytics/application/query_policy.py:73). A reference spelt like a common
  table expression is skipped before its schema is looked at (lines 266-269), so an accepted
  text can read a relation that is qualified or not on the list.
  `SqlPolicy.AcceptedReadsPermittedIff` says when it does not, and
  `SqlPolicy.AcceptedCanReadSystemCatalog` gives a text that does.
- `_ensure_join_shape_is_allowed` checks for a dataset joined twice, which cannot happen once
  the join count is limited to one; the check is modelled and never reached.
- Section 3.2.2 of W3C Trace Context lets versions above `00` carry further fields; the code
  requires exactly four fields for every version. `Traceparent.AcceptsStandardIff` says which
  headers that refuses.
- The reserved view names are meant to protect base relations
  (backend/app/event_analytics/application/view_table_service.py:174-187). They leave out the
  names of system relations, which PostgreSQL looks up first when a view is created but not
  when a query is run. `ViewCatalog.SavedNameMeansSystemRelation` gives an input, and
  `ViewCatalog.AcceptedReadsPublicIff` the exact condition.

## Model

| member | source | states |
|---|---|---|
| `DeliveryGuarantees.EveryRunStoresAPrefix` | backend/app/event_analytics/interface/consumer_lifespan.py:127-207 | after every sequence of steps (appends, trims, reads, failed or silently successful commits, failed acks, crashes, restarts, loss and re-creation of the group) the table is the first-write-wins fold of the valid messages of some stream prefix, its ids are distinct, and the prefix reaches past every delivered valid message that is no longer pending |
| `DeliveryGuarantees.EveryRunStoresFirstWrites` | backend/app/event_analytics/interface/consumer_lifespan.py:127-207 | the same read off the raw stream: after every run the table has one row for each entry of a stream prefix whose decoded object the schema accepts and whose event id no earlier such entry has, holding that event, in stream order |
| `DeliveryGuarantees.NothingValidIsLost` | backend/app/event_analytics/interface/consumer_lifespan.py:150-166 | at every point of every run, a valid message that was delivered and is not pending has its event id in the table: acknowledging never outruns storing |
| `DeliveryGuarantees.RowsOnlyGrow` | backend/app/event_analytics/infrastructure/repositories/postgres_event_repository.py:71-107 | from any state, any further run leaves the stored rows as a prefix of the table: nothing is overwritten, reordered or deleted |
| `DeliveryGuarantees.PendingStaysInLastBatch` | backend/app/event_analytics/infrastructure/streams/redis_stream_consumer.py:75-94 | in every reachable state whatever is pending belongs to the batch delivered most recently, which has at most `batch_size` entries and is the contiguous stretch ending at last-delivered |
| `DeliveryGuarantees.NewEntriesWaitForPending` | backend/app/event_analytics/infrastructure/streams/redis_stream_consumer.py:84-94 | any step that moves the group's last-delivered position starts from an empty pending list |
| `DeliveryGuarantees.CalmIterationProgresses` | backend/app/event_analytics/interface/consumer_lifespan.py:186-207 | from any invariant state, one failure-free loop iteration lowers the number of polls still needed by exactly one, or keeps it at zero |
| `DeliveryGuarantees.LoopDrainsTheStream` | backend/app/event_analytics/interface/consumer_lifespan.py:176-207 | from any reachable state, also in the middle of a poll or with the process down, once appends and group losses stop: commands may go on failing in any way and the process may go on dying and restarting anywhere, and as soon as ceil(undelivered / batch size) loop iterations met no failure, one more if something is pending and one more if the group was lost unnoticed, nothing is undelivered or pending and the table is the fold of the whole stream |
| `DeliveryGuarantees.IterationIsNoSetback` | backend/app/event_analytics/interface/consumer_lifespan.py:186-207 | a loop iteration whose commands are refused, or carried out without an answer, never raises the number of polls still needed |
| `DeliveryGuarantees.StepIsNoSetback` | backend/app/event_analytics/interface/consumer_lifespan.py:176-201 | no single step raises that number either, a crash or restart at any point of a poll included: a batch that was delivered and lost is pending |
| `DeliveryGuarantees.PollsNeededMeaning` | backend/app/event_analytics/interface/consumer_lifespan.py:176-207 | the bound in numbers: the entries present and not delivered, in batches rounded up, one more if something is pending and one more if the group was lost unnoticed |
| `DeliveryGuarantees.CalmCountMeaning` | backend/app/event_analytics/interface/consumer_lifespan.py:186-207 | the iterations counted are exactly the rounds taken from the loop top without any failure |
| `DeliveryGuarantees.DrainedViewsCountTheStream` | backend/alembic/versions/20260425_0002_create_event_analytics_views.py:22-99 | end to end: after draining, a count over the table by any row predicate equals the number of first writes in the stream that satisfy it |
| `StreamProtocol.CommitExtendsPrefix` | backend/app/event_analytics/infrastructure/repositories/postgres_event_repository.py:71-107 | inserting a batch that misses no valid message onto a stored prefix, part of it already stored or not, gives exactly the stored prefix that ends with the batch |
| `StreamProtocol.StoredMeaning` | backend/app/event_analytics/infrastructure/repositories/postgres_event_repository.py:90-107 | the fold over a stream prefix, without folding: exactly the first carriers of each event id, with the events they carry, in stream order |
| `StreamProtocol.EventsAtMeaning` | backend/app/event_analytics/interface/consumer_lifespan.py:137-148 | the events of a batch are those its valid entries carry, one by one and in order |
| `StreamProtocol.StepKeepsInv` | backend/app/event_analytics/interface/consumer_lifespan.py:136-166 | every single step, with every outcome of its command, keeps the protocol invariant, and the stored prefix never shrinks |
| `StreamProtocol.WithoutMeaning` | backend/app/event_analytics/infrastructure/streams/redis_stream_consumer.py:130-145 | an acknowledgement removes exactly the acknowledged ids from the pending list and keeps the others in order |
| `PollProgram.ScriptIsRun` | backend/app/event_analytics/interface/consumer_lifespan.py:176-207 | every execution of the retry loop, whatever its commands answer and whatever happens while they are awaited, is a run of the step machine, so the safety results cover it |
| `PollProgram.ContinueEndsAtLoopTop` | backend/app/event_analytics/interface/consumer_lifespan.py:185-201 | a poll always comes back to the loop top: no answer of any command leaves the loop stuck inside a poll |
| `IngestionLoop.EventStreamIngestionLoop.PollOnce` | backend/app/event_analytics/interface/consumer_lifespan.py:127-174 | the imperative poll changes stream and table exactly as the step machine does for the same answers; the counters are the size of the batch read, its valid and its invalid part, the growth of the table, and the number of entries its answered acks took off the pending list; the store counts as failed exactly when there were valid events and the commit was not confirmed; an error escapes exactly when the read failed, the ack of invalid ids was not answered, or a confirmed commit was not followed by an answered ack |
| `IngestionLoop.EventStreamIngestionLoop.RunForever` | backend/app/event_analytics/interface/consumer_lifespan.py:176-207 | the imperative retry loop reaches exactly the state of the loop program and keeps the protocol invariant from one iteration to the next |
| `IngestionLoop.EventStreamIngestionLoop.Settle` | backend/app/event_analytics/interface/consumer_lifespan.py:150-174 | after a read: invalid ids are acked first, valid events stored next, their ids acked last, and a failed store neither acks nor escapes; the counters describe the batch and the table |
| `IngestionLoop.EventStreamIngestionLoop.StoreThenAck` | backend/app/event_analytics/interface/consumer_lifespan.py:152-166 | the valid ids are acked only when the insert was reported committed; a failed or unanswered commit reports zero inserted rows |
| `IngestionLoop.EventStreamIngestionLoop.Partition` | backend/app/event_analytics/interface/consumer_lifespan.py:141-148 | one pass over the messages separates the valid ones from the ids of the invalid ones, each in stream order; each event is the one its message's entry carries, and no invalid entry carries one |
| `IngestionLoop.RedisStreamEventConsumer.ReadBatch` | backend/app/event_analytics/infrastructure/streams/redis_stream_consumer.py:75-128 | pending entries are returned when there are any; only otherwise are new entries delivered; each message carries the object its stream entry holds, or the empty object where it holds none |
| `IngestionLoop.RedisStreamEventConsumer.EnsureGroup` | backend/app/event_analytics/infrastructure/streams/redis_stream_consumer.py:55-73 | the group exists afterwards whether it was there or not; BUSYGROUP is success, every other failure is raised |
| `IngestionLoop.RedisStreamEventConsumer.AckMany` | backend/app/event_analytics/infrastructure/streams/redis_stream_consumer.py:130-145 | one atomic removal, none at all for no ids; the answer is how many entries left the pending list |
| `Events.DecodingMeaning` | backend/app/event_analytics/infrastructure/streams/redis_stream_consumer.py:148-181 | for every codec and raw entry: the payload is the JSON object that the text under the bytes key holds, or under the text key where the former is absent or empty, for bytes and for text; in every other case it is the empty object |
| `Events.CoerceMeaning` | backend/app/event_analytics/interface/consumer_lifespan.py:252-280 | an entry is valid exactly when the schema accepts the object it holds, and then carries the event the schema makes of it |
| `Events.KeysAgree` | backend/app/event_analytics/infrastructure/streams/redis_stream_consumer.py:157 | the bytes key and the text key spell the same name |
| `EventStore.TableIsFirstWriteWins` | backend/app/event_analytics/infrastructure/repositories/postgres_event_repository.py:90-107 | folding inserts over any event sequence gives distinct ids and exactly the events no earlier event shares an id with, contents included |
| `EventStore.InsertAppends` | backend/app/event_analytics/infrastructure/repositories/postgres_event_repository.py:90-107 | inserting two batches one after the other is inserting their concatenation: batch boundaries do not matter |
| `EventStore.InsertKeepsRows` | backend/app/event_analytics/infrastructure/repositories/postgres_event_repository.py:90-107 | a batch keeps all rows in place and adds exactly the ids it carries |
| `EventStore.InsertAbsorbs` | backend/app/event_analytics/infrastructure/repositories/postgres_event_repository.py:105-106 | re-inserting events whose ids are all stored changes nothing |
| `EventStore.DistinctEventsAreAllStored` | backend/app/event_analytics/infrastructure/repositories/postgres_event_repository.py:90-107 | events with pairwise distinct ids are all stored, in order |
| `EventStore.PostgresEventRepository.SaveBatch` | backend/app/event_analytics/infrastructure/repositories/postgres_event_repository.py:71-87 | all or nothing; the returned count is the growth of the table; an error may hide a commit |
| `GeneratedViews.GroupsAreExact` | backend/alembic/versions/20260425_0002_create_event_analytics_views.py:22-42 | GROUP BY yields exactly the keys that occur, each once, with the exact number of its rows counted, under COUNT(*) and under COUNT(column) |
| `GeneratedViews.GroupSumsCountRows` | backend/alembic/versions/20260425_0002_create_event_analytics_views.py:22-53 | for any predicate on keys, the counts of the matching groups add up to the number of counted rows with a matching key |
| `GeneratedViews.TypeViewMeaning` | backend/alembic/versions/20260425_0002_create_event_analytics_views.py:23-32 | the type view has a row for a type exactly when an event has it, with the number of those events |
| `GeneratedViews.UserViewMeaning` | backend/alembic/versions/20260425_0002_create_event_analytics_views.py:33-42 | the user view has a row for a user exactly when an event has that user id, with the number of those events |
| `GeneratedViews.HourlyViewMeaning` | backend/alembic/versions/20260425_0002_create_event_analytics_views.py:43-53 | the hourly view has a row for an hour and a type exactly when the hour is a whole one and an event of the type occurred within it, with the number of those events |
| `GeneratedViews.ProductViewMeaning` | backend/alembic/versions/20260425_0002_create_event_analytics_views.py:88-99 | the product view has a row for a product and a type exactly when an event has both, with the number of those events, and none without a product |
| `GeneratedViews.HourlyCountsSumToTypeCounts` | backend/alembic/versions/20260425_0002_create_event_analytics_views.py:43-53 | summing the hourly view over all hours gives the event-type view, type by type |
| `GeneratedViews.TotalsAgree` | backend/alembic/versions/20260425_0002_create_event_analytics_views.py:22-99 | type, user, hourly and funnel totals all equal the number of stored events; product totals equal the number of events with a product |
| `GeneratedViews.FunnelAgreesWithTypes` | backend/alembic/versions/20260425_0002_create_event_analytics_views.py:68-87 | the LEFT JOIN and GROUP BY of the funnel give exactly the five steps, each once; a step shows the number of events of its type, as the type view does, and zero exactly when the type has no row there |
| `GeneratedViews.ErrorRatioIsProportion` | backend/alembic/versions/20260425_0002_create_event_analytics_views.py:54-67 | the ratio is NULL exactly on the empty table, is at most one, and is within half a ten-thousandth of errors over total; the errors are the count of the funnel's last step |
| `GeneratedViews.BatchMovesCounts` | backend/app/event_analytics/infrastructure/repositories/postgres_event_repository.py:71-87 | a stored batch raises every count by its newly inserted matching rows and the total by exactly the count `save_batch` returns |
| `GeneratedViews.ViewsCountFirstWrites` | backend/alembic/versions/20260425_0002_create_event_analytics_views.py:22-99 | any count over the table of an event sequence is the number of first writes that satisfy the predicate: duplicates never inflate a view |
| `ExploreQueries.BuildExploreQuery` | backend/app/event_analytics/application/explore_query_service.py:107-156 | accepts exactly the queries the catalog knows all of, with at most one join; caps the limit at 500 and changes nothing else; a refusal carries the reason of the first check that fails |
| `ExploreQueries.AcceptableMeaning` | backend/app/event_analytics/application/explore_query_service.py:107-156 | acceptable queries by shape: a known dataset; no join, or one to another known dataset on known columns; a non-empty duplicate-free projection and an optional order column from those one or two datasets |
| `ExploreQueries.JoinRejectionMeaning` | backend/app/event_analytics/application/explore_query_service.py:159-230 | each reason that concerns datasets and joins is given exactly in its own case |
| `ExploreQueries.ColumnRejectionMeaning` | backend/app/event_analytics/application/explore_query_service.py:233-324 | each reason that concerns columns is given exactly in its own case, and for the first column at fault |
| `ExploreQueries.EnsureJoinShapeIsAllowed` | backend/app/event_analytics/application/explore_query_service.py:181-230 | succeeds exactly when there is at most one join, to another known dataset, on known columns; otherwise names the failing check |
| `ExploreQueries.EnsureSelectedColumnsAreAllowed` | backend/app/event_analytics/application/explore_query_service.py:233-267 | succeeds exactly when the projection is non-empty, duplicate-free and within the datasets in scope; otherwise emptiness, duplicates, or the first bad column |
| `ExploreQueries.DistinctCount` | backend/app/event_analytics/application/explore_query_service.py:253-261 | comparing the number of columns with the number of distinct ones detects duplicates, in both directions |
| `ExploreQueries.ByNameMeaning` | backend/app/event_analytics/application/explore_query_service.py:130-131 | the name lookup finds a dataset exactly for the listed names, and the one found bears the name |
| `ExploreCompiler.RequiredColumnsByDataset` | backend/app/event_analytics/infrastructure/repositories/postgres_analytics_query_repository.py:494-526 | the column lists hold exactly the projected, ordered and joined columns, each once and in order of first use, and one list per dataset mentioned |
| `ExploreCompiler.AppendUniqueColumn` | backend/app/event_analytics/infrastructure/repositories/postgres_analytics_query_repository.py:529-544 | adding a reference extends the exactly-required lists, order of first use included, by that reference and nothing else |
| `ExploreCompiler.BuildExploreSelectStatement` | backend/app/event_analytics/infrastructure/repositories/postgres_analytics_query_repository.py:413-457 | every dictionary and column lookup is defined for every query; one output column per projected one, in order, labelled with the column name without a join and with dataset, underscore and column name with one; order and limit are the query's; and on every database the statement over the pruned tables has exactly the legal answers of the query over the full ones |
| `ExploreCompiler.FromIsPrunedQuery` | backend/app/event_analytics/infrastructure/repositories/postgres_analytics_query_repository.py:422-438 | the compiled FROM clause over pruned tables yields, row by row and in order, the query's joined rows with the unused columns removed |
| `ExploreCompiler.StatementMeansQuery` | backend/app/event_analytics/infrastructure/repositories/postgres_analytics_query_repository.py:413-526 | for every database, NULLs and ties included, and every value order: an answer is legal for the compiled statement if and only if it is legal for the query on the full tables |
| `ExploreCompiler.StatementHasAnswer` | backend/app/event_analytics/infrastructure/repositories/postgres_analytics_query_repository.py:449-457 | for every database and every total order of values a compiled query has a legal answer, so agreement on answers is never empty |
| `ExploreCompiler.QueryTuplesMeaning` | backend/app/event_analytics/infrastructure/repositories/postgres_analytics_query_repository.py:430-438 | the joined rows of an admissible query, on the stored rows: all rows of its dataset, or all pairs with equal values other than NULL in the join columns and, under a left join, each row without a partner |
| `ExploreCompiler.AnswerMeaning` | backend/app/event_analytics/infrastructure/repositories/postgres_analytics_query_repository.py:439-457 | every answer has at most `limit` rows, each the projection of a joined row, in ascending or descending order as asked, and a joined row left out does not belong before one that is kept |
| `ExploreCompiler.ClauseRowsMeaning` | backend/app/event_analytics/infrastructure/repositories/postgres_analytics_query_repository.py:423-429 | a table clause exposes the stored rows in order and of each exactly the listed columns |
| `ExploreCompiler.JoinMeaning` | backend/app/event_analytics/infrastructure/repositories/postgres_analytics_query_repository.py:432-438 | the joined rows are exactly those SQL prescribes: matches, with NULL keys never matching, and under a left join the unmatched left rows with NULLs |
| `ExploreCompiler.JoinMultiplicity` | backend/app/event_analytics/infrastructure/repositories/postgres_analytics_query_repository.py:432-438 | each joined row appears exactly as often as there are matching pairs that give it and, under a left join, unmatched left rows that give it |
| `ExploreCompiler.AcceptedQueryResolves` | backend/app/event_analytics/infrastructure/repositories/postgres_analytics_query_repository.py:422-429 | for an accepted query the FROM clause names exactly the datasets in scope, each once and at most two, and every column it reads is one the catalog lists for its dataset |
| `ExploreCompiler.LabelsDistinctIff` | backend/app/event_analytics/infrastructure/repositories/postgres_analytics_query_repository.py:482-491 | the output labels of an accepted query are distinct exactly when it has no join or no two of its columns collide through an underscore in a dataset name |
| `ExploreCompiler.NamesAdmitCollisionIff` | backend/app/event_analytics/infrastructure/repositories/postgres_analytics_query_repository.py:482-491 | two dataset names admit a colliding pair of columns exactly when one is the other followed by an underscore and more text |
| `ExploreCompiler.LabelsCanCollide` | backend/app/event_analytics/infrastructure/repositories/postgres_analytics_query_repository.py:482-491 | an accepted query whose two different output columns have one label: `sales.daily_total` joined with `sales_daily.total` |
| `ViewTableRows.LoadViewTables` | backend/app/event_analytics/infrastructure/repositories/postgres_analytics_query_repository.py:578-607 | grouping adjacent, consistent rows gives each view once in order of appearance, views without columns included, with its metadata and exactly its own non-null columns, and flattening the groups gives back exactly the non-null column rows in order |
| `ViewTableRows.FirstNamesMeaning` | backend/app/event_analytics/infrastructure/repositories/postgres_analytics_query_repository.py:580-589 | the names of the groups are distinct and are exactly the names in the rows |
| `ViewTableRows.FirstNamesOrder` | backend/app/event_analytics/infrastructure/repositories/postgres_analytics_query_repository.py:580-589 | the names are in order of first appearance |
| `ViewTableRows.ColumnsNamedMeaning` | backend/app/event_analytics/infrastructure/repositories/postgres_analytics_query_repository.py:590-598 | the columns of a view are those of its rows that have one, in row order |
| `ViewTableRows.ColumnRowsMeaning` | backend/app/event_analytics/infrastructure/repositories/postgres_analytics_query_repository.py:590-598 | the column rows are exactly the rows that have a column, in order |
| `LazyImports.CollectFailures` | backend/app/shared/guardrails/check_lazy_import_usage.py:203-220 | the failures of a file are, in visit order, the judgements of its nodes: an import is reported exactly when some ancestor is a function or class, no ancestor is a TYPE_CHECKING guard entered by its body, and no marker justifies its line; a call exactly when it calls `__import__` or `importlib.import_module` unjustified; where the tree is in text order, so are the failures |
| `LazyImports.VisitedIff` | backend/app/shared/guardrails/check_lazy_import_usage.py:37-134 | exactly the nodes that a chain of children leads to are visited, the tests of TYPE_CHECKING guards and what is below them excepted |
| `LazyImports.ComplaintIff` | backend/app/shared/guardrails/check_lazy_import_usage.py:119-200 | which failure a node earns where it stands, by the shape of the node and of its ancestors |
| `LazyImports.ReportGoesDown` | backend/app/shared/guardrails/check_lazy_import_usage.py:37-134 | in a tree whose parts follow each other in the text, the report goes down the file: condition, body and else branch, a call and what is below it, in that order |
| `LazyImports.ReportIsJudgement` | backend/app/shared/guardrails/check_lazy_import_usage.py:37-170 | passing two booleans down the tree decides every node as its whole chain of ancestors does |
| `LazyImports.LazyImportVisitor.Visit` | backend/app/shared/guardrails/check_lazy_import_usage.py:18-35 | visiting any subtree appends exactly its report and restores both depth counters |
| `LazyImports.LazyImportVisitor.VisitIf` | backend/app/shared/guardrails/check_lazy_import_usage.py:37-54 | only the body of a TYPE_CHECKING guard is exempt: its else branch is not, and the guard's test is not visited |
| `LazyImports.LazyImportVisitor.VisitScope` | backend/app/shared/guardrails/check_lazy_import_usage.py:56-93 | functions, async functions and classes each open a scope for everything below them and close it again |
| `LazyImports.LazyImportVisitor.VisitImport` | backend/app/shared/guardrails/check_lazy_import_usage.py:95-117 | an import is reported when in scope and not under TYPE_CHECKING, unless justified |
| `LazyImports.LazyImportVisitor.VisitCall` | backend/app/shared/guardrails/check_lazy_import_usage.py:119-134 | a dynamic import call is reported before what is below it, in any context, unless justified |
| `LazyImports.HasJustification` | backend/app/shared/guardrails/_common.py:93-125 | true exactly when a marker is on the line, or on a comment above it separated from it only by comments and blank lines |
| `SqlPolicy.Validate` | backend/app/event_analytics/application/query_policy.py:93-123 | accepts exactly the short texts that are one SELECT in which no query, at any depth of WITH bodies and subqueries, changes data, selects into, locks, samples or calls an unlisted function, and which read at least one relation, all unqualified and on the request's allowlist or else on the default one; caps the limit; a refusal carries the reason of the first stage that fails |
| `SqlPolicy.ShapeReasonMeaning` | backend/app/event_analytics/application/query_policy.py:168-234 | the ladder of shape checks lets a tree through exactly when no query that occurs in it uses a forbidden construct, and names the first kind that occurs |
| `SqlPolicy.ExtractReferencedRelations` | backend/app/event_analytics/application/query_policy.py:251-283 | collects exactly the names of references not spelt like any common table expression; fails exactly when one of them is qualified, with a reason that fits such a reference |
| `SqlPolicy.FlatWalkMeaning` | backend/app/event_analytics/application/query_policy.py:251-283 | for every query tree: the walk finds the relations SQL scoping resolves to stored ones, minus those spelt like some common table expression |
| `SqlPolicy.TablesMeaning` | backend/app/event_analytics/application/query_policy.py:266 | the walk reaches exactly the references of the queries that occur in the tree, at any depth |
| `SqlPolicy.CteNamesMeaning` | backend/app/event_analytics/application/query_policy.py:260-264 | the names it skips are exactly those of the WITH lists of the queries that occur in the tree |
| `SqlPolicy.StoredRefsMeaning` | backend/app/event_analytics/application/query_policy.py:251-283 | what it is compared with: a reference resolves to a stored relation exactly when some path leads to its query and no WITH list on the path or there offers its unqualified name; a WITH list offers all its names to subqueries and to a body those before it, or all under RECURSIVE |
| `SqlPolicy.FlatWalkIsExactIff` | backend/app/event_analytics/application/query_policy.py:260-269 | the walk and SQL scoping agree exactly when no stored relation shares its name, ignoring case, with a common table expression |
| `SqlPolicy.InnerCteHidesOuterRelation` | backend/app/event_analytics/application/query_policy.py:260-269 | a query for which they differ: a WITH inside a subquery hides the stored relation of that name read outside it |
| `SqlPolicy.AcceptedReadsPermittedIff` | backend/app/event_analytics/application/query_policy.py:251-312 | every accepted text reads a stored relation; all names it reads are unqualified and allowlisted if and only if that holds of the references the walk skips for being spelt like a common table expression |
| `SqlPolicy.AcceptedCanReadSystemCatalog` | backend/app/event_analytics/application/query_policy.py:266-277 | an accepted text for which it fails: a reference qualified with `pg_catalog` is skipped because a common table expression has its name |
| `SqlPolicy.AcceptedReadsOnlyAllowlisted` | backend/app/event_analytics/application/query_policy.py:286-312 | when no stored relation shares a name with a common table expression, all names an accepted text reads are unqualified and allowlisted, under the spelling PostgreSQL looks up unless quoted with capitals |
| `ViewCatalog.EveryRunKeepsCatalogSound` | backend/app/event_analytics/application/view_table_service.py:88-132 | over every run of creations, replacements and deletions that passed the checks: the six generated views keep their definitions, metadata names equal the names of the user-created views, names are well formed and shadow neither tables nor generated views, and every relation of the schema a view reads, qualified or not, still exists |
| `ViewCatalog.CatalogRecordsLastEffect` | backend/app/event_analytics/application/view_table_service.py:88-132 | after every run a view is recorded with the definition and description of the last creation of its name that took effect, and is gone after a deletion that did |
| `ViewCatalog.UntouchedIsKept` | backend/app/event_analytics/application/view_table_service.py:88-132 | a view that no transaction took effect on keeps its definition and metadata over every run |
| `ViewCatalog.SoundSourcesExist` | backend/app/event_analytics/infrastructure/repositories/postgres_analytics_query_repository.py:347-356 | in a sound catalog every reference of a view, at any path of its definition, that means a relation of `public` has that relation |
| `ViewCatalog.ViewTableService.Create` | backend/app/event_analytics/application/view_table_service.py:88-116 | a request that fails a check leaves the database alone and gets the reason of the first failing check; one that passes is a single transaction under the normalised name that records the definition and the trimmed description, touches no other view, and keeps the catalog sound |
| `ViewCatalog.ViewTableService.Delete` | backend/app/event_analytics/application/view_table_service.py:118-132 | malformed and reserved names are refused without touching the database; otherwise view and metadata go together or, when another view depends on it, stay together |
| `ViewCatalog.NormalizedNameMeaning` | backend/app/event_analytics/application/view_table_service.py:190-205 | a name is taken without surrounding whitespace and in small letters when it then has the form of a view name, and refused otherwise |
| `ViewCatalog.PassedNameIsFree` | backend/app/event_analytics/application/view_table_service.py:174-187 | a name that passes is neither a generated view nor `events` |
| `ViewCatalog.AcceptedReadsPublicIff` | backend/app/event_analytics/application/view_table_service.py:134-172 | where a view is created from an accepted text: all it reads is allowlisted and in the schema `public` if and only if the skipped references are allowlisted and no name it reads is that of a system relation |
| `ViewCatalog.AllowlistAvoidsSystemNames` | backend/app/event_analytics/application/view_table_service.py:161-172 | a check a caller can make beforehand: no allowlisted name is a system relation's and no name is shared with a common table expression; then all an accepted text reads is allowlisted and in `public` |
| `ViewCatalog.SystemNamePasses` | backend/app/event_analytics/application/view_table_service.py:174-205 | the service lets a user-created view take the name of a system relation |
| `ViewCatalog.SavedNameMeansSystemRelation` | backend/app/event_analytics/application/view_table_service.py:134-159 | once such a view is saved, a text that reads it is accepted, and means the system relation where a view is created from it but the saved view where it is run |
| `ViewCatalog.AcceptedRunsOnPublic` | backend/app/event_analytics/infrastructure/repositories/postgres_analytics_query_repository.py:673-690 | where an accepted text is run, each reference the walk does not skip means an existing relation of `public`, whatever system relations are called |
| `ViewCatalog.AnalyticsQueryRepository.CreateOrReplaceViewTable` | backend/app/event_analytics/infrastructure/repositories/postgres_analytics_query_repository.py:185-220 | view and metadata change in one all-or-nothing transaction, refused for tables and missing sources but not for generated views; a lost reply reports an error for a change that happened |
| `ViewCatalog.AnalyticsQueryRepository.DeleteViewTable` | backend/app/event_analytics/infrastructure/repositories/postgres_analytics_query_repository.py:222-236 | DROP without CASCADE and the metadata delete in one all-or-nothing transaction, refused for tables and for views that any view depends on under a qualified or unqualified name |
| `ViewCatalog.CreateKeepsSoundIff` | backend/app/event_analytics/application/view_table_service.py:174-187 | creating or replacing keeps the catalog sound if and only if the database refuses it or the name is not one of the generated views: the reserved-name check is what protects them |
| `ViewCatalog.DeleteKeepsSoundIff` | backend/app/event_analytics/application/view_table_service.py:174-187 | deleting keeps the catalog sound if and only if the database refuses it or the name is not one of the generated views |
| `ViewCatalog.CreateThenDeleteRestores` | backend/app/event_analytics/infrastructure/repositories/postgres_analytics_query_repository.py:185-236 | a freshly created view can be deleted exactly when its name is not that of a system relation, and deleting it restores the database exactly |
| `ViewCatalog.CatalogNamesAreDistinct` | backend/app/event_analytics/application/analytics_catalog_service.py:33-49 | built-in and user dataset names listed together are pairwise distinct |
| `EventIds.EventIdsCollideIff` | event_generator/generator.py:217-222 | two ids are equal exactly when the generator prefixes are equal and the sequence numbers differ by a multiple of 2^64 |
| `EventIds.NearbyIdsDiffer` | event_generator/generator.py:217-222 | any 2^64 consecutive events of one generator have different ids |
| `EventIds.PermutedIsInjective` | event_generator/generator.py:117-118 | multiplying by the odd constant modulo 2^64 identifies two counters exactly when they are congruent modulo 2^64 |
| `EventIds.PermutedIsSurjective` | event_generator/generator.py:117-118 | within any 2^64 consecutive counters every 64-bit value is produced |
| `EventIds.FormatIsFixedWidth` | event_generator/generator.py:222 | zero-padded hexadecimal has exactly the asked width for every number that fits, and reads back as the number |
| `EventIds.EventIdFields` | event_generator/generator.py:217-222 | an id is `evt_`, then the generator's prefix in eight digits, then the multiplied counter modulo 2^64 in sixteen |
| `EventIds.FormatExample` | event_generator/generator.py:222 | padding stands on the left, the highest digit first, with small letters |
| `EventIds.EventGenerator.ChooseEventIds` | event_generator/generator.py:176-222 | a run of up to 2^64 calls returns pairwise distinct ids |
| `EventTimes.DrawableIff` | event_generator/generator.py:224-316 | the timestamps that can be drawn are exactly the whole milliseconds on the start date from the start, cut to milliseconds, up to the reference time |
| `EventTimes.SomethingCanBeDrawn` | event_generator/generator.py:250-316 | for every start not after the reference the start hour is allowed and every allowed hour has a non-empty range: no draw can fail |
| `EventTimes.NeverBeforeStartIff` | event_generator/generator.py:302-306 | no drawn timestamp precedes the start time if and only if the start time has no microseconds below a millisecond |
| `Identifiers.NameRegistry.UniqueIdentifier` | event_generator/faker_catalog.py:205-221 | ends after at most one candidate more than there are names, returns the first free candidate, and adds exactly it |
| `Identifiers.NameRegistry.BuildPool` | event_generator/faker_catalog.py:114-137 | all names of a pool are pairwise distinct, new, and keep the slug shape |
| `Identifiers.TriedFit` | event_generator/faker_catalog.py:217-219 | pigeonhole: candidates tried without success are distinct, so there are no more of them than existing names |
| `Identifiers.CandidatesDiffer` | event_generator/faker_catalog.py:215-219 | no two suffixes give the same candidate, the unsuffixed one included |
| `Identifiers.CandidateIsSlug` | event_generator/faker_catalog.py:212-218 | after truncation, stripping and suffixing, a name still starts with its prefix and consists of `[a-z0-9]` words joined by single underscores |
| `Identifiers.SlugMeaning` | event_generator/faker_catalog.py:224-225 | slugs have that shape, and the strings slugging leaves alone are exactly those of that shape |
| `Identifiers.SlugIsWords` | event_generator/faker_catalog.py:224-225 | a slug is the longest runs of letters and digits of the lower-cased text, joined by single underscores |
| `Identifiers.JoinedIsWords` | event_generator/faker_catalog.py:212-214 | joined slugs are the words of all parts, joined by single underscores |
| `Identifiers.BaseNameMeaning` | event_generator/faker_catalog.py:212-215 | a name without suffix is the prefix and as much of the joined slugs as fits, less an underscore at the cut, or `item` where nothing fits |
| `Identifiers.CandidateNumber` | event_generator/faker_catalog.py:215-219 | the suffix of the k-th candidate is k in decimal, from 2 on |
| `PythonText.LowerMeaning` | event_generator/faker_catalog.py:225 | lower-casing changes only the capitals, each to its small letter |
| `Identifiers.SlugIsIdempotent` | event_generator/faker_catalog.py:224-225 | slugging twice is slugging once |
| `TrafficWindows.TrafficProfile.NextPhase` | event_generator/traffic_profile.py:104-122 | never raises the uninitialised-window error; emits the phase of the current window; draws a new window exactly when everything emitted so far is whole windows |
| `TrafficWindows.TrafficProfile.Run` | event_generator/traffic_profile.py:104-157 | any run is a concatenation of windows of duration times rate events, all complete but possibly the last |
| `TrafficWindows.WindowsLastTheirDuration` | event_generator/traffic_profile.py:124-133 | over the reals, the delays of any number of full windows add up to exactly the seconds drawn for them |
| `TrafficWindows.PhaseRates` | event_generator/traffic_profile.py:124-157 | a window of a phase holds its duration times that phase's rate events, one every inverse rate seconds |
| `TrafficWindows.ScheduleMeaning` | event_generator/traffic_profile.py:104-122 | the phase of each event is that of the window its number falls into |
| `Traceparent.ParseUndoesPrint` | backend/app/platform/logging/context/http_request.py:129-157 | four valid fields joined by dashes, with any whitespace around, parse to the trace id and parent id |
| `Traceparent.AcceptedIsPrinted` | backend/app/platform/logging/context/http_request.py:129-157 | every accepted header is whitespace around the join of exactly one choice of four valid fields |
| `Traceparent.AcceptsStandardIff` | backend/app/platform/logging/context/http_request.py:129-157 | the code accepts exactly the headers that section 3.2.2 of W3C Trace Context accepts without further fields, stated character by character, and takes the ids from their fixed positions; it refuses exactly those of a version above `00` with further fields |
| `Traceparent.SplitJoin` | backend/app/platform/logging/context/http_request.py:141 | splitting undoes joining for parts without the separator |
| `Traceparent.JoinSplit` | backend/app/platform/logging/context/http_request.py:141 | joining undoes splitting, and no part of a split contains the separator |
| `PythonText.StripMeaning` | backend/app/platform/logging/context/http_request.py:141 | stripping removes whitespace at the two ends and nothing else |
| `Lifecycle.DrainingIsNeverReady` | backend/app/platform/lifecycle/state.py:282-326 | after every run of calls, a draining or stopping process has no healthy dependency and is not ready |
| `Lifecycle.HealthMeaning` | backend/app/platform/lifecycle/state.py:140-258 | after every run a dependency is as last observed; one observed healthy is healthy only if the process was not draining or stopping then and nothing has drained it since; one never observed is disabled |
| `Lifecycle.RunningMeaning` | backend/app/platform/lifecycle/state.py:110-138 | after every run the process is running exactly when a `mark_running` outside draining was followed by no stop and no drain |
| `Lifecycle.ReadyMeaning` | backend/app/platform/lifecycle/state.py:282-296 | after every run the process is ready exactly when it is running and each dependency was never observed, was last seen disabled, or has stayed healthy |
| `Lifecycle.DrainRecordIsLastStart` | backend/app/platform/lifecycle/state.py:260-280 | reason and time of the drain are those of the last call that answered True, and are absent before the first |
| `Lifecycle.DrainsAreSeparated` | backend/app/platform/lifecycle/state.py:260-280 | between two calls that answer True there is a stop and, after it, a restart |
| `Lifecycle.DrainEndsByStopThenRestart` | backend/app/platform/lifecycle/state.py:110-138 | after a drain started, a new one is possible only after `mark_stopping` and then `mark_running` |
| `Lifecycle.DrainingLastsUntilStop` | backend/app/platform/lifecycle/state.py:110-138 | DRAINING is left only by `mark_stopping` |
| `Lifecycle.LifecycleState.StartDraining` | backend/app/platform/lifecycle/state.py:260-280 | the whole new state, and True exactly when the process was neither draining nor stopping |
| `Lifecycle.LifecycleState.MarkDependency` | backend/app/platform/lifecycle/state.py:140-258 | each of the ten health updates changes one dependency and nothing else, and the dependency is not healthy afterwards while draining or stopping |

## Left out

- Redis, asyncpg, SQLAlchemy, sqlglot, Pydantic and Faker internals: they are the parameters and abstract operations named above.
- Payloads on which `json.loads` raises something other than a decode error, and a store that fails forever on one batch: the code has no poison-message handling, so no progress is claimed for them.
- MAXLEN trimming that overtakes the consumer, several consumers in one group, and overlapping consumer processes: the code does not handle them.
- Waiting, blocking reads, backoff and cancellation inside a command: a cancelled process is a crash step of the machine.
- Startup pings, `EventConsumerRuntime` and its shutdown: starting is one step that creates the group or fails.
- `IngestionLoop.EventStreamIngestionLoop.RunForever`: runs a given number of iterations, because a proof needs the loop to end; the stop flag decides that number.
- The `schema_version` and `ingested_at` columns of the events table and the rounding of amounts to cents: no property here depends on them.
- `GeneratedViews.TruncatedToHour`: `date_trunc` in a UTC session; other session time zones are not modelled. The order of the groups is not modelled either: SQL promises none.
- `GeneratedViews.ErrorRatioIsProportion`: the ratio is one exact rounding to four digits; the limited precision of PostgreSQL's numeric division before it is not modelled.
- `ExploreCompiler.StatementMeansQuery`: comparisons that raise a type error in SQL and self-joins of unvalidated queries are not modelled; the validator refuses self-joins.
- `ViewTableRows.LoadViewTables`: rows are taken as sorted by name with consistent metadata, which the metadata statement's ORDER BY and key provide; conversion of PostgreSQL types to column kinds is left out.
- `SqlPolicy.ExtractReferencedRelations`: the walk order of sqlglot is not modelled; it only decides which of two fitting reasons is raised when several qualified references are present.
- `ViewCatalog.EveryRunKeepsCatalogSound`: relations are those of the schema `public`; sources in other schemas, which a skipped reference can name, are taken as permanent. Views may form chains of any shape; acyclicity is not claimed because the code does not enforce it. Grants, ownership, column-compatibility errors of CREATE OR REPLACE and other database refusals are the `healthy` flag.
- `SqlPolicy.AcceptedReadsOnlyAllowlisted`: is about names only, as is the next; `ViewCatalog.AllowlistAvoidsSystemNames` says when the names mean relations of `public`.
- `SqlPolicy.AcceptedReadsPermittedIff`: is about names only. Which relation a name means depends on the search path: a database default that looks in `pg_catalog` first where views are created and dropped (`ViewCatalog.IsPublic`), and `public, pg_catalog` where queries and previews are run (`ViewCatalog.IsPublicWhenRun`).
- View previews, query execution, row-to-JSON conversion, chart suggestion, presets and dataset descriptions.
- `LazyImports.CollectFailures`: one file, already parsed into a tree whose names hold no dot, as Python's grammar has it; the path prefix and message wording, path filtering and parsing are left out. Line numbers of the tree are taken to count the lines that `lines` holds: `str.splitlines` also breaks at form feeds and U+2028, where `ast` does not, and files containing those are not modelled.
- Lower-casing is ASCII only (`PythonText.Lower`): Python's Unicode case mapping is not modelled.
- `Identifiers.NameRegistry.BuildPool`: a pool of users or products as a list of requests; prices, categories and page targets are left out.
- `EventIds.EventGenerator.ChooseEventIds`: the other fields of an event, event type weights and hour weights are left out.
- `TrafficWindows.WindowsLastTheirDuration`: delays are real numbers; floating-point rounding of `1.0 / rate` is not modelled.
- `Lifecycle.LifecycleState.MarkDependency`: stands for the ten `mark_redis_*` and `mark_database_*` methods; the lock makes each call one step and is not modelled otherwise.
- Routers, middleware, settings, role migrations, logging output, health payloads, the frontend and the proxy.
