# Starion Sync: a Dafny model

Starion keeps a Postgres table in step with a Google sheet. Each sync of a sheet is a *version*. A run
ingests the sheet into a snapshot (a schema file and a data file), the comparer writes the difference from
the previous snapshot as result files, and the loader patches the destination table with them. Triggers,
workflow runs, events and the cleaning of old snapshots happen concurrently and more than once. Beside
this, form edits go straight to the sheet through a stored index of row positions, and scripts give every
row an id.

This project models that logic and proves what it keeps. Verify with `dafny verify dfyconfig.toml` (Dafny 4.11).

## Layout

| files | content |
|---|---|
| Wrappers, Cells, FieldOrder | options, cell values and snapshots, sorted column lists |
| RowText | the JSON text of an updated row: printing, the two text replacements that delete nulls, parsing |
| SchemaDiff | `CompareSchema` and the stored schema fields |
| Compare | `QueryContext.Setup`, the cell classifier, the row pre-filter, the result files |
| Getter, ReadBack | reading the result files into the loader's maps |
| Loader | the loader as a class over its table, each step a method proved against a table function |
| Patch, PatchCases | when patching with the diff gives the current snapshot |
| ErrorFlags | the error flag kept beside the data |
| ExactlyOnce | concurrent attempts at a load: lock, mark, saved result |
| SyncProtocol, SyncControl, SyncData, SyncSafety | the syncflow protocol as steps, its invariant, its theorems |
| SyncWorkflows | the services and workflows as code, each a sequence of protocol steps |
| SyncSchema | the stored schema fields after a load and over runs, when a load fails, what it reports |
| SyncExamples | where the services end when one assumption is broken |
| Headers, IdRepair, ColumnNames | header deduplication, row ids, column names |
| IdBatches, RangeAddresses | id ranges, the requests that write them and the cells those name |
| PositionIndex, GuardedEdits | the row position index and the edits it guards |

## What is shown

**Patching.** `Patch.PatchExact` is the centre: for any two snapshots, any order of the query results and
any order of map iteration, a committed load of the comparer's files into a table that holds the previous
snapshot gives a table that holds the current one *if and only if* every changed cell of a kept column
arrives, that is, its row passes the row pre-filter and its text does not contain `,}`. `Patch.LoadShape`
says the rest without that condition: the load fails exactly when an id that was deleted earlier comes
back, and otherwise the live rows are the current ones, each with exactly the current columns, and added
columns hold the current cells. With unchanged columns the pre-filter never drops a changed row
(`PatchCases.SameColumnsExact`). Both ways of losing a cell are real: `PatchCases.PreFilterMisses` renames
columns a, b to b, c so that a changed row hashes like the old one, because only values are hashed, and
`PatchCases.CommaBraceIsLost` has a cell whose text is rewritten. `PatchCases.HypothesesCanHold` is a load
on which all hypotheses hold together.

`Patch.KeptCellLoaded` names the cell a load leaves under each kept column.

**Text.** `RowText.StripExact` gives the parsed result of the null-stripping rewrite for every row with
word-character keys; `RowText.StripFaithful` gives the exact condition under which it is the row's non-null cells.

**Exactly once.** `ExactlyOnce.EveryRun` holds for any interleaving of any number of attempts, and
`ExactlyOnce.DestinationIsReplay` says that the destination is what the committed diffs give, each applied
once. `ExactlyOnce.FilesLoadedOnce` is this for the loader's own loads of stored files. A stale attempt at a
version whose mark the next version removed does load again (`ExactlyOnce.StaleAttemptLoadsAgain`). A
transaction can end, and free its lock, before its attempt learns of it; the attempt then looks for the mark
(postgres.go, lines 507 to 519) and returns neither result nor error exactly when a commit of its version
stands at that moment (`ExactlyOnce.ReportExact`), be it its own, whose acknowledgement was lost
(`ExactlyOnce.UnheardCommitReturnsNothing`), or another attempt's (`ExactlyOnce.FailedAttemptReturnsNothing`).

**Protocol.** `SyncSafety.IdleHoldsPrevious` ties the parts together: in every run, with any triggers,
duplicate deliveries, retries and failures, whenever the syncflow is IDLING the destination holds the
snapshot of `prevVersion`, whose mark is the only one. The steps of a load in this protocol are those
`Loader.PostgresLoader.Load` is proved to do, on files `Compare` and `Getter` define.
`SyncSchema.IdleStoresSchema` says the same of the stored schema fields.

## Hypotheses

* *Hash.* No collision where it matters: `Patch.TellsCells` (one value against another, for each changed
  cell) and, for unchanged columns, `Patch.TellsRows` (two value lists of one row). Schema fields: a field
  whose marshalled form hashes alike is not updated; `SchemaDiff.SchemaRoundTrip` has this in its condition, and
  the runs of `SyncSchema.IdleStoresSchema` are those whose loads meet it. Header names: where a statement
  speaks of the cell `__StarionId`, no other name read hashes like it (`GuardedEdits.TellsId`).
* *NULL and default.* The comparer reads cells through `assumeNotNull`, so "holds" identifies NULL with the
  default of the column's type, in the cases `Patch.NullReadsAs` lists.
* *Types.* Kept columns keep their type (`Patch.KeepsTypes`).
* *Text.* Column names are hashed names and number cells hold number literals (`Getter.PrintableSnapshot`).
* *Protocol.* Four assumptions on the surroundings, all in `SyncProtocol`: a comparison meets the exact
  patch condition (`Faithful`); an event is not redelivered to a failed run of a version that has ended; an
  EXTERNAL or INTERNAL error is not reported after the version's load was committed; and when a run that
  failed after its load was committed is started again, it reads the sheet as it was read before, cell by
  cell and with the same types. The last three are tight: `SyncSafety.RedeliveryExact`,
  `HandledFailureExact` and `IngestAgainExact` say that each step keeps the invariant exactly when its
  assumption holds, and `SyncExamples` has, for each, services that break only that one and end with the
  version going back, with a loaded destination without a previous version, or IDLING with a destination that
  does not hold the stored snapshot.
* *Attempts.* A load attempt for a version is over before the next version is loaded, since its mark is then
  removed; the protocol therefore takes a load as one step.
* *Row count.* Each success event is handled once (`SyncSafety.RowsConserved`); its handling is one step.
* *Ids.* Generated ids are valid, distinct and not in the sheet (`IdRepair.GoodGenerator`).

## Where code and intent differ

* A field added with a quote in its enum text is stored with the quote doubled, since text escaped for a
  literal goes through COPY (`SchemaDiff.QuoteIsDoubled`).
* A load whose commit is not acknowledged, one whose transaction was lost while another attempt committed,
  and one whose saved result cannot be read return neither a result nor an error
  (`ExactlyOnce.ReportExact`, `ExactlyOnce.MarkGivesSavedResult`). The load is then called again
  (`SyncWorkflows.Services.LoadSheet`).
* A load that changes only the schema leaves a row flagged if and only if all its error cells lie in dropped
  columns (`ErrorFlags.SchemaLoadFlags`, `ErrorFlags.DroppedErrorStaysFlagged`).
* Form updates to `0`, `false` or an empty text are dropped (`GuardedEdits.UpdateArrives`).
* An edit gets through if and only if the stored position is that of a row with the id and the id column is
  not the first: in column A it is taken for missing (`GuardedEdits.GuardExact`, `GuardedEdits.IdInFirstColumn`).
* The header scan of a form edit runs for ever if and only if a cell repeats an earlier name whose `name (1)`
  is taken too (`GuardedEdits.ScanEndsExactly`), as with a third cell of one name.
* Without a header, the id requests are right if and only if the first entry is in row 2. With a first entry
  in row 3 its run is written one row too high (`RangeAddresses.AddressesExact`); with a later one, or none,
  an empty request for an inverted range is sent (`RangeAddresses.EmptyRequestExact`).
* A header that first occurs after repetitions of another name have reached it is renamed; which ones is
  counted in `Headers.KeptExactly`.

## Model

| member | source | states |
|---|---|---|
| Patch.PatchExact | apps/processors/loader/service/loader/postgres.go:319-344 | a committed load of the diff into a table that holds the previous snapshot gives one that holds the current snapshot if and only if every changed kept cell passes the pre-filter and holds no `,}` |
| Patch.LoadShape | apps/processors/loader/service/loader/postgres.go:639-675 | the load fails exactly when a deleted id returns; else the live rows are the current ones with exactly the current columns, and added columns hold the current cells whatever the pre-filter let through |
| Patch.RowExact | apps/processors/comparer/service/query.go:182-223 | one row after all steps holds the current row if and only if each of its changed cells arrives |
| Patch.CellExact | apps/processors/comparer/service/query.go:182-192 | one cell: class update implies a non-null current cell, so no update is lost with the nulls; when the patched cell is the current one |
| Patch.NullReadsAs | apps/processors/comparer/service/query.go:182-192 | what NULL reads as in each type: 0, false or the empty text, and no other value |
| Patch.SameCellExact | apps/processors/comparer/service/query.go:182-192 | two cells are one to the comparer only when they are equal or both read as NULL does |
| Patch.KeptCellLoaded | apps/processors/comparer/service/query.go:182-223 | the cell a load leaves under each kept column: null where a value became NULL, even one that NULL reads as, the current text where it changed otherwise, the old cell elsewhere and in rows the pre-filter drops |
| Patch.NullToValueArrives | apps/processors/comparer/service/query.go:182-192 | a cell that goes from NULL to any value NULL does not read as is classified as updated and reaches the table |
| Patch.InsertExact | apps/processors/loader/service/loader/postgres.go:757-847 | inserting rows with distinct ids fails exactly when an id is in the table, soft-deleted or not, and else adds those rows and leaves the others alone |
| Patch.PatchedAt | apps/processors/loader/service/loader/postgres.go:849-1031 | every row of the patched table: kept, new, soft-deleted or untouched, whatever order the updates come in |
| PatchCases.SameColumnsExact | apps/processors/comparer/service/query.go:213-223 | from the result files to the table with unchanged columns: exact if and only if no changed cell holds `,}` |
| PatchCases.ChangedRowPasses | apps/processors/comparer/service/query.go:213-223 | with the same columns the row pre-filter keeps every changed row |
| PatchCases.PassesExactly | apps/processors/comparer/service/query.go:213-223 | with the same columns a row passes the pre-filter if and only if a kept cell changed, so not when cells only go between NULL and what it reads as |
| PatchCases.FirstLoadHolds | apps/processors/loader/service/loader/postgres.go:301-318 | the first load into an empty table succeeds and the table holds the snapshot |
| PatchCases.PreFilterMisses | apps/processors/comparer/service/query.go:213-223 | a changed row that the pre-filter drops when columns change |
| PatchCases.CommaBraceIsLost | apps/processors/comparer/service/query.go:340-376 | a cell whose text the rewrite changes |
| PatchCases.HypothesesCanHold | apps/processors/comparer/service/query.go:176-241 | a load on which all hypotheses of the patch theorem hold and which changes the table |
| RowText.PrintParse | apps/processors/loader/service/getter/getter.go:182-215 | parsing the printed row gives its cells back |
| RowText.StripText | apps/processors/comparer/service/query.go:340-376 | the rewritten text is the text of the row without its null cells, with `,}` replaced in its strings |
| RowText.StripExact | apps/processors/comparer/service/query.go:340-376 | what parsing the rewritten text gives, for every row with word-character keys |
| RowText.StripFaithful | apps/processors/comparer/service/query.go:340-376 | the rewrite is faithful if and only if no string cell contains `,}` |
| RowText.WordNullRemoved | apps/processors/comparer/service/query.go:340-376 | a null under a name with letters of both cases, digits and an underscore is removed |
| RowText.OtherNullStays | apps/processors/comparer/service/query.go:340-376 | a null under a name with a hyphen stays in the text |
| ReadBack.GetterReads | apps/processors/loader/service/getter/getter.go:95-288 | the getter turns the comparer's files, through their text, into exactly the updated, added and nulled cells of each row |
| Getter.ParseRows | apps/processors/loader/service/getter/getter.go:182-215 | a file of row objects as a map: empty objects skipped, later rows win, one malformed object fails it |
| Getter.RowsRead | apps/processors/loader/service/getter/getter.go:182-215 | a file is read if and only if all its objects are well formed, and each id has the cells of its last non-empty object |
| Getter.ListsRead | apps/processors/loader/service/getter/getter.go:248-288 | of several rows of nulled fields for one id the last one counts |
| Getter.GetLoadData | apps/processors/loader/service/getter/getter.go:95-288 | the loader's data from the files, only schema and added rows at the first version |
| Compare.QueryContext.Setup | apps/processors/comparer/service/query.go:62-104 | sorted previous and current columns, their union, the kept and the added ones, each name once |
| Compare.QueryContext.MergeFields | apps/processors/comparer/service/query.go:62-104 | the kept columns are those in both schemas, found in one pass |
| FieldOrder.Sort | apps/processors/comparer/service/query.go:62-104 | the sorted column list, sorted and with the same names |
| FieldOrder.SortedIsCanonical | apps/processors/comparer/service/query.go:213-223 | equal column sets give equal sorted lists, so both sides hash the same columns in the same order |
| SchemaDiff.CompareService.TagFields | apps/processors/comparer/service/service.go:138-202 | every field name is tagged deleted, kept or added |
| SchemaDiff.CompareService.CompareSchema | apps/processors/comparer/service/service.go:138-202 | deleted, added, updated and kept fields and changed types are exactly those of the two schemas |
| SchemaDiff.DiffPartitions | apps/processors/comparer/service/service.go:138-202 | the four groups partition the union of the schemas; changed types are among the updates |
| SchemaDiff.SchemaRoundTrip | apps/processors/loader/service/loader/postgres.go:627-755 | applying the changes to the stored previous schema gives the current one in all attributes if and only if the hash tells every changed field and no added enum holds a quote |
| SchemaDiff.QuoteIsDoubled | apps/processors/loader/service/loader/postgres.go:192-224 | an added enum text that is stored with its quote doubled |
| SyncSchema.LoadStoresSchema | apps/processors/loader/service/loader/postgres.go:540-755 | from the comparer's files: after a committed load the stored fields are the current schema in all attributes if and only if every added enum is free of quotes and the hash tells every changed field; for the first load, if and only if no enum holds a quote |
| SyncSchema.LoadsExactly | apps/processors/loader/service/loader/postgres.go:301-344 | the comparer's files can be loaded if and only if the schema row is there, but for the first version, and no inserted id is in the table |
| SyncSchema.LoadReports | apps/processors/loader/service/loader/util.go:5-25 | a load reports the number of inserted and of deleted rows and whether a field was added, deleted or changed; the first load its rows alone |
| SyncSchema.SchemaStepExact | apps/worker/src/workflows/google-sheets/index.ts:107-165 | a protocol step keeps the stored schema right if and only if a load it commits records the schema, or a loaded version it reads again has the schema it had |
| SyncSchema.IdleStoresSchema | apps/worker/src/workflows/google-sheets/index.ts:107-165 | in every run whose loads record the schema, IDLING means the stored fields are the schema of the snapshot of `prevVersion`, or none before the first success |
| Loader.PostgresLoader.Load | apps/processors/loader/service/loader/postgres.go:260-358 | a marked version gives back its saved result, if it can be read, and changes nothing; a failure changes nothing; a commit patches table and schema and replaces the previous mark, and gives its result back if it is acknowledged |
| Loader.PostgresLoader.ApplyStatements | apps/processors/loader/service/loader/postgres.go:301-344 | the statements of a load compute `LoadDatabase`, and fail exactly when it does |
| Loader.PostgresLoader.CopySchemaFields | apps/processors/loader/service/loader/postgres.go:581-616 | one row a field, in whatever order the map gives them, adds every field once |
| Loader.PostgresLoader.LoadSchema | apps/processors/loader/service/loader/postgres.go:540-626 | the schema row exists; an empty field table then stores the first schema as it is, in all attributes, if and only if no enum holds a quote |
| Loader.PostgresLoader.LoadSchemaChange | apps/processors/loader/service/loader/postgres.go:627-755 | deleted columns leave every row and the stored fields; added and changed fields are stored |
| Loader.PostgresLoader.LoadAddedRows | apps/processors/loader/service/loader/postgres.go:757-847 | inserts every added row or fails on an id in the table; notes the rows with an error value |
| Loader.PostgresLoader.LoadRemovedRows | apps/processors/loader/service/loader/postgres.go:849-878 | soft-deletes the listed rows and nothing else |
| Loader.PostgresLoader.LoadUpdateFields | apps/processors/loader/service/loader/postgres.go:880-933 | merges the updated cells into their rows; notes the rows with an error value |
| Loader.PostgresLoader.LoadAddedFields | apps/processors/loader/service/loader/postgres.go:935-995 | merges the added columns' cells into their rows; notes the rows with an error value |
| Loader.PostgresLoader.LoadDeletedFields | apps/processors/loader/service/loader/postgres.go:997-1031 | sets the nulled cells of the listed rows to null |
| Loader.PostgresLoader.LoadRowErrorMetadata | apps/processors/loader/service/loader/postgres.go:1033-1084 | sets the flag of the noted rows and, after the first version, clears it where no error value is left |
| Loader.SetFields | apps/processors/loader/service/loader/postgres.go:880-933 | nested `jsonb_set` calls give the merged row, in whatever order the keys come |
| Loader.MarshalRow | apps/processors/loader/service/loader/postgres.go:757-847 | an added row as an object by column, and whether it holds the error value |
| ErrorFlags.LoadKeepsFlags | apps/processors/loader/service/loader/postgres.go:1033-1084 | a committed load keeps every row with an error value flagged; one that reaches the metadata step leaves no other row flagged |
| ErrorFlags.FlagsAfterLoads | apps/processors/loader/service/loader/postgres.go:319-344 | after any number of loads into an empty table, committed or failed, every row with an error value is flagged |
| ErrorFlags.FlagsExact | apps/processors/loader/service/loader/postgres.go:1033-1084 | after a committed load that changed data, exactly the rows with a cell `__Error` are flagged |
| ErrorFlags.SchemaLoadFlags | apps/processors/loader/service/loader/postgres.go:319-344 | a load that changes only the schema keeps exact flags exact if and only if no row has all its error cells in dropped columns |
| ErrorFlags.DroppedErrorStaysFlagged | apps/processors/loader/service/loader/postgres.go:319-344 | two loads after which a row is flagged without an error value |
| ExactlyOnce.EveryRun | apps/processors/loader/service/loader/postgres.go:397-505 | in every interleaving no version commits again while its mark stands, every result returned is that of a commit of its version, and an empty reply comes after such a commit |
| ExactlyOnce.ReportExact | apps/processors/loader/service/loader/postgres.go:507-519 | in any run, an attempt that looks for the mark after an error returns neither result nor error exactly when a commit of its version stands at that moment, else the error |
| ExactlyOnce.LooksAfterSearch | apps/processors/loader/service/loader/postgres.go:272-299 | in any run, only an attempt that has searched for the mark and not found it may look for it again |
| ExactlyOnce.FailedAttemptReturnsNothing | apps/processors/loader/service/loader/postgres.go:507-519 | a run in which the transaction of one attempt fails, another commits, and the first returns no error |
| ExactlyOnce.UnheardCommitReturnsNothing | apps/processors/loader/service/loader/postgres.go:344-358 | a run of one attempt that commits, does not hear of it, finds its own mark and returns neither result nor error |
| ExactlyOnce.MarkGivesSavedResult | apps/processors/loader/service/loader/postgres.go:272-285 | in any run, an attempt that finds the mark returns what the last commit of its version saved, if it can read it, and changes nothing |
| ExactlyOnce.DestinationIsReplay | apps/processors/loader/service/loader/postgres.go:414-485 | while one version is loaded at a time, the destination is what the committed diffs give, each applied once in commit order |
| ExactlyOnce.OneVersionOnce | apps/processors/loader/service/loader/postgres.go:414-485 | any number of attempts at one version commit its diff at most once, every result is that commit's, and no attempt returns without an error before it |
| ExactlyOnce.MutualExclusion | apps/processors/loader/service/loader/postgres.go:414-436 | in any run two attempts never hold one lock, so not that of one version |
| ExactlyOnce.AloneIsLoad | apps/processors/loader/service/loader/postgres.go:260-358 | an undisturbed attempt goes by steps from its begin to the saved result, the committed load or the error |
| ExactlyOnce.LoadIsAlone | apps/processors/loader/service/loader/postgres.go:260-358 | `PostgresLoader.Load`, called on stored files, leaves the destination, the marks and the reply that the steps of an undisturbed attempt leave |
| ExactlyOnce.FilesLoadedOnce | apps/processors/loader/service/loader/postgres.go:414-485 | any number of attempts of the loader at one version's files leave the destination as it was or as one load makes it, and every result returned is that load's counts |
| ExactlyOnce.StaleAttemptLoadsAgain | apps/processors/loader/service/loader/postgres.go:465-478 | a history in which a stale attempt commits a version a second time, after the next version removed its mark |
| SyncSafety.IdleHoldsPrevious | apps/worker/src/workflows/google-sheets/index.ts:107-165 | in every run, IDLING means the destination holds the snapshot of `prevVersion` and has only its mark, or is empty before the first success |
| SyncSafety.OneVersionInProgress | apps/controller/src/modules/workflow/workflow.service.ts:54-75 | in every run at most one workflow run is active, it is of the current version, and `prevVersion < version` |
| SyncSafety.VersionsAdvance | apps/worker/src/workflows/google-sheets/index.ts:156-200 | the version goes up by one at a success or a handled failure, to one with no run and no event, and never changes otherwise |
| SyncSafety.NothingNeededIsCleaned | apps/post-processor/src/modules/cleaner/google-sheets/index.ts:19-73 | in every run a comparison that is about to start finds both snapshots and a load its diff, however late or often success events are handled |
| SyncSafety.RowsConserved | apps/post-processor/src/modules/syncflow/syncflow.service.ts:54-59 | when each success event was handled once, the row count is that of the last loaded snapshot |
| SyncSafety.StepKeepsSafe | apps/worker/src/workflows/google-sheets/index.ts:56-244 | every step of the protocol keeps the invariant |
| SyncSafety.DiffCanBeLoaded | apps/processors/loader/service/getter/getter.go:95-288 | whatever the comparer stored, the getter can read and the loader can work with |
| SyncSafety.HandledFailureExact | apps/worker/src/workflows/google-sheets/index.ts:190-244 | after a handled failure the destination is right if and only if the version's load was not committed |
| SyncSafety.RedeliveryExact | apps/worker/src/modules/broker/broker.controller.ts:21-69 | starting a failed run again keeps the invariant if and only if its version has not ended |
| SyncSafety.IngestAgainExact | apps/worker/src/workflows/google-sheets/index.ts:107-133 | with unchanged types, reading the sheet again after its load was committed keeps snapshot and destination in step if and only if the two readings agree cell by cell |
| SyncExamples.AnotherSheetRead | apps/worker/src/workflows/google-sheets/index.ts:107-165 | load committed, run failed, event again, another reading, mark found: IDLING with the first reading in the destination and the second as the snapshot, right if and only if they agree |
| SyncExamples.ChangedCellRead | apps/worker/src/workflows/google-sheets/index.ts:107-165 | so it ends wrong when one cell changed between the readings |
| SyncExamples.ErrorAfterCommit | apps/worker/src/workflows/google-sheets/index.ts:190-244 | a handled error after the commit ends IDLING with a loaded destination and no previous version |
| SyncExamples.VersionGoesBack | apps/worker/src/modules/broker/broker.controller.ts:21-69 | an event of an ended version that starts its failed run again lets the version go from 3 to 2 |
| Patch.HeldSheet | apps/processors/comparer/service/query.go:182-192 | a table that holds one reading of a sheet holds another with the same types if and only if the readings agree |
| SyncControl.OneActive | apps/worker/src/modules/broker/broker.controller.ts:21-69 | two active runs are the same run |
| SyncControl.VersionEnds | apps/worker/src/workflows/google-sheets/index.ts:156-200 | when a version ends, every run of it and of earlier versions has ended and every event of them has started its run |
| SyncControl.ControlKept | apps/controller/src/modules/workflow/workflow.service.ts:77-215 | triggers, events, runs and failures keep the order of runs and versions |
| SyncData.NextLoad | apps/processors/loader/service/loader/util.go:20-25 | a committed load takes the destination to the current snapshot, and added minus deleted rows is the difference of the two sizes |
| SyncData.CleansBelow | apps/post-processor/src/modules/cleaner/google-sheets/index.ts:19-73 | cleaning deletes only versions below the current one and, until its success is out, below the previous one |
| SyncWorkflows.Services.HandleWorkflowTriggered | apps/controller/src/modules/workflow/workflow.service.ts:77-215 | schedules an idle syncflow and tells its version and previous version; does nothing when it is not idle or the trigger is refused |
| SyncWorkflows.Services.ExecuteWorkflow | apps/worker/src/modules/broker/broker.controller.ts:21-69 | starts the run an event asks for unless its id is taken by a run that has not failed |
| SyncWorkflows.Services.CheckAndUpdateStatusBeforeStart | apps/worker/src/modules/workflow/workflow.service.ts:18-44 | the status is RUNNING afterwards |
| SyncWorkflows.Services.FullSyncErrorHandler | apps/worker/src/workflows/google-sheets/index.ts:190-244 | an EXTERNAL or INTERNAL error ends the version, any other only the run |
| SyncWorkflows.Services.GoogleSheetsFullSync | apps/worker/src/workflows/google-sheets/index.ts:167-188 | sets the status RUNNING and asks for the download |
| SyncWorkflows.Services.GoogleSheetsDownload | apps/worker/src/workflows/google-sheets/index.ts:56-105 | asks for the rest of the sync |
| SyncWorkflows.Services.LoadSheet | apps/worker/src/workflows/google-sheets/index.ts:138-144 | the load activity ends with the result saved for the version, also after a call that gave nothing back, or leaves the destination alone |
| SyncWorkflows.Services.GoogleSheetsProceedSync | apps/worker/src/workflows/google-sheets/index.ts:107-165 | a sync that succeeds leaves the sheet it read in the destination under the new previous version; one that ends in a handled error leaves the destination alone and the next version ready |
| SyncWorkflows.Services.SyncOnce | apps/worker/src/workflows/google-sheets/index.ts:56-188 | an undisturbed sync of a fresh version succeeds unless its load fails |
| SyncWorkflows.Services.HandleSyncflowSucceed | apps/post-processor/src/modules/syncflow/syncflow.service.ts:28-69 | deletes the previous version's objects and moves the row count by added minus deleted |
| Headers.Dedupe | apps/processors/downloader/scripts/common/get-csv-header/main.go:70-91 | each name stays if it is free, else takes its first free suffix, in place |
| Headers.DecimalReads | apps/processors/downloader/scripts/common/get-csv-header/main.go:80-80 | the suffix number, read by its character codes, is that number, with no leading zero |
| Headers.FreeName | apps/processors/downloader/scripts/common/get-csv-header/main.go:78-88 | the suffix search stops, at the first free suffix |
| Headers.TriedBound | apps/processors/downloader/scripts/common/get-csv-header/main.go:78-88 | pigeonhole: there are never more used suffixes than used names |
| Headers.DedupedIsDistinct | apps/processors/downloader/scripts/common/get-csv-header/main.go:70-91 | the names are pairwise distinct |
| Headers.UnchangedIffDistinct | apps/processors/downloader/scripts/common/get-csv-header/main.go:70-91 | the names are unchanged if and only if they were distinct |
| Headers.Idempotent | apps/processors/downloader/scripts/common/get-csv-header/main.go:70-91 | deduplicating twice changes nothing |
| Headers.KeptExactly | apps/processors/downloader/scripts/common/get-csv-header/main.go:70-91 | in terms of the headers before it: a header keeps its name if and only if it is new and, where it reads m (k), the repetitions of m and the kept m (1) to m (k-1) before it are fewer than k |
| Headers.FirstIsKept | apps/processors/downloader/scripts/common/get-csv-header/main.go:70-91 | a first occurrence that is no suffixed form of an earlier header is kept |
| Headers.TakenByRepetition | apps/processors/downloader/scripts/common/get-csv-header/main.go:70-91 | a first occurrence that a repetition has taken |
| IdRepair.FindAndFix | apps/processors/downloader/scripts/common/find-and-fix-id-col/main.go:83-113 | the loop computes the two outputs of `RepairAll` |
| IdRepair.IdsAreRepaired | apps/processors/downloader/scripts/common/find-and-fix-id-col/main.go:83-113 | one line a row under its row number, distinct valid ids, a valid id kept exactly at its first occurrence, and the short output is the replaced rows in order |
| IdBatches.GenerateUpdateIdData | apps/processors/downloader/scripts/excel/update-id-column/main.go:37-103 | the loop computes the batches of `GroupAll` |
| IdBatches.BatchesExact | apps/processors/downloader/scripts/excel/update-id-column/main.go:37-103 | the batches write exactly the file's pairs and the header, for increasing rows, if and only if there is a header or the first row is not 3 |
| IdBatches.EmptyBatchExact | apps/processors/downloader/scripts/excel/update-id-column/main.go:60-102 | the batch at row 2 stays empty exactly without a header and with no entry in row 2 or 3 to start with |
| RangeAddresses.ConvertToA1Notation | apps/processors/downloader/scripts/excel/update-id-column/main.go:24-36 | the column's letters and the row's digits, which read back as column and row |
| RangeAddresses.NotationReads | apps/processors/downloader/scripts/excel/update-id-column/main.go:24-36 | read back by its letters and digits, the notation gives column and row |
| RangeAddresses.AddressReads | apps/processors/downloader/scripts/excel/update-id-column/main.go:111-111 | read back, an address gives column, first and last row |
| RangeAddresses.GenerateUpdateDataInJson | apps/processors/downloader/scripts/excel/update-id-column/main.go:104-126 | one request for each batch under the address of its range, and no other |
| RangeAddresses.AddressIsUnique | apps/processors/downloader/scripts/excel/update-id-column/main.go:111-111 | an address names one range |
| RangeAddresses.AddressesExact | apps/processors/downloader/scripts/excel/update-id-column/main.go:104-126 | the cells of the ranges that the addresses read as get exactly the wanted ids, and no other cell any, if and only if there is a header or the first row is not 3 |
| RangeAddresses.EmptyRequestExact | apps/processors/downloader/scripts/excel/update-id-column/main.go:104-126 | exactly when a request without ids, for the inverted range from row 2 to row 1, is sent |
| RangeAddresses.GoodRequestsExactly | apps/processors/downloader/scripts/excel/update-id-column/main.go:104-126 | cells and ranges are right if and only if there is a header or the first entry is in row 2 |
| IdBatches.BatchesAreDisjoint | apps/processors/downloader/scripts/excel/update-id-column/main.go:37-103 | the ranges do not overlap and hold at most `MAX_BATCH_SIZE` ids |
| IdBatches.BatchesAreMaximal | apps/processors/downloader/scripts/excel/update-id-column/main.go:37-103 | two ranges touch only when the first holds 20000 ids |
| ColumnNames.ConvertToExcelColumnName | form-sync/main/src/utils/index.ts:28-39 | the loop gives the name of a column counted from 0, and nothing for a negative one |
| ColumnNames.ConvertToA1Column | apps/processors/downloader/scripts/excel/update-id-column/main.go:24-32 | the loop gives, for a column from 1, the name of the column one lower counted from 0, and one character for a lower number |
| ColumnNames.A1ColumnExact | apps/processors/downloader/scripts/excel/update-id-column/main.go:24-32 | for a column from 1 this is the other form's name one lower and decodes to the column; for a lower number, the flag's default 0 among them, one character that is A or before it |
| ColumnNames.NumberOfName | form-sync/main/src/utils/index.ts:28-39 | decoding a name gives the column back |
| ColumnNames.NameOfNumber | form-sync/main/src/utils/index.ts:28-39 | every non-empty word of letters is the name of the column it decodes to |
| ColumnNames.NamesAreOrdered | form-sync/main/src/utils/index.ts:28-39 | names are ordered by length, then alphabetically, exactly as their columns |
| PositionIndex.UploadRowMetadata | form-sync/module/metadata/service/google-sheets/service.go:209-293 | the differences in the order of the lines, cut into batches of 1000 and a last one of 1 to 1000 |
| PositionIndex.WrittenExactly | form-sync/module/metadata/service/google-sheets/service.go:209-293 | a line is written exactly when it is below the header, its id is valid and the stored position is another |
| PositionIndex.RefreshIsRebuild | form-sync/module/metadata/service/google-sheets/service.go:209-293 | in whatever order batches and writes are carried out, every listed id maps to its line afterwards and nothing else changes |
| PositionIndex.RebuildExactly | form-sync/module/metadata/service/google-sheets/service.go:209-293 | the refresh is a rebuild if and only if the listed ids are distinct |
| PositionIndex.DuplicateIdDependsOnOrder | form-sync/module/metadata/service/google-sheets/service.go:322-329 | with an id on two lines the order of the writes decides |
| GuardedEdits.FormSync.GetHashedHeaders | form-sync/main/src/modules/formsync/google-sheets/index.ts:497-534 | the columns by hashed name, each column under one name at most, or none when the scan cannot end |
| GuardedEdits.HeadersExact | form-sync/main/src/modules/formsync/google-sheets/index.ts:512-531 | whatever the hash: a key is mapped to a column exactly when that is the last one whose name, or `name (1)` for a repetition, hashes to it |
| GuardedEdits.ColumnsByName | form-sync/main/src/modules/formsync/google-sheets/index.ts:512-531 | with a hash that tells the names, each entered cell has its own column under its name, or `name (1)` for a repetition, and there is no other key |
| GuardedEdits.IdColumnExact | form-sync/main/src/modules/formsync/google-sheets/index.ts:512-531 | the id column is the first header cell that reads `__StarionId` |
| GuardedEdits.FormSync.HandleDelete | form-sync/main/src/modules/formsync/google-sheets/index.ts:292-351 | whatever the stored position, removes exactly one row, which holds the id below the cell `__StarionId`, or nothing; it does so exactly when the stored position is of such a row and that cell is not in column A |
| GuardedEdits.FormSync.HandleUpdate | form-sync/main/src/modules/formsync/google-sheets/index.ts:353-439 | whatever the stored position, changes one row that holds the id below the cell `__StarionId`, only under named headers with truthy values, never the id cell, or nothing; which error otherwise |
| GuardedEdits.FormSync.HandleInsert | form-sync/main/src/modules/formsync/google-sheets/index.ts:215-290 | adds one row at the stored row count: the record id below the cell `__StarionId`, whatever the data say, every other cell as the data give it, and nothing below that header without a record id; leaves the other rows alone, or changes nothing; which error otherwise |
| GuardedEdits.GuardExact | form-sync/main/src/modules/formsync/google-sheets/index.ts:314-348 | each outcome of the guard in terms of the sheet and the stored position |
| GuardedEdits.IdInFirstColumn | form-sync/main/src/modules/formsync/google-sheets/index.ts:318-324 | a sheet with the id in column A: the row at the stored position holds the id and the delete is refused |
| GuardedEdits.FreshIndexPasses | form-sync/main/src/modules/formsync/google-sheets/index.ts:314-329 | right after an index refresh, in whatever order its writes were carried out, the guard lets an edit of every listed id through |
| GuardedEdits.IdCellKept | form-sync/main/src/modules/formsync/google-sheets/index.ts:412-422 | an edit never reaches the id cell, since no other header shares its column |
| GuardedEdits.UpdateArrives | form-sync/main/src/modules/formsync/google-sheets/index.ts:412-422 | a requested value arrives if and only if it is none of null, the empty text, 0 and false, or is already there |
| GuardedEdits.DeletedIdIsGone | form-sync/main/src/modules/formsync/google-sheets/index.ts:328-346 | with an id on one row only, no row holds it after the delete |
| GuardedEdits.ScanEndsExactly | form-sync/main/src/modules/formsync/google-sheets/index.ts:512-531 | in terms of the names: the scan has no end if and only if a cell repeats an earlier name whose `name (1)` is taken, by its own cell or an earlier repetition |
| GuardedEdits.HeadersRead | form-sync/main/src/modules/formsync/google-sheets/index.ts:497-534 | headers are read exactly when there is a header row and the scan of its first 26 cells ends |
| GuardedEdits.ThirdNameHangs | form-sync/main/src/modules/formsync/google-sheets/index.ts:512-531 | a third header cell of one name leaves the scan without an end, whatever stands between |
| GuardedEdits.SuffixedNameHangs | form-sync/main/src/modules/formsync/google-sheets/index.ts:512-531 | so does a repetition after a cell that holds its `name (1)` |

## Left out

- Services, stores and brokers (S3, Postgres, Mongo, Kafka, Temporal, ClickHouse, the sheet APIs) appear only through their effect: maps of objects, a transactional table, sets of events, a registry of workflow ids.
- SQL text: each statement is modelled by what it does; only the null-stripping rewrite and the doubled quote of an added enum are modelled as text.
- Patch.LoadShape: does not cover statements that fail because of their text, as for an updated cell whose quoted Go text is no JSON escape or a changed field whose name holds a quote; such a load fails and changes nothing.
- Array columns and dates as such: a cell is null, a text, a number literal or a boolean.
- Hash values: the three hashes are parameters with the hypotheses above.
- ExactlyOnce.DestinationIsReplay: does not say what the destination holds when two versions are loaded at once, since that depends on row locks between different statements.
- A `deletedFields` list, an added-rows header or a row object that repeats a key, which the comparer never writes.
- Stale activity attempts: an ingest, status or state update that takes effect after its retry, or after its run has ended.
- Events that are lost for good, and so progress: a syncflow can stay SCHEDULED or RUNNING.
- SyncWorkflows.Services.HandleWorkflowTriggered: one undisturbed call; the protocol interleaves its check, its write and its event.
- SyncWorkflows.Services.GoogleSheetsDownload: does not model the file it downloads or the check for a newer one; the snapshot comes with the ingest step.
- Failures after a run has emitted its next event: those activities are retried until they succeed.
- Metadata and limits of a trigger, deleted syncflows and data sources, and the webhooks.
- The Excel sync workflow and the Excel twins of the form and metadata services.
- Headers.Dedupe: starts from the normalised names; white space, punctuation and quoting are not modelled.
- IdBatches.GenerateUpdateIdData: row numbers are integers; text that is not a number reads as 0 in the source.
- PositionIndex.UploadRowMetadata: the documents of one data source; a row id stored under another source is not modelled.
- GuardedEdits.FormSync.HandleUpdate: check and edit are one step; dates and time zones in the converted data are not modelled.
- The number cache of the schema script, date and serial-number conversion, and UUID syntax.
