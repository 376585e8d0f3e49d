# Watermark-driven export and change data capture, in Dafny

This project models the export pipeline of a small Express + PostgreSQL
service. The service exports the `users` table to CSV files for downstream
consumers, and it records one watermark per consumer in the `watermarks`
table. After a full or delta export the watermark is the largest `updated_at`
that was exported; after an incremental export it is the largest `updated_at`
of any row newer than the old watermark, deleted or not. There are
three export modes:

- **full**: all live (not soft-deleted) rows.
- **incremental**: live rows updated after the watermark.
- **delta**: all rows updated after the watermark, deleted ones included,
  each tagged INSERT, UPDATE or DELETE.

Soft delete marks a row deleted and stamps it with the current time, so that
a later delta export carries the deletion.

The project has five modules:

- `Rows` (`rows.dfy`) holds the row type and the queries as functions: the
  live-row selection, the two change windows, `MAX(updated_at)`, and the
  soft-delete `UPDATE`. It also proves the window lemmas.
- `Delta` (`delta.dfy`) holds the operation classifier and the delta records.
- `Pipeline` (`pipeline.dfy`) describes one run of each export job as a
  value: the outcome, the watermarks and output files after the run, and the
  durable effects in order. The lemmas state what the runs guarantee.
- `Server` (`server.dfy`) holds the class `ExportServer`. Its fields are the
  `users` table (`seq<Row>`), the `watermarks` table
  (`map<string, Option<int>>`; `None` is SQL NULL), the output files
  (file name to contents) and a ghost journal of durable effects. Its methods
  follow each handler step by step, with early returns. Each export method is
  proved to leave exactly the state its `Pipeline` run describes.
- `Scenarios` (`scenarios.dfy`) is a client that follows one row through a
  full export, a soft delete, a failed delta export and a successful one. It
  uses only the methods' contracts.

The following are parameters:

- the time of a soft delete (`now`);
- the job stamp that names an artifact (`Date.now()` in the handlers);
- whether each step succeeds: `Fault` says which step, if any, fails.

`ReadFault` is a failed SELECT. `WriteFault` is a rejected `writeRecords`.
`StoreFault` is a failure after the write: the MAX query, the watermark
write, or the COMMIT.

A full export runs in one transaction, so every failure rolls the watermarks
back. Incremental and delta exports run without a transaction. If one of
them fails after the write, the artifact stays and the watermark is
unchanged, so the same rows are exported again next time (at-least-once).

One might expect one run per consumer at a time, a watermark that never
decreases, and errors reported to the caller. The code does not work that
way, and the model follows the code:

- The code has no per-consumer lock and no `AlreadyRunning` error.
- Missing prerequisites and empty windows are only logged. Here they are the
  outcomes `NoWatermark` and `NoChanges`.
- The full export overwrites the watermark unconditionally, so the "never
  decreases" rule does not hold for it. `FullRunCanRegress` exhibits a
  decrease.
- A full export of a table with no live rows stores NULL. From then on no
  incremental or delta export finds anything until a later full export finds
  a live row (`NullWatermarkStalls`).
- The incremental export fetches only live rows. It then sets the watermark
  to MAX(`updated_at`) over all rows newer than the old watermark, deleted
  rows included.

## Model

| member | source | states |
|---|---|---|
| `Rows.IsNewer` | src/server.js:193 | SQL `updated_at > $1`: true iff the watermark is not NULL and the row's `updatedAt` is strictly above it; against NULL it is never true (the windows and `NullMarkSeesNothing` build on it) |
| `Rows.Select` | src/server.js:192-195 | a WHERE filter: a row is in the result iff it is in the table and satisfies the condition |
| `Rows.SelectCounts` | src/server.js:192-195 | a WHERE filter keeps each matching row exactly as often as the table holds it, and drops every other row |
| `Rows.LiveRows` | src/exportService.js:11-13 | the full-export selection holds exactly the rows with `is_deleted = false` |
| `Rows.LiveRowsExact` | src/exportService.js:11-13 | the full-export selection has each live row once per occurrence in the table and no deleted row |
| `Rows.IncrementalWindow` | src/server.js:192-195 | a row is in the incremental window iff it is live and its `updatedAt` is above the watermark; a NULL watermark matches nothing |
| `Rows.IncrementalWindowExact` | src/server.js:192-195 | the incremental window has each live row newer than the watermark once per occurrence, and no other row |
| `Rows.DeltaWindow` | src/server.js:279-282 | a row is in the delta window iff its `updatedAt` is above the watermark, deleted or not |
| `Rows.DeltaWindowExact` | src/server.js:279-282 | the delta window has each row newer than the watermark once per occurrence, deleted rows included |
| `Rows.MaxUpdatedAt` | src/server.js:216-219 | MAX(`updated_at`) is NULL iff there are no rows; otherwise it bounds every row's `updatedAt` from above and some row attains it |
| `Rows.SoftDeleted` | src/server.js:340-345 | same length; every row with the id becomes deleted and gets `updatedAt = now`; every other row is unchanged |
| `Rows.IncrementalIsLiveDelta` | src/server.js:192-195 | the incremental window equals the live part of the delta window |
| `Rows.NullMarkSeesNothing` | src/server.js:192-195 | with a NULL watermark both windows are empty, whatever the table holds |
| `Rows.IncrementalInsideDelta` | src/server.js:214-219 | a non-empty incremental window implies a non-empty delta window, so the incremental job's MAX query is not NULL |
| `Rows.CandidateAdvances` | src/server.js:314-324 | for a non-empty window, the old watermark is not NULL, and the new watermark exists and is strictly greater |
| `Rows.CaughtUp` | src/server.js:214-226 | once the watermark moves to the window's MAX, both windows at the new watermark are empty |
| `Rows.SoftDeleteHidesRow` | src/server.js:340-345 | after a soft delete, the live rows are the previous live rows minus those with that id |
| `Rows.SoftDeleteEntersDeltaWindow` | src/server.js:340-345 | a row soft-deleted after the watermark is in the next delta window and not in the incremental window |
| `Delta.Classify` | src/server.js:289-297 | DELETE iff the row is deleted, whatever its timestamps; INSERT iff it is live and `createdAt == updatedAt`; UPDATE iff it is live and they differ |
| `Delta.ToRecords` | src/server.js:289-297 | one record per fetched row, in the same order; each record holds the row unchanged and the row's classified operation |
| `Delta.RowsOf` | src/server.js:296 | dropping the operation column keeps every record's row, in the same order |
| `Delta.RowsOfRecords` | src/server.js:289-297 | dropping the operation column from the delta records gives back exactly the fetched rows |
| `Pipeline.ConsumerIdOf` | src/server.js:155-157 | a consumer is named iff the X-Consumer-ID header is present and non-empty |
| `Pipeline.ArtifactName` | src/server.js:29 | the artifact name is `<kind>_<consumerId>_<stamp>.csv`: the kind and `_`, the consumer id, `_` and the stamp, then `.csv` (also lines 160 and 249) |
| `Pipeline.ArtifactNamesDiffer` | src/server.js:160 | runs of one kind for one consumer with different stamps (`Date.now()`) write different files |
| `Pipeline.FullRun` | src/exportService.js:9-47 | the full export as a value: BEGIN, select live rows, write, upsert MAX(`updated_at`), COMMIT, with every fault rolled back; its guarantees are `FullRunSafe`, `FullRunOutcome`, `FullRunRepeatable` and `FullRunCanRegress` |
| `Pipeline.IncrementalRun` | src/server.js:180-226 | the incremental job as a value: watermark lookup, live window, write, MAX over the delta window, UPDATE, without a transaction; its guarantees are `IncrementalRunSafe`, `IncrementalRunOutcome` and `IncrementalRunCatchesUp` |
| `Pipeline.DeltaRun` | src/server.js:267-324 | the delta job as a value: watermark lookup, delta window, classify, write, MAX, UPDATE, without a transaction; its guarantees are `DeltaRunSafe`, `DeltaRunOutcome` and `DeltaRunCatchesUp` |
| `Pipeline.FullRunSafe` | src/exportService.js:27-47 | the full export changes no other consumer's watermark; it commits only after the artifact is written; any failure leaves the watermarks as before |
| `Pipeline.FullRunOutcome` | src/exportService.js:9-58 | on success: outcome is the live-row count, the file holds the live rows, the watermark is their max `updatedAt` (NULL iff none are live), entry created or overwritten; on failure: watermarks rolled back, artifact kept only if the write succeeded |
| `Pipeline.FullRunRepeatable` | src/exportService.js:11-45 | two full exports with no row change in between write the same rows and leave the same watermark |
| `Pipeline.FullRunCanRegress` | src/exportService.js:35-45 | the upsert compares nothing: a full export after a soft delete can lower the consumer's watermark |
| `Pipeline.IncrementalRunSafe` | src/server.js:180-226 | the incremental job changes no other consumer's watermark; it commits only after the write; a missing watermark, empty window or failed read/write leaves nothing behind |
| `Pipeline.IncrementalRunOutcome` | src/server.js:185-226 | the outcome for every input: a failed read gives Failed(ReadFault); no watermark gives NoWatermark; an empty window gives NoChanges; a non-empty window gives Exported(window size) with no fault and Failed(fault) on a write or store fault; a write holds exactly the incremental window; success sets the watermark to the delta-window max, strictly above the old one |
| `Pipeline.DeltaRunSafe` | src/server.js:267-324 | the delta job changes no other consumer's watermark; it commits only after the write; a missing watermark, empty window or failed read/write leaves nothing behind |
| `Pipeline.DeltaRunOutcome` | src/server.js:272-329 | the outcome for every input: a failed read gives Failed(ReadFault); no watermark gives NoWatermark; an empty window gives NoChanges; a non-empty window gives Exported(window size) with no fault and Failed(fault) on a write or store fault; a write holds exactly the classified records of the delta window; success raises the watermark strictly to their max `updatedAt` |
| `Pipeline.IncrementalRunCatchesUp` | src/server.js:214-226 | after an exported incremental job, rerunning incremental or delta with no row change finds nothing |
| `Pipeline.DeltaRunCatchesUp` | src/server.js:312-324 | after an exported delta job, rerunning delta or incremental with no row change finds nothing |
| `Pipeline.NullWatermarkStalls` | src/server.js:190-200 | with a NULL watermark, incremental and delta jobs end in NoChanges unless a read fails |
| `Server.ExportServer.FullExport` | src/exportService.js:5-62 | BEGIN, select, write, upsert, COMMIT, with ROLLBACK on failure; leaves exactly the state `FullRun` describes; rows untouched |
| `Server.ExportServer.StartFullExport` | src/server.js:21-41 | a missing consumer id changes nothing; otherwise the full export runs into `full_<id>_<stamp>.csv` |
| `Server.ExportServer.IncrementalJob` | src/server.js:170-235 | the detached incremental job, step by step with early returns; leaves exactly the state `IncrementalRun` describes |
| `Server.ExportServer.IncrementalExport` | src/server.js:151-169 | a missing consumer id changes nothing; otherwise the incremental job runs into `incremental_<id>_<stamp>.csv` |
| `Server.ExportServer.DeltaJob` | src/server.js:259-331 | the detached delta job, step by step with early returns; leaves exactly the state `DeltaRun` describes |
| `Server.ExportServer.DeltaExport` | src/server.js:240-258 | a missing consumer id changes nothing; otherwise the delta job runs into `delta_<id>_<stamp>.csv` |
| `Server.ExportServer.SoftDelete` | src/server.js:336-353 | on success the table becomes `SoftDeleted(old, id, now)` and the reply is success, whether or not a row matched; on failure nothing changes |
| `Server.ExportServer.GetWatermark` | src/server.js:53-78 | 400 iff no consumer id; 500 iff the query fails; 404 iff the consumer has no row; otherwise the stored value, NULL included |

## Left out

- HTTP plumbing is not modelled: routes, status codes, the 202 bodies, the `uuidv4` job id and `/health` (src/server.js:14-19). A missing consumer id is only an early `MissingConsumer` outcome.
- `GET /users` (src/server.js:42-52) is outside the export pipeline and not part of this model.
- Detached execution is not modelled: `setImmediate`, the async IIFEs and the missing error handling for a rejected job. A job is modelled as running to its end right away.
- Logging is not modelled. The `rowsExported` figure of the completion log is returned as `Exported(n)`.
- The connection pool, client release and `app.listen` are not modelled, and neither is `./db` (src/exportService.js:1), which is not part of this model. A failed `pool.connect()` has the same effect as `ReadFault`: nothing changes.
- CSV serialisation is not modelled: column layout, headers, escaping, and the directories (`output/` for full exports, `/app/output/` for the others). An artifact is its row or record sequence, keyed by file name.
- A write that fails half way and leaves a partial file is not modelled: a failed `writeRecords` leaves no artifact.
- The watermark's bookkeeping `updated_at = NOW()` column is not modelled.
- Timestamps are integers at one precision. The driver's conversion of PostgreSQL microseconds to JavaScript milliseconds is not modelled. It matters: `NOW()` (src/server.js:343) stamps microseconds, and the MAX result (src/server.js:216-219, 314-317) comes back as a millisecond Date, which is stored as the watermark (src/server.js:221-226, 319-324). A newest row with a sub-millisecond part then stays above the stored watermark, so every later run exports it again and stores the same watermark. The following therefore hold of the program only for timestamps on whole milliseconds: the strict advance in `IncrementalRunOutcome`, `DeltaRunOutcome` and `CandidateAdvances`, the empty rerun in `IncrementalRunCatchesUp`, `DeltaRunCatchesUp` and `CaughtUp`, and the INSERT/UPDATE split of `Delta.Classify`, which the program makes with a millisecond comparison (src/server.js:293): two timestamps that differ within one millisecond give INSERT there and UPDATE here.
- Isolation is not modelled: the row query and the MAX query are separate statements and are assumed to see the same table. The code has no per-consumer lock, and the model has none either.
- SQL returns rows in no particular order; the model fixes table order. The multiset lemmas (`SelectCounts` and the three `…Exact` lemmas) state the content without depending on that order.
- The soft-delete route passes the id as a string to an integer column. The model takes an integer id; a non-numeric id counts as a failed query.
- The shadowed second `POST /exports/full` handler (src/server.js:79-150) is dead code, because the first registration answers without calling `next()`. It does the same steps as `fullExport` without a transaction.
