# Note store and delta sync — a Dafny model

This project models the note-persistence and delta-sync engine of a notepad
server. Notes belong to a user. They are written through create, import,
update and delete transactions. Devices pull what changed since their last
sync through a cursor-based query.

The store keeps three tables:

- `notes(id, user_id, title, content, created_at, updated_at)`, keyed by `id`;
- `note_tags(note_id, tag)`;
- `deleted_notes(note_id, user_id, deleted_at)`, the tombstones.

Modules, one per source file plus one for the specification:

- `SyncModel` (`model.dfy`) holds the request, response and row datatypes of
  `src/sync/model.rs`. Optional fields are `Option`, and `HashSet` tags are
  `set<string>`.
- `SyncSpec` (`sync_spec.dfy`) gives the three tables as one value, `Tables`.
  Each transaction's effect is a function on that value. The answer of the
  sync query is a relation (`IsSyncResult`), because the source leaves ties
  in `updated_at`, tag order and tombstone order unspecified.
- `SyncDb` (`sync_db.dfy`) is `src/database/sync_db.rs` written imperatively.
  The class `NoteStore` holds the tables as fields. Each transaction is a
  method proved against `SyncSpec`. The tag rewrite, the tag read and the
  changed-notes query are loops with invariants.
- `Service` (`service.dfy`) is `src/sync/service.rs`. The default cursor and
  the response assembly are functions. The class `SyncService` makes the
  delegating calls into the store.
- `SyncProperties` (`properties.dfy`) proves lemmas about `SyncSpec`. They
  cover the effect of each mutation, idempotence, and what a sync returns
  after creates, deletes and re-imports. They also walk through a concrete
  create, tag, delete and sync scenario.

Clock readings are parameters. `delete_note` takes `now`. `sync_notes` takes
two readings, `clockFirst` for the default cursor and `clockSecond` for the
returned cursor, matching the two calls to `Utc::now()`. Timestamps are whole
seconds since the epoch, so the 365-day window is `365 * 86400`.

The model follows the code on these points, which a reader might not expect:

- Ids are unique across all users, as the `ON CONFLICT (id)` upsert requires.
  A create fails whenever any user already holds the id.
- Every storage failure is the single error `DatabaseError`. There are no
  separate not-found or conflict errors.
- `delete_note` leaves the note's `note_tags` rows alone. A note re-created
  under the same id therefore reports the old tags
  (`RecreatedNoteInheritsTags`). Whether the database schema cascades the
  delete is not part of this model.
- `sync_notes` reads the clock twice: once for the default cursor and once for
  the returned `current_time`.
- An import overwrites `user_id`, so it can take over another user's note
  (`ImportTakesOverForeignNote`).

## Model

| member | source | states |
|---|---|---|
| `SyncModel.WithTags` | src/sync/model.rs:7-25 | a note built from a row keeps all six row fields and carries exactly the given tag list |
| `SyncModel.ListsTagsSize` | src/database/sync_db.rs:245-257 | a tag list read for a note holds exactly one entry per stored tag, no more and no fewer |
| `SyncSpec.DeletedIdsSince` | src/database/sync_db.rs:228-237 | an id is listed exactly when some tombstone of that user with that id has `deleted_at > since`; no more entries than tombstones |
| `SyncSpec.DeletedIdsCount` | src/database/sync_db.rs:228-237 | the ids are not deduplicated: each id is listed exactly as many times as the user has tombstones for it with `deleted_at > since` |
| `SyncDb.ListTags` | src/database/sync_db.rs:245-250 | reading the tag rows of a note yields every stored tag exactly once |
| `SyncDb.InsertByUpdatedAt` | src/database/sync_db.rs:210-212 | inserting a row into the ordered result adds exactly that row and keeps all others |
| `SyncDb.InsertKeepsSorted` | src/database/sync_db.rs:212 | insertion keeps the list in non-decreasing `updated_at` order |
| `SyncDb.ChangedAmongAdd` | src/database/sync_db.rs:210-211 | scanning one more note id adds its row to the selection exactly when that row belongs to the user and is newer than the cursor |
| `SyncDb.SelectChanged` | src/database/sync_db.rs:208-218 | the changed-notes query returns each of the user's rows with `updated_at > since` exactly once, in non-decreasing `updated_at` order |
| `SyncDb.NoteStore.constructor` | src/database/mod.rs:13-25 | a new store starts with three empty tables |
| `SyncDb.NoteStore.CreateNote` | src/database/sync_db.rs:15-37 | fails with `DatabaseError` and changes nothing when the id exists (any owner); otherwise inserts the row of `Created` and succeeds |
| `SyncDb.NoteStore.RewriteTags` | src/database/sync_db.rs:63-80 | deletes all tag rows of the note, then inserts each new tag once; the result is exactly the new tag set, and other notes and tables are unchanged |
| `SyncDb.NoteStore.ImportNote` | src/database/sync_db.rs:39-86 | always succeeds; the tables become `Imported`: upserted row plus replaced tag set |
| `SyncDb.NoteStore.AddNoteWithTags` | src/database/sync_db.rs:244-261 | the returned note carries the row's fields and lists the tags stored under the row's id |
| `SyncDb.NoteStore.GetNote` | src/database/sync_db.rs:88-98 | succeeds exactly when a row matches both id and owner; returns that row's fields and its stored tags; otherwise `DatabaseError` |
| `SyncDb.NoteStore.UpdateNote` | src/database/sync_db.rs:100-161 | fails and changes nothing without a matching (id, owner) row; otherwise the tables become `Updated` and the returned note is the new row with the note's tags after the update |
| `SyncDb.NoteStore.DeleteNote` | src/database/sync_db.rs:163-204 | always succeeds; the tables become `Deleted`: a tombstone and the row removed when (id, owner) matches, nothing otherwise |
| `SyncDb.NoteStore.GetSyncNotes` | src/database/sync_db.rs:206-240 | returns a valid sync answer: the changed rows sorted by `updated_at`, each with its tags, plus the user's newer tombstone ids |
| `Service.SinceFor` | src/sync/service.rs:35 | with no `last_sync_time` the cursor is the first clock reading minus 365 days; a supplied one is passed through unchanged |
| `Service.Respond` | src/sync/service.rs:38-42 | a store error is returned unchanged; otherwise the response holds the store's two lists untouched and `current_time` = the clock reading |
| `Service.SinceIgnoresDevice` | src/sync/model.rs:51-54 | the device id never affects the cursor |
| `Service.SyncService.constructor` | src/sync/service.rs:10-12 | the service wraps the given store |
| `Service.SyncService.CreateNote` | src/sync/service.rs:14-16 | same outcome and state change as the store's create |
| `Service.SyncService.ImportNote` | src/sync/service.rs:18-20 | same outcome and state change as the store's import |
| `Service.SyncService.GetNote` | src/sync/service.rs:22-24 | same result as the store's get |
| `Service.SyncService.UpdateNote` | src/sync/service.rs:26-28 | same outcome and state change as the store's update |
| `Service.SyncService.DeleteNote` | src/sync/service.rs:30-32 | same outcome and state change as the store's delete |
| `Service.SyncService.SyncNotes` | src/sync/service.rs:34-43 | always succeeds with `current_time` = the second clock reading and a valid sync answer for the cursor `SinceFor(request, first reading)` |
| `SyncProperties.CreateWritesFreshRow` | src/database/sync_db.rs:18-31 | create adds one owned row with empty content and `created_at = updated_at =` the supplied time; tags, tombstones and other rows are unchanged |
| `SyncProperties.ImportOverwrites` | src/database/sync_db.rs:42-80 | after import the row holds exactly the imported fields under the caller, the stored tags equal the imported set, and nothing else changes |
| `SyncProperties.ImportTakesOverForeignNote` | src/database/sync_db.rs:46-47 | importing an id owned by another user transfers ownership to the importer |
| `SyncProperties.ImportIdempotent` | src/database/sync_db.rs:39-86 | importing the same payload twice leaves the same tables as importing it once |
| `SyncProperties.UpdatePatches` | src/database/sync_db.rs:104-157 | omitted title or content keep their values; `updated_at` is set; `created_at` and the owner are kept; given tags replace the set, otherwise tags stay |
| `SyncProperties.UpdateWithoutMatchIsNoop` | src/database/sync_db.rs:104-121 | without a matching (id, owner) row an update changes nothing |
| `SyncProperties.DeleteEffect` | src/database/sync_db.rs:167-199 | deleting an owned note appends exactly one tombstone and removes only that row; otherwise nothing changes; tag rows are never touched |
| `SyncProperties.DeleteIdempotent` | src/database/sync_db.rs:175-180 | a second delete of the same note changes nothing |
| `SyncProperties.RecreatedNoteInheritsTags` | src/database/sync_db.rs:183-199 | after a delete the id can be created again, and the new note reports the deleted note's tags |
| `SyncProperties.SyncOnlyChanged` | src/database/sync_db.rs:208-225 | every returned note is a stored row of the user with `updated_at > since`, with its stored tags |
| `SyncProperties.SyncIncludesChanged` | src/database/sync_db.rs:208-225 | every stored row of the user with `updated_at > since` is returned |
| `SyncProperties.SyncDeletedIds` | src/database/sync_db.rs:228-237 | an id is among the deleted ids exactly when the user has a tombstone for it newer than the cursor, and it appears once per such tombstone |
| `SyncProperties.DeletedTwiceListedTwice` | src/database/sync_db.rs:183-237 | a note deleted, created again and deleted again is listed twice more among the deleted ids of a sync from before both deletions |
| `SyncProperties.CreatedNoteVisibility` | src/database/sync_db.rs:208-218 | a note created at t0 is pulled by a cursor before t0 and not by a cursor at or after t0 |
| `SyncProperties.DeleteThenSync` | src/database/sync_db.rs:183-237 | after a delete, a cursor before the deletion reports the id as deleted and does not return the note |
| `SyncProperties.DeleteThenReimportInBoth` | src/database/sync_db.rs:206-239 | a note deleted and imported again shows up both as deleted and as changed; the lists are not reconciled |
| `SyncProperties.DefaultWindowMissesOldNotes` | src/sync/service.rs:35-38 | a sync without a cursor never returns a note last changed 365 or more days before the first clock reading |
| `SyncProperties.ScenarioCreateThenSync` | src/database/sync_db.rs:15-37 | creating "n1" titled "Groceries" in an empty store, a sync from a year earlier returns exactly that note, untagged, and no deleted ids |
| `SyncProperties.ScenarioTagThenGet` | src/database/sync_db.rs:100-161 | tagging "n1" with {"home"} keeps its title and makes its tags exactly {"home"} |
| `SyncProperties.ScenarioDeleteThenSync` | src/database/sync_db.rs:163-240 | deleting "n1", a sync from before the deletion returns no notes and exactly the id "n1" |
| `SyncProperties.ScenarioDeleteTwiceThenSync` | src/database/sync_db.rs:163-240 | creating "n1" again and deleting it once more, a sync from before both deletions returns no notes and the id "n1" twice |

## Left out

- I/O and transaction faults are not modelled: connection loss, timeouts and failed commits. Only the failures the data itself decides are modelled: a taken id on create, and a missing (id, owner) row on get and update. Because of this, `NoteStore.ImportNote`, `NoteStore.DeleteNote`, `NoteStore.GetSyncNotes` and `SyncService.SyncNotes` always succeed in the model.
- Concurrency and transaction isolation are not modelled. Each transaction is one atomic, sequential method call.
- Timestamps are whole seconds. The sub-second precision of the source's timestamps is not modelled.
- `NoteStore.GetSyncNotes` returns tombstone ids in log order. The source's query has no `ORDER BY`, so `IsSyncResult` accepts the ids in any order.
- Tag lists read back from the tag table are in an unspecified order. The model fixes none: it states only that each stored tag appears once.
- HTTP routing, request extraction, status mapping, authentication, logging, migrations, the connection pool and the expired-token cleanup are not part of this model. The user id is an opaque string supplied by the caller.
- `NoteStore.RewriteTags` is shared by import and update. In update, the tags it returns become the returned note's tag list. Import discards them, just as `import_note` pushes to no list.
