/** The three tables behind the note store, as one value, and the effect of
    each store operation on them as a function. The imperative store in
    SyncDb is proved against these functions; SyncProperties proves what
    they promise. */
module SyncSpec {
  import opened SyncModel

  /** A row of the `deleted_notes` table. */
  datatype Tombstone = Tombstone(noteId: string, userId: string, deletedAt: Timestamp)

  /** `notes` maps a note id to its row (id is the table's unique key);
      `tags` maps a note id to the tags stored for it in `note_tags`;
      `deleted` is the `deleted_notes` table in insertion order. */
  datatype Tables = Tables(
    notes: map<string, NoteRow>,
    tags: map<string, set<string>>,
    deleted: seq<Tombstone>)

  /** Every row is stored under its own id. */
  ghost predicate Keyed(notes: map<string, NoteRow>) {
    forall id :: id in notes ==> notes[id].id == id
  }

  /** A note id without tag rows has no entry at all, so equal tables are equal values. */
  ghost predicate Canonical(tags: map<string, set<string>>) {
    forall id :: id in tags ==> tags[id] != {}
  }

  ghost predicate Valid(t: Tables) {
    Keyed(t.notes) && Canonical(t.tags)
  }

  /** The tags stored under `id`: the tag column of its `note_tags` rows. */
  function TagsOf(tags: map<string, set<string>>, id: string): set<string> {
    if id in tags then tags[id] else {}
  }

  /** Deletes every tag row of `id`, then inserts one row per element of `s`. */
  function ReplaceTags(tags: map<string, set<string>>, id: string, s: set<string>): map<string, set<string>> {
    if s == {} then tags - {id} else tags[id := s]
  }

  /** A row with both this id and this owner exists. */
  predicate Owns(t: Tables, userId: string, id: string) {
    id in t.notes && t.notes[id].userId == userId
  }

  // ---------------------------------------------------------------- create

  /** The insert of create_note succeeds only when no row has this id, whoever owns it. */
  predicate CanCreate(t: Tables, id: string) {
    id !in t.notes
  }

  function NewRow(userId: string, id: string, req: NoteCreate): NoteRow {
    NoteRow(id, userId, req.title, "", req.createdAt, req.createdAt)
  }

  /** The tables after a successful create. */
  function Created(t: Tables, userId: string, id: string, req: NoteCreate): Tables {
    t.(notes := t.notes[id := NewRow(userId, id, req)])
  }

  // ---------------------------------------------------------------- import

  function ImportedRow(userId: string, id: string, imp: NoteImport): NoteRow {
    NoteRow(id, userId, imp.title, imp.content, imp.createdAt, imp.updatedAt)
  }

  /** Upsert keyed on id alone, then full replacement of the tag set. */
  function Imported(t: Tables, userId: string, id: string, imp: NoteImport): Tables {
    Tables(t.notes[id := ImportedRow(userId, id, imp)], ReplaceTags(t.tags, id, imp.tags), t.deleted)
  }

  // ---------------------------------------------------------------- update

  /** The row after the partial update: a given title or content replaces the
      stored one, an absent one keeps it, and `updated_at` is always set. */
  function Patched(row: NoteRow, u: NoteUpdate): NoteRow {
    row.(title := u.title.GetOr(row.title), content := u.content.GetOr(row.content), updatedAt := u.updatedAt)
  }

  /** The tables after update_note; unchanged when no row matches (id, owner). */
  function Updated(t: Tables, userId: string, id: string, u: NoteUpdate): Tables {
    if !Owns(t, userId, id) then t
    else
      Tables(
        t.notes[id := Patched(t.notes[id], u)],
        if u.tags.Some? then ReplaceTags(t.tags, id, u.tags.value) else t.tags,
        t.deleted)
  }

  // ---------------------------------------------------------------- delete

  /** The tables after delete_note at time `now`: a tombstone and the removal of
      the row when (id, owner) matches, nothing otherwise. Tag rows are not touched. */
  function Deleted(t: Tables, userId: string, id: string, now: Timestamp): Tables {
    if !Owns(t, userId, id) then t
    else Tables(t.notes - {id}, t.tags, t.deleted + [Tombstone(id, userId, now)])
  }

  // ---------------------------------------------------------------- sync

  /** A row the changed-notes query of get_sync_notes selects. */
  predicate IsChanged(row: NoteRow, userId: string, since: Timestamp) {
    row.userId == userId && row.updatedAt > since
  }

  /** The set of rows the changed-notes query selects. */
  ghost function Changed(notes: map<string, NoteRow>, userId: string, since: Timestamp): set<NoteRow> {
    set id | id in notes && IsChanged(notes[id], userId, since) :: notes[id]
  }

  predicate SortedByUpdatedAt(rows: seq<NoteRow>) {
    forall i, j :: 0 <= i < j < |rows| ==> rows[i].updatedAt <= rows[j].updatedAt
  }

  /** `rows` is a valid answer to the changed-notes query: each of the owner's rows
      with `updatedAt > since` exactly once, oldest change first (ties in any order). */
  ghost predicate IsChangedList(notes: map<string, NoteRow>, userId: string, since: Timestamp, rows: seq<NoteRow>) {
    SortedByUpdatedAt(rows) && multiset(rows) == multiset(Changed(notes, userId, since))
  }

  predicate IsDeletedSince(d: Tombstone, userId: string, since: Timestamp) {
    d.userId == userId && d.deletedAt > since
  }

  /** The positions in `log` of the owner's tombstones of `id` newer than `since`. */
  ghost function DeletionsOf(log: seq<Tombstone>, userId: string, since: Timestamp, id: string): set<nat> {
    set k: nat | k < |log| && log[k].noteId == id && IsDeletedSince(log[k], userId, since)
  }

  /** The note ids of the owner's tombstones newer than `since`, in log order. */
  function DeletedIdsSince(log: seq<Tombstone>, userId: string, since: Timestamp): (ids: seq<string>)
    ensures |ids| <= |log|
    ensures forall id :: id in ids <==> exists d :: d in log && d.noteId == id && IsDeletedSince(d, userId, since)
  {
    if log == [] then []
    else
      var last := log[|log| - 1];
      DeletedIdsSince(log[..|log| - 1], userId, since) + (if IsDeletedSince(last, userId, since) then [last.noteId] else [])
  }

  /** The ids are not deduplicated: an id is listed once per qualifying tombstone. */
  lemma {:induction false} DeletedIdsCount(log: seq<Tombstone>, userId: string, since: Timestamp, id: string)
    ensures multiset(DeletedIdsSince(log, userId, since))[id] == |DeletionsOf(log, userId, since, id)|
  {
    if log == [] {
      assert DeletionsOf(log, userId, since, id) == {};
    } else {
      var init, last := log[..|log| - 1], log[|log| - 1];
      DeletedIdsCount(init, userId, since, id);
      var before := DeletionsOf(init, userId, since, id);
      var extra: set<nat> := if last.noteId == id && IsDeletedSince(last, userId, since) then {|log| - 1} else {};
      forall k: nat | k in DeletionsOf(log, userId, since, id) ensures k in before + extra {
        if k < |log| - 1 {
          assert init[k] == log[k];
        }
      }
      forall k: nat | k in before + extra ensures k in DeletionsOf(log, userId, since, id) {
        if k in before {
          assert init[k] == log[k];
        }
      }
      assert DeletionsOf(log, userId, since, id) == before + extra;
      assert before * extra == {};
      assert |before + extra| == |before| + |extra|;
      var tail := if IsDeletedSince(last, userId, since) then [last.noteId] else [];
      assert DeletedIdsSince(log, userId, since) == DeletedIdsSince(init, userId, since) + tail;
      assert multiset(tail)[id] == |extra|;
    }
  }

  /** `notes` and `ids` are a valid answer of get_sync_notes for this owner and cursor:
      the changed rows as above, each with its stored tags, and the ids of the owner's
      newer tombstones, in any order and not deduplicated against the notes. */
  ghost predicate IsSyncResult(t: Tables, userId: string, since: Timestamp, notes: seq<Note>, ids: seq<string>) {
    && IsChangedList(t.notes, userId, since, Rows(notes))
    && (forall i :: 0 <= i < |notes| ==> ListsTags(notes[i].tags, TagsOf(t.tags, notes[i].id)))
    && multiset(ids) == multiset(DeletedIdsSince(t.deleted, userId, since))
  }
}
