/** The note store: the `notes`, `note_tags` and `deleted_notes` tables held
    in memory, and the transactions of the store written step by step. Each
    transaction is atomic: it either fails and leaves the tables as they were,
    or applies all of its writes. */
module SyncDb {
  import opened SyncModel
  import opened SyncSpec

  /** Reads the tag rows of one note (sync_db.rs:245-250): every stored tag
      once, in whatever order the rows come back. */
  method ListTags(stored: set<string>) returns (tags: seq<string>)
    ensures ListsTags(tags, stored)
  {
    tags := [];
    var pending := stored;
    while pending != {}
      invariant pending <= stored
      invariant forall i, j :: 0 <= i < j < |tags| ==> tags[i] != tags[j]
      invariant forall t :: t in tags ==> t in stored && t !in pending
      invariant forall t :: t in stored ==> t in tags || t in pending
      decreases pending
    {
      var t :| t in pending;
      pending := pending - {t};
      tags := tags + [t];
    }
  }

  /** Inserts `row` into a list ordered by `updated_at`, after the rows not newer than it. */
  function InsertByUpdatedAt(rows: seq<NoteRow>, row: NoteRow): (res: seq<NoteRow>)
    ensures multiset(res) == multiset(rows) + multiset{row}
  {
    if rows == [] || row.updatedAt < rows[0].updatedAt then [row] + rows
    else
      assert rows == [rows[0]] + rows[1..];
      [rows[0]] + InsertByUpdatedAt(rows[1..], row)
  }

  /** Insertion keeps a list sorted by `updated_at`. */
  lemma {:induction false} InsertKeepsSorted(rows: seq<NoteRow>, row: NoteRow)
    requires SortedByUpdatedAt(rows)
    ensures SortedByUpdatedAt(InsertByUpdatedAt(rows, row))
  {
    if rows != [] && rows[0].updatedAt <= row.updatedAt {
      var rest := InsertByUpdatedAt(rows[1..], row);
      InsertKeepsSorted(rows[1..], row);
      assert InsertByUpdatedAt(rows, row) == [rows[0]] + rest;
      forall k | 0 <= k < |rest| ensures rows[0].updatedAt <= rest[k].updatedAt {
        assert rest[k] in multiset(rest);
        if rest[k] != row {
          assert rest[k] in multiset(rows[1..]);
        }
      }
    }
  }

  /** The rows among `keys` that the changed-notes query selects. */
  ghost function ChangedAmong(notes: map<string, NoteRow>, keys: set<string>, userId: string, since: Timestamp): set<NoteRow> {
    set id | id in keys && id in notes && IsChanged(notes[id], userId, since) :: notes[id]
  }

  /** Scanning one more key adds its row to the selection when the row qualifies;
      rows are told apart by their ids, so the added row is new. */
  lemma ChangedAmongAdd(notes: map<string, NoteRow>, done: set<string>, id: string, userId: string, since: Timestamp)
    requires Keyed(notes) && id in notes && id !in done
    ensures multiset(ChangedAmong(notes, done + {id}, userId, since)) ==
            multiset(ChangedAmong(notes, done, userId, since)) + (if IsChanged(notes[id], userId, since) then multiset{notes[id]} else multiset{})
  {
  }

  /** The changed-notes query of get_sync_notes (sync_db.rs:208-218): the owner's
      rows with `updatedAt > since`, oldest change first. */
  method SelectChanged(notes: map<string, NoteRow>, userId: string, since: Timestamp) returns (rows: seq<NoteRow>)
    requires Keyed(notes)
    ensures IsChangedList(notes, userId, since, rows)
  {
    rows := [];
    var pending := notes.Keys;
    while pending != {}
      invariant pending <= notes.Keys
      invariant SortedByUpdatedAt(rows)
      invariant multiset(rows) == multiset(ChangedAmong(notes, notes.Keys - pending, userId, since))
      decreases pending
    {
      var id :| id in pending;
      ghost var done := notes.Keys - pending;
      pending := pending - {id};
      assert notes.Keys - pending == done + {id};
      ChangedAmongAdd(notes, done, id, userId, since);
      if IsChanged(notes[id], userId, since) {
        InsertKeepsSorted(rows, notes[id]);
        rows := InsertByUpdatedAt(rows, notes[id]);
      }
    }
    assert notes.Keys - pending == notes.Keys;
    assert ChangedAmong(notes, notes.Keys, userId, since) == Changed(notes, userId, since);
  }

  class NoteStore {
    var notes: map<string, NoteRow>
    var tags: map<string, set<string>>
    var deleted: seq<Tombstone>

    /** The three tables as one value. */
    function State(): Tables
      reads this
    {
      Tables(notes, tags, deleted)
    }

    ghost predicate Valid()
      reads this
    {
      SyncSpec.Valid(State())
    }

    /** An empty database. */
    constructor ()
      ensures Valid() && State() == Tables(map[], map[], [])
    {
      notes, tags, deleted := map[], map[], [];
    }

    /** create_note: a plain insert of a row with empty content and
        created_at = updated_at; no tag rows. Fails when the id is taken. */
    method CreateNote(userId: string, noteId: string, req: NoteCreate) returns (r: Result<()>)
      requires Valid()
      modifies this
      ensures Valid()
      ensures r.Ok? <==> CanCreate(old(State()), noteId)
      ensures r.Err? ==> r.error == DatabaseError && State() == old(State())
      ensures r.Ok? ==> State() == Created(old(State()), userId, noteId, req)
    {
      if noteId in notes {
        return Err(DatabaseError);
      }
      notes := notes[noteId := NoteRow(noteId, userId, req.title, "", req.createdAt, req.createdAt)];
      r := Ok(());
    }

    /** The tag rewrite shared by import_note and update_note: delete every tag row
        of the note, then insert one row per tag, collecting the inserted tags. */
    method RewriteTags(noteId: string, newTags: set<string>) returns (inserted: seq<string>)
      requires Valid()
      modifies this
      ensures Valid()
      ensures notes == old(notes) && deleted == old(deleted)
      ensures tags == ReplaceTags(old(tags), noteId, newTags)
      ensures ListsTags(inserted, newTags)
    {
      tags := tags - {noteId};
      inserted := [];
      var pending := newTags;
      while pending != {}
        invariant pending <= newTags
        invariant notes == old(notes) && deleted == old(deleted)
        invariant Canonical(tags)
        invariant tags == ReplaceTags(old(tags), noteId, newTags - pending)
        invariant forall i, j :: 0 <= i < j < |inserted| ==> inserted[i] != inserted[j]
        invariant forall t :: t in inserted <==> t in newTags - pending
        decreases pending
      {
        var t :| t in pending;
        ghost var written := newTags - pending;
        pending := pending - {t};
        assert newTags - pending == written + {t};
        // one tag row inserted for the note; t is not yet stored
        assert t !in TagsOf(tags, noteId);
        inserted := inserted + [t];
        tags := tags[noteId := TagsOf(tags, noteId) + {t}];
      }
      assert newTags - pending == newTags;
    }

    /** import_note: upsert keyed on id alone (the row takes the caller's owner even
        when the id belonged to another user), then full replacement of the tags. */
    method ImportNote(userId: string, noteId: string, imp: NoteImport) returns (r: Result<()>)
      requires Valid()
      modifies this
      ensures Valid()
      ensures r == Ok(())
      ensures State() == Imported(old(State()), userId, noteId, imp)
    {
      notes := notes[noteId := NoteRow(noteId, userId, imp.title, imp.content, imp.createdAt, imp.updatedAt)];
      var _ := RewriteTags(noteId, imp.tags);
      r := Ok(());
    }

    /** add_note_with_tags: a row together with the tags stored under its id. */
    method AddNoteWithTags(row: NoteRow) returns (note: Note)
      ensures RowOf(note) == row
      ensures ListsTags(note.tags, TagsOf(tags, row.id))
    {
      var listed := ListTags(TagsOf(tags, row.id));
      note := WithTags(row, listed);
    }

    /** get_note: the row matching both id and owner, with its tags. */
    method GetNote(userId: string, noteId: string) returns (r: Result<Note>)
      requires Valid()
      ensures r.Ok? <==> Owns(State(), userId, noteId)
      ensures r.Err? ==> r.error == DatabaseError
      ensures r.Ok? ==> RowOf(r.value) == notes[noteId] && ListsTags(r.value.tags, TagsOf(tags, noteId))
    {
      if !(noteId in notes && notes[noteId].userId == userId) {
        return Err(DatabaseError);
      }
      var note := AddNoteWithTags(notes[noteId]);
      r := Ok(note);
    }

    /** update_note: partial update of the matching row, then, when tags are given,
        full replacement of the tag set. Fails and changes nothing when no row
        matches (id, owner). */
    method UpdateNote(userId: string, noteId: string, update: NoteUpdate) returns (r: Result<Note>)
      requires Valid()
      modifies this
      ensures Valid()
      ensures r.Ok? <==> Owns(old(State()), userId, noteId)
      ensures r.Err? ==> r.error == DatabaseError
      ensures State() == Updated(old(State()), userId, noteId, update)
      ensures r.Ok? ==> noteId in notes && RowOf(r.value) == notes[noteId]
      ensures r.Ok? ==> ListsTags(r.value.tags, TagsOf(tags, noteId))
    {
      if !(noteId in notes && notes[noteId].userId == userId) {
        return Err(DatabaseError);
      }
      var old_row := notes[noteId];
      var row := old_row.(title := update.title.GetOr(old_row.title),
                          content := update.content.GetOr(old_row.content),
                          updatedAt := update.updatedAt);
      notes := notes[noteId := row];
      var note;
      if update.tags.Some? {
        var inserted := RewriteTags(noteId, update.tags.value);
        note := WithTags(row, inserted);
      } else {
        note := AddNoteWithTags(row);
      }
      r := Ok(note);
    }

    /** delete_note at clock reading `now`: idempotent. When (id, owner) matches, one
        tombstone is appended and the row removed; the tag rows are left as they are. */
    method DeleteNote(userId: string, noteId: string, now: Timestamp) returns (r: Result<()>)
      requires Valid()
      modifies this
      ensures Valid()
      ensures r == Ok(())
      ensures State() == Deleted(old(State()), userId, noteId, now)
    {
      if !(noteId in notes && notes[noteId].userId == userId) {
        return Ok(());
      }
      deleted := deleted + [Tombstone(noteId, userId, now)];
      notes := notes - {noteId};
      r := Ok(());
    }

    /** get_sync_notes: the owner's notes changed after `since`, oldest change first,
        each with its tags, and the ids of the owner's tombstones newer than `since`. */
    method GetSyncNotes(userId: string, since: Timestamp) returns (r: Result<(seq<Note>, seq<string>)>)
      requires Valid()
      ensures r.Ok? && IsSyncResult(State(), userId, since, r.value.0, r.value.1)
    {
      var rows := SelectChanged(notes, userId, since);
      var notesWithTags: seq<Note> := [];
      var i := 0;
      while i < |rows|
        invariant 0 <= i <= |rows|
        invariant |notesWithTags| == i
        invariant forall k :: 0 <= k < i ==> RowOf(notesWithTags[k]) == rows[k]
        invariant forall k :: 0 <= k < i ==> ListsTags(notesWithTags[k].tags, TagsOf(tags, notesWithTags[k].id))
      {
        var note := AddNoteWithTags(rows[i]);
        notesWithTags := notesWithTags + [note];
        i := i + 1;
      }
      assert Rows(notesWithTags) == rows;
      var ids := DeletedIdsSince(deleted, userId, since);
      r := Ok((notesWithTags, ids));
    }
  }
}
