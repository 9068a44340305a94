/** Datatypes of the note-sync API: table rows, notes as returned to clients,
    and the request and response shapes of the mutation and sync operations. */
module SyncModel {

  /** A point in time, as whole seconds since the Unix epoch (UTC). */
  type Timestamp = int

  const SecondsPerDay: int := 86_400

  datatype Option<T> = None | Some(value: T) {
    /** The carried value, or `default` when there is none (SQL COALESCE, Rust unwrap_or). */
    function GetOr(default: T): T {
      match this
      case Some(v) => v
      case None => default
    }
  }

  /** The errors of the sync component. Every storage failure, whether a missing
      row, a violated unique key or an I/O fault, surfaces as DatabaseError. */
  datatype SyncError = InvalidCredentials | DatabaseError | Unauthorized

  datatype Result<T> = Ok(value: T) | Err(error: SyncError)

  /** A row of the `notes` table. */
  datatype NoteRow = NoteRow(
    id: string,
    userId: string,
    title: string,
    content: string,
    createdAt: Timestamp,
    updatedAt: Timestamp)

  /** A note as handed to clients: a row plus the list of its tags. */
  datatype Note = Note(
    id: string,
    userId: string,
    title: string,
    content: string,
    tags: seq<string>,
    createdAt: Timestamp,
    updatedAt: Timestamp)

  /** A create request carries only a title and a creation time. */
  datatype NoteCreate = NoteCreate(title: string, createdAt: Timestamp)

  /** A partial update: None leaves the field as stored; updatedAt is mandatory. */
  datatype NoteUpdate = NoteUpdate(
    title: Option<string>,
    content: Option<string>,
    tags: Option<set<string>>,
    updatedAt: Timestamp)

  /** A full note supplied by a client, written with upsert semantics. */
  datatype NoteImport = NoteImport(
    title: string,
    content: string,
    tags: set<string>,
    createdAt: Timestamp,
    updatedAt: Timestamp)

  datatype SyncRequest = SyncRequest(lastSyncTime: Option<Timestamp>, deviceId: string)

  datatype SyncResponse = SyncResponse(
    notes: seq<Note>,
    deletedNoteIds: seq<string>,
    currentTime: Timestamp)

  /** The six row fields of a note. */
  function RowOf(n: Note): NoteRow {
    NoteRow(n.id, n.userId, n.title, n.content, n.createdAt, n.updatedAt)
  }

  /** Builds the client-facing note from a row and its tag list. */
  function WithTags(row: NoteRow, tags: seq<string>): (n: Note)
    ensures RowOf(n) == row && n.tags == tags
  {
    Note(row.id, row.userId, row.title, row.content, tags, row.createdAt, row.updatedAt)
  }

  /** `tags` lists every element of `s` exactly once, in some order. */
  predicate ListsTags(tags: seq<string>, s: set<string>) {
    && (forall i, j :: 0 <= i < j < |tags| ==> tags[i] != tags[j])
    && (forall t :: t in tags ==> t in s)
    && (forall t :: t in s ==> t in tags)
  }

  /** A tag list holds exactly as many entries as the set it lists. */
  lemma {:induction false} ListsTagsSize(tags: seq<string>, s: set<string>)
    requires ListsTags(tags, s)
    ensures |tags| == |s|
  {
    if tags == [] {
      assert s == {};
    } else {
      var rest := tags[1..];
      forall t | t in rest ensures t in s - {tags[0]} {
        var k :| 0 <= k < |rest| && rest[k] == t;
        assert tags[k + 1] == t;
      }
      forall t | t in s - {tags[0]} ensures t in rest {
        var k :| 0 <= k < |tags| && tags[k] == t;
        assert rest[k - 1] == t;
      }
      ListsTagsSize(rest, s - {tags[0]});
    }
  }

  /** The rows of a sequence of notes, position by position. */
  function Rows(notes: seq<Note>): (rows: seq<NoteRow>)
    ensures |rows| == |notes|
    ensures forall i :: 0 <= i < |notes| ==> rows[i] == RowOf(notes[i])
  {
    if notes == [] then [] else [RowOf(notes[0])] + Rows(notes[1..])
  }
}
