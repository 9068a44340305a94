/** The sync service: one delegating call per store operation, plus the
    cursor logic of a sync pull. Clock readings are parameters. */
module Service {
  import opened SyncModel
  import opened SyncSpec
  import opened SyncDb

  /** How far back a sync without a cursor looks: 365 days. */
  const DefaultWindow: int := 365 * SecondsPerDay

  /** The cursor handed to the store: the client's last_sync_time when it sent
      one, otherwise `clock` minus 365 days, `clock` being the first reading. */
  function SinceFor(req: SyncRequest, clock: Timestamp): (since: Timestamp)
    ensures req.lastSyncTime.Some? ==> since == req.lastSyncTime.value
    ensures req.lastSyncTime.None? ==> since == clock - DefaultWindow
  {
    req.lastSyncTime.GetOr(clock - DefaultWindow)
  }

  /** Builds the sync response: a store error is passed on as it is; otherwise
      the store's two lists are returned untouched with `now` as the new cursor. */
  function Respond(fetched: Result<(seq<Note>, seq<string>)>, now: Timestamp): (r: Result<SyncResponse>)
    ensures r.Err? <==> fetched.Err?
    ensures r.Err? ==> r.error == fetched.error
    ensures r.Ok? ==> r.value.notes == fetched.value.0 && r.value.deletedNoteIds == fetched.value.1
    ensures r.Ok? ==> r.value.currentTime == now
  {
    match fetched
    case Err(e) => Err(e)
    case Ok((notes, ids)) => Ok(SyncResponse(notes, ids, now))
  }

  /** The device id of a request never changes the cursor. */
  lemma SinceIgnoresDevice(req: SyncRequest, device: string, clock: Timestamp)
    ensures SinceFor(req.(deviceId := device), clock) == SinceFor(req, clock)
  {
  }

  class SyncService {
    const db: NoteStore

    constructor (db: NoteStore)
      ensures this.db == db
    {
      this.db := db;
    }

    method CreateNote(userId: string, noteId: string, req: NoteCreate) returns (r: Result<()>)
      requires db.Valid()
      modifies db
      ensures db.Valid()
      ensures r.Ok? <==> CanCreate(old(db.State()), noteId)
      ensures r.Err? ==> r.error == DatabaseError && db.State() == old(db.State())
      ensures r.Ok? ==> db.State() == Created(old(db.State()), userId, noteId, req)
    {
      r := db.CreateNote(userId, noteId, req);
    }

    method ImportNote(userId: string, noteId: string, imp: NoteImport) returns (r: Result<()>)
      requires db.Valid()
      modifies db
      ensures db.Valid()
      ensures r == Ok(())
      ensures db.State() == Imported(old(db.State()), userId, noteId, imp)
    {
      r := db.ImportNote(userId, noteId, imp);
    }

    method GetNote(userId: string, noteId: string) returns (r: Result<Note>)
      requires db.Valid()
      ensures r.Ok? <==> Owns(db.State(), userId, noteId)
      ensures r.Err? ==> r.error == DatabaseError
      ensures r.Ok? ==> RowOf(r.value) == db.notes[noteId] && ListsTags(r.value.tags, TagsOf(db.tags, noteId))
    {
      r := db.GetNote(userId, noteId);
    }

    method UpdateNote(userId: string, noteId: string, update: NoteUpdate) returns (r: Result<Note>)
      requires db.Valid()
      modifies db
      ensures db.Valid()
      ensures r.Ok? <==> Owns(old(db.State()), userId, noteId)
      ensures r.Err? ==> r.error == DatabaseError
      ensures db.State() == Updated(old(db.State()), userId, noteId, update)
      ensures r.Ok? ==> noteId in db.notes && RowOf(r.value) == db.notes[noteId]
      ensures r.Ok? ==> ListsTags(r.value.tags, TagsOf(db.tags, noteId))
    {
      r := db.UpdateNote(userId, noteId, update);
    }

    method DeleteNote(userId: string, noteId: string, now: Timestamp) returns (r: Result<()>)
      requires db.Valid()
      modifies db
      ensures db.Valid()
      ensures r == Ok(())
      ensures db.State() == Deleted(old(db.State()), userId, noteId, now)
    {
      r := db.DeleteNote(userId, noteId, now);
    }

    /** sync_notes: `clockFirst` is the reading taken for the default cursor,
        `clockSecond` the one returned as the new cursor, taken before the store
        is queried. The device id is not consulted. */
    method SyncNotes(userId: string, req: SyncRequest, clockFirst: Timestamp, clockSecond: Timestamp)
      returns (r: Result<SyncResponse>)
      requires db.Valid()
      ensures r.Ok? && r.value.currentTime == clockSecond
      ensures IsSyncResult(db.State(), userId, SinceFor(req, clockFirst), r.value.notes, r.value.deletedNoteIds)
    {
      var since := SinceFor(req, clockFirst);
      var now := clockSecond;
      var fetched := db.GetSyncNotes(userId, since);
      r := Respond(fetched, now);
    }
  }
}
