/** What the store operations promise, proved on their specification:
    the effect of each mutation, idempotence of import and delete, and what a
    sync pull returns before and after mutations. */
module SyncProperties {
  import opened SyncModel
  import opened SyncSpec
  import opened Service

  // ---------------------------------------------------------------- create

  /** A successful create writes one row: the caller's owner and title, empty
      content, created_at = updated_at = the supplied time; nothing else changes. */
  lemma CreateWritesFreshRow(t: Tables, userId: string, id: string, req: NoteCreate)
    requires Valid(t) && CanCreate(t, id)
    ensures var t' := Created(t, userId, id, req);
      && Valid(t')
      && Owns(t', userId, id)
      && t'.notes[id].title == req.title && t'.notes[id].content == ""
      && t'.notes[id].createdAt == req.createdAt && t'.notes[id].updatedAt == req.createdAt
      && t'.notes.Keys == t.notes.Keys + {id}
      && (forall other :: other in t.notes ==> t'.notes[other] == t.notes[other])
      && t'.tags == t.tags && t'.deleted == t.deleted
  {
  }

  // ---------------------------------------------------------------- import

  /** After an import the row holds exactly the imported fields under the caller's
      ownership, even when the id belonged to another user, and the stored tags
      are exactly the imported ones; no other row or tag set changes. */
  lemma ImportOverwrites(t: Tables, userId: string, id: string, imp: NoteImport)
    requires Valid(t)
    ensures var t' := Imported(t, userId, id, imp);
      && Valid(t')
      && Owns(t', userId, id)
      && t'.notes[id] == NoteRow(id, userId, imp.title, imp.content, imp.createdAt, imp.updatedAt)
      && TagsOf(t'.tags, id) == imp.tags
      && (forall other :: other != id ==> TagsOf(t'.tags, other) == TagsOf(t.tags, other))
      && (forall other :: other != id && other in t.notes ==> other in t'.notes && t'.notes[other] == t.notes[other])
      && t'.deleted == t.deleted
  {
  }

  /** The upsert is keyed on id alone: importing an id that another user owns
      hands the note to the importer, and the previous owner loses it. */
  lemma ImportTakesOverForeignNote(t: Tables, owner: string, userId: string, id: string, imp: NoteImport)
    requires Owns(t, owner, id) && owner != userId
    ensures Owns(Imported(t, userId, id, imp), userId, id)
    ensures !Owns(Imported(t, userId, id, imp), owner, id)
  {
  }

  /** Repeating an import changes nothing more. */
  lemma ImportIdempotent(t: Tables, userId: string, id: string, imp: NoteImport)
    ensures Imported(Imported(t, userId, id, imp), userId, id, imp) == Imported(t, userId, id, imp)
  {
  }

  // ---------------------------------------------------------------- update

  /** A matching update keeps the fields left out, sets updated_at, and never
      touches created_at or the owner; a tag set, when given, replaces the stored
      one, and otherwise the stored tags stay. */
  lemma UpdatePatches(t: Tables, userId: string, id: string, u: NoteUpdate)
    requires Valid(t) && Owns(t, userId, id)
    ensures var t' := Updated(t, userId, id, u);
      && Valid(t')
      && Owns(t', userId, id)
      && t'.notes[id].title == (if u.title.Some? then u.title.value else t.notes[id].title)
      && t'.notes[id].content == (if u.content.Some? then u.content.value else t.notes[id].content)
      && t'.notes[id].updatedAt == u.updatedAt
      && t'.notes[id].createdAt == t.notes[id].createdAt
      && TagsOf(t'.tags, id) == (if u.tags.Some? then u.tags.value else TagsOf(t.tags, id))
      && (forall other :: other != id ==> TagsOf(t'.tags, other) == TagsOf(t.tags, other))
      && t'.notes.Keys == t.notes.Keys
      && (forall other :: other != id && other in t.notes ==> t'.notes[other] == t.notes[other])
      && t'.deleted == t.deleted
  {
  }

  /** Without a row matching both id and owner, an update changes nothing. */
  lemma UpdateWithoutMatchIsNoop(t: Tables, userId: string, id: string, u: NoteUpdate)
    requires !Owns(t, userId, id)
    ensures Updated(t, userId, id, u) == t
  {
  }

  // ---------------------------------------------------------------- delete

  /** Deleting an owned note appends exactly one tombstone and removes that row
      only; deleting anything else changes nothing and writes no tombstone. */
  lemma DeleteEffect(t: Tables, userId: string, id: string, now: Timestamp)
    requires Valid(t)
    ensures var t' := Deleted(t, userId, id, now);
      && Valid(t')
      && (Owns(t, userId, id) ==>
            && t'.deleted == t.deleted + [Tombstone(id, userId, now)]
            && t'.notes.Keys == t.notes.Keys - {id}
            && (forall other :: other in t'.notes ==> t'.notes[other] == t.notes[other]))
      && (!Owns(t, userId, id) ==> t' == t)
      && t'.tags == t.tags
  {
  }

  /** A second delete of the same note, at any time, changes nothing. */
  lemma DeleteIdempotent(t: Tables, userId: string, id: string, now: Timestamp, later: Timestamp)
    ensures Deleted(Deleted(t, userId, id, now), userId, id, later) == Deleted(t, userId, id, now)
  {
  }

  /** The tag rows of a deleted note survive, so a note created again under the
      same id reports the old tags. */
  lemma RecreatedNoteInheritsTags(t: Tables, userId: string, id: string, now: Timestamp, req: NoteCreate)
    requires Owns(t, userId, id)
    ensures CanCreate(Deleted(t, userId, id, now), id)
    ensures TagsOf(Created(Deleted(t, userId, id, now), userId, id, req).tags, id) == TagsOf(t.tags, id)
  {
  }

  // ---------------------------------------------------------------- sync

  /** A row counted in a multiset of rows appears in the sequence of note rows. */
  lemma RowInResult(notes: seq<Note>, row: NoteRow) returns (i: nat)
    requires row in multiset(Rows(notes))
    ensures i < |notes| && RowOf(notes[i]) == row
  {
    assert row in Rows(notes);
    var k :| 0 <= k < |Rows(notes)| && Rows(notes)[k] == row;
    i := k;
  }

  /** Every note of a sync result is a stored row of the owner changed after the
      cursor, with its stored tags. */
  lemma {:induction false} SyncOnlyChanged(t: Tables, userId: string, since: Timestamp, notes: seq<Note>, ids: seq<string>, i: nat)
    requires Valid(t) && IsSyncResult(t, userId, since, notes, ids) && i < |notes|
    ensures notes[i].id in t.notes && t.notes[notes[i].id] == RowOf(notes[i])
    ensures IsChanged(RowOf(notes[i]), userId, since)
    ensures ListsTags(notes[i].tags, TagsOf(t.tags, notes[i].id))
  {
    var rows := Rows(notes);
    assert rows[i] in multiset(rows);
    assert rows[i] in Changed(t.notes, userId, since);
  }

  /** Every stored row of the owner changed after the cursor is in a sync result. */
  lemma {:induction false} SyncIncludesChanged(t: Tables, userId: string, since: Timestamp, notes: seq<Note>, ids: seq<string>, id: string)
    returns (i: nat)
    requires Valid(t) && IsSyncResult(t, userId, since, notes, ids)
    requires id in t.notes && IsChanged(t.notes[id], userId, since)
    ensures i < |notes| && RowOf(notes[i]) == t.notes[id] && notes[i].id == id
  {
    assert t.notes[id] in Changed(t.notes, userId, since);
    i := RowInResult(notes, t.notes[id]);
  }

  /** The deleted ids of a sync result are exactly the ids of the owner's
      tombstones newer than the cursor, each listed once per such tombstone. */
  lemma {:induction false} SyncDeletedIds(t: Tables, userId: string, since: Timestamp, notes: seq<Note>, ids: seq<string>, id: string)
    requires IsSyncResult(t, userId, since, notes, ids)
    ensures id in ids <==> exists d :: d in t.deleted && d.noteId == id && IsDeletedSince(d, userId, since)
    ensures multiset(ids)[id] == |DeletionsOf(t.deleted, userId, since, id)|
  {
    DeletedIdsCount(t.deleted, userId, since, id);
    assert id in ids <==> id in multiset(ids);
    assert id in DeletedIdsSince(t.deleted, userId, since) <==> id in multiset(DeletedIdsSince(t.deleted, userId, since));
  }

  /** A note created at t0 is pulled by a sync whose cursor is before t0, and not
      by one whose cursor is at or after t0. */
  lemma {:induction false} CreatedNoteVisibility(t: Tables, userId: string, id: string, req: NoteCreate, since: Timestamp, notes: seq<Note>, ids: seq<string>)
    requires Valid(t) && CanCreate(t, id)
    requires IsSyncResult(Created(t, userId, id, req), userId, since, notes, ids)
    ensures since < req.createdAt ==> exists i :: 0 <= i < |notes| && notes[i].id == id
    ensures since >= req.createdAt ==> forall i :: 0 <= i < |notes| ==> notes[i].id != id
  {
    var t' := Created(t, userId, id, req);
    CreateWritesFreshRow(t, userId, id, req);
    if since < req.createdAt {
      var i := SyncIncludesChanged(t', userId, since, notes, ids, id);
    } else {
      forall i | 0 <= i < |notes| ensures notes[i].id != id {
        SyncOnlyChanged(t', userId, since, notes, ids, i);
      }
    }
  }

  /** After deleting an owned note, a sync whose cursor is before the deletion
      reports its id as deleted and does not return the note. */
  lemma {:induction false} DeleteThenSync(t: Tables, userId: string, id: string, now: Timestamp, since: Timestamp, notes: seq<Note>, ids: seq<string>)
    requires Valid(t) && Owns(t, userId, id) && since < now
    requires IsSyncResult(Deleted(t, userId, id, now), userId, since, notes, ids)
    ensures id in ids
    ensures forall i :: 0 <= i < |notes| ==> notes[i].id != id
  {
    var t' := Deleted(t, userId, id, now);
    DeleteEffect(t, userId, id, now);
    var d := Tombstone(id, userId, now);
    assert d in t'.deleted;
    SyncDeletedIds(t', userId, since, notes, ids, id);
    forall i | 0 <= i < |notes| ensures notes[i].id != id {
      SyncOnlyChanged(t', userId, since, notes, ids, i);
    }
  }

  /** The two lists are not reconciled: a note deleted and then imported again
      under the same id shows up both as deleted and as changed. */
  lemma {:induction false} DeleteThenReimportInBoth(t: Tables, userId: string, id: string, now: Timestamp, imp: NoteImport, since: Timestamp, notes: seq<Note>, ids: seq<string>)
    requires Valid(t) && Owns(t, userId, id) && since < now && since < imp.updatedAt
    requires IsSyncResult(Imported(Deleted(t, userId, id, now), userId, id, imp), userId, since, notes, ids)
    ensures id in ids
    ensures exists i :: 0 <= i < |notes| && notes[i].id == id
  {
    var t1 := Deleted(t, userId, id, now);
    var t2 := Imported(t1, userId, id, imp);
    DeleteEffect(t, userId, id, now);
    ImportOverwrites(t1, userId, id, imp);
    assert Tombstone(id, userId, now) in t2.deleted;
    SyncDeletedIds(t2, userId, since, notes, ids, id);
    var i := SyncIncludesChanged(t2, userId, since, notes, ids, id);
  }

  /** A note deleted, created again under the same id and deleted again leaves two
      tombstones, and a sync from before both deletions lists its id twice more
      than before. */
  lemma {:induction false} DeletedTwiceListedTwice(t: Tables, userId: string, id: string, now1: Timestamp, req: NoteCreate, now2: Timestamp, since: Timestamp, notes: seq<Note>, ids: seq<string>)
    requires Owns(t, userId, id) && since < now1 && since < now2
    requires IsSyncResult(Deleted(Created(Deleted(t, userId, id, now1), userId, id, req), userId, id, now2), userId, since, notes, ids)
    ensures multiset(ids)[id] == multiset(DeletedIdsSince(t.deleted, userId, since))[id] + 2
  {
    var log := t.deleted;
    var log1 := log + [Tombstone(id, userId, now1)];
    var log2 := log1 + [Tombstone(id, userId, now2)];
    assert Deleted(Created(Deleted(t, userId, id, now1), userId, id, req), userId, id, now2).deleted == log2;
    assert log2[..|log2| - 1] == log1;
    assert log1[..|log1| - 1] == log;
    assert DeletedIdsSince(log2, userId, since) == DeletedIdsSince(log, userId, since) + [id] + [id];
  }

  /** A sync without a cursor misses every note last changed 365 days or more
      before the first clock reading. */
  lemma {:induction false} DefaultWindowMissesOldNotes(t: Tables, userId: string, req: SyncRequest, clock: Timestamp, id: string, notes: seq<Note>, ids: seq<string>)
    requires Valid(t) && req.lastSyncTime.None?
    requires id in t.notes && t.notes[id].updatedAt <= clock - DefaultWindow
    requires IsSyncResult(t, userId, SinceFor(req, clock), notes, ids)
    ensures forall i :: 0 <= i < |notes| ==> notes[i].id != id
  {
    forall i | 0 <= i < |notes| ensures notes[i].id != id {
      SyncOnlyChanged(t, userId, SinceFor(req, clock), notes, ids, i);
    }
  }

  // ---------------------------------------------------------------- a worked scenario

  const Jan2023: Timestamp := 1_672_531_200      // 2023-01-01T00:00:00Z
  const Jan1: Timestamp := 1_704_067_200         // 2024-01-01T00:00:00Z
  const Jan1Noon: Timestamp := 1_704_110_400     // 2024-01-01T12:00:00Z
  const Jan2: Timestamp := 1_704_153_600         // 2024-01-02T00:00:00Z
  const Jan3: Timestamp := 1_704_240_000         // 2024-01-03T00:00:00Z
  const Jan4: Timestamp := 1_704_326_400         // 2024-01-04T00:00:00Z

  function AfterCreate(userId: string): Tables {
    Created(Tables(map[], map[], []), userId, "n1", NoteCreate("Groceries", Jan1))
  }

  function AfterTagging(userId: string): Tables {
    Updated(AfterCreate(userId), userId, "n1", NoteUpdate(None, None, Some({"home"}), Jan2))
  }

  function AfterDelete(userId: string): Tables {
    Deleted(AfterTagging(userId), userId, "n1", Jan3)
  }

  function AfterSecondDelete(userId: string): Tables {
    Deleted(Created(AfterDelete(userId), userId, "n1", NoteCreate("Groceries", Jan3)), userId, "n1", Jan4)
  }

  /** Creating "n1" titled "Groceries" on 2024-01-01 in an empty store, a sync
      from 2023-01-01 returns that one note, untagged, and no deleted ids. */
  lemma {:induction false} ScenarioCreateThenSync(userId: string, notes: seq<Note>, ids: seq<string>)
    requires IsSyncResult(AfterCreate(userId), userId, Jan2023, notes, ids)
    ensures |notes| == 1 && notes[0].id == "n1" && notes[0].title == "Groceries" && notes[0].tags == []
    ensures ids == []
  {
    var t := AfterCreate(userId);
    var row := t.notes["n1"];
    assert Changed(t.notes, userId, Jan2023) == {row};
    assert |Rows(notes)| == |multiset(Rows(notes))| == 1;
    assert Rows(notes)[0] in multiset{row};
    assert t.tags == map[];
    ListsTagsSize(notes[0].tags, TagsOf(t.tags, notes[0].id));
    assert |ids| == |multiset(ids)| == 0;
  }

  /** Tagging "n1" with {"home"} on 2024-01-02 leaves the title and makes the
      stored tags exactly {"home"}. */
  lemma ScenarioTagThenGet(userId: string)
    ensures Owns(AfterTagging(userId), userId, "n1")
    ensures AfterTagging(userId).notes["n1"].title == "Groceries"
    ensures TagsOf(AfterTagging(userId).tags, "n1") == {"home"}
  {
  }

  /** Deleting "n1" on 2024-01-03, a sync from 2024-01-01T12:00 returns no notes
      and exactly the deleted id "n1". */
  lemma ScenarioDeleteThenSync(userId: string, notes: seq<Note>, ids: seq<string>)
    requires IsSyncResult(AfterDelete(userId), userId, Jan1Noon, notes, ids)
    ensures notes == [] && ids == ["n1"]
  {
  }

  /** Creating "n1" again on 2024-01-03 and deleting it once more on 2024-01-04,
      a sync from 2024-01-01T12:00 returns no notes and the id "n1" twice. */
  lemma {:induction false} ScenarioDeleteTwiceThenSync(userId: string, notes: seq<Note>, ids: seq<string>)
    requires IsSyncResult(AfterSecondDelete(userId), userId, Jan1Noon, notes, ids)
    ensures notes == [] && ids == ["n1", "n1"]
  {
    ScenarioTagThenGet(userId);
    var t := AfterSecondDelete(userId);
    DeletedTwiceListedTwice(AfterTagging(userId), userId, "n1", Jan3, NoteCreate("Groceries", Jan3), Jan4, Jan1Noon, notes, ids);
    assert t.notes == map[];
    assert Changed(t.notes, userId, Jan1Noon) == {};
    assert |Rows(notes)| == |multiset(Rows(notes))| == 0;
    assert |t.deleted| == 2;
    assert |ids| == |multiset(ids)| <= 2;
    assert multiset(ids)["n1"] == 2;
    assert ids[0] in multiset(ids) && ids[1] in multiset(ids);
  }
}
