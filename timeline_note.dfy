/**
 * Removing received notes from the caller's timeline: validate the id list,
 * check that the caller has a share for every listed id, then soft-delete
 * them all, or change nothing.
 */
module TimelineNote {
  import opened Wrappers
  import opened Seqs
  import opened Tables
  import opened UserNotesRepository

  /** The three outcomes of `deleteReceivedNote`. */
  datatype DeleteResponse = BadRequest | NotesNotFound | Deleted

  function Status(response: DeleteResponse): int {
    match response
    case BadRequest => 400
    case NotesNotFound => 422
    case Deleted => 200
  }

  /** The body's message; for 400 it is the schema validator's own text, which the model does not carry. */
  function Message(response: DeleteResponse): Option<string> {
    match response
    case BadRequest => None
    case NotesNotFound => Some("Some notes not found")
    case Deleted => Some("Received notes deleted successfully")
  }

  /** The schema of the body: a required array of integers, each at least 1; an empty array passes. */
  predicate ValidNoteIds(notesIds: Option<seq<int>>) {
    notesIds.Some? && forall k | 0 <= k < |notesIds.value| :: notesIds.value[k] >= 1
  }

  /**
   * `deleteReceivedNote` for the authenticated `userId`, at clock value `now`.
   * Only the caller's rows are read or changed. With unique share keys the
   * delete succeeds exactly when the list repeats no id and the caller has a
   * share, deleted or not, for every listed id.
   */
  method DeleteReceivedNote(db: Database, userId: int, notesIds: Option<seq<int>>, now: int) returns (response: DeleteResponse)
    requires db.Valid()
    modifies db`userNotes
    ensures db.Valid()
    ensures !ValidNoteIds(notesIds) ==> Status(response) == 400 && db.userNotes == old(db.userNotes)
    ensures ValidNoteIds(notesIds) && |GetReceivedNotes(old(db.userNotes), userId, notesIds.value)| != |notesIds.value| ==>
              && Status(response) == 422 && Message(response) == Some("Some notes not found")
              && db.userNotes == old(db.userNotes)
    ensures ValidNoteIds(notesIds) && |GetReceivedNotes(old(db.userNotes), userId, notesIds.value)| == |notesIds.value| ==>
              && Status(response) == 200 && Message(response) == Some("Received notes deleted successfully")
              && db.userNotes == SoftDeleted(old(db.userNotes), userId, notesIds.value, now)
    ensures Status(response) == 200 <==>
              && ValidNoteIds(notesIds)
              && Distinct(notesIds.value)
              && forall n | n in notesIds.value :: HasRow(old(db.userNotes), userId, n)
  {
    if !ValidNoteIds(notesIds) {
      return BadRequest;
    }
    var ids := notesIds.value;
    var existingNotes := GetReceivedNotes(db.userNotes, userId, ids);
    ReceivedAllIff(db.userNotes, userId, ids);
    if |existingNotes| != |ids| {
      return NotesNotFound;
    }
    DeleteUserNotes(db, userId, ids, now);
    response := Deleted;
  }

  /**
   * All or nothing: after a successful delete every listed share of the
   * caller carries the deletion time, and only the caller's listed shares
   * changed.
   */
  lemma DeleteAllOrNothing(rows: seq<UserNote>, userId: int, ids: seq<int>, now: int)
    ensures var after := SoftDeleted(rows, userId, ids, now);
            forall i | 0 <= i < |rows| ::
              && (rows[i].userId == userId && rows[i].noteId in ids ==> after[i].deletedAt == Some(now))
              && (rows[i].userId != userId || rows[i].noteId !in ids ==> after[i] == rows[i])
  {
  }

  /**
   * Deleting the same ids again succeeds: a soft delete keeps every row, so
   * the caller's rows are still found.
   */
  lemma DeleteAgainSucceeds(rows: seq<UserNote>, userId: int, ids: seq<int>, now: int)
    requires |GetReceivedNotes(rows, userId, ids)| == |ids|
    ensures |GetReceivedNotes(SoftDeleted(rows, userId, ids, now), userId, ids)| == |ids|
  {
    ReceivedCountIgnoresSoftDelete(rows, userId, ids, now, userId, ids);
  }
}
