/**
 * The three tables the repositories read and write, kept in memory in
 * insertion order: users, notes and user-note shares. Ids are autoincrement
 * keys, a user's email is unique, and a share is keyed by (userId, noteId).
 */
module Tables {
  import opened Wrappers

  datatype User = User(id: int, username: string, email: string, password: string)

  datatype Note = Note(id: int, senderId: int, title: string, message: string, typeId: int)

  /** A share: the note is visible to the user; `deletedAt` is set by a soft delete. */
  datatype UserNote = UserNote(userId: int, noteId: int, deletedAt: Option<int>)

  /** Every id is below `next`, and ids grow along the table (autoincrement keys). */
  predicate AutoIncrement(ids: seq<int>, next: int) {
    && (forall i, j | 0 <= i < j < |ids| :: ids[i] < ids[j])
    && (forall i | 0 <= i < |ids| :: ids[i] < next)
  }

  function UserIds(users: seq<User>): (r: seq<int>)
    ensures |r| == |users|
  {
    seq(|users|, i requires 0 <= i < |users| => users[i].id)
  }

  function NoteIds(notes: seq<Note>): (r: seq<int>)
    ensures |r| == |notes|
  {
    seq(|notes|, i requires 0 <= i < |notes| => notes[i].id)
  }

  /** No two users share an email (the column `findUnique` looks up by). */
  predicate UniqueEmails(users: seq<User>) {
    forall i, j | 0 <= i < j < |users| :: users[i].email != users[j].email
  }

  /** No two shares have the same (userId, noteId) key. */
  predicate UniqueKeys(rows: seq<UserNote>) {
    forall i, j | 0 <= i < j < |rows| :: rows[i].userId != rows[j].userId || rows[i].noteId != rows[j].noteId
  }

  /** Whether a share row, deleted or not, exists for (userId, noteId). */
  predicate HasRow(rows: seq<UserNote>, userId: int, noteId: int) {
    exists row :: row in rows && row.userId == userId && row.noteId == noteId
  }

  /** The username joined to a user id (the relation `user` of a share row); `""` if no user has the id. */
  function UsernameOf(users: seq<User>, id: int): string {
    if users == [] then ""
    else if users[0].id == id then users[0].username
    else UsernameOf(users[1..], id)
  }

  class Database {
    var users: seq<User>
    var notes: seq<Note>
    var userNotes: seq<UserNote>
    var nextUserId: int
    var nextNoteId: int

    ghost predicate Valid()
      reads this
    {
      && AutoIncrement(UserIds(users), nextUserId)
      && AutoIncrement(NoteIds(notes), nextNoteId)
      && UniqueEmails(users)
      && UniqueKeys(userNotes)
    }

    constructor ()
      ensures Valid()
      ensures users == [] && notes == [] && userNotes == []
      ensures nextUserId == 1 && nextNoteId == 1
    {
      users, notes, userNotes := [], [], [];
      nextUserId, nextNoteId := 1, 1;
    }
  }
}
