/**
 * Sharing a note: an ordered chain of three rejections (self-share, unknown or
 * repeated recipients, existing share), then one share row per recipient and
 * a broadcast registered to run later.
 */
module NoteService {
  import opened Wrappers
  import opened Seqs
  import opened Text
  import opened AppTypes
  import opened Tables
  import opened NotificationTypes
  import opened Channels
  import opened NotificationService
  import opened UserRepository
  import opened UserNotesRepository
  import opened Timers

  /** `{error: false}` or `{error: true, message}`. */
  datatype ValidationResult = Accepted | Rejected(message: string)

  const SelfShareMessage := "Cannot share a note with its creator"

  /** The message names no id: the unknown ones are not reported. */
  const InvalidRecipientsMessage := "Invalid recipient IDs"

  function AlreadySharedMessage(userNames: seq<string>): string {
    "Recipients " + Join(userNames, ", ") + " already have access to the note"
  }

  function UserNames(shares: seq<ExistingShare>): seq<string> {
    seq(|shares|, i requires 0 <= i < |shares| => shares[i].userName)
  }

  /**
   * `validateRecipientIds` against the user table `users` and the share table
   * `rows`. It reads the tables and changes neither.
   */
  function ValidateRecipientIds(users: seq<User>, rows: seq<UserNote>, userId: int, noteId: int, recipientIds: seq<int>): (r: ValidationResult)
    ensures r == Accepted ==>
              && userId !in recipientIds
              && forall id | id in recipientIds && id in UserIds(users) :: !HasRow(rows, id, noteId)
  {
    if userId in recipientIds then Rejected(SelfShareMessage)
    else
      var validRecipientIds := ValidateUserIds(users, recipientIds);
      if |validRecipientIds| != |recipientIds| then Rejected(InvalidRecipientsMessage)
      else
        var existing := ExistingSharedNotes(rows, users, noteId, validRecipientIds);
        if |existing| > 0 then Rejected(AlreadySharedMessage(UserNames(existing)))
        else Accepted
  }

  /** Every recipient is an existing user and none is listed twice. */
  predicate KnownDistinctRecipients(users: seq<User>, recipientIds: seq<int>) {
    Distinct(recipientIds) && forall id | id in recipientIds :: id in UserIds(users)
  }

  /**
   * With user ids unique, a share request is accepted exactly when the sharer
   * is not a recipient, the recipients are existing users listed once each,
   * and no recipient has any share of the note, soft-deleted ones included.
   * An empty recipient list is accepted.
   */
  lemma ValidateAcceptsIff(users: seq<User>, rows: seq<UserNote>, userId: int, noteId: int, recipientIds: seq<int>)
    requires Distinct(UserIds(users))
    ensures ValidateRecipientIds(users, rows, userId, noteId, recipientIds) == Accepted <==>
            && userId !in recipientIds
            && KnownDistinctRecipients(users, recipientIds)
            && forall id | id in recipientIds :: !HasRow(rows, id, noteId)
  {
    ValidateUserIdsLength(users, recipientIds);
  }

  /**
   * The checks run in order and each has its own message: a self-share is
   * rejected first, whatever the tables hold; then unknown or repeated
   * recipients; then recipients that already have the note, named by username.
   */
  lemma ValidateRejections(users: seq<User>, rows: seq<UserNote>, userId: int, noteId: int, recipientIds: seq<int>)
    requires Distinct(UserIds(users))
    ensures userId in recipientIds ==>
              ValidateRecipientIds(users, rows, userId, noteId, recipientIds) == Rejected(SelfShareMessage)
    ensures userId !in recipientIds && !KnownDistinctRecipients(users, recipientIds) ==>
              ValidateRecipientIds(users, rows, userId, noteId, recipientIds) == Rejected(InvalidRecipientsMessage)
    ensures userId !in recipientIds && KnownDistinctRecipients(users, recipientIds) &&
            (exists id | id in recipientIds :: HasRow(rows, id, noteId)) ==>
              exists names: seq<string> ::
                && ValidateRecipientIds(users, rows, userId, noteId, recipientIds) == Rejected(AlreadySharedMessage(names))
                && |names| > 0
                && NamesTheSharers(users, rows, noteId, recipientIds, names)
  {
    ValidateUserIdsLength(users, recipientIds);
    if userId !in recipientIds && KnownDistinctRecipients(users, recipientIds) &&
       (exists id | id in recipientIds :: HasRow(rows, id, noteId)) {
      AlreadySharedNamesThem(users, rows, userId, noteId, recipientIds);
    }
  }

  /** `names` are exactly the usernames of the listed users that have a share of the note. */
  predicate NamesTheSharers(users: seq<User>, rows: seq<UserNote>, noteId: int, listed: seq<int>, names: seq<string>) {
    && (forall k | 0 <= k < |names| :: exists id | id in listed :: HasRow(rows, id, noteId) && names[k] == UsernameOf(users, id))
    && forall id | id in listed && HasRow(rows, id, noteId) :: UsernameOf(users, id) in names
  }

  /** The third check's message names exactly the recipients that already have the note. */
  lemma AlreadySharedNamesThem(users: seq<User>, rows: seq<UserNote>, userId: int, noteId: int, recipientIds: seq<int>)
    requires Distinct(UserIds(users))
    requires userId !in recipientIds && KnownDistinctRecipients(users, recipientIds)
    requires exists id | id in recipientIds :: HasRow(rows, id, noteId)
    ensures exists names: seq<string> ::
              && ValidateRecipientIds(users, rows, userId, noteId, recipientIds) == Rejected(AlreadySharedMessage(names))
              && |names| > 0
              && NamesTheSharers(users, rows, noteId, recipientIds, names)
  {
    ValidateUserIdsLength(users, recipientIds);
    var valid := ValidateUserIds(users, recipientIds);
    assert |valid| == |recipientIds|;
    var existing := ExistingSharedNotes(rows, users, noteId, valid);
    var names := UserNames(existing);
    assert forall id :: id in valid <==> id in recipientIds;
    assert |existing| > 0;
    ExistingNamesExact(users, rows, noteId, valid, recipientIds);
    assert ValidateRecipientIds(users, rows, userId, noteId, recipientIds) == Rejected(AlreadySharedMessage(names));
  }

  /**
   * The usernames of the existing shares for `ids` are exactly those of the
   * users of `listed` with a share of the note; `ids` and `listed` hold the
   * same ids.
   */
  lemma ExistingNamesExact(users: seq<User>, rows: seq<UserNote>, noteId: int, ids: seq<int>, listed: seq<int>)
    requires forall id :: id in ids <==> id in listed
    ensures NamesTheSharers(users, rows, noteId, listed, UserNames(ExistingSharedNotes(rows, users, noteId, ids)))
  {
    var existing := ExistingSharedNotes(rows, users, noteId, ids);
    var names := UserNames(existing);
    forall k | 0 <= k < |names|
      ensures exists id | id in listed :: HasRow(rows, id, noteId) && names[k] == UsernameOf(users, id)
    {
      assert existing[k] in existing;
    }
    forall id | id in listed && HasRow(rows, id, noteId)
      ensures UsernameOf(users, id) in names
    {
      var row :| row in rows && row.userId == id && row.noteId == noteId;
      var i :| 0 <= i < |rows| && rows[i] == row;
      var e := ExistingShare(id, UsernameOf(users, id));
      assert e in existing;
      var k :| 0 <= k < |existing| && existing[k] == e;
      assert names[k] == e.userName;
    }
  }

  /** A soft-deleted share still blocks sharing the note again with that user. */
  lemma SoftDeletedShareStillBlocks(users: seq<User>, rows: seq<UserNote>, userId: int, noteId: int, recipientIds: seq<int>,
                                    deletedFor: int, deletedNotes: seq<int>, now: int)
    ensures ValidateRecipientIds(users, SoftDeleted(rows, deletedFor, deletedNotes, now), userId, noteId, recipientIds) ==
            ValidateRecipientIds(users, rows, userId, noteId, recipientIds)
  {
    ReadsIgnoreSoftDelete(rows, users, deletedFor, deletedNotes, now, 0, noteId, ValidateUserIds(users, recipientIds));
  }

  /** The rows `shareNoteWithUsers` asks `createMany` for: one `{userId: r, noteId}` per recipient, in order. */
  function ShareRows(noteId: int, recipientIds: seq<int>): (r: seq<NewUserNote>)
    ensures |r| == |recipientIds|
    ensures forall i | 0 <= i < |r| :: r[i] == NewUserNote(recipientIds[i], noteId)
  {
    seq(|recipientIds|, i requires 0 <= i < |recipientIds| => NewUserNote(recipientIds[i], noteId))
  }

  /** The options of a share notification: only `socketsOptions`, holding the recipient list. */
  function ShareOptions(recipientIds: seq<int>): NotificationOptions {
    NotificationOptions(None, None, Some(SocketsOptions(recipientIds)))
  }

  /** The deferred broadcast of a share. */
  function ShareNotification(sharer: UserData, note: Note, recipientIds: seq<int>): PendingBroadcast {
    var bodyEnd := if 20 < |note.message| then |note.message| else 20;
    PendingBroadcast(sharer.username + " sent you a new note",
                     Substring(note.message, 0, bodyEnd),
                     Some(ShareOptions(recipientIds)))
  }

  /**
   * The body `message.substring(0, max(20, length))` is the whole message:
   * the end index is never below the length. The options hold only the
   * socket key, with the recipient list unchanged.
   */
  lemma ShareNotificationContent(sharer: UserData, note: Note, recipientIds: seq<int>)
    ensures ShareNotification(sharer, note, recipientIds).title == sharer.username + " sent you a new note"
    ensures ShareNotification(sharer, note, recipientIds).message == note.message
    ensures ShareNotification(sharer, note, recipientIds).options == Some(NotificationOptions(None, None, Some(SocketsOptions(recipientIds))))
  {
  }

  /**
   * A share's broadcast over the startup channels sends no email, nor
   * anything else: the email channel finds no `emailOptions`, and the socket
   * channel only logs.
   */
  lemma ShareBroadcastSendsNothing(sharer: UserData, note: Note, recipientIds: seq<int>)
    ensures var task := ShareNotification(sharer, note, recipientIds);
            BroadcastSends(GeneralNotificationChannels, task.title, task.message, task.options) == []
  {
    var task := ShareNotification(sharer, note, recipientIds);
    GeneralBroadcastIsEmailOnly(task.title, task.message, task.options);
  }

  /**
   * `shareNoteWithUsers`: persists one share per recipient, then registers
   * the broadcast with the timer queue and returns without running it. The
   * caller has checked that the sharer owns the note.
   */
  method ShareNoteWithUsers(db: Database, timers: TimerQueue, sharer: UserData, note: Note, recipientIds: seq<int>)
    requires db.Valid()
    requires note.senderId == sharer.id
    modifies db`userNotes, timers
    ensures db.Valid()
    ensures db.userNotes == InsertManySkippingDuplicates(old(db.userNotes), ShareRows(note.id, recipientIds))
    ensures timers.pending == old(timers.pending) + [ShareNotification(sharer, note, recipientIds)]
  {
    var userNotesData := ShareRows(note.id, recipientIds);
    CreateMany(db, userNotesData);
    timers.SetTimeout(ShareNotification(sharer, note, recipientIds));
  }

  /**
   * After a share every recipient has exactly one share of the note, rows
   * already there are unchanged, and keys stay unique.
   */
  lemma ShareGrantsAccessOnce(rows: seq<UserNote>, noteId: int, recipientIds: seq<int>)
    requires UniqueKeys(rows)
    ensures var after := InsertManySkippingDuplicates(rows, ShareRows(noteId, recipientIds));
            && UniqueKeys(after)
            && after[..|rows|] == rows
            && forall id | id in recipientIds :: CountKey(after, id, noteId) == 1
  {
    var data := ShareRows(noteId, recipientIds);
    var after := InsertManySkippingDuplicates(rows, data);
    forall id | id in recipientIds ensures CountKey(after, id, noteId) == 1 {
      var i :| 0 <= i < |recipientIds| && recipientIds[i] == id;
      assert data[i] in data;
      UniqueKeysCountAtMostOne(after, id, noteId);
    }
  }

  /**
   * Sharing twice: once an accepted share of a non-empty recipient list has
   * been stored, the same request is rejected as already shared.
   */
  lemma ShareTwiceRejected(users: seq<User>, rows: seq<UserNote>, sharerId: int, noteId: int, recipientIds: seq<int>)
    requires Distinct(UserIds(users))
    requires recipientIds != []
    requires ValidateRecipientIds(users, rows, sharerId, noteId, recipientIds) == Accepted
    ensures var after := InsertManySkippingDuplicates(rows, ShareRows(noteId, recipientIds));
            exists names: seq<string> | |names| > 0 ::
              ValidateRecipientIds(users, after, sharerId, noteId, recipientIds) == Rejected(AlreadySharedMessage(names))
  {
    var data := ShareRows(noteId, recipientIds);
    var after := InsertManySkippingDuplicates(rows, data);
    ValidateAcceptsIff(users, rows, sharerId, noteId, recipientIds);
    assert data[0] in data;
    assert HasRow(after, recipientIds[0], noteId);
    ValidateRejections(users, after, sharerId, noteId, recipientIds);
  }
}
