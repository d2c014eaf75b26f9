/**
 * Reads and writes of the share table. Inserts skip rows whose
 * (userId, noteId) key already exists; deletes only set `deletedAt`; and no
 * read filters on `deletedAt`, so soft-deleted shares are still found.
 */
module UserNotesRepository {
  import opened Wrappers
  import opened Seqs
  import opened Tables

  /** One requested share of `createMany`. */
  datatype NewUserNote = NewUserNote(userId: int, noteId: int)

  /** One existing share of a note, with the username joined from the user table. */
  datatype ExistingShare = ExistingShare(userId: int, userName: string)

  /** Inserting one requested share: skipped when its key is already present. */
  function InsertSkippingDuplicate(rows: seq<UserNote>, d: NewUserNote): (r: seq<UserNote>)
    ensures |rows| <= |r| <= |rows| + 1 && r[..|rows|] == rows
    ensures HasRow(r, d.userId, d.noteId)
    ensures forall i | |rows| <= i < |r| :: r[i] == UserNote(d.userId, d.noteId, None)
    ensures UniqueKeys(rows) ==> UniqueKeys(r)
  {
    if HasRow(rows, d.userId, d.noteId) then rows
    else
      var r := rows + [UserNote(d.userId, d.noteId, None)];
      assert r[|rows|] in r;
      r
  }

  /** A table that extends another still has every key the other has. */
  lemma ExtensionKeepsRows(a: seq<UserNote>, b: seq<UserNote>)
    requires |a| <= |b| && b[..|a|] == a
    ensures forall u, n | HasRow(a, u, n) :: HasRow(b, u, n)
  {
    forall u, n | HasRow(a, u, n) ensures HasRow(b, u, n) {
      var row :| row in a && row.userId == u && row.noteId == n;
      var k :| 0 <= k < |a| && a[k] == row;
      assert b[k] == b[..|a|][k];
    }
  }

  /**
   * `createMany({data, skipDuplicates: true})`: the table afterwards holds
   * every requested pair, the rows that were there are untouched, the new
   * rows are live shares of requested pairs, and keys stay unique.
   */
  function InsertManySkippingDuplicates(rows: seq<UserNote>, data: seq<NewUserNote>): (r: seq<UserNote>)
    ensures |rows| <= |r| <= |rows| + |data|
    ensures r[..|rows|] == rows
    ensures forall d | d in data :: HasRow(r, d.userId, d.noteId)
    ensures forall i | |rows| <= i < |r| :: r[i].deletedAt.None? && NewUserNote(r[i].userId, r[i].noteId) in data
    ensures UniqueKeys(rows) ==> UniqueKeys(r)
    decreases |data|
  {
    if data == [] then rows
    else
      var once := InsertSkippingDuplicate(rows, data[0]);
      var r := InsertManySkippingDuplicates(once, data[1..]);
      assert r[..|rows|] == r[..|once|][..|rows|];
      ExtensionKeepsRows(once, r);
      assert forall d | d in data :: d == data[0] || d in data[1..];
      assert forall i | |rows| <= i < |once| :: r[i] == once[i] by {
        forall i | |rows| <= i < |once| ensures r[i] == once[i] {
          assert r[..|once|][i] == r[i];
        }
      }
      r
  }

  /** `createMany` on the share table. */
  method CreateMany(db: Database, data: seq<NewUserNote>)
    requires db.Valid()
    modifies db`userNotes
    ensures db.Valid()
    ensures db.userNotes == InsertManySkippingDuplicates(old(db.userNotes), data)
  {
    db.userNotes := InsertManySkippingDuplicates(db.userNotes, data);
  }

  /** `getUserNotes`: the note id of every share of the user, soft-deleted ones included, in table order. */
  function GetUserNotes(rows: seq<UserNote>, userId: int): (r: seq<int>)
    ensures forall n :: n in r <==> HasRow(rows, userId, n)
    ensures UniqueKeys(rows) ==> Distinct(r)
  {
    if rows == [] then []
    else
      var rest := GetUserNotes(rows[1..], userId);
      assert forall n :: HasRow(rows, userId, n) <==>
               (rows[0].userId == userId && rows[0].noteId == n) || HasRow(rows[1..], userId, n) by {
        assert forall row :: row in rows <==> row == rows[0] || row in rows[1..];
      }
      assert UniqueKeys(rows) ==> UniqueKeys(rows[1..]) && !HasRow(rows[1..], rows[0].userId, rows[0].noteId) by {
        if UniqueKeys(rows) {
          forall i, j | 0 <= i < j < |rows[1..]|
            ensures rows[1..][i].userId != rows[1..][j].userId || rows[1..][i].noteId != rows[1..][j].noteId
          {
            assert rows[1..][i] == rows[i + 1] && rows[1..][j] == rows[j + 1];
          }
          forall row | row in rows[1..] ensures row.userId != rows[0].userId || row.noteId != rows[0].noteId {
            var k :| 0 <= k < |rows[1..]| && rows[1..][k] == row;
            assert row == rows[k + 1];
          }
        }
      }
      if rows[0].userId == userId then
        DistinctCons([rows[0].noteId] + rest);
        assert ([rows[0].noteId] + rest)[1..] == rest;
        [rows[0].noteId] + rest
      else rest
  }

  /** Whether a row is selected by `deleteUserNotes(userId, noteIds)`. */
  predicate Selected(row: UserNote, userId: int, noteIds: seq<int>) {
    row.userId == userId && row.noteId in noteIds
  }

  /**
   * `deleteUserNotes`: exactly the rows of the user whose note id is listed
   * get `deletedAt = now`; every other row is untouched and no row is removed.
   */
  function SoftDeleted(rows: seq<UserNote>, userId: int, noteIds: seq<int>, now: int): (r: seq<UserNote>)
    ensures |r| == |rows|
    ensures forall i | 0 <= i < |rows| ::
              if Selected(rows[i], userId, noteIds) then r[i] == rows[i].(deletedAt := Some(now)) else r[i] == rows[i]
  {
    seq(|rows|, i requires 0 <= i < |rows| =>
      if Selected(rows[i], userId, noteIds) then rows[i].(deletedAt := Some(now)) else rows[i])
  }

  /** `deleteUserNotes` on the share table, stamped with the clock value `now`. */
  method DeleteUserNotes(db: Database, userId: int, noteIds: seq<int>, now: int)
    requires db.Valid()
    modifies db`userNotes
    ensures db.Valid()
    ensures db.userNotes == SoftDeleted(old(db.userNotes), userId, noteIds, now)
  {
    SoftDeleteKeepsKeys(db.userNotes, userId, noteIds, now);
    db.userNotes := SoftDeleted(db.userNotes, userId, noteIds, now);
  }

  /** Repeating a delete leaves the same rows deleted; only their timestamp becomes the later one. */
  lemma SoftDeleteTwice(rows: seq<UserNote>, userId: int, noteIds: seq<int>, t1: int, t2: int)
    ensures SoftDeleted(SoftDeleted(rows, userId, noteIds, t1), userId, noteIds, t2) == SoftDeleted(rows, userId, noteIds, t2)
  {
    var once, twice := SoftDeleted(rows, userId, noteIds, t1), SoftDeleted(SoftDeleted(rows, userId, noteIds, t1), userId, noteIds, t2);
    forall i | 0 <= i < |rows| ensures twice[i] == SoftDeleted(rows, userId, noteIds, t2)[i] {
      assert Selected(once[i], userId, noteIds) == Selected(rows[i], userId, noteIds);
    }
  }

  /** A soft delete keeps every (userId, noteId) key, so it keeps keys unique and every lookup by key. */
  lemma SoftDeleteKeepsKeys(rows: seq<UserNote>, userId: int, noteIds: seq<int>, now: int)
    ensures forall u, n :: HasRow(SoftDeleted(rows, userId, noteIds, now), u, n) <==> HasRow(rows, u, n)
    ensures UniqueKeys(rows) ==> UniqueKeys(SoftDeleted(rows, userId, noteIds, now))
  {
    var r := SoftDeleted(rows, userId, noteIds, now);
    forall u, n ensures HasRow(r, u, n) <==> HasRow(rows, u, n) {
      if HasRow(r, u, n) {
        var row :| row in r && row.userId == u && row.noteId == n;
        var k :| 0 <= k < |r| && r[k] == row;
        assert rows[k] in rows;
      }
      if HasRow(rows, u, n) {
        var row :| row in rows && row.userId == u && row.noteId == n;
        var k :| 0 <= k < |rows| && rows[k] == row;
        assert r[k] in r;
      }
    }
  }

  /**
   * `existingSharedNotes`: one (userId, username) per share of the note whose
   * user is listed, soft-deleted shares included, in table order.
   */
  function ExistingSharedNotes(rows: seq<UserNote>, users: seq<User>, noteId: int, recipientUserIds: seq<int>): (r: seq<ExistingShare>)
    ensures |r| <= |rows|
    ensures r == [] <==> forall u | u in recipientUserIds :: !HasRow(rows, u, noteId)
    ensures forall s | s in r :: s.userId in recipientUserIds && HasRow(rows, s.userId, noteId) && s.userName == UsernameOf(users, s.userId)
    ensures forall i | 0 <= i < |rows| && rows[i].noteId == noteId && rows[i].userId in recipientUserIds ::
              ExistingShare(rows[i].userId, UsernameOf(users, rows[i].userId)) in r
    ensures |r| == MatchingRows(rows, noteId, recipientUserIds)
  {
    if rows == [] then []
    else
      var rest := ExistingSharedNotes(rows[1..], users, noteId, recipientUserIds);
      assert forall u :: HasRow(rows, u, noteId) <==>
               (rows[0].userId == u && rows[0].noteId == noteId) || HasRow(rows[1..], u, noteId) by {
        assert forall row :: row in rows <==> row == rows[0] || row in rows[1..];
      }
      assert forall i | 1 <= i < |rows| :: rows[i] == rows[1..][i - 1];
      MatchingRowsCons(rows, noteId, recipientUserIds);
      if rows[0].noteId == noteId && rows[0].userId in recipientUserIds then
        [ExistingShare(rows[0].userId, UsernameOf(users, rows[0].userId))] + rest
      else rest
  }

  /** The number of shares of note `noteId` whose user is listed, counted from the end of the table. */
  function MatchingRows(rows: seq<UserNote>, noteId: int, userIds: seq<int>): nat {
    if rows == [] then 0
    else
      var last := rows[|rows| - 1];
      MatchingRows(rows[..|rows| - 1], noteId, userIds) + (if last.noteId == noteId && last.userId in userIds then 1 else 0)
  }

  /** Counting from the end agrees with peeling the first row off. */
  lemma {:induction false} MatchingRowsCons(rows: seq<UserNote>, noteId: int, userIds: seq<int>)
    requires rows != []
    ensures MatchingRows(rows, noteId, userIds) ==
            MatchingRows(rows[1..], noteId, userIds) + (if rows[0].noteId == noteId && rows[0].userId in userIds then 1 else 0)
    decreases |rows|
  {
    if |rows| > 1 {
      assert rows[1..][..|rows[1..]| - 1] == rows[..|rows| - 1][1..];
      MatchingRowsCons(rows[..|rows| - 1], noteId, userIds);
    }
  }

  /** `getReceivedNotes`: the user's shares whose note id is listed, soft-deleted ones included, in table order. */
  function GetReceivedNotes(rows: seq<UserNote>, userId: int, noteIds: seq<int>): (r: seq<UserNote>)
    ensures forall row :: row in r <==> row in rows && Selected(row, userId, noteIds)
  {
    if rows == [] then []
    else
      var rest := GetReceivedNotes(rows[1..], userId, noteIds);
      assert forall row :: row in rows <==> row == rows[0] || row in rows[1..];
      if Selected(rows[0], userId, noteIds) then [rows[0]] + rest else rest
  }

  /** The received shares are as many as the listed note ids among the user's shares. */
  lemma {:induction false} ReceivedCount(rows: seq<UserNote>, userId: int, noteIds: seq<int>)
    ensures |GetReceivedNotes(rows, userId, noteIds)| == |FilterIn(GetUserNotes(rows, userId), noteIds)|
  {
    if rows != [] {
      ReceivedCount(rows[1..], userId, noteIds);
      var rest := GetUserNotes(rows[1..], userId);
      if rows[0].userId == userId {
        assert ([rows[0].noteId] + rest)[1..] == rest;
      }
    }
  }

  /**
   * With unique keys, the user's shares for a list of note ids are as many
   * as the list is long exactly when the list repeats no id and every id has
   * a share of the user, deleted or not.
   */
  lemma ReceivedAllIff(rows: seq<UserNote>, userId: int, noteIds: seq<int>)
    requires UniqueKeys(rows)
    ensures |GetReceivedNotes(rows, userId, noteIds)| <= |noteIds|
    ensures |GetReceivedNotes(rows, userId, noteIds)| == |noteIds| <==>
            Distinct(noteIds) && forall n | n in noteIds :: HasRow(rows, userId, n)
  {
    ReceivedCount(rows, userId, noteIds);
    AllFoundIff(GetUserNotes(rows, userId), noteIds);
  }

  lemma SoftDeletedTail(rows: seq<UserNote>, userId: int, noteIds: seq<int>, now: int)
    requires rows != []
    ensures SoftDeleted(rows, userId, noteIds, now)[1..] == SoftDeleted(rows[1..], userId, noteIds, now)
    ensures SoftDeleted(rows, userId, noteIds, now)[0].userId == rows[0].userId
    ensures SoftDeleted(rows, userId, noteIds, now)[0].noteId == rows[0].noteId
  {
  }

  /** No read looks at `deletedAt`: a soft delete changes neither `getUserNotes` nor `existingSharedNotes`. */
  lemma {:induction false} ReadsIgnoreSoftDelete(rows: seq<UserNote>, users: seq<User>, userId: int, noteIds: seq<int>, now: int,
                                                 u: int, n: int, ids: seq<int>)
    ensures GetUserNotes(SoftDeleted(rows, userId, noteIds, now), u) == GetUserNotes(rows, u)
    ensures ExistingSharedNotes(SoftDeleted(rows, userId, noteIds, now), users, n, ids) == ExistingSharedNotes(rows, users, n, ids)
  {
    if rows != [] {
      SoftDeletedTail(rows, userId, noteIds, now);
      ReadsIgnoreSoftDelete(rows[1..], users, userId, noteIds, now, u, n, ids);
    }
  }

  /** The user's received shares for a list of ids are as many after a soft delete as before it. */
  lemma ReceivedCountIgnoresSoftDelete(rows: seq<UserNote>, userId: int, noteIds: seq<int>, now: int, u: int, ids: seq<int>)
    ensures |GetReceivedNotes(SoftDeleted(rows, userId, noteIds, now), u, ids)| == |GetReceivedNotes(rows, u, ids)|
  {
    ReceivedCount(rows, u, ids);
    ReceivedCount(SoftDeleted(rows, userId, noteIds, now), u, ids);
    ReadsIgnoreSoftDelete(rows, [], userId, noteIds, now, u, 0, ids);
  }

  /** How many rows carry the key (userId, noteId). */
  function CountKey(rows: seq<UserNote>, userId: int, noteId: int): (r: nat)
    ensures r > 0 <==> HasRow(rows, userId, noteId)
  {
    if rows == [] then 0
    else
      assert forall row :: row in rows <==> row == rows[0] || row in rows[1..];
      (if rows[0].userId == userId && rows[0].noteId == noteId then 1 else 0) + CountKey(rows[1..], userId, noteId)
  }

  /** With unique keys a key is carried by at most one row. */
  lemma {:induction false} UniqueKeysCountAtMostOne(rows: seq<UserNote>, userId: int, noteId: int)
    requires UniqueKeys(rows)
    ensures CountKey(rows, userId, noteId) <= 1
  {
    if rows != [] {
      assert UniqueKeys(rows[1..]) by {
        forall i, j | 0 <= i < j < |rows[1..]|
          ensures rows[1..][i].userId != rows[1..][j].userId || rows[1..][i].noteId != rows[1..][j].noteId
        {
          assert rows[1..][i] == rows[i + 1] && rows[1..][j] == rows[j + 1];
        }
      }
      UniqueKeysCountAtMostOne(rows[1..], userId, noteId);
      forall row | row in rows[1..] ensures row.userId != rows[0].userId || row.noteId != rows[0].noteId {
        var k :| 0 <= k < |rows[1..]| && rows[1..][k] == row;
        assert rows[k + 1] == row;
      }
    }
  }
}
