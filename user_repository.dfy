/** Reads and writes of the user table. */
module UserRepository {
  import opened Wrappers
  import opened Seqs
  import opened Tables

  /** `validateUserIds`: the ids of existing users that are in the list, each once, in table order. */
  function ValidateUserIds(users: seq<User>, userIds: seq<int>): (r: seq<int>)
    ensures forall id :: id in r <==> id in userIds && id in UserIds(users)
    ensures Distinct(UserIds(users)) ==> Distinct(r)
  {
    FilterIn(UserIds(users), userIds)
  }

  /**
   * With user ids unique, the result has at most one id per distinct requested
   * id, exactly one each when all of them are existing users; so it has the
   * request's length exactly when the request repeats no id and every id is an
   * existing user.
   */
  lemma ValidateUserIdsLength(users: seq<User>, userIds: seq<int>)
    requires Distinct(UserIds(users))
    ensures |ValidateUserIds(users, userIds)| <= |Elems(userIds)| <= |userIds|
    ensures |ValidateUserIds(users, userIds)| == |Elems(userIds)| <==> forall id :: id in userIds ==> id in UserIds(users)
    ensures |ValidateUserIds(users, userIds)| == |userIds| <==>
            Distinct(userIds) && forall id :: id in userIds ==> id in UserIds(users)
  {
    AllFoundIff(UserIds(users), userIds);
    DistinctFoundIff(UserIds(users), userIds);
    ElemsCard(userIds);
  }

  /** The number of users with the email (`user.count({where: {email}})`). */
  function CountWithEmail(users: seq<User>, email: string): (r: nat)
    ensures r > 0 <==> exists u :: u in users && u.email == email
    ensures r <= |users|
  {
    if users == [] then 0
    else (if users[0].email == email then 1 else 0) + CountWithEmail(users[1..], email)
  }

  /** `userExists`: the count of users with the email is positive. */
  function UserExists(users: seq<User>, email: string): (r: bool)
    ensures r <==> exists u :: u in users && u.email == email
  {
    CountWithEmail(users, email) > 0
  }

  /** `findByEmail`: the user with the email, or none. */
  function FindByEmail(users: seq<User>, email: string): (r: Option<User>)
    ensures r.Some? ==> r.value in users && r.value.email == email
    ensures r.None? ==> forall u :: u in users ==> u.email != email
  {
    if users == [] then None
    else if users[0].email == email then Some(users[0])
    else FindByEmail(users[1..], email)
  }

  /** `findByEmail` finds a user exactly when `userExists` says one exists. */
  lemma FindByEmailAgreesWithUserExists(users: seq<User>, email: string)
    ensures FindByEmail(users, email).Some? <==> UserExists(users, email)
  {
  }

  lemma AutoIncrementDistinct(ids: seq<int>, next: int)
    requires AutoIncrement(ids, next)
    ensures Distinct(ids)
  {
  }

  /**
   * `createUser`: adds one user with the next id and the given fields, leaving
   * the others unchanged. An email already in use violates the unique column
   * and nothing is created.
   */
  method CreateUser(db: Database, username: string, email: string, password: string) returns (created: Option<User>)
    requires db.Valid()
    modifies db`users, db`nextUserId
    ensures db.Valid()
    ensures UserExists(old(db.users), email) ==> created.None? && db.users == old(db.users) && db.nextUserId == old(db.nextUserId)
    ensures !UserExists(old(db.users), email) ==>
              && created == Some(User(old(db.nextUserId), username, email, password))
              && db.users == old(db.users) + [created.value]
              && db.nextUserId == old(db.nextUserId) + 1
  {
    if CountWithEmail(db.users, email) > 0 {
      return None;
    }
    var user := User(db.nextUserId, username, email, password);
    db.users := db.users + [user];
    db.nextUserId := db.nextUserId + 1;
    created := Some(user);
    assert UserIds(db.users) == UserIds(old(db.users)) + [user.id];
    forall i | 0 <= i < |old(db.users)| ensures old(db.users)[i].email != email {
      assert old(db.users)[i] in old(db.users);
    }
  }
}
