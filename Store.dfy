/** The two tables of the activity database, Users and UserActivities, as the service and the
    seeder see them: rows in insertion order, identity ids handed out by the store, and the
    unique index on Users.Email. A failing save (any DbUpdateException) leaves a table as it was. */
module Store {
  import opened Models
  import opened Text

  /** The unique index on Users.Email: no two rows carry the same email. */
  predicate UniqueEmails(users: seq<User>) {
    forall i, j :: 0 <= i < j < |users| ==> users[i].email != users[j].email
  }

  /** Some row already has exactly this email, so inserting it again violates the index. */
  predicate EmailTaken(users: seq<User>, email: string) {
    exists i :: 0 <= i < |users| && users[i].email == email
  }

  /** Identity ids: positive, increasing in insertion order, all below the next one. */
  predicate UserIds(users: seq<User>, next: int) {
    && (forall i :: 0 <= i < |users| ==> 1 <= users[i].id < next)
    && (forall i, j :: 0 <= i < j < |users| ==> users[i].id < users[j].id)
  }

  predicate ActivityIds(rows: seq<UserActivity>, next: int) {
    && (forall i :: 0 <= i < |rows| ==> 1 <= rows[i].id < next)
    && (forall i, j :: 0 <= i < j < |rows| ==> rows[i].id < rows[j].id)
  }

  /** The predicate of the resolver's query: `u.Email.ToLower() == normalizedEmail`. */
  predicate MatchesKey(u: User, key: string) {
    ToLower(u.email) == key
  }

  /** FirstOrDefault(u => u.Email.ToLower() == key): the first matching row, if any. */
  function FindUser(users: seq<User>, key: string): (r: Option<User>)
    ensures r.None? <==> forall i :: 0 <= i < |users| ==> !MatchesKey(users[i], key)
    ensures r.Some? ==>
      exists i :: 0 <= i < |users| && users[i] == r.value && MatchesKey(users[i], key)
        && forall j :: 0 <= j < i ==> !MatchesKey(users[j], key)
  {
    if users == [] then None
    else if MatchesKey(users[0], key) then Some(users[0])
    else
      var r := FindUser(users[1..], key);
      assert forall i :: 1 <= i < |users| ==> users[i] == users[1..][i - 1];
      assert r.Some? ==>
        exists i :: 1 <= i < |users| && users[i] == r.value && MatchesKey(users[i], key)
          && forall j :: 0 <= j < i ==> !MatchesKey(users[j], key)
      by {
        if r.Some? {
          var k :| 0 <= k < |users[1..]| && users[1..][k] == r.value && MatchesKey(users[1..][k], key)
            && forall j :: 0 <= j < k ==> !MatchesKey(users[1..][j], key);
          assert users[k + 1] == r.value;
          forall j | 0 <= j < k + 1 ensures !MatchesKey(users[j], key) {
            if j > 0 {
              assert users[j] == users[1..][j - 1];
            }
          }
        }
      }
      r
  }

  /** Looking up a key with no upper-case letters in it finds any row stored under exactly that
      email: a failed lookup means the key is free in the unique index. */
  lemma FindUserMissesFreeKey(users: seq<User>, key: string)
    requires forall i :: 0 <= i < |key| ==> !IsUpper(key[i])
    requires FindUser(users, key).None?
    ensures !EmailTaken(users, key)
  {
    ToLowerIdempotent(key);
    forall i | 0 <= i < |users| ensures users[i].email != key {
      assert !MatchesKey(users[i], key);
    }
  }

  /** When no earlier row matches, appending a row stored under the key makes it the one the
      lookup finds. */
  lemma FindUserAfterInsert(users: seq<User>, key: string, u: User)
    requires forall i :: 0 <= i < |key| ==> !IsUpper(key[i])
    requires FindUser(users, key).None?
    requires u.email == key
    ensures FindUser(users + [u], key) == Some(u)
  {
    ToLowerIdempotent(key);
    var s := users + [u];
    assert s[|users|] == u;
    assert forall i :: 0 <= i < |users| ==> s[i] == users[i];
  }

  /** In a table whose emails are all stored lower-case, the lookup finds a row exactly when
      the key is taken in the unique index, and the row it finds is stored under the key. */
  lemma FindUserInNormalizedTable(users: seq<User>, key: string)
    requires forall i :: 0 <= i < |users| ==> forall k :: 0 <= k < |users[i].email| ==> !IsUpper(users[i].email[k])
    ensures FindUser(users, key).Some? <==> EmailTaken(users, key)
    ensures FindUser(users, key).Some? ==> FindUser(users, key).value.email == key
  {
    forall i | 0 <= i < |users| ensures MatchesKey(users[i], key) <==> users[i].email == key {
      ToLowerIdempotent(users[i].email);
    }
  }

  /** The rows a save of `batch` writes: each row as given, with the identity id the store
      assigns, counting up from `first`. */
  function Numbered(batch: seq<UserActivity>, first: int): (rows: seq<UserActivity>)
    ensures |rows| == |batch|
    ensures forall i :: 0 <= i < |rows| ==> rows[i] == batch[i].(id := first + i)
  {
    seq(|batch|, i requires 0 <= i < |batch| => batch[i].(id := first + i))
  }

  /** The users of `batch` with the identity ids the store assigns, counting up from `first`. */
  function NumberedUsers(batch: seq<User>, first: int): (rows: seq<User>)
    ensures |rows| == |batch|
    ensures forall i :: 0 <= i < |rows| ==> rows[i] == batch[i].(id := first + i)
  {
    seq(|batch|, i requires 0 <= i < |batch| => batch[i].(id := first + i))
  }

  /** The database behind ActivityContext. */
  class ActivityDb {
    var users: seq<User>
    var activities: seq<UserActivity>
    var nextUserId: int
    var nextActivityId: int

    ghost predicate Valid()
      reads this
    {
      && UniqueEmails(users)
      && UserIds(users, nextUserId)
      && ActivityIds(activities, nextActivityId)
      && nextUserId >= 1
      && nextActivityId >= 1
    }

    constructor ()
      ensures Valid()
      ensures users == [] && activities == []
    {
      users, activities := [], [];
      nextUserId, nextActivityId := 1, 1;
    }

    /** Users.Add(user) followed by SaveChangesAsync(): the row is stored with a fresh id,
        unless its email is already taken or the save fails for another reason (`fault`),
        in which case the table is unchanged and the caller sees a DbUpdateException. */
    method InsertUser(username: string, email: string, fault: bool) returns (saved: Option<User>)
      requires Valid()
      modifies this
      ensures Valid()
      ensures activities == old(activities) && nextActivityId == old(nextActivityId)
      ensures saved.None? <==> fault || EmailTaken(old(users), email)
      ensures saved.None? ==> users == old(users) && nextUserId == old(nextUserId)
      ensures saved.Some? ==>
        && saved.value == User(old(nextUserId), username, email)
        && users == old(users) + [saved.value]
        && nextUserId == old(nextUserId) + 1
    {
      if fault || EmailTaken(users, email) {
        saved := None;
      } else {
        var u := User(nextUserId, username, email);
        users := users + [u];
        nextUserId := nextUserId + 1;
        saved := Some(u);
      }
    }

    /** Users.AddRangeAsync(batch) followed by SaveChangesAsync(): all rows are stored, with
        consecutive fresh ids, or (on a clash in the unique index or another fault) none. */
    method InsertUsers(batch: seq<User>, fault: bool) returns (saved: Option<seq<User>>)
      requires Valid()
      modifies this
      ensures Valid()
      ensures activities == old(activities) && nextActivityId == old(nextActivityId)
      ensures saved.None? <==> fault || !UniqueEmails(old(users) + batch)
      ensures saved.None? ==> users == old(users) && nextUserId == old(nextUserId)
      ensures saved.Some? ==>
        && saved.value == NumberedUsers(batch, old(nextUserId))
        && users == old(users) + saved.value
        && nextUserId == old(nextUserId) + |batch|
    {
      if fault || !UniqueEmails(users + batch) {
        saved := None;
      } else {
        var rows := NumberedUsers(batch, nextUserId);
        assert forall i :: 0 <= i < |users + rows| ==> (users + rows)[i].email == (users + batch)[i].email;
        users := users + rows;
        nextUserId := nextUserId + |batch|;
        saved := Some(rows);
      }
    }

    /** SqlBulkCopy.WriteToServerAsync(rows) into dbo.UserActivities: the rows are appended,
        and the identity column numbers them. */
    method BulkCopy(rows: seq<UserActivity>)
      requires Valid()
      modifies this
      ensures Valid()
      ensures users == old(users) && nextUserId == old(nextUserId)
      ensures activities == old(activities) + Numbered(rows, old(nextActivityId))
      ensures nextActivityId == old(nextActivityId) + |rows|
    {
      activities := activities + Numbered(rows, nextActivityId);
      nextActivityId := nextActivityId + |rows|;
    }

    /** UserActivities.AddRangeAsync(batch) followed by SaveChangesAsync(): the rows are
        appended with consecutive fresh ids, or none are when the save fails. */
    method InsertActivities(batch: seq<UserActivity>, fault: bool) returns (ok: bool)
      requires Valid()
      modifies this
      ensures Valid()
      ensures users == old(users) && nextUserId == old(nextUserId)
      ensures ok == !fault
      ensures activities == old(activities) + (if ok then Numbered(batch, old(nextActivityId)) else [])
      ensures nextActivityId == old(nextActivityId) + (if ok then |batch| else 0)
    {
      ok := !fault;
      if ok {
        activities := activities + Numbered(batch, nextActivityId);
        nextActivityId := nextActivityId + |batch|;
      }
    }
  }
}
