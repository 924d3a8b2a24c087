/** ActivityService: the two logging calls (by user id, and by username and email through the
    user resolver) that put events on the bounded channel, and one round of the background
    writer that drains the channel into the UserActivities table in batches. */
module Service {
  import opened Models
  import opened Text
  import opened Store
  import opened Channels

  /** _batchSize. */
  const BatchSize: nat := 500

  datatype LogError =
    | EmailRequired    // ArgumentException("email is required")
    | UserSaveFailed   // the DbUpdateException rethrown when the re-query finds nobody
    | ChannelClosed    // ChannelClosedException from WriteAsync

  /** What a logging call comes to. `Waiting` is a call suspended in WriteAsync on a full
      channel: the event is not queued yet, and the call resumes once the writer makes room. */
  datatype LogResult =
    | Logged(activity: UserActivity)
    | Waiting(activity: UserActivity)
    | Failed(error: LogError)

  /** How one round of ProcessQueueAsync ends. */
  datatype StepOutcome =
    | Cancelled               // WaitToReadAsync(token) threw OperationCanceledException: the loop ends
    | Finished                // the channel is completed and empty: WaitToReadAsync returned false
    | Idle                    // the channel is empty but open: WaitToReadAsync is still waiting
    | Wrote(count: nat)       // a batch of `count` events was saved
    | WriteFailed(count: nat) // saving a batch of `count` events threw; the batch was dropped

  /** The entity LogUserActivity(userId, ...) builds: id 0 until saved, the caller's clock
      reading as timestamp, and `metadata ?? string.Empty`. */
  function NewActivity(userId: int, activityType: string, sessionId: string,
                       metadata: Option<string>, now: Ticks): (a: UserActivity)
    ensures a.id == 0 && a.userId == userId && a.activityType == activityType
    ensures a.timestamp == now && a.sessionId == sessionId
    ensures metadata.Some? ==> a.metadata == metadata.value
    ensures metadata.None? ==> a.metadata == ""
  {
    UserActivity(0, userId, activityType, now, sessionId, if metadata.Some? then metadata.value else "")
  }

  /** The effect of LogUserActivity(userId, ...) on a channel holding `queued`: the event
      is appended at the tail when there is room, the call waits when the channel is full and
      fails when it is completed; in those two cases the queue is left as it was. */
  predicate EnqueuedFor(userId: int, activityType: string, sessionId: string,
                        metadata: Option<string>, now: Ticks,
                        queued: seq<UserActivity>, completed: bool,
                        res: LogResult, after: seq<UserActivity>) {
    var a := NewActivity(userId, activityType, sessionId, metadata, now);
    && res == (if completed then Failed(ChannelClosed)
               else if |queued| == Capacity then Waiting(a)
               else Logged(a))
    && after == if res.Logged? then queued + [a] else queued
  }

  /** The Users table went from `before` to `after` by storing at most one row, under `key`. */
  predicate GrewByKey(before: seq<User>, after: seq<User>, key: string) {
    || after == before
    || (|after| == |before| + 1 && after[..|before|] == before && after[|before|].email == key)
  }

  class ActivityService {
    const db: ActivityDb
    const channel: BoundedChannel
    /** The writer's batch buffer; it is empty between rounds. */
    var buffer: seq<UserActivity>

    ghost predicate Valid()
      reads this, db, channel
    {
      db.Valid() && channel.Valid() && buffer == []
    }

    /** new ActivityService(db): a fresh, empty, open channel. */
    constructor (db: ActivityDb)
      requires db.Valid()
      ensures Valid()
      ensures this.db == db && fresh(channel)
      ensures channel.items == [] && !channel.completed
    {
      this.db := db;
      channel := new BoundedChannel();
      buffer := [];
    }

    /** LogUserActivity(userId, activityType, sessionId, metadata): appends exactly one event
        at the tail of the channel and leaves the queued events as they were; on a full
        channel it waits instead, on a completed one it fails; either way nothing changes. */
    method LogUserActivity(userId: int, activityType: string, sessionId: string,
                           metadata: Option<string>, now: Ticks) returns (res: LogResult)
      requires Valid()
      modifies channel
      ensures Valid()
      ensures channel.completed == old(channel.completed)
      ensures EnqueuedFor(userId, activityType, sessionId, metadata, now,
                          old(channel.items), old(channel.completed), res, channel.items)
    {
      var activity := NewActivity(userId, activityType, sessionId, metadata, now);
      var w := channel.Write(activity);
      match w
      case Written => res := Logged(activity);
      case MustWait => res := Waiting(activity);
      case Closed => res := Failed(ChannelClosed);
    }

    /** The lookup, insert and re-query of LogUserActivity(username, email, ...), for an
        already normalised `key`. `rival` is another request that stores a user under the same
        email between our lookup and our save (the race the code guards against); `fault` is
        any other reason for our save to throw. The user returned is the one the table now
        holds under the key; it is None only when our save failed and the re-query found nobody. */
    method ResolveUser(username: string, key: string, rival: Option<string>, fault: bool)
      returns (user: Option<User>)
      requires Valid()
      requires forall i :: 0 <= i < |key| ==> !IsUpper(key[i])
      modifies db
      ensures Valid()
      ensures db.activities == old(db.activities) && db.nextActivityId == old(db.nextActivityId)
      ensures user.Some? ==> user == FindUser(db.users, key) && user.value in db.users
      ensures GrewByKey(old(db.users), db.users, key)
      ensures old(FindUser(db.users, key)).Some? ==>
        user == old(FindUser(db.users, key)) && unchanged(db)
      ensures old(FindUser(db.users, key)).None? && rival.Some? ==>
        && user == Some(User(old(db.nextUserId), rival.value, key))
        && db.users == old(db.users) + [user.value]
      ensures old(FindUser(db.users, key)).None? && rival.None? && !fault ==>
        && user == Some(User(old(db.nextUserId), username, key))
        && db.users == old(db.users) + [user.value]
      ensures old(FindUser(db.users, key)).None? && rival.None? && fault ==>
        user.None? && db.users == old(db.users)
    {
      user := FindUser(db.users, key);
      if user.None? {
        ghost var before := db.users;
        if rival.Some? {
          FindUserMissesFreeKey(db.users, key);
          var theirs := db.InsertUser(rival.value, key, false);
          FindUserAfterInsert(before, key, theirs.value);
        }
        var ours := db.InsertUser(username, key, fault);
        if ours.Some? {
          FindUserMissesFreeKey(before, key);
          FindUserAfterInsert(before, key, ours.value);
          user := ours;
        } else {
          // DbUpdateException: someone may have stored the email meanwhile
          user := FindUser(db.users, key);
        }
      }
    }

    /** LogUserActivity(username, email, activityType, sessionId, metadata). A null or blank
        email is refused before anything is looked up, stored or queued. Otherwise the event
        is logged, as by the overload above, for the user the Users table holds under the
        normalised email, unless that user could not be stored. */
    method LogUserActivityForEmail(username: string, email: Option<string>, activityType: string,
                                   sessionId: string, metadata: Option<string>, now: Ticks,
                                   rival: Option<string>, fault: bool)
      returns (res: LogResult)
      requires Valid()
      modifies db, channel
      ensures Valid()
      ensures channel.completed == old(channel.completed)
      ensures db.activities == old(db.activities)
      ensures IsNullOrWhiteSpace(email) ==>
        res == Failed(EmailRequired) && unchanged(db) && unchanged(channel)
      ensures !IsNullOrWhiteSpace(email) ==> GrewByKey(old(db.users), db.users, NormalizeEmail(email.value))
      ensures !IsNullOrWhiteSpace(email) ==>
        (res == Failed(UserSaveFailed) <==>
           old(FindUser(db.users, NormalizeEmail(email.value))).None? && rival.None? && fault)
      ensures res == Failed(UserSaveFailed) ==> channel.items == old(channel.items)
      ensures !IsNullOrWhiteSpace(email) && res != Failed(UserSaveFailed) ==>
        && FindUser(db.users, NormalizeEmail(email.value)).Some?
        && EnqueuedFor(FindUser(db.users, NormalizeEmail(email.value)).value.id,
                       activityType, sessionId, metadata, now,
                       old(channel.items), old(channel.completed), res, channel.items)
    {
      if IsNullOrWhiteSpace(email) {
        res := Failed(EmailRequired);
        return;
      }
      var key := NormalizeEmail(email.value);
      var user := ResolveUser(username, key, rival, fault);
      if user.None? {
        res := Failed(UserSaveFailed);
        return;
      }
      res := LogUserActivity(user.value.id, activityType, sessionId, metadata, now);
    }

    /** One round of ProcessQueueAsync. With events queued, it moves the first
        min(500, queued) of them, in order, into the buffer, saves them as one batch (the
        save may fail: `writeFails`), and clears the buffer whatever the save did, so the
        loop goes on. The events left queued are exactly the rest, in order. */
    method ProcessQueueStep(writeFails: bool, cancelled: bool) returns (outcome: StepOutcome)
      requires Valid()
      modifies this, db, channel
      ensures Valid()
      ensures channel.completed == old(channel.completed)
      ensures db.users == old(db.users) && db.nextUserId == old(db.nextUserId)
      ensures cancelled ==>
        && outcome == Cancelled
        && channel.items == old(channel.items) && db.activities == old(db.activities)
      ensures !cancelled && old(channel.items) == [] ==>
        && outcome == (if old(channel.completed) then Finished else Idle)
        && channel.items == [] && db.activities == old(db.activities)
      ensures !cancelled && old(channel.items) != [] ==>
        var n := Min(BatchSize, |old(channel.items)|);
        && channel.items == old(channel.items)[n..]
        && outcome == (if writeFails then WriteFailed(n) else Wrote(n))
        && db.activities == old(db.activities)
             + (if writeFails then [] else Numbered(old(channel.items)[..n], old(db.nextActivityId)))
        && |channel.items| < Capacity
    {
      if cancelled {
        return Cancelled;
      }
      if channel.items == [] {
        return if channel.completed then Finished else Idle;
      }
      ghost var queued := channel.items;
      while |buffer| < BatchSize
        invariant channel.Valid() && db.Valid()
        invariant channel.completed == old(channel.completed)
        invariant |buffer| <= BatchSize
        invariant buffer + channel.items == queued
        invariant db.users == old(db.users) && db.activities == old(db.activities)
        invariant db.nextUserId == old(db.nextUserId) && db.nextActivityId == old(db.nextActivityId)
        decreases BatchSize - |buffer|
      {
        var item := channel.TryRead();
        if item.None? {
          break;
        }
        buffer := buffer + [item.value];
      }
      var n := Min(BatchSize, |queued|);
      assert buffer == queued[..n] && channel.items == queued[n..] by {
        assert |buffer| == BatchSize || channel.items == [];
      }
      // The buffer holds at least the head of the queue: the Task.Delay branch of the
      // source is not reached with a single reader.
      var saved := db.InsertActivities(buffer, writeFails);
      outcome := if saved then Wrote(|buffer|) else WriteFailed(|buffer|);
      buffer := [];
    }
  }
}
