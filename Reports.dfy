/** The six read-only reports of the activity service, each a function of the persisted
    UserActivities table (and, for names, the Users table). */
module Reports {
  import opened Models
  import opened Grouping
  import opened Ranking

  // ---------------- Most active users ----------------

  /** One group of GroupBy(UserID).Select(Key, Count). */
  datatype UserCount = UserCount(userId: int, count: nat)

  /** One line of the report: (UserId, Username, Count). */
  datatype ActiveUser = ActiveUser(userId: int, username: string, count: nat)

  function CountRank(g: UserCount): int { g.count }
  function CountUserId(g: UserCount): int { g.userId }

  /** The name shown for a user id: the username of the row with that id, "Unknown" when
      there is none. */
  function UsernameOf(users: seq<User>, id: int): (name: string)
    ensures (forall i :: 0 <= i < |users| ==> users[i].id != id) ==> name == "Unknown"
    ensures (exists i :: 0 <= i < |users| && users[i].id == id) ==>
      exists i :: 0 <= i < |users| && users[i].id == id && name == users[i].username
  {
    if users == [] then "Unknown"
    else if users[0].id == id then users[0].username
    else
      var name := UsernameOf(users[1..], id);
      assert forall i :: 1 <= i < |users| ==> users[1..][i - 1] == users[i];
      name
  }

  /** GroupBy(UserID).Select(Key, Count): one group per user id that has events. */
  function UserCounts(events: seq<UserActivity>): (gs: seq<UserCount>)
    ensures forall i :: 0 <= i < |gs| ==> gs[i].count == Count(events, UserIdOf, gs[i].userId) >= 1
    ensures forall i, j :: 0 <= i < j < |gs| ==> gs[i].userId != gs[j].userId
    ensures |gs| == |Keys(events, UserIdOf)|
    ensures forall u :: HasKey(events, UserIdOf, u) ==> UserCount(u, Count(events, UserIdOf, u)) in gs
  {
    var ks := Keys(events, UserIdOf);
    var gs := seq(|ks|, i requires 0 <= i < |ks| => UserCount(ks[i], Count(events, UserIdOf, ks[i])));
    assert forall u :: HasKey(events, UserIdOf, u) ==> UserCount(u, Count(events, UserIdOf, u)) in gs by {
      forall u | HasKey(events, UserIdOf, u) ensures UserCount(u, Count(events, UserIdOf, u)) in gs {
        var i :| 0 <= i < |ks| && ks[i] == u;
        assert gs[i] == UserCount(u, Count(events, UserIdOf, u));
      }
    }
    gs
  }

  /** The Join with Users: each group with the name of its user. */
  function WithNames(top: seq<UserCount>, users: seq<User>): (r: seq<ActiveUser>)
    ensures |r| == |top|
    ensures forall i :: 0 <= i < |r| ==>
      r[i].userId == top[i].userId && r[i].count == top[i].count && r[i].username == UsernameOf(users, top[i].userId)
  {
    seq(|top|, i requires 0 <= i < |top| => ActiveUser(top[i].userId, UsernameOf(users, top[i].userId), top[i].count))
  }

  /** The users the report lists: at most topN of them, most events first, each with its
      number of events (at least one), its name, and listed once. */
  lemma UsersListed(events: seq<UserActivity>, users: seq<User>, topN: int,
                    gs: seq<UserCount>, top: seq<UserCount>, r: seq<ActiveUser>)
    requires gs == UserCounts(events)
    requires top == Take(SortDesc(gs, CountRank), topN)
    requires r == WithNames(top, users)
    ensures |r| == if topN <= 0 then 0
                   else if topN < |Keys(events, UserIdOf)| then topN else |Keys(events, UserIdOf)|
    ensures forall i, j :: 0 <= i < j < |r| ==> r[i].count >= r[j].count
    ensures forall i :: 0 <= i < |r| ==> r[i].count == Count(events, UserIdOf, r[i].userId) >= 1
    ensures forall i :: 0 <= i < |r| ==> r[i].username == UsernameOf(users, r[i].userId)
    ensures forall i, j :: 0 <= i < j < |r| ==> r[i].userId != r[j].userId
  {
    TopSpec(gs, CountUserId, CountRank, topN, top);
    forall i | 0 <= i < |r| ensures r[i].count == Count(events, UserIdOf, r[i].userId) >= 1 {
      assert top[i] in gs;
    }
    forall i, j | 0 <= i < j < |r|
      ensures r[i].count >= r[j].count && r[i].userId != r[j].userId
    {
      assert CountRank(top[i]) >= CountRank(top[j]);
      assert CountUserId(top[i]) != CountUserId(top[j]);
    }
  }

  /** A user with events that the report leaves out has no more events than any user listed. */
  lemma ActiveUserLeftOut(events: seq<UserActivity>, users: seq<User>, topN: int,
                          gs: seq<UserCount>, top: seq<UserCount>, r: seq<ActiveUser>, u: int)
    requires gs == UserCounts(events)
    requires top == Take(SortDesc(gs, CountRank), topN)
    requires r == WithNames(top, users)
    requires HasKey(events, UserIdOf, u)
    requires forall i :: 0 <= i < |r| ==> r[i].userId != u
    ensures topN <= |r|
    ensures forall i :: 0 <= i < |r| ==> r[i].count >= Count(events, UserIdOf, u)
  {
    var g := UserCount(u, Count(events, UserIdOf, u));
    assert g in gs;
    assert forall i :: 0 <= i < |top| ==> CountUserId(top[i]) != CountUserId(g) by {
      forall i | 0 <= i < |top| ensures CountUserId(top[i]) != CountUserId(g) {
        assert r[i].userId == top[i].userId;
      }
    }
    TopExcludes(gs, CountUserId, CountRank, topN, top, g);
    forall i | 0 <= i < |r| ensures r[i].count >= Count(events, UserIdOf, u) {
      assert CountRank(top[i]) >= CountRank(g);
    }
  }

  /** GetMostActiveUsers(topN): the users with the most events, most first, at most topN of
      them, each with its number of events and its name. A user is listed only if it has an
      event, and one that is left out has no more events than anyone listed. */
  function MostActiveUsers(events: seq<UserActivity>, users: seq<User>, topN: int): (r: seq<ActiveUser>)
    ensures |r| == if topN <= 0 then 0
                   else if topN < |Keys(events, UserIdOf)| then topN else |Keys(events, UserIdOf)|
    ensures forall i, j :: 0 <= i < j < |r| ==> r[i].count >= r[j].count
    ensures forall i :: 0 <= i < |r| ==> r[i].count == Count(events, UserIdOf, r[i].userId) >= 1
    ensures forall i :: 0 <= i < |r| ==> r[i].username == UsernameOf(users, r[i].userId)
    ensures forall i, j :: 0 <= i < j < |r| ==> r[i].userId != r[j].userId
    ensures forall u :: HasKey(events, UserIdOf, u) && (forall i :: 0 <= i < |r| ==> r[i].userId != u) ==>
      && topN <= |r|
      && forall i :: 0 <= i < |r| ==> r[i].count >= Count(events, UserIdOf, u)
  {
    var gs := UserCounts(events);
    var top := Take(SortDesc(gs, CountRank), topN);
    var r := WithNames(top, users);
    UsersListed(events, users, topN, gs, top, r);
    forall u | HasKey(events, UserIdOf, u) && (forall i :: 0 <= i < |r| ==> r[i].userId != u)
      ensures topN <= |r| && forall i :: 0 <= i < |r| ==> r[i].count >= Count(events, UserIdOf, u)
    {
      ActiveUserLeftOut(events, users, topN, gs, top, r, u);
    }
    r
  }

  // ---------------- Average activities per session ----------------

  /** GetAverageActivitiesPerSession: the mean of the per-session event counts, 0 when there
      are no events. The mean is the number of events over the number of sessions, so it is
      at least 1 whenever there is an event. */
  function AverageActivitiesPerSession(events: seq<UserActivity>): (avg: real)
    ensures events == [] ==> avg == 0.0
    ensures events != [] ==> avg == (|events| as real) / (|Keys(events, SessionIdOf)| as real)
    ensures events != [] ==> avg >= 1.0
  {
    if events == [] then 0.0
    else
      var sessions := Keys(events, SessionIdOf);
      assert SessionIdOf(events[0]) in sessions;
      SumOfGroupSizes(events, SessionIdOf);
      var total := SumCounts(sessions, events, SessionIdOf);
      MeanAtLeastOne(total, |sessions|);
      (total as real) / (|sessions| as real)
  }

  lemma MeanAtLeastOne(total: nat, groups: nat)
    requires 0 < groups <= total
    ensures (total as real) / (groups as real) >= 1.0
  {
    var t, g := total as real, groups as real;
    var q := t / g;
    assert q * g == t;
    assert (q - 1.0) * g == t - g;
  }

  // ---------------- Daily and weekly active users ----------------

  /** The UTC midnight that starts the day of `t`: DateTimeOffset(t.Date, TimeSpan.Zero). */
  function Midnight(t: Ticks): (m: Ticks)
    ensures m <= t < m + TicksPerDay
    ensures m % TicksPerDay == 0
  {
    t - t % TicksPerDay
  }

  /** The events stamped in the half-open window [start, end). */
  function EventsBetween(events: seq<UserActivity>, start: Ticks, end: Ticks): (w: seq<UserActivity>)
    ensures |w| <= |events|
    ensures forall a :: a in w <==> a in events && start <= a.timestamp < end
  {
    if events == [] then []
    else
      assert events == [events[0]] + events[1..];
      (if start <= events[0].timestamp < end then [events[0]] else [])
        + EventsBetween(events[1..], start, end)
  }

  /** The users with an event in [start, end), as a set: the reference reading of
      Select(UserID).Distinct() over the window. */
  ghost function UsersActiveBetween(events: seq<UserActivity>, start: Ticks, end: Ticks): set<int> {
    set a | a in events && start <= a.timestamp < end :: a.userId
  }

  /** Where(start <= ActivityTimestamp < end).Select(UserID).Distinct().Count(): the number
      of distinct users with an event in the window, which is at most the number of events
      in it and is 0 exactly when the window holds none. */
  function ActiveUsersBetween(events: seq<UserActivity>, start: Ticks, end: Ticks): (n: nat)
    ensures n == |UsersActiveBetween(events, start, end)|
    ensures n <= |EventsBetween(events, start, end)|
    ensures n == 0 <==> forall a :: a in events ==> !(start <= a.timestamp < end)
  {
    var window := EventsBetween(events, start, end);
    KeysCountKeySet(window, UserIdOf);
    assert KeySet(window, UserIdOf) == UsersActiveBetween(events, start, end);
    assert window != [] ==> UserIdOf(window[0]) in Keys(window, UserIdOf);
    |Keys(window, UserIdOf)|
  }

  /** GetDailyActiveUsers(day): distinct users with an event in the UTC day of `day`. */
  function DailyActiveUsers(events: seq<UserActivity>, day: Ticks): (n: nat)
    ensures n == |UsersActiveBetween(events, Midnight(day), Midnight(day) + TicksPerDay)|
    ensures n <= |EventsBetween(events, Midnight(day), Midnight(day) + TicksPerDay)|
  {
    ActiveUsersBetween(events, Midnight(day), Midnight(day) + TicksPerDay)
  }

  /** GetWeeklyActiveUsers(weekStart): distinct users with an event in the seven UTC days
      starting at the midnight of `weekStart`. */
  function WeeklyActiveUsers(events: seq<UserActivity>, weekStart: Ticks): (n: nat)
    ensures n == |UsersActiveBetween(events, Midnight(weekStart), Midnight(weekStart) + 7 * TicksPerDay)|
    ensures n <= |EventsBetween(events, Midnight(weekStart), Midnight(weekStart) + 7 * TicksPerDay)|
  {
    ActiveUsersBetween(events, Midnight(weekStart), Midnight(weekStart) + 7 * TicksPerDay)
  }

  /** Widening a window never loses an active user. */
  lemma WiderWindowMoreUsers(events: seq<UserActivity>, start: Ticks, end: Ticks, end': Ticks)
    requires end <= end'
    ensures UsersActiveBetween(events, start, end) <= UsersActiveBetween(events, start, end')
    ensures ActiveUsersBetween(events, start, end) <= ActiveUsersBetween(events, start, end')
  {
    var narrow := UsersActiveBetween(events, start, end);
    var wide := UsersActiveBetween(events, start, end');
    forall u | u in narrow ensures u in wide {
      var a :| a in events && start <= a.timestamp < end && a.userId == u;
    }
    assert wide == narrow + (wide - narrow);
  }

  // ---------------- Session durations ----------------

  /** The earliest timestamp of the session: Min(ActivityTimestamp) of its group. */
  function SessionFirst(events: seq<UserActivity>, sid: string): (t: Ticks)
    requires HasKey(events, SessionIdOf, sid)
    ensures exists i :: 0 <= i < |events| && events[i].sessionId == sid && events[i].timestamp == t
    ensures forall i :: 0 <= i < |events| && events[i].sessionId == sid ==> t <= events[i].timestamp
  {
    assert events == [events[0]] + events[1..];
    HasKeyCons(events[0], events[1..], SessionIdOf, sid);
    var rest := events[1..];
    assert forall i :: 1 <= i < |events| ==> events[i] == rest[i - 1];
    if !HasKey(rest, SessionIdOf, sid) then
      assert forall i :: 1 <= i < |events| ==> events[i].sessionId != sid by {
        forall i | 1 <= i < |events| ensures events[i].sessionId != sid {
          assert SessionIdOf(rest[i - 1]) != sid;
        }
      }
      events[0].timestamp
    else
      var t := SessionFirst(rest, sid);
      if events[0].sessionId == sid && events[0].timestamp <= t then events[0].timestamp else t
  }

  /** The latest timestamp of the session: Max(ActivityTimestamp) of its group. */
  function SessionLast(events: seq<UserActivity>, sid: string): (t: Ticks)
    requires HasKey(events, SessionIdOf, sid)
    ensures exists i :: 0 <= i < |events| && events[i].sessionId == sid && events[i].timestamp == t
    ensures forall i :: 0 <= i < |events| && events[i].sessionId == sid ==> events[i].timestamp <= t
  {
    assert events == [events[0]] + events[1..];
    HasKeyCons(events[0], events[1..], SessionIdOf, sid);
    var rest := events[1..];
    assert forall i :: 1 <= i < |events| ==> events[i] == rest[i - 1];
    if !HasKey(rest, SessionIdOf, sid) then
      assert forall i :: 1 <= i < |events| ==> events[i].sessionId != sid by {
        forall i | 1 <= i < |events| ensures events[i].sessionId != sid {
          assert SessionIdOf(rest[i - 1]) != sid;
        }
      }
      events[0].timestamp
    else
      var t := SessionLast(rest, sid);
      if events[0].sessionId == sid && events[0].timestamp >= t then events[0].timestamp else t
  }

  /** GetSessionDuration(sid): "not found" exactly when no event has that session id;
      otherwise the largest gap between two of its events (Max - Min), never negative. */
  function SessionDuration(events: seq<UserActivity>, sid: string): (d: Option<Ticks>)
    ensures d.None? <==> forall i :: 0 <= i < |events| ==> events[i].sessionId != sid
    ensures d.Some? ==> d.value >= 0
    ensures d.Some? ==>
      exists i, j :: 0 <= i < |events| && 0 <= j < |events|
        && events[i].sessionId == sid && events[j].sessionId == sid
        && d.value == events[j].timestamp - events[i].timestamp
    ensures d.Some? ==>
      forall i, j :: 0 <= i < |events| && 0 <= j < |events|
        && events[i].sessionId == sid && events[j].sessionId == sid
        ==> events[j].timestamp - events[i].timestamp <= d.value
  {
    if !HasKey(events, SessionIdOf, sid) then
      assert forall i :: 0 <= i < |events| ==> events[i].sessionId != sid by {
        forall i | 0 <= i < |events| ensures events[i].sessionId != sid {
          assert SessionIdOf(events[i]) != sid;
        }
      }
      None
    else
      assert exists i :: 0 <= i < |events| && events[i].sessionId == sid by {
        var i :| 0 <= i < |events| && SessionIdOf(events[i]) == sid;
      }
      Some(SessionLast(events, sid) - SessionFirst(events, sid))
  }

  /** A session with a single event lasts zero ticks (and is found). */
  lemma SingleEventSession(events: seq<UserActivity>, k: nat, sid: string)
    requires k < |events| && events[k].sessionId == sid
    requires forall i :: 0 <= i < |events| && i != k ==> events[i].sessionId != sid
    ensures SessionDuration(events, sid) == Some(0)
  {
    assert SessionIdOf(events[k]) == sid;
  }

  /** A session whose events all lie in [lo, hi] is found and lasts at most hi - lo. */
  lemma DurationWithin(events: seq<UserActivity>, sid: string, k: nat, lo: Ticks, hi: Ticks)
    requires k < |events| && events[k].sessionId == sid
    requires forall i :: 0 <= i < |events| && events[i].sessionId == sid ==> lo <= events[i].timestamp <= hi
    ensures SessionDuration(events, sid).Some?
    ensures 0 <= SessionDuration(events, sid).value <= hi - lo
  {
    var d := SessionDuration(events, sid);
    var i, j :| 0 <= i < |events| && 0 <= j < |events| && events[i].sessionId == sid && events[j].sessionId == sid
      && d.value == events[j].timestamp - events[i].timestamp;
  }

  /** Two events 5 minutes apart in one session give a 5-minute duration. */
  lemma TwoEventSessionScenario(a: UserActivity, b: UserActivity)
    requires a.sessionId == "s1" && b.sessionId == "s1"
    requires b.timestamp == a.timestamp + 5 * TicksPerMinute
    ensures SessionDuration([a, b], "s1") == Some(5 * TicksPerMinute)
  {
    var events := [a, b];
    var d := SessionDuration(events, "s1");
    assert SessionIdOf(events[0]) == "s1";
    assert d.value >= events[1].timestamp - events[0].timestamp;
  }

  /** One group of GroupBy(SessionID).Select(Session, Min, Max). */
  datatype SessionSpan = SessionSpan(sessionId: string, first: Ticks, last: Ticks)

  /** One line of the report: (SessionId, Duration). */
  datatype SessionLength = SessionLength(sessionId: string, duration: Ticks)

  function LastRank(g: SessionSpan): int { g.last }
  function SpanSessionId(g: SessionSpan): string { g.sessionId }

  /** `g` is the (Min, Max) span of its session's group. */
  predicate IsSpan(events: seq<UserActivity>, g: SessionSpan) {
    && HasKey(events, SessionIdOf, g.sessionId)
    && g.first == SessionFirst(events, g.sessionId)
    && g.last == SessionLast(events, g.sessionId)
  }

  /** The Max - Min of a session's span is the duration GetSessionDuration reports for it. */
  lemma SpanDuration(events: seq<UserActivity>, g: SessionSpan, l: SessionLength)
    requires IsSpan(events, g)
    requires l == SessionLength(g.sessionId, g.last - g.first)
    ensures HasKey(events, SessionIdOf, l.sessionId)
    ensures l.duration >= 0
    ensures SessionDuration(events, l.sessionId) == Some(l.duration)
  {
  }

  /** GroupBy(SessionID).Select(Session, Min, Max): one span per session id that has events. */
  function SessionSpans(events: seq<UserActivity>): (gs: seq<SessionSpan>)
    ensures forall g :: g in gs ==> IsSpan(events, g)
    ensures forall i, j :: 0 <= i < j < |gs| ==> gs[i].sessionId != gs[j].sessionId
    ensures |gs| == |Keys(events, SessionIdOf)|
    ensures forall s :: HasKey(events, SessionIdOf, s) ==>
      SessionSpan(s, SessionFirst(events, s), SessionLast(events, s)) in gs
  {
    var ks := Keys(events, SessionIdOf);
    var gs := seq(|ks|, i requires 0 <= i < |ks| =>
      SessionSpan(ks[i], SessionFirst(events, ks[i]), SessionLast(events, ks[i])));
    assert forall s :: HasKey(events, SessionIdOf, s) ==>
      SessionSpan(s, SessionFirst(events, s), SessionLast(events, s)) in gs
    by {
      forall s | HasKey(events, SessionIdOf, s)
        ensures SessionSpan(s, SessionFirst(events, s), SessionLast(events, s)) in gs
      {
        var i :| 0 <= i < |ks| && ks[i] == s;
        assert gs[i] == SessionSpan(s, SessionFirst(events, s), SessionLast(events, s));
      }
    }
    gs
  }

  /** The projection Select(SessionId, Duration = Last - First). */
  function WithDurations(top: seq<SessionSpan>): (r: seq<SessionLength>)
    ensures |r| == |top|
    ensures forall i :: 0 <= i < |r| ==>
      r[i].sessionId == top[i].sessionId && r[i].duration == top[i].last - top[i].first
  {
    seq(|top|, i requires 0 <= i < |top| => SessionLength(top[i].sessionId, top[i].last - top[i].first))
  }

  /** The sessions the report lists: each exists, once, with its GetSessionDuration value,
      latest-ending first. */
  lemma SessionsListed(events: seq<UserActivity>, take: int,
                       gs: seq<SessionSpan>, top: seq<SessionSpan>, r: seq<SessionLength>)
    requires gs == SessionSpans(events)
    requires top == Take(SortDesc(gs, LastRank), take)
    requires r == WithDurations(top)
    ensures |r| == if take <= 0 then 0
                   else if take < |Keys(events, SessionIdOf)| then take else |Keys(events, SessionIdOf)|
    ensures forall i :: 0 <= i < |r| ==> HasKey(events, SessionIdOf, r[i].sessionId)
    ensures forall i :: 0 <= i < |r| ==>
      r[i].duration >= 0 && SessionDuration(events, r[i].sessionId) == Some(r[i].duration)
    ensures forall i, j :: 0 <= i < j < |r| ==>
      SessionLast(events, r[i].sessionId) >= SessionLast(events, r[j].sessionId)
    ensures forall i, j :: 0 <= i < j < |r| ==> r[i].sessionId != r[j].sessionId
  {
    TopSpec(gs, SpanSessionId, LastRank, take, top);
    SpansListed(events, top, r);
  }

  /** Latest-ending-first spans of distinct sessions, projected to (SessionId, Duration). */
  lemma SpansListed(events: seq<UserActivity>, top: seq<SessionSpan>, r: seq<SessionLength>)
    requires forall i :: 0 <= i < |top| ==> IsSpan(events, top[i])
    requires SortedDesc(top, LastRank)
    requires forall i, j :: 0 <= i < j < |top| ==> SpanSessionId(top[i]) != SpanSessionId(top[j])
    requires r == WithDurations(top)
    ensures forall i :: 0 <= i < |r| ==> HasKey(events, SessionIdOf, r[i].sessionId)
    ensures forall i :: 0 <= i < |r| ==>
      r[i].duration >= 0 && SessionDuration(events, r[i].sessionId) == Some(r[i].duration)
    ensures forall i, j :: 0 <= i < j < |r| ==>
      SessionLast(events, r[i].sessionId) >= SessionLast(events, r[j].sessionId)
    ensures forall i, j :: 0 <= i < j < |r| ==> r[i].sessionId != r[j].sessionId
  {
    forall i | 0 <= i < |r|
      ensures HasKey(events, SessionIdOf, r[i].sessionId)
      ensures r[i].duration >= 0 && SessionDuration(events, r[i].sessionId) == Some(r[i].duration)
    {
      SpanDuration(events, top[i], r[i]);
    }
    forall i, j | 0 <= i < j < |r|
      ensures SessionLast(events, r[i].sessionId) >= SessionLast(events, r[j].sessionId)
      ensures r[i].sessionId != r[j].sessionId
    {
      assert IsSpan(events, top[i]) && IsSpan(events, top[j]);
      assert LastRank(top[i]) >= LastRank(top[j]);
      assert SpanSessionId(top[i]) != SpanSessionId(top[j]);
    }
  }

  /** A session that the report leaves out ended no later than any session listed. */
  lemma SessionLeftOut(events: seq<UserActivity>, take: int,
                       gs: seq<SessionSpan>, top: seq<SessionSpan>, r: seq<SessionLength>, s: string)
    requires gs == SessionSpans(events)
    requires top == Take(SortDesc(gs, LastRank), take)
    requires r == WithDurations(top)
    requires HasKey(events, SessionIdOf, s)
    requires forall i :: 0 <= i < |r| ==> r[i].sessionId != s
    ensures take <= |r|
    ensures forall i :: 0 <= i < |r| ==> HasKey(events, SessionIdOf, r[i].sessionId)
    ensures forall i :: 0 <= i < |r| ==> SessionLast(events, r[i].sessionId) >= SessionLast(events, s)
  {
    var g := SessionSpan(s, SessionFirst(events, s), SessionLast(events, s));
    assert g in gs;
    assert forall i :: 0 <= i < |top| ==> SpanSessionId(top[i]) != SpanSessionId(g) by {
      forall i | 0 <= i < |top| ensures SpanSessionId(top[i]) != SpanSessionId(g) {
        assert r[i].sessionId == top[i].sessionId;
      }
    }
    TopSpec(gs, SpanSessionId, LastRank, take, top);
    TopExcludes(gs, SpanSessionId, LastRank, take, top, g);
    forall i | 0 <= i < |r|
      ensures HasKey(events, SessionIdOf, r[i].sessionId)
      ensures SessionLast(events, r[i].sessionId) >= SessionLast(events, s)
    {
      assert IsSpan(events, top[i]);
      assert LastRank(top[i]) >= LastRank(g);
    }
  }

  /** GetRecentSessionDurations(take): the sessions whose last event is latest, latest
      first, at most `take` of them, each with its duration as GetSessionDuration gives it.
      A session left out ended no later than any session listed. */
  function RecentSessionDurations(events: seq<UserActivity>, take: int): (r: seq<SessionLength>)
    ensures |r| == if take <= 0 then 0
                   else if take < |Keys(events, SessionIdOf)| then take else |Keys(events, SessionIdOf)|
    ensures forall i :: 0 <= i < |r| ==> HasKey(events, SessionIdOf, r[i].sessionId)
    ensures forall i :: 0 <= i < |r| ==>
      r[i].duration >= 0 && SessionDuration(events, r[i].sessionId) == Some(r[i].duration)
    ensures forall i, j :: 0 <= i < j < |r| ==>
      SessionLast(events, r[i].sessionId) >= SessionLast(events, r[j].sessionId)
    ensures forall i, j :: 0 <= i < j < |r| ==> r[i].sessionId != r[j].sessionId
    ensures forall s :: HasKey(events, SessionIdOf, s) && (forall i :: 0 <= i < |r| ==> r[i].sessionId != s) ==>
      && take <= |r|
      && forall i :: 0 <= i < |r| ==> SessionLast(events, r[i].sessionId) >= SessionLast(events, s)
  {
    var gs := SessionSpans(events);
    var top := Take(SortDesc(gs, LastRank), take);
    var r := WithDurations(top);
    SessionsListed(events, take, gs, top, r);
    forall s | HasKey(events, SessionIdOf, s) && (forall i :: 0 <= i < |r| ==> r[i].sessionId != s)
      ensures take <= |r| && forall i :: 0 <= i < |r| ==> SessionLast(events, r[i].sessionId) >= SessionLast(events, s)
    {
      SessionLeftOut(events, take, gs, top, r, s);
    }
    r
  }
}
