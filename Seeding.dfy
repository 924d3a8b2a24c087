/** Seeder.SeedBulk: create a batch of seed users, then plan their activities (several
    sessions per user, several activities per session, timestamps near a per-session base)
    and copy them to the UserActivities table in chunks of at most 50000 rows.

    What the source draws from Random, Guid.NewGuid() and DateTimeOffset.UtcNow is supplied
    by the caller, indexed by the place it is drawn for: the user's position, the session's
    position within the user, and the activity's position within the session. */
module Seeding {
  import opened Models
  import opened Grouping
  import opened Store
  import opened Reports

  /** The DataTable is copied to the server once it holds this many rows. */
  const MaxTableRows: nat := 50000

  /** Session bases lie up to 30 days (in minutes) before the clock reading. */
  const SessionWindowMinutes: nat := 60 * 24 * 30
  /** An activity lies up to 119 minutes and 59 seconds after its session base. */
  const OffsetMinutes: nat := 120
  const OffsetSeconds: nat := 60
  const MaxSessionOffset: int := (OffsetMinutes - 1) * TicksPerMinute + (OffsetSeconds - 1) * TicksPerSecond

  const ActivityTypes: seq<string> := ["PageView", "Click", "FormSubmit", "Navigation", "Purchase"]
  const SampleMetadata: string := "{\"sample\":true}"

  // ---------------- Session arithmetic ----------------

  /** `if (activitiesPerUser <= 0) activitiesPerUser = 1`. */
  function ClampActivities(a: int): (r: int)
    ensures r >= 1
    ensures a <= 0 ==> r == 1
    ensures a >= 1 ==> r == a
  {
    if a <= 0 then 1 else a
  }

  /** min(max(1, a / 4), a): about one session per four activities, at least one, and never
      more sessions than activities. */
  function SessionsPerUser(a: int): (spu: int)
    requires a >= 1
    ensures 1 <= spu <= a
    ensures a < 8 ==> spu == 1
    ensures a >= 4 ==> 4 * spu <= a < 4 * spu + 4
  {
    var spu := if a / 4 >= 1 then a / 4 else 1;
    if spu <= a then spu else a
  }

  function BasePerSession(a: int): int
    requires a >= 1
  {
    a / SessionsPerUser(a)
  }

  function Remainder(a: int): int
    requires a >= 1
  {
    a % SessionsPerUser(a)
  }

  /** The number of activities of session `s`: the base share, plus one for each of the
      first `Remainder(a)` sessions. */
  function SessionSize(a: int, s: nat): (n: nat)
    requires a >= 1 && s < SessionsPerUser(a)
    ensures n >= 1
    ensures n == BasePerSession(a) + 1 <==> s < Remainder(a)
    ensures n == BasePerSession(a) <==> s >= Remainder(a)
  {
    BasePerSession(a) + (if s < Remainder(a) then 1 else 0)
  }

  /** Any two sessions of a user differ in size by at most one. */
  lemma SessionSizesBalanced(a: int, s: nat, t: nat)
    requires a >= 1 && s < SessionsPerUser(a) && t < SessionsPerUser(a)
    ensures -1 <= SessionSize(a, s) - SessionSize(a, t) <= 1
  {
  }

  /** The sizes of the first `k` sessions, added up. */
  function SizesUpTo(a: int, k: nat): nat
    requires a >= 1 && k <= SessionsPerUser(a)
  {
    if k == 0 then 0 else SizesUpTo(a, k - 1) + SessionSize(a, k - 1)
  }

  lemma {:induction false} SizesUpToClosed(a: int, k: nat)
    requires a >= 1 && k <= SessionsPerUser(a)
    ensures SizesUpTo(a, k) == k * BasePerSession(a) + Min(k, Remainder(a))
  {
    if k > 0 {
      SizesUpToClosed(a, k - 1);
      var b := BasePerSession(a);
      assert (k - 1) * b + b == k * b;
    }
  }

  /** The base + remainder split hands out exactly `a` activities over the sessions. */
  lemma SessionSizesSum(a: int)
    requires a >= 1
    ensures SizesUpTo(a, SessionsPerUser(a)) == a
  {
    var spu := SessionsPerUser(a);
    SizesUpToClosed(a, spu);
    assert Remainder(a) < spu;
    assert spu * BasePerSession(a) + Remainder(a) == a;
  }

  // ---------------- Seed users ----------------

  /** A seed user before it is saved: names built from the first 8 hex digits of a GUID. */
  function SeedUser(suffix: string): (u: User)
    ensures u.id == 0
    ensures u.username == "seed_user_" + suffix
    ensures u.email == "seed_" + suffix + "@example.com"
  {
    User(0, "seed_user_" + suffix, "seed_" + suffix + "@example.com")
  }

  /** Two seed users get the same email only if they got the same suffix. */
  lemma SeedEmailInjective(a: string, b: string)
    requires SeedUser(a).email == SeedUser(b).email
    ensures a == b
  {
    var ea, eb := SeedUser(a).email, SeedUser(b).email;
    assert |a| == |b| by {
      assert |ea| == |a| + 17 && |eb| == |b| + 17;
    }
    forall k | 0 <= k < |a| ensures a[k] == b[k] {
      assert ea[5 + k] == a[k] && eb[5 + k] == b[k];
    }
  }

  /** With distinct suffixes the seed users do not clash in the unique email index. */
  lemma SeedUsersUnique(users: seq<User>, suffix: nat -> string)
    requires forall i :: 0 <= i < |users| ==> users[i] == SeedUser(suffix(i))
    requires forall i, j :: 0 <= i < j < |users| ==> suffix(i) != suffix(j)
    ensures UniqueEmails(users)
  {
    forall i, j | 0 <= i < j < |users| ensures users[i].email != users[j].email {
      if users[i].email == users[j].email {
        SeedEmailInjective(suffix(i), suffix(j));
      }
    }
  }

  /** The `for` loop that builds the list of seed users, one per GUID suffix. */
  method BuildSeedUsers(numUsers: nat, suffix: nat -> string) returns (users: seq<User>)
    ensures |users| == numUsers
    ensures forall i :: 0 <= i < numUsers ==> users[i] == SeedUser(suffix(i))
  {
    users := [];
    var i := 0;
    while i < numUsers
      invariant 0 <= i <= numUsers
      invariant |users| == i
      invariant forall k :: 0 <= k < i ==> users[k] == SeedUser(suffix(k))
    {
      users := users + [SeedUser(suffix(i))];
      i := i + 1;
    }
  }

  // ---------------- The activity plan ----------------

  /** A draw from Random, named by what it is drawn for. */
  datatype Draw =
    | SessionOffset(u: nat, s: nat)
    | TypeDraw(u: nat, s: nat, j: nat)
    | MinuteDraw(u: nat, s: nat, j: nat)
    | SecondDraw(u: nat, s: nat, j: nat)

  /** Everything the activity rows depend on: the saved users' ids, the activities per user
      (after clamping), and the values drawn from the GUID generator, the clock and Random. */
  datatype SeedPlan = SeedPlan(
    userIds: seq<int>,
    perUser: int,
    sessionGuid: (nat, nat) -> string,
    clock: (nat, nat) -> Ticks,
    draw: Draw -> int)

  /** Random.Next(lo, hi): a value drawn in [lo, hi). */
  function NextIn(x: int, lo: int, hi: int): (r: int)
    requires lo < hi
    ensures lo <= r < hi
  {
    lo + x % (hi - lo)
  }

  /** `UtcNow.AddMinutes(-rnd.Next(0, 60 * 24 * 30))`: within the 30 days before the clock reading. */
  function SessionBase(p: SeedPlan, u: nat, s: nat): (t: Ticks)
    ensures p.clock(u, s) - (SessionWindowMinutes - 1) * TicksPerMinute <= t <= p.clock(u, s)
  {
    p.clock(u, s) - NextIn(p.draw(SessionOffset(u, s)), 0, SessionWindowMinutes) * TicksPerMinute
  }

  /** Row `j` of session `s` of user `u`: the user's id, the session's GUID, one of the five
      activity types, a timestamp at most 119 min 59 s after the session base, and the fixed
      sample metadata. Its ID column is left to the server. */
  function RowAt(p: SeedPlan, u: nat, s: nat, j: nat): (r: UserActivity)
    requires u < |p.userIds|
    ensures r.id == 0 && r.userId == p.userIds[u] && r.sessionId == p.sessionGuid(u, s)
    ensures r.activityType in ActivityTypes && r.metadata == SampleMetadata
    ensures SessionBase(p, u, s) <= r.timestamp <= SessionBase(p, u, s) + MaxSessionOffset
  {
    var kind := ActivityTypes[NextIn(p.draw(TypeDraw(u, s, j)), 0, |ActivityTypes|)];
    var minutes := NextIn(p.draw(MinuteDraw(u, s, j)), 0, OffsetMinutes);
    var seconds := NextIn(p.draw(SecondDraw(u, s, j)), 0, OffsetSeconds);
    UserActivity(0, p.userIds[u], kind,
                 SessionBase(p, u, s) + minutes * TicksPerMinute + seconds * TicksPerSecond,
                 p.sessionGuid(u, s), SampleMetadata)
  }

  predicate ValidPlan(p: SeedPlan) { p.perUser >= 1 }

  /** The rows of session `s` of user `u`. */
  function SessionRows(p: SeedPlan, u: nat, s: nat): (rows: seq<UserActivity>)
    requires ValidPlan(p) && u < |p.userIds| && s < SessionsPerUser(p.perUser)
    ensures |rows| == SessionSize(p.perUser, s)
    ensures forall j :: 0 <= j < |rows| ==> rows[j] == RowAt(p, u, s, j)
  {
    seq(SessionSize(p.perUser, s), j requires 0 <= j < SessionSize(p.perUser, s) => RowAt(p, u, s, j))
  }

  /** The rows of the first `k` sessions of user `u`. */
  function UserRowsUpTo(p: SeedPlan, u: nat, k: nat): seq<UserActivity>
    requires ValidPlan(p) && u < |p.userIds| && k <= SessionsPerUser(p.perUser)
  {
    if k == 0 then [] else UserRowsUpTo(p, u, k - 1) + SessionRows(p, u, k - 1)
  }

  function UserRows(p: SeedPlan, u: nat): seq<UserActivity>
    requires ValidPlan(p) && u < |p.userIds|
  {
    UserRowsUpTo(p, u, SessionsPerUser(p.perUser))
  }

  /** The rows of the first `k` users. */
  function RowsUpTo(p: SeedPlan, k: nat): seq<UserActivity>
    requires ValidPlan(p) && k <= |p.userIds|
  {
    if k == 0 then [] else RowsUpTo(p, k - 1) + UserRows(p, k - 1)
  }

  /** Every row SeedBulk generates, in the order it generates them. */
  function PlannedRows(p: SeedPlan): seq<UserActivity>
    requires ValidPlan(p)
  {
    RowsUpTo(p, |p.userIds|)
  }

  lemma {:induction false} UserRowsUpToCount(p: SeedPlan, u: nat, k: nat)
    requires ValidPlan(p) && u < |p.userIds| && k <= SessionsPerUser(p.perUser)
    ensures |UserRowsUpTo(p, u, k)| == SizesUpTo(p.perUser, k)
  {
    if k > 0 {
      UserRowsUpToCount(p, u, k - 1);
    }
  }

  lemma {:induction false} RowsUpToCount(p: SeedPlan, k: nat)
    requires ValidPlan(p) && k <= |p.userIds|
    ensures |RowsUpTo(p, k)| == k * p.perUser
  {
    if k > 0 {
      RowsUpToCount(p, k - 1);
      UserRowsUpToCount(p, k - 1, SessionsPerUser(p.perUser));
      SessionSizesSum(p.perUser);
      assert |RowsUpTo(p, k)| == (k - 1) * p.perUser + p.perUser;
      assert (k - 1) * p.perUser + p.perUser == k * p.perUser;
    }
  }

  /** SeedBulk generates exactly activitiesPerUser rows per user. */
  lemma PlannedRowsCount(p: SeedPlan)
    requires ValidPlan(p)
    ensures |PlannedRows(p)| == |p.userIds| * p.perUser
  {
    RowsUpToCount(p, |p.userIds|);
  }

  /** A position in the plan: session `s` of user `u`. */
  predicate IsSession(p: SeedPlan, u: int, s: int)
    requires ValidPlan(p)
  {
    0 <= u < |p.userIds| && 0 <= s < SessionsPerUser(p.perUser)
  }

  /** Every row of the first `k` sessions of user `u` is a row of one of those sessions. */
  lemma {:induction false} UserRowOrigin(p: SeedPlan, u: nat, k: nat, r: UserActivity)
    requires ValidPlan(p) && u < |p.userIds| && k <= SessionsPerUser(p.perUser)
    requires r in UserRowsUpTo(p, u, k)
    ensures exists s, j :: 0 <= s < k && 0 <= j < SessionSize(p.perUser, s) && r == RowAt(p, u, s, j)
  {
    var prev := UserRowsUpTo(p, u, k - 1);
    if r in prev {
      UserRowOrigin(p, u, k - 1, r);
    } else {
      var rows := SessionRows(p, u, k - 1);
      assert r in rows;
      var j :| 0 <= j < |rows| && rows[j] == r;
    }
  }

  /** Every planned row is row `j` of some session `s` of some user `u`. */
  lemma {:induction false} RowOrigin(p: SeedPlan, k: nat, r: UserActivity)
    requires ValidPlan(p) && k <= |p.userIds|
    requires r in RowsUpTo(p, k)
    ensures exists u, s, j ::
              0 <= u < k && IsSession(p, u, s) && 0 <= j < SessionSize(p.perUser, s) && r == RowAt(p, u, s, j)
  {
    var prev := RowsUpTo(p, k - 1);
    if r in prev {
      RowOrigin(p, k - 1, r);
    } else {
      assert r in UserRows(p, k - 1);
      UserRowOrigin(p, k - 1, SessionsPerUser(p.perUser), r);
      var s, j :| 0 <= s < SessionsPerUser(p.perUser) && 0 <= j < SessionSize(p.perUser, s)
        && r == RowAt(p, k - 1, s, j);
      assert IsSession(p, k - 1, s);
    }
  }

  lemma {:induction false} FirstRowInUser(p: SeedPlan, u: nat, s: nat, k: nat)
    requires ValidPlan(p) && IsSession(p, u, s) && s < k <= SessionsPerUser(p.perUser)
    ensures RowAt(p, u, s, 0) in UserRowsUpTo(p, u, k)
  {
    if s < k - 1 {
      FirstRowInUser(p, u, s, k - 1);
    } else {
      assert SessionRows(p, u, s)[0] == RowAt(p, u, s, 0);
    }
  }

  lemma {:induction false} FirstRowInPlan(p: SeedPlan, u: nat, s: nat, k: nat)
    requires ValidPlan(p) && IsSession(p, u, s) && u < k <= |p.userIds|
    ensures RowAt(p, u, s, 0) in RowsUpTo(p, k)
  {
    if u < k - 1 {
      FirstRowInPlan(p, u, s, k - 1);
    } else {
      FirstRowInUser(p, u, s, SessionsPerUser(p.perUser));
    }
  }

  /** Every session gets its own GUID. */
  ghost predicate DistinctSessionGuids(p: SeedPlan)
    requires ValidPlan(p)
  {
    forall u1, s1, u2, s2 ::
      (IsSession(p, u1, s1) && IsSession(p, u2, s2) && p.sessionGuid(u1, s1) == p.sessionGuid(u2, s2))
        ==> u1 == u2 && s1 == s2
  }

  /** A seeded session, read back by GetSessionDuration, is found and lasts at most
      119 minutes 59 seconds. */
  lemma SeededSessionDuration(p: SeedPlan, u: nat, s: nat)
    requires ValidPlan(p) && IsSession(p, u, s) && DistinctSessionGuids(p)
    ensures SessionDuration(PlannedRows(p), p.sessionGuid(u, s)).Some?
    ensures 0 <= SessionDuration(PlannedRows(p), p.sessionGuid(u, s)).value <= MaxSessionOffset
  {
    var rows := PlannedRows(p);
    var sid := p.sessionGuid(u, s);
    var b := SessionBase(p, u, s);
    FirstRowInPlan(p, u, s, |p.userIds|);
    var k :| 0 <= k < |rows| && rows[k] == RowAt(p, u, s, 0);
    forall i | 0 <= i < |rows| && rows[i].sessionId == sid
      ensures b <= rows[i].timestamp <= b + MaxSessionOffset
    {
      InSession(p, rows[i], u, s);
    }
    DurationWithin(rows, sid, k, b, b + MaxSessionOffset);
  }

  /** A planned row carrying the GUID of session `s` of user `u` is a row of that session,
      so its timestamp lies within the session's offset from its base. */
  lemma InSession(p: SeedPlan, r: UserActivity, u: nat, s: nat)
    requires ValidPlan(p) && IsSession(p, u, s) && DistinctSessionGuids(p)
    requires r in PlannedRows(p) && r.sessionId == p.sessionGuid(u, s)
    ensures SessionBase(p, u, s) <= r.timestamp <= SessionBase(p, u, s) + MaxSessionOffset
  {
    RowOrigin(p, |p.userIds|, r);
    var u', s', j :| 0 <= u' < |p.userIds| && IsSession(p, u', s') && 0 <= j < SessionSize(p.perUser, s')
      && r == RowAt(p, u', s', j);
    assert p.sessionGuid(u', s') == p.sessionGuid(u, s);
  }

  // ---------------- Chunks ----------------

  lemma AppendAssoc(a: seq<UserActivity>, b: seq<UserActivity>, c: seq<UserActivity>)
    ensures a + b + c == a + (b + c)
  {
  }

  /** The rows of the chunks, one after another. */
  function Flatten(chunks: seq<seq<UserActivity>>): seq<UserActivity> {
    if chunks == [] then [] else Flatten(chunks[..|chunks| - 1]) + chunks[|chunks| - 1]
  }

  lemma FlattenAppend(chunks: seq<seq<UserActivity>>, t: seq<UserActivity>)
    ensures Flatten(chunks + [t]) == Flatten(chunks) + t
  {
    assert (chunks + [t])[..|chunks|] == chunks;
  }

  /** Saving two runs of rows one after the other numbers them as one run. */
  lemma NumberedAppend(a: seq<UserActivity>, b: seq<UserActivity>, first: int)
    ensures Numbered(a + b, first) == Numbered(a, first) + Numbered(b, first + |a|)
  {
    var l, r := Numbered(a + b, first), Numbered(a, first) + Numbered(b, first + |a|);
    assert |l| == |r|;
    forall i | 0 <= i < |l| ensures l[i] == r[i] {
      if i >= |a| {
        assert (a + b)[i] == b[i - |a|];
      }
    }
  }

  /** The chunks copied so far are all full. */
  predicate FullChunks(flushes: seq<seq<UserActivity>>) {
    forall i :: 0 <= i < |flushes| ==> |flushes[i]| == MaxTableRows
  }

  /** The UserActivities table holds what it held at `base` plus the rows of `flushes`. */
  ghost predicate Copied(db: ActivityDb, base: seq<UserActivity>, baseNext: int,
                         flushes: seq<seq<UserActivity>>)
    reads db
  {
    && db.activities == base + Numbered(Flatten(flushes), baseNext)
    && db.nextActivityId == baseNext + |Flatten(flushes)|
  }

  /** WriteTableToServerAsync: copies the table to the server, and does nothing at all when
      the table is empty. */
  method WriteTableToServer(db: ActivityDb, table: seq<UserActivity>)
    requires db.Valid()
    modifies db
    ensures db.Valid()
    ensures db.users == old(db.users) && db.nextUserId == old(db.nextUserId)
    ensures table == [] ==> db.activities == old(db.activities) && db.nextActivityId == old(db.nextActivityId)
    ensures table != [] ==>
      && db.activities == old(db.activities) + Numbered(table, old(db.nextActivityId))
      && db.nextActivityId == old(db.nextActivityId) + |table|
  {
    if |table| == 0 {
      return;
    }
    db.BulkCopy(table);
  }

  /** Copies a non-empty table as the next chunk and records it. */
  method Flush(db: ActivityDb, table: seq<UserActivity>, flushes: seq<seq<UserActivity>>,
               ghost base: seq<UserActivity>, ghost baseNext: int)
    returns (flushes': seq<seq<UserActivity>>)
    requires db.Valid() && Copied(db, base, baseNext, flushes) && table != []
    modifies db
    ensures db.Valid() && Copied(db, base, baseNext, flushes')
    ensures db.users == old(db.users) && db.nextUserId == old(db.nextUserId)
    ensures flushes' == flushes + [table]
  {
    WriteTableToServer(db, table);
    flushes' := flushes + [table];
    FlattenAppend(flushes, table);
    NumberedAppend(Flatten(flushes), table, baseNext);
  }

  /** table.Rows.Add(row), then the copy and Clear() once the table reaches 50000 rows. */
  method AddRow(db: ActivityDb, row: UserActivity, table: seq<UserActivity>,
                flushes: seq<seq<UserActivity>>, ghost base: seq<UserActivity>, ghost baseNext: int)
    returns (table': seq<UserActivity>, flushes': seq<seq<UserActivity>>)
    requires db.Valid() && Copied(db, base, baseNext, flushes)
    requires FullChunks(flushes) && |table| < MaxTableRows
    modifies db
    ensures db.Valid() && Copied(db, base, baseNext, flushes')
    ensures FullChunks(flushes') && |table'| < MaxTableRows
    ensures db.users == old(db.users) && db.nextUserId == old(db.nextUserId)
    ensures Flatten(flushes') + table' == Flatten(flushes) + table + [row]
  {
    table' := table + [row];
    flushes' := flushes;
    if |table'| >= MaxTableRows {
      flushes' := Flush(db, table', flushes, base, baseNext);
      FlattenAppend(flushes, table');
      table' := [];
    }
  }

  /** The innermost loop: the rows of session `s` of user `u`. */
  method EmitSession(db: ActivityDb, p: SeedPlan, u: nat, s: nat, table: seq<UserActivity>,
                     flushes: seq<seq<UserActivity>>, ghost base: seq<UserActivity>, ghost baseNext: int)
    returns (table': seq<UserActivity>, flushes': seq<seq<UserActivity>>)
    requires ValidPlan(p) && IsSession(p, u, s)
    requires db.Valid() && Copied(db, base, baseNext, flushes)
    requires FullChunks(flushes) && |table| < MaxTableRows
    modifies db
    ensures db.Valid() && Copied(db, base, baseNext, flushes')
    ensures FullChunks(flushes') && |table'| < MaxTableRows
    ensures db.users == old(db.users) && db.nextUserId == old(db.nextUserId)
    ensures Flatten(flushes') + table' == Flatten(flushes) + table + SessionRows(p, u, s)
  {
    var activitiesInSession := SessionSize(p.perUser, s);
    ghost var rows := SessionRows(p, u, s);
    table', flushes' := table, flushes;
    var j := 0;
    while j < activitiesInSession
      invariant 0 <= j <= activitiesInSession == |rows|
      invariant db.Valid() && Copied(db, base, baseNext, flushes')
      invariant FullChunks(flushes') && |table'| < MaxTableRows
      invariant db.users == old(db.users) && db.nextUserId == old(db.nextUserId)
      invariant Flatten(flushes') + table' == Flatten(flushes) + table + rows[..j]
    {
      var row := RowAt(p, u, s, j);
      table', flushes' := AddRow(db, row, table', flushes', base, baseNext);
      assert rows[..j + 1] == rows[..j] + [row];
      j := j + 1;
    }
    assert rows[..j] == rows;
  }

  /** The middle loop: the sessions of user `u`. */
  method EmitUser(db: ActivityDb, p: SeedPlan, u: nat, table: seq<UserActivity>,
                  flushes: seq<seq<UserActivity>>, ghost base: seq<UserActivity>, ghost baseNext: int)
    returns (table': seq<UserActivity>, flushes': seq<seq<UserActivity>>)
    requires ValidPlan(p) && u < |p.userIds|
    requires db.Valid() && Copied(db, base, baseNext, flushes)
    requires FullChunks(flushes) && |table| < MaxTableRows
    modifies db
    ensures db.Valid() && Copied(db, base, baseNext, flushes')
    ensures FullChunks(flushes') && |table'| < MaxTableRows
    ensures db.users == old(db.users) && db.nextUserId == old(db.nextUserId)
    ensures Flatten(flushes') + table' == Flatten(flushes) + table + UserRows(p, u)
  {
    var sessionsPerUser := SessionsPerUser(p.perUser);
    ghost var start := Flatten(flushes) + table;
    table', flushes' := table, flushes;
    var s := 0;
    while s < sessionsPerUser
      invariant 0 <= s <= sessionsPerUser
      invariant db.Valid() && Copied(db, base, baseNext, flushes')
      invariant FullChunks(flushes') && |table'| < MaxTableRows
      invariant db.users == old(db.users) && db.nextUserId == old(db.nextUserId)
      invariant Flatten(flushes') + table' == start + UserRowsUpTo(p, u, s)
    {
      ghost var prefix := UserRowsUpTo(p, u, s);
      table', flushes' := EmitSession(db, p, u, s, table', flushes', base, baseNext);
      AppendAssoc(start, prefix, SessionRows(p, u, s));
      s := s + 1;
    }
  }

  /** The outer loop: the users, in order. */
  method EmitAll(db: ActivityDb, p: SeedPlan, ghost base: seq<UserActivity>, ghost baseNext: int)
    returns (table: seq<UserActivity>, flushes: seq<seq<UserActivity>>)
    requires ValidPlan(p)
    requires db.Valid() && db.activities == base && db.nextActivityId == baseNext
    modifies db
    ensures db.Valid() && Copied(db, base, baseNext, flushes)
    ensures FullChunks(flushes) && |table| < MaxTableRows
    ensures db.users == old(db.users) && db.nextUserId == old(db.nextUserId)
    ensures Flatten(flushes) + table == PlannedRows(p)
  {
    table, flushes := [], [];
    var u := 0;
    while u < |p.userIds|
      invariant 0 <= u <= |p.userIds|
      invariant db.Valid() && Copied(db, base, baseNext, flushes)
      invariant FullChunks(flushes) && |table| < MaxTableRows
      invariant db.users == old(db.users) && db.nextUserId == old(db.nextUserId)
      invariant Flatten(flushes) + table == RowsUpTo(p, u)
    {
      table, flushes := EmitUser(db, p, u, table, flushes, base, baseNext);
      u := u + 1;
    }
  }

  // ---------------- SeedBulk ----------------

  datatype SeedOutcome =
    | NothingToDo                 // numUsers <= 0
    | UsersNotSaved               // SaveChangesAsync for the users threw
    | Seeded(userIds: seq<int>)   // the ids of the seed users, in order

  /** `n` consecutive ids starting at `first`. */
  predicate Consecutive(ids: seq<int>, first: int, n: int) {
    |ids| == n && forall i :: 0 <= i < |ids| ==> ids[i] == first + i
  }

  /** The chunks SeedBulk copies: none empty, none over 50000 rows, all but the last full. */
  predicate Chunked(flushes: seq<seq<UserActivity>>) {
    && (forall i :: 0 <= i < |flushes| ==> 0 < |flushes[i]| <= MaxTableRows)
    && (forall i :: 0 <= i < |flushes| - 1 ==> |flushes[i]| == MaxTableRows)
  }

  /** The activity half of SeedBulk: the three nested loops, then the copy of what is left
      in the table. Every planned row is copied exactly once, in order. */
  method SeedActivities(db: ActivityDb, p: SeedPlan) returns (flushes: seq<seq<UserActivity>>)
    requires ValidPlan(p) && db.Valid()
    modifies db
    ensures db.Valid()
    ensures db.users == old(db.users) && db.nextUserId == old(db.nextUserId)
    ensures Flatten(flushes) == PlannedRows(p)
    ensures Chunked(flushes)
    ensures db.activities == old(db.activities) + Numbered(Flatten(flushes), old(db.nextActivityId))
  {
    ghost var base, baseNext := db.activities, db.nextActivityId;
    var table;
    table, flushes := EmitAll(db, p, base, baseNext);
    ghost var full := flushes;
    if |table| > 0 {
      flushes := Flush(db, table, flushes, base, baseNext);
      FlattenAppend(full, table);
    } else {
      assert Flatten(full) + table == Flatten(full);
    }
  }

  /** SeedBulk(db, numUsers, activitiesPerUser). Nothing happens for numUsers <= 0. Otherwise
      the seed users are stored (or the users' save throws and nothing else happens), and
      every planned row is copied to UserActivities exactly once, in order, in chunks: in all
      numUsers * max(activitiesPerUser, 1) rows. `usersSaveFails` stands for any other cause
      of the users' save throwing. */
  method SeedBulk(db: ActivityDb, numUsers: int, activitiesPerUser: int,
                  suffix: nat -> string, sessionGuid: (nat, nat) -> string,
                  clock: (nat, nat) -> Ticks, draw: Draw -> int, usersSaveFails: bool)
    returns (outcome: SeedOutcome, flushes: seq<seq<UserActivity>>)
    requires db.Valid()
    modifies db
    ensures db.Valid()
    ensures numUsers <= 0 ==>
      outcome == NothingToDo && flushes == [] && db.users == old(db.users) && db.activities == old(db.activities)
    ensures outcome == UsersNotSaved ==>
      flushes == [] && db.users == old(db.users) && db.activities == old(db.activities)
    ensures numUsers > 0 ==>
      (outcome.Seeded? <==> !usersSaveFails && UniqueEmails(old(db.users) + SeedUsers(numUsers, suffix)))
    ensures outcome.Seeded? ==>
      var p := SeedPlan(outcome.userIds, ClampActivities(activitiesPerUser), sessionGuid, clock, draw);
      && Consecutive(outcome.userIds, old(db.nextUserId), numUsers)
      && db.users == old(db.users) + NumberedUsers(SeedUsers(numUsers, suffix), old(db.nextUserId))
      && Flatten(flushes) == PlannedRows(p)
      && |Flatten(flushes)| == numUsers * ClampActivities(activitiesPerUser)
      && Chunked(flushes)
      && db.activities == old(db.activities) + Numbered(Flatten(flushes), old(db.nextActivityId))
  {
    flushes := [];
    if numUsers <= 0 {
      return NothingToDo, flushes;
    }
    var a := ClampActivities(activitiesPerUser);
    var users := BuildSeedUsers(numUsers, suffix);
    assert users == SeedUsers(numUsers, suffix);
    var saved := db.InsertUsers(users, usersSaveFails);
    if saved.None? {
      return UsersNotSaved, flushes;
    }
    var userIds := seq(|saved.value|, i requires 0 <= i < |saved.value| => saved.value[i].id);
    var p := SeedPlan(userIds, a, sessionGuid, clock, draw);
    flushes := SeedActivities(db, p);
    PlannedRowsCount(p);
    outcome := Seeded(userIds);
  }

  /** The users BuildSeedUsers lists. */
  function SeedUsers(n: nat, suffix: nat -> string): (users: seq<User>)
    ensures |users| == n
    ensures forall i :: 0 <= i < n ==> users[i] == SeedUser(suffix(i))
  {
    seq(n, i requires 0 <= i < n => SeedUser(suffix(i)))
  }
}
