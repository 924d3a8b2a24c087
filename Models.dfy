/** The records that flow through the activity pipeline, and the time units they use. */
module Models {

  datatype Option<+T> = None | Some(value: T)

  /** A time instant or a duration, in ticks of 100 nanoseconds (the unit of .NET's DateTimeOffset). */
  type Ticks = int

  const TicksPerSecond: int := 10_000_000
  const TicksPerMinute: int := 60 * TicksPerSecond
  const TicksPerDay: int := 24 * 60 * TicksPerMinute

  /** A row of the Users table. Emails are unique among rows (a unique index of the store). */
  datatype User = User(id: int, username: string, email: string)

  /** A row of the UserActivities table. `id` stays 0 until the store assigns one on save. */
  datatype UserActivity = UserActivity(
    id: int,
    userId: int,
    activityType: string,
    timestamp: Ticks,
    sessionId: string,
    metadata: string)

  function Min(a: int, b: int): int { if a <= b then a else b }

  /** The grouping keys used by the reports. */
  function UserIdOf(a: UserActivity): int { a.userId }
  function SessionIdOf(a: UserActivity): string { a.sessionId }
}
