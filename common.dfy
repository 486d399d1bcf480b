/** Entities shared by the page models: optional values, identifiers,
    calendar days, and the rows of the hosted tables that several pages
    read (`volunteer_events`, `volunteer_signups`). */
module Common {

  /** A value that may be missing (`null` / `undefined` in the source). */
  datatype Option<T> = None | Some(value: T)

  /** Row identifiers (the hosted tables use opaque string keys). */
  type Id = string

  /** A calendar day, as the number of days since 1970-01-01: the ordered
      key behind the `yyyy-MM-dd` strings stored in the `date` column. */
  type DateKey = int

  /** A point in time, in milliseconds since 1970-01-01T00:00:00Z, as a
      JavaScript `Date` holds it; `new Date()` is the current instant. */
  type Instant = int

  const DayMs: int := 86400000

  /** `new Date("yyyy-MM-dd")`: a date-only string denotes midnight UTC at
      the start of that day. */
  function Midnight(d: DateKey): Instant
  {
    d * DayMs
  }

  /** The first day whose midnight (UTC) is not before `now`: the current
      UTC day when `now` is exactly its midnight, the next day otherwise. */
  function FirstDayFrom(now: Instant): (d: DateKey)
    ensures Midnight(d) >= now && Midnight(d - 1) < now
  {
    var q := (now + DayMs - 1) / DayMs;
    assert q * DayMs <= now + DayMs - 1 < q * DayMs + DayMs;
    q
  }

  /** Comparing a stored day with the current instant, as the pages do with
      `new Date(date) >= new Date()`, is comparing the day with the first
      day whose midnight has not passed. */
  lemma MidnightNotPassed(d: DateKey, now: Instant)
    ensures Midnight(d) >= now <==> d >= FirstDayFrom(now)
  {
    var f := FirstDayFrom(now);
    if d < f {
      assert Midnight(d) <= Midnight(f - 1);
    }
  }

  /** Unless `now` is exactly a midnight, the current UTC day (`now / DayMs`)
      has already begun, so its date compares as passed. */
  lemma CurrentDayHasPassed(now: Instant)
    requires now % DayMs != 0
    ensures Midnight(now / DayMs) < now
    ensures FirstDayFrom(now) == now / DayMs + 1
  {
    var d := now / DayMs;
    assert d * DayMs + now % DayMs == now;
    MidnightNotPassed(d, now);
    MidnightNotPassed(d + 1, now);
  }

  /** The authenticated account returned by the auth service. */
  datatype User = User(id: Id, email: string)

  /** A row of the `volunteer_events` table. */
  datatype EventRow = EventRow(
    id: Id,
    charityId: Id,
    title: string,
    description: string,
    date: DateKey,
    time: string,
    location: string,
    maxVolunteers: int,
    category: string,
    badges: seq<string>,
    externalLink: string,
    duration: int)

  /** A row of the `volunteer_signups` table: one student signed up for one
      event; `hoursConfirmed` is set when attendance is confirmed. */
  datatype SignupRow = SignupRow(id: Id, studentId: Id, eventId: Id, hoursConfirmed: Option<int>)

  /** JavaScript `x || d` on a number that may be missing: a missing value
      and 0 are both falsy. */
  function NumberOr(x: Option<int>, d: int): int
  {
    if x.None? || x.value == 0 then d else x.value
  }

  /** JavaScript `x || d` on a string that may be missing: a missing value
      and the empty string are both falsy. */
  function StringOr(x: Option<string>, d: string): string
  {
    if x.None? || x.value == "" then d else x.value
  }
}
