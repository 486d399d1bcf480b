/** The charity's sign-up summary: for each of its events the number of
    sign-ups, whether the event is still active, and how full it is as a
    whole percentage. */
module VolunteerSummary {
  import opened Common
  import Seqs

  datatype Status = Active | Closed

  /** `dateObj >= today ? "active" : "closed"`, with `dateObj` the stored
      day's midnight (UTC) and `today` the current instant: an event is
      active while its day is one whose midnight has not yet passed. */
  function EventStatus(date: DateKey, now: Instant): (r: Status)
    ensures r == Active <==> date >= FirstDayFrom(now)
  {
    MidnightNotPassed(date, now);
    if Midnight(date) >= now then Active else Closed
  }

  /** An event dated the current UTC day is already closed, unless the
      page is opened at exactly midnight UTC. */
  lemma CurrentDayEventIsClosed(now: Instant)
    requires now % DayMs != 0
    ensures EventStatus(now / DayMs, now) == Closed
    ensures EventStatus(now / DayMs + 1, now) == Active
  {
    CurrentDayHasPassed(now);
  }

  /** `max_volunteers > 0 ? Math.round(signups / max_volunteers * 100) : 0`,
      over exact rationals: `Math.round` rounds halves upwards, which for a
      non-negative ratio is the floor of the ratio plus one half. Without
      capacity the result is 0; otherwise it lies within half a percent of
      the exact ratio (multiplied out by 2 * maxVolunteers). */
  function Percent(signups: nat, maxVolunteers: int): (r: nat)
    ensures maxVolunteers <= 0 ==> r == 0
    ensures maxVolunteers > 0 ==>
      2 * maxVolunteers * r - maxVolunteers <= 200 * signups < 2 * maxVolunteers * r + maxVolunteers
  {
    if maxVolunteers > 0 then
      QuotientBrackets(200 * signups + maxVolunteers, 2 * maxVolunteers, 0);
      (200 * signups + maxVolunteers) / (2 * maxVolunteers)
    else 0
  }

  lemma MulMonotone(k: int, x: int, y: int)
    requires k > 0 && x <= y
    ensures k * x <= k * y
  {
    assert k * y == k * x + k * (y - x);
  }

  /** Division by a positive divisor: the quotient brackets the dividend,
      and it is the only number that does. */
  lemma QuotientBrackets(a: int, b: int, k: int)
    requires b > 0
    ensures b * (a / b) <= a < b * (a / b + 1)
    ensures b * k <= a < b * (k + 1) ==> a / b == k
  {
    var q := a / b;
    assert b * (q + 1) == b * q + b;
    if b * k <= a < b * (k + 1) {
      if q < k {
        MulMonotone(b, q + 1, k);
        assert false;
      } else if q > k {
        MulMonotone(b, k + 1, q);
        assert false;
      }
    }
  }

  /** The percentage is the only whole number within half a percent of the
      exact ratio: any `k` with k - 1/2 <= 100 * signups / maxVolunteers <
      k + 1/2 (multiplied out by 2 * maxVolunteers) is the percentage. */
  lemma PercentIsRoundedRatio(signups: nat, maxVolunteers: int, k: int)
    requires maxVolunteers > 0
    requires 2 * maxVolunteers * k - maxVolunteers <= 200 * signups < 2 * maxVolunteers * k + maxVolunteers
    ensures Percent(signups, maxVolunteers) == k
  {
    var m := maxVolunteers;
    assert 2 * m * (k + 1) == 2 * m * k + 2 * m;
    QuotientBrackets(200 * signups + m, 2 * m, k);
  }

  /** Within capacity the percentage is at most 100; a full event shows 100
      and an event without sign-ups 0. */
  lemma PercentBounds(signups: nat, maxVolunteers: int)
    requires maxVolunteers > 0
    ensures signups <= maxVolunteers ==> Percent(signups, maxVolunteers) <= 100
    ensures Percent(maxVolunteers, maxVolunteers) == 100
    ensures Percent(0, maxVolunteers) == 0
  {
    var m := maxVolunteers;
    if signups <= m {
      var q := Percent(signups, m);
      if q > 100 {
        MulMonotone(2 * m, 101, q);
        assert false;
      }
    }
    QuotientBrackets(200 * m + m, 2 * m, 100);
    QuotientBrackets(m, 2 * m, 0);
  }

  /** More sign-ups never lower the percentage. */
  lemma PercentMonotone(s1: nat, s2: nat, maxVolunteers: int)
    requires s1 <= s2
    ensures Percent(s1, maxVolunteers) <= Percent(s2, maxVolunteers)
  {
    if maxVolunteers > 0 {
      var m := maxVolunteers;
      var q1, q2 := Percent(s1, m), Percent(s2, m);
      if q1 > q2 {
        MulMonotone(2 * m, q2 + 1, q1);
        assert false;
      }
    }
  }

  /** `count` of `volunteer_signups` rows with `event_id` equal to `eventId`. */
  function SignupCount(signups: seq<SignupRow>, eventId: Id): nat
  {
    |Seqs.Filter(signups, (s: SignupRow) => s.eventId == eventId)|
  }

  /** One entry of `eventStats`: the event's own fields plus the three figures. */
  datatype EventStat = EventStat(event: EventRow, signups: nat, status: Status, percent: nat)

  function StatFor(e: EventRow, signups: seq<SignupRow>, now: Instant): EventStat
  {
    var n := SignupCount(signups, e.id);
    EventStat(e, n, EventStatus(e.date, now), Percent(n, e.maxVolunteers))
  }

  /** `eventStats`: the events mapped one to one, in order. */
  function Summary(events: seq<EventRow>, signups: seq<SignupRow>, now: Instant): (r: seq<EventStat>)
    ensures |r| == |events|
    ensures forall i :: 0 <= i < |events| ==> r[i] == StatFor(events[i], signups, now)
    decreases |events|
  {
    if events == [] then []
    else [StatFor(events[0], signups, now)] + Summary(events[1..], signups, now)
  }

  /** Every summary entry carries its event unchanged, is active iff the
      event's day is one whose midnight (UTC) has not passed, and shows a percentage that is 0 for
      an event without capacity and at most 100 for one within capacity. */
  lemma SummaryEntriesSpec(events: seq<EventRow>, signups: seq<SignupRow>, now: Instant, i: nat)
    requires i < |events|
    ensures var st := Summary(events, signups, now)[i];
      st.event == events[i]
      && (st.status == Active <==> events[i].date >= FirstDayFrom(now))
      && st.signups <= |signups|
      && (events[i].maxVolunteers <= 0 ==> st.percent == 0)
      && (0 < events[i].maxVolunteers && st.signups <= events[i].maxVolunteers ==> st.percent <= 100)
  {
    var st := Summary(events, signups, now)[i];
    if 0 < events[i].maxVolunteers {
      PercentBounds(st.signups, events[i].maxVolunteers);
    }
  }

  /** The events the entries stand for, in entry order. */
  function EventsOf(stats: seq<EventStat>): (es: seq<EventRow>)
    ensures |es| == |stats|
    ensures forall i :: 0 <= i < |stats| ==> es[i] == stats[i].event
  {
    seq(|stats|, i requires 0 <= i < |stats| => stats[i].event)
  }

  /** `fetchSummary`: nothing changes without a signed-in user or without a
      charity registered under the user's email; otherwise the summary of
      that charity's events replaces the shown list. */
  function FetchSummary(user: Option<User>, charities: map<string, Id>, eventTable: seq<EventRow>,
                        signupTable: seq<SignupRow>, now: Instant, shown: seq<EventStat>): (r: seq<EventStat>)
    ensures user.Some? && user.value.email in charities ==>
      |r| <= |eventTable| && forall i :: 0 <= i < |r| ==> r[i].event.charityId == charities[user.value.email]
  {
    if user.None? || user.value.email !in charities then shown
    else
      var cid := charities[user.value.email];
      Summary(Seqs.Filter(eventTable, (e: EventRow) => e.charityId == cid), signupTable, now)
  }

  /** After a successful fetch the entries stand for exactly the charity's
      events, in table order: every entry is one of them, and every one of
      them has an entry. */
  lemma FetchSummaryShowsOwnEvents(user: Option<User>, charities: map<string, Id>, eventTable: seq<EventRow>,
                                   signupTable: seq<SignupRow>, now: Instant, shown: seq<EventStat>)
    requires user.Some? && user.value.email in charities
    ensures var r := FetchSummary(user, charities, eventTable, signupTable, now, shown);
      var cid := charities[user.value.email];
      EventsOf(r) == Seqs.Filter(eventTable, (e: EventRow) => e.charityId == cid)
      && Seqs.IsSubsequence(EventsOf(r), eventTable)
      && (forall i :: 0 <= i < |r| ==> r[i].event in eventTable && r[i].event.charityId == cid)
      && (forall e :: e in eventTable && e.charityId == cid ==> exists i :: 0 <= i < |r| && r[i].event == e)
  {
    var cid := charities[user.value.email];
    var p := (e: EventRow) => e.charityId == cid;
    var own := Seqs.Filter(eventTable, p);
    var r := FetchSummary(user, charities, eventTable, signupTable, now, shown);
    assert r == Summary(own, signupTable, now);
    assert EventsOf(r) == own;
    Seqs.FilterIsSubsequence(eventTable, p);
    forall i | 0 <= i < |own| ensures own[i] in eventTable {
      Seqs.FilterMembership(eventTable, p, own[i]);
    }
    forall e | e in eventTable && e.charityId == cid ensures exists i :: 0 <= i < |r| && r[i].event == e {
      Seqs.FilterMembership(eventTable, p, e);
      var i :| 0 <= i < |own| && own[i] == e;
      assert r[i] == StatFor(own[i], signupTable, now);
    }
  }
}
