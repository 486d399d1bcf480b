/** A charity's public page: its events split into upcoming and past ones by
    date, the number of volunteer sign-ups for its events, and the embeds of
    its (up to three) Instagram posts. */
module CharityMicrosite {
  import opened Common
  import Seqs
  import VolunteerSummary

  // ---------------------------------------------------------------------
  // Upcoming and past events

  /** `data.filter(e => new Date(e.date) >= today)`, `today` being the
      current instant. */
  function Upcoming(events: seq<EventRow>, now: Instant): seq<EventRow>
  {
    Seqs.Filter(events, (e: EventRow) => Midnight(e.date) >= now)
  }

  /** `data.filter(e => new Date(e.date) < today)` */
  function Past(events: seq<EventRow>, now: Instant): seq<EventRow>
  {
    Seqs.Filter(events, (e: EventRow) => Midnight(e.date) < now)
  }

  /** The two lists partition the events: an event is upcoming iff its day
      is one whose midnight (UTC) has not passed, past otherwise; both lists
      keep the fetched order, and together they hold every event exactly as
      often. */
  lemma {:induction false} PartitionByDate(events: seq<EventRow>, now: Instant)
    ensures forall e :: e in Upcoming(events, now) <==> e in events && e.date >= FirstDayFrom(now)
    ensures forall e :: e in Past(events, now) <==> e in events && e.date < FirstDayFrom(now)
    ensures Seqs.IsSubsequence(Upcoming(events, now), events)
    ensures Seqs.IsSubsequence(Past(events, now), events)
    ensures |Upcoming(events, now)| + |Past(events, now)| == |events|
    ensures multiset(Upcoming(events, now)) + multiset(Past(events, now)) == multiset(events)
  {
    var up := (e: EventRow) => Midnight(e.date) >= now;
    var past := (e: EventRow) => Midnight(e.date) < now;
    forall e ensures e in Upcoming(events, now) <==> e in events && e.date >= FirstDayFrom(now) {
      Seqs.FilterMembership(events, up, e);
      MidnightNotPassed(e.date, now);
    }
    forall e ensures e in Past(events, now) <==> e in events && e.date < FirstDayFrom(now) {
      Seqs.FilterMembership(events, past, e);
      MidnightNotPassed(e.date, now);
    }
    Seqs.FilterIsSubsequence(events, up);
    Seqs.FilterIsSubsequence(events, past);
    Seqs.FilterComplement(events, up, past);
  }

  /** An event dated the current UTC day is listed as past, unless the page
      is opened at exactly midnight UTC. */
  lemma CurrentDayEventIsPast(e: EventRow, now: Instant)
    requires now % DayMs != 0 && e.date == now / DayMs
    ensures e in Past([e], now) && e !in Upcoming([e], now)
  {
    CurrentDayHasPassed(now);
    PartitionByDate([e], now);
  }

  /** The two lists the page shows. */
  datatype EventLists = EventLists(upcoming: seq<EventRow>, past: seq<EventRow>)

  /** `fetchEvents`: the charity's rows of `volunteer_events` (`None` when the
      query gives no data, which leaves the lists as they were), split by date. */
  function FetchEvents(eventTable: Option<seq<EventRow>>, charityId: Id, now: Instant, shown: EventLists): (r: EventLists)
    ensures eventTable.None? ==> r == shown
    ensures eventTable.Some? ==> |r.upcoming| + |r.past| <= |eventTable.value|
  {
    if eventTable.None? then shown
    else
      var own := Seqs.Filter(eventTable.value, (e: EventRow) => e.charityId == charityId);
      PartitionByDate(own, now);
      EventLists(Upcoming(own, now), Past(own, now))
  }

  /** The "Active Events" figure. */
  function ActiveEventsCount(lists: EventLists): nat
  {
    |lists.upcoming|
  }

  /** After a fetch the lists hold the charity's own events and nothing else,
      split by date, and "Active Events" counts those whose day has not begun. */
  lemma FetchEventsSpec(eventTable: seq<EventRow>, charityId: Id, now: Instant, shown: EventLists)
    ensures var r := FetchEvents(Some(eventTable), charityId, now, shown);
      (forall e :: e in r.upcoming <==> e in eventTable && e.charityId == charityId && e.date >= FirstDayFrom(now))
      && (forall e :: e in r.past <==> e in eventTable && e.charityId == charityId && e.date < FirstDayFrom(now))
      && ActiveEventsCount(r) + |r.past| == |Seqs.Filter(eventTable, (e: EventRow) => e.charityId == charityId)|
  {
    var mine := (e: EventRow) => e.charityId == charityId;
    var own := Seqs.Filter(eventTable, mine);
    PartitionByDate(own, now);
    forall e ensures e in own <==> e in eventTable && e.charityId == charityId {
      Seqs.FilterMembership(eventTable, mine, e);
    }
  }

  // ---------------------------------------------------------------------
  // Volunteer count

  /** `events.map(e => e.id)` */
  function EventIds(events: seq<EventRow>): (ids: seq<Id>)
    ensures |ids| == |events|
    ensures forall i :: 0 <= i < |events| ==> ids[i] == events[i].id
  {
    seq(|events|, i requires 0 <= i < |events| => events[i].id)
  }

  /** The number of sign-up rows whose event is one of `ids`. */
  function CountSignupsFor(ids: seq<Id>, signups: seq<SignupRow>): nat
  {
    |Seqs.Filter(signups, (s: SignupRow) => s.eventId in ids)|
  }

  /** `fetchVolunteers`: without event data the shown count stays; a charity
      without events has 0 volunteers; missing sign-up data counts as none;
      otherwise the sign-up rows for the charity's events are counted. */
  function FetchVolunteers(eventTable: Option<seq<EventRow>>, signupTable: Option<seq<SignupRow>>,
                           charityId: Id, count: nat): (r: nat)
    ensures eventTable.None? ==> r == count
    ensures eventTable.Some? ==> r <= if signupTable.Some? then |signupTable.value| else 0
  {
    if eventTable.None? then count
    else
      var ids := EventIds(Seqs.Filter(eventTable.value, (e: EventRow) => e.charityId == charityId));
      if |ids| == 0 then 0
      else if signupTable.None? then 0
      else CountSignupsFor(ids, signupTable.value)
  }

  /** A sign-up row is counted iff it belongs to one of the charity's events;
      the count never exceeds the number of sign-up rows. */
  lemma FetchVolunteersSpec(eventTable: seq<EventRow>, signupTable: seq<SignupRow>, charityId: Id, count: nat)
    ensures var own := Seqs.Filter(eventTable, (e: EventRow) => e.charityId == charityId);
      var counted := Seqs.Filter(signupTable, (s: SignupRow) => s.eventId in EventIds(own));
      (own != [] ==> FetchVolunteers(Some(eventTable), Some(signupTable), charityId, count) == |counted|)
      && (forall s :: s in counted <==>
            s in signupTable && exists e :: e in eventTable && e.charityId == charityId && e.id == s.eventId)
      && FetchVolunteers(Some(eventTable), Some(signupTable), charityId, count) <= |signupTable|
  {
    var mine := (e: EventRow) => e.charityId == charityId;
    var own := Seqs.Filter(eventTable, mine);
    var ids := EventIds(own);
    var belongs := (s: SignupRow) => s.eventId in ids;
    forall s ensures s in Seqs.Filter(signupTable, belongs) <==>
      s in signupTable && exists e :: e in eventTable && e.charityId == charityId && e.id == s.eventId
    {
      Seqs.FilterMembership(signupTable, belongs, s);
      if s.eventId in ids {
        var i :| 0 <= i < |ids| && ids[i] == s.eventId;
        Seqs.FilterMembership(eventTable, mine, own[i]);
      }
      if exists e :: e in eventTable && e.charityId == charityId && e.id == s.eventId {
        var e :| e in eventTable && e.charityId == charityId && e.id == s.eventId;
        Seqs.FilterMembership(eventTable, mine, e);
        var i :| 0 <= i < |own| && own[i] == e;
        assert ids[i] == s.eventId;
      }
    }
  }

  /** A charity with no events shows 0 volunteers, whatever the sign-ups;
      a failed event query leaves the shown count unchanged. */
  lemma NoEventsNoVolunteers(eventTable: seq<EventRow>, signupTable: Option<seq<SignupRow>>, charityId: Id, count: nat)
    requires forall i :: 0 <= i < |eventTable| ==> eventTable[i].charityId != charityId
    ensures FetchVolunteers(Some(eventTable), signupTable, charityId, count) == 0
    ensures FetchVolunteers(None, signupTable, charityId, count) == count
  {
    var mine := (e: EventRow) => e.charityId == charityId;
    var own := Seqs.Filter(eventTable, mine);
    if own != [] {
      Seqs.FilterMembership(eventTable, mine, own[0]);
      assert false;
    }
  }

  /** The count adds up over the sign-up rows: more rows never lower it. */
  lemma CountSignupsAppend(ids: seq<Id>, a: seq<SignupRow>, b: seq<SignupRow>)
    ensures CountSignupsFor(ids, a + b) == CountSignupsFor(ids, a) + CountSignupsFor(ids, b)
  {
    Seqs.FilterAppend(a, b, (s: SignupRow) => s.eventId in ids);
  }

  /** Rows are counted, not students: one student signed up for two of the
      charity's events counts twice. */
  lemma SameStudentCountsTwice(ids: seq<Id>, s1: SignupRow, s2: SignupRow)
    requires s1.studentId == s2.studentId && s1.eventId in ids && s2.eventId in ids
    ensures CountSignupsFor(ids, [s1, s2]) == 2
  {
    var belongs := (s: SignupRow) => s.eventId in ids;
    assert [s1, s2][1..] == [s2];
    assert Seqs.Filter([s2], belongs) == [s2];
  }

  /** With distinct event ids, the page's volunteer count is the sum of the
      per-event sign-up counts the sign-up summary shows. */
  function SignupCountSum(ids: seq<Id>, signups: seq<SignupRow>): nat
  {
    if ids == [] then 0 else VolunteerSummary.SignupCount(signups, ids[0]) + SignupCountSum(ids[1..], signups)
  }

  lemma {:induction false} CountIsSumOfEventCounts(ids: seq<Id>, signups: seq<SignupRow>)
    requires Seqs.NoDuplicates(ids)
    ensures CountSignupsFor(ids, signups) == SignupCountSum(ids, signups)
    decreases |ids|
  {
    if ids == [] {
      Seqs.FilterComplement(signups, (s: SignupRow) => s.eventId in ids, (s: SignupRow) => s.eventId !in ids);
      Seqs.FilterKeepsAll(signups, (s: SignupRow) => s.eventId !in ids);
    } else {
      var rest := ids[1..];
      assert Seqs.NoDuplicates(rest) by {
        forall i, j | 0 <= i < j < |rest| ensures rest[i] != rest[j] {
          assert rest[i] == ids[i + 1] && rest[j] == ids[j + 1];
        }
      }
      assert ids[0] !in rest by {
        forall i | 0 <= i < |rest| ensures rest[i] != ids[0] {
          assert rest[i] == ids[i + 1];
        }
      }
      CountIsSumOfEventCounts(rest, signups);
      assert forall x: Id :: (x in ids) == (x == ids[0] || x in rest) by {
        assert ids == [ids[0]] + rest;
      }
      Seqs.FilterDisjointUnion(signups, (s: SignupRow) => s.eventId == ids[0],
        (s: SignupRow) => s.eventId in rest, (s: SignupRow) => s.eventId in ids);
    }
  }

  // ---------------------------------------------------------------------
  // Instagram embeds

  /** The charity fields the page shows; absent columns are `None`. */
  datatype CharityRow = CharityRow(
    id: Id,
    name: string,
    bio: string,
    location: string,
    instagramPost1: Option<string>,
    instagramPost2: Option<string>,
    instagramPost3: Option<string>)

  /** One iframe: its key (the post's position) and its source URL. */
  datatype Embed = Embed(index: nat, url: string)

  predicate IsUrlGiven(post: Option<string>)
  {
    post.Some? && post.value != ""
  }

  /** The embeds for `posts[start..]`, keyed by position in `posts`. */
  function EmbedsFrom(posts: seq<Option<string>>, start: nat): seq<Embed>
    decreases |posts| - start
  {
    if start >= |posts| then []
    else if IsUrlGiven(posts[start]) then [Embed(start, posts[start].value)] + EmbedsFrom(posts, start + 1)
    else EmbedsFrom(posts, start + 1)
  }

  /** `posts.map((url, index) => url && <iframe key={index} src={url}/>)`:
      a falsy entry renders nothing. */
  function Embeds(posts: seq<Option<string>>): seq<Embed>
  {
    EmbedsFrom(posts, 0)
  }

  function InstagramEmbeds(c: CharityRow): seq<Embed>
  {
    Embeds([c.instagramPost1, c.instagramPost2, c.instagramPost3])
  }

  /** Every embed from `start` on is keyed by a position from `start` on
      whose URL is given, with that URL as source, in increasing order. */
  lemma {:induction false} EmbedsFromSound(posts: seq<Option<string>>, start: nat)
    requires start <= |posts|
    ensures var r := EmbedsFrom(posts, start);
      |r| <= |posts| - start
      && (forall k :: 0 <= k < |r| ==>
            start <= r[k].index < |posts| && IsUrlGiven(posts[r[k].index]) && posts[r[k].index] == Some(r[k].url))
      && (forall j, k :: 0 <= j < k < |r| ==> r[j].index < r[k].index)
    decreases |posts| - start
  {
    if start < |posts| {
      EmbedsFromSound(posts, start + 1);
      var rest := EmbedsFrom(posts, start + 1);
      if IsUrlGiven(posts[start]) {
        var r := [Embed(start, posts[start].value)] + rest;
        forall k | 1 <= k < |r| ensures r[k] == rest[k - 1] { }
      }
    }
  }

  /** Every given URL from `start` on has its embed. */
  lemma {:induction false} EmbedsFromComplete(posts: seq<Option<string>>, start: nat, i: nat)
    requires start <= i < |posts| && IsUrlGiven(posts[i])
    ensures Embed(i, posts[i].value) in EmbedsFrom(posts, start)
    decreases i - start
  {
    if start < i {
      EmbedsFromComplete(posts, start + 1, i);
    }
  }

  /** Exactly the non-empty URLs produce an embed, each keyed by its own
      position and in the fields' order. */
  lemma EmbedsSpec(posts: seq<Option<string>>)
    ensures var r := Embeds(posts);
      |r| <= |posts|
      && (forall k :: 0 <= k < |r| ==>
            r[k].index < |posts| && IsUrlGiven(posts[r[k].index]) && posts[r[k].index] == Some(r[k].url))
      && (forall j, k :: 0 <= j < k < |r| ==> r[j].index < r[k].index)
      && (forall i :: 0 <= i < |posts| && IsUrlGiven(posts[i]) ==> Embed(i, posts[i].value) in r)
  {
    EmbedsFromSound(posts, 0);
    forall i | 0 <= i < |posts| && IsUrlGiven(posts[i]) ensures Embed(i, posts[i].value) in Embeds(posts) {
      EmbedsFromComplete(posts, 0, i);
    }
  }

  /** A charity page shows at most three embeds, none when no post is given. */
  lemma InstagramEmbedsBounds(c: CharityRow)
    ensures |InstagramEmbeds(c)| <= 3
    ensures !IsUrlGiven(c.instagramPost1) && !IsUrlGiven(c.instagramPost2) && !IsUrlGiven(c.instagramPost3) ==>
      InstagramEmbeds(c) == []
  {
    var posts := [c.instagramPost1, c.instagramPost2, c.instagramPost3];
    EmbedsSpec(posts);
    var r := InstagramEmbeds(c);
    if r != [] {
      assert IsUrlGiven(posts[r[0].index]);
    }
  }
}
