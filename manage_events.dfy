/** The event-creation form of a charity: toggling the optional badges, the
    duration field's fallback, and the submit handler's chain of checks (a
    date, an authenticated user, a charity profile) before the one insert
    into `volunteer_events`. */
module ManageEvents {
  import opened Common
  import Seqs
  import Text

  /** The badges the form offers (one toggle button each). */
  const AllBadges: seq<string> := ["New", "Featured", "Urgent"]

  /** The categories the form's select offers. */
  const Categories: seq<string> := ["Environmental", "Food", "Education", "Animals"]

  // ---------------------------------------------------------------------
  // Badge toggle

  /** `handleBadgeToggle`: a badge in the list is removed (every occurrence),
      one not in the list is appended. */
  function ToggleBadge(badges: seq<string>, badge: string): (r: seq<string>)
    ensures badge in r <==> badge !in badges
    ensures |r| <= |badges| + 1
  {
    if badge in badges then
      Seqs.FilterMembership(badges, (b: string) => b != badge, badge);
      Seqs.Filter(badges, (b: string) => b != badge)
    else badges + [badge]
  }

  /** Toggling an absent badge appends it after the others; toggling a
      present one removes all its occurrences and keeps every other badge,
      as often and in the same order. */
  lemma ToggleBadgeSpec(badges: seq<string>, badge: string)
    ensures badge !in badges ==> ToggleBadge(badges, badge) == badges + [badge]
    ensures badge in badges ==>
      badge !in ToggleBadge(badges, badge)
      && Seqs.IsSubsequence(ToggleBadge(badges, badge), badges)
      && forall x :: x != badge ==> multiset(ToggleBadge(badges, badge))[x] == multiset(badges)[x]
  {
    if badge in badges {
      var p := (b: string) => b != badge;
      Seqs.FilterMembership(badges, p, badge);
      Seqs.FilterIsSubsequence(badges, p);
      forall x | x != badge ensures multiset(ToggleBadge(badges, badge))[x] == multiset(badges)[x] {
        Seqs.FilterOccurrences(badges, p, x);
      }
    }
  }

  /** A toggle flips the toggled badge's membership and no other's. */
  lemma ToggleFlipsOnlyThatBadge(badges: seq<string>, badge: string, x: string)
    ensures x in ToggleBadge(badges, badge) <==> if x == badge then badge !in badges else x in badges
  {
    if badge in badges {
      Seqs.FilterMembership(badges, (b: string) => b != badge, x);
    }
  }

  /** Toggling an absent badge twice gives back the original list. */
  lemma ToggleTwiceRestores(badges: seq<string>, badge: string)
    requires badge !in badges
    ensures ToggleBadge(ToggleBadge(badges, badge), badge) == badges
  {
    var p := (b: string) => b != badge;
    assert badge in badges + [badge];
    Seqs.FilterAppend(badges, [badge], p);
    Seqs.FilterKeepsAll(badges, p);
    assert Seqs.Filter([badge], p) == [];
  }

  /** Toggling keeps a duplicate-free list duplicate-free, and keeps the list
      within the offered badges when the toggled one is offered. */
  lemma ToggleKeepsWellFormed(badges: seq<string>, badge: string)
    requires Seqs.NoDuplicates(badges)
    ensures Seqs.NoDuplicates(ToggleBadge(badges, badge))
    ensures (forall i :: 0 <= i < |badges| ==> badges[i] in AllBadges) && badge in AllBadges ==>
      forall i :: 0 <= i < |ToggleBadge(badges, badge)| ==> ToggleBadge(badges, badge)[i] in AllBadges
  {
    var r := ToggleBadge(badges, badge);
    if badge in badges {
      Seqs.FilterNoDuplicates(badges, (b: string) => b != badge);
    } else {
      forall i, j | 0 <= i < j < |r| ensures r[i] != r[j] {
        if j == |badges| { assert r[i] == badges[i]; }
      }
    }
    forall i | 0 <= i < |r| ensures r[i] in badges || r[i] == badge {
      ToggleFlipsOnlyThatBadge(badges, badge, r[i]);
    }
  }

  // ---------------------------------------------------------------------
  // Duration field

  /** `parseInt(value) || 1`: NaN and 0 fall back to 1. */
  function DurationInput(value: string): (d: int)
    ensures d != 0
  {
    NumberOr(Text.ParseInt(value), 1)
  }

  /** A typed numeral is taken as it is, except 0, which becomes 1. */
  lemma DurationOfNumeral(n: nat)
    ensures DurationInput(Text.NatToString(n)) == if n == 0 then 1 else n
  {
    Text.ParseIntNumeral(n, []);
    assert Text.NatToString(n) + [] == Text.NatToString(n);
  }

  /** Text without a leading digit or sign (after white space) gives 1. */
  lemma DurationOfNonNumber(value: string)
    requires var t := Text.TrimStart(value);
      t == [] || (Text.DigitValue(t[0]) >= 10 && t[0] != '-' && t[0] != '+')
    ensures DurationInput(value) == 1
  {
    Text.ParseIntNoDigits(value);
  }

  /** The fallback does not enforce the field's minimum of 1: a negative
      numeral is stored as a negative duration. */
  lemma NegativeDurationAccepted(n: nat)
    requires n > 0
    ensures DurationInput("-" + Text.NatToString(n)) == -(n as int)
  {
    Text.ParseIntNegativeNumeral(n);
  }

  // ---------------------------------------------------------------------
  // Submit

  datatype EventForm = EventForm(
    title: string,
    description: string,
    time: string,
    location: string,
    maxVolunteers: int,
    category: string,
    badges: seq<string>,
    externalLink: string,
    duration: int)

  const InitialForm: EventForm := EventForm("", "", "", "", 1, "Environmental", [], "", 1)

  /** The form offers only these values: a category from the select and
      distinct badges from the toggle buttons. */
  predicate OfferedValues(form: EventForm)
  {
    form.category in Categories
    && Seqs.NoDuplicates(form.badges)
    && forall i :: 0 <= i < |form.badges| ==> form.badges[i] in AllBadges
  }

  /** The initial form holds offered values, and choosing an offered
      category or toggling an offered badge keeps it so. */
  lemma OfferedValuesKept(form: EventForm, category: string, badge: string)
    ensures OfferedValues(InitialForm)
    ensures OfferedValues(form) && category in Categories ==> OfferedValues(form.(category := category))
    ensures OfferedValues(form) && badge in AllBadges ==>
      OfferedValues(form.(badges := ToggleBadge(form.badges, badge)))
  {
    if OfferedValues(form) && badge in AllBadges {
      ToggleKeepsWellFormed(form.badges, badge);
    }
  }

  /** The row the form inserts: its fields, the picked day, the charity. */
  datatype NewEvent = NewEvent(form: EventForm, date: DateKey, charityId: Id)

  /** What `supabase.auth.getUser()` answers. */
  datatype AuthResult = AuthResult(user: Option<User>, failed: bool)

  /** How a submit ends: one of the four alerts, or the insert succeeded
      and the page moves to the poster board. */
  datatype SubmitOutcome = NoDateAlert | NotAuthenticatedAlert | NoProfileAlert | InsertErrorAlert | Created

  /** The decision `handleSubmit` makes, check by check. `charities` maps an
      email to the id of the charity registered with it. */
  function SubmitDecision(date: Option<DateKey>, auth: AuthResult, charities: map<string, Id>, insertFails: bool): (r: SubmitOutcome)
    ensures r == Created <==>
      date.Some? && !auth.failed && auth.user.Some? && auth.user.value.email in charities && !insertFails
  {
    if date.None? then NoDateAlert
    else if auth.failed || auth.user.None? then NotAuthenticatedAlert
    else if auth.user.value.email !in charities then NoProfileAlert
    else if insertFails then InsertErrorAlert
    else Created
  }

  /** An event is created exactly when a day is picked, a user is signed in,
      a charity is registered under the user's email and the insert works;
      each missing precondition gives its own alert, checked in that order,
      and a failed insert gives the error alert. */
  lemma SubmitCreatesOnlyWhenReady(date: Option<DateKey>, auth: AuthResult, charities: map<string, Id>, insertFails: bool)
    ensures SubmitDecision(date, auth, charities, insertFails) == Created <==>
      date.Some? && !auth.failed && auth.user.Some? && auth.user.value.email in charities && !insertFails
    ensures date.None? ==> SubmitDecision(date, auth, charities, insertFails) == NoDateAlert
    ensures date.Some? && (auth.failed || auth.user.None?) ==>
      SubmitDecision(date, auth, charities, insertFails) == NotAuthenticatedAlert
    ensures date.Some? && !auth.failed && auth.user.Some? && auth.user.value.email !in charities ==>
      SubmitDecision(date, auth, charities, insertFails) == NoProfileAlert
    ensures date.Some? && !auth.failed && auth.user.Some? && auth.user.value.email in charities && insertFails ==>
      SubmitDecision(date, auth, charities, insertFails) == InsertErrorAlert
  {
  }

  /** The `volunteer_events` table, as far as this form writes to it. */
  class EventTable {
    var rows: seq<NewEvent>

    constructor(rows: seq<NewEvent>)
      ensures this.rows == rows
    {
      this.rows := rows;
    }
  }

  /** The form's state: the picked day, the fields, the `submitting` flag
      that disables the submit button. */
  class ManageEventsPage {
    var date: Option<DateKey>
    var form: EventForm
    var submitting: bool

    constructor()
      ensures date == None && form == InitialForm && !submitting
    {
      date := None;
      form := InitialForm;
      submitting := false;
    }

    /** The calendar's `onSelect`. */
    method PickDate(d: Option<DateKey>)
      modifies this`date
      ensures date == d
    {
      date := d;
    }

    /** A click on one of the badge buttons. */
    method ClickBadge(badge: string)
      modifies this`form
      ensures form == old(form).(badges := ToggleBadge(old(form).badges, badge))
    {
      form := form.(badges := ToggleBadge(form.badges, badge));
    }

    /** The category select's `onValueChange`. */
    method ChooseCategory(value: string)
      modifies this`form
      ensures form == old(form).(category := value)
    {
      form := form.(category := value);
    }

    /** The duration field's `onChange`. */
    method ChangeDuration(value: string)
      modifies this`form
      ensures form == old(form).(duration := DurationInput(value))
    {
      form := form.(duration := DurationInput(value));
    }

    /** `handleSubmit`: each failed check alerts and stops; every stop after
        the date check clears `submitting` again; only a successful insert
        adds a row, built from the fields, the day and the charity's id. */
    method Submit(auth: AuthResult, charities: map<string, Id>, insertFails: bool, table: EventTable)
      returns (outcome: SubmitOutcome)
      modifies this`submitting, table`rows
      ensures outcome == SubmitDecision(date, auth, charities, insertFails)
      ensures outcome == Created ==>
        table.rows == old(table.rows) + [NewEvent(form, date.value, charities[auth.user.value.email])]
      ensures outcome != Created ==> table.rows == old(table.rows)
      ensures submitting == if date.None? then old(submitting) else false
    {
      if date.None? {
        return NoDateAlert;
      }
      submitting := true;
      if auth.failed || auth.user.None? {
        submitting := false;
        return NotAuthenticatedAlert;
      }
      var email := auth.user.value.email;
      if email !in charities {
        submitting := false;
        return NoProfileAlert;
      }
      var row := NewEvent(form, date.value, charities[email]);
      if !insertFails {
        table.rows := table.rows + [row];
      }
      submitting := false;
      if insertFails {
        return InsertErrorAlert;
      }
      return Created;
    }
  }
}
