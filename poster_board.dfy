/** The event poster board: three filters over the event list (category,
    exact day, case-insensitive location text), the "Clear all filters"
    control, the spots-left figure with the RSVP button it drives, and the
    colour classes looked up for categories and badges. */
module PosterBoard {
  import opened Common
  import Seqs
  import Text

  /** The events the board lists. */
  datatype Event = Event(
    id: int,
    title: string,
    charity: string,
    date: DateKey,
    time: string,
    location: string,
    description: string,
    volunteers: int,
    maxVolunteers: int,
    category: string,
    image: string,
    badges: seq<string>)

  /** The three filter inputs: category select, optional day, location text. */
  datatype Filters = Filters(category: string, date: Option<DateKey>, location: string)

  /** The filters as the page starts, and as both clear buttons leave them. */
  const DefaultFilters: Filters := Filters("all", None, "")

  predicate MatchesCategory(e: Event, f: Filters)
  {
    f.category == "" || f.category == "all" || e.category == f.category
  }

  predicate MatchesDate(e: Event, f: Filters)
  {
    f.date.None? || e.date == f.date.value
  }

  predicate MatchesLocation(e: Event, f: Filters)
  {
    f.location == "" || Text.Includes(Text.Lower(e.location), Text.Lower(f.location))
  }

  predicate Matches(e: Event, f: Filters)
  {
    MatchesCategory(e, f) && MatchesDate(e, f) && MatchesLocation(e, f)
  }

  /** `filteredEvents` */
  function FilteredEvents(events: seq<Event>, f: Filters): (r: seq<Event>)
    ensures |r| <= |events|
    ensures forall i :: 0 <= i < |r| ==> MatchesCategory(r[i], f) && MatchesDate(r[i], f) && MatchesLocation(r[i], f)
  {
    Seqs.Filter(events, (e: Event) => Matches(e, f))
  }

  /** The filtered list keeps the board's order, an event is on it iff it is
      on the board and passes all three tests, and it is listed as often as
      it is on the board. */
  lemma FilteredEventsSpec(events: seq<Event>, f: Filters)
    ensures Seqs.IsSubsequence(FilteredEvents(events, f), events)
    ensures forall e :: e in FilteredEvents(events, f) <==>
      e in events && MatchesCategory(e, f) && MatchesDate(e, f) && MatchesLocation(e, f)
    ensures forall e :: multiset(FilteredEvents(events, f))[e] == (if Matches(e, f) then multiset(events)[e] else 0)
  {
    var p := (e: Event) => Matches(e, f);
    Seqs.FilterIsSubsequence(events, p);
    forall e ensures e in FilteredEvents(events, f) <==> e in events && Matches(e, f) {
      Seqs.FilterMembership(events, p, e);
    }
    forall e ensures multiset(FilteredEvents(events, f))[e] == if Matches(e, f) then multiset(events)[e] else 0 {
      Seqs.FilterOccurrences(events, p, e);
    }
  }

  /** A non-empty location filter matches exactly when the lower-cased filter
      text occurs somewhere in the lower-cased location; the test ignores
      the case of both. */
  lemma LocationMatchIgnoresCase(e: Event, f: Filters)
    requires f.location != ""
    ensures MatchesLocation(e, f) <==>
      exists i :: Text.OccursAt(Text.Lower(e.location), Text.Lower(f.location), i)
    ensures MatchesLocation(e, f) ==
      MatchesLocation(e.(location := Text.Lower(e.location)), f.(location := Text.Lower(f.location)))
  {
    Text.IncludesIffOccurs(Text.Lower(e.location), Text.Lower(f.location));
    Text.LowerIdempotent(e.location);
    Text.LowerIdempotent(f.location);
  }

  /** Whether "Clear all filters" is shown: a category other than "all" is
      chosen, a day is picked, or location text is typed. */
  predicate ShowClearAll(f: Filters)
  {
    (f.category != "" && f.category != "all") || f.date.Some? || f.location != ""
  }

  /** Both clear buttons: back to the default filters. */
  function ClearFilters(f: Filters): Filters
  {
    DefaultFilters
  }

  /** When "Clear all filters" is hidden, no filter is active and the whole
      board is listed. */
  lemma HiddenClearListsEverything(events: seq<Event>, f: Filters)
    requires !ShowClearAll(f)
    ensures FilteredEvents(events, f) == events
  {
    Seqs.FilterKeepsAll(events, (e: Event) => Matches(e, f));
  }

  /** Clearing restores the full board and hides the clear button. */
  lemma ClearRestoresBoard(events: seq<Event>, f: Filters)
    ensures FilteredEvents(events, ClearFilters(f)) == events
    ensures !ShowClearAll(ClearFilters(f))
  {
    HiddenClearListsEverything(events, ClearFilters(f));
  }

  /** For a category the select can produce (never ""), the clear button is
      shown iff the filters differ from the defaults. */
  lemma ShowClearAllIffChanged(f: Filters)
    requires f.category != ""
    ensures ShowClearAll(f) <==> f != DefaultFilters
  {
  }

  // ---------------------------------------------------------------------
  // Capacity

  /** `getSpotsLeft` */
  function SpotsLeft(e: Event): int
  {
    e.maxVolunteers - e.volunteers
  }

  /** The RSVP button: "Full" and disabled, or open with the spots left. */
  datatype RsvpButton = Full | Open(spotsLeft: int)

  function Rsvp(e: Event): RsvpButton
  {
    if SpotsLeft(e) == 0 then Full else Open(SpotsLeft(e))
  }

  predicate RsvpDisabled(e: Event)
  {
    Rsvp(e).Full?
  }

  /** The button is disabled and reads "Full" exactly when the sign-ups have
      reached the maximum; an open button shows the true spots left. */
  lemma RsvpDisabledIffFull(e: Event)
    ensures RsvpDisabled(e) <==> e.volunteers == e.maxVolunteers
    ensures Rsvp(e).Open? ==> Rsvp(e).spotsLeft == e.maxVolunteers - e.volunteers != 0
    ensures 0 <= e.volunteers <= e.maxVolunteers && !RsvpDisabled(e) ==> Rsvp(e).spotsLeft > 0
  {
  }

  /** Only an exact match disables the button: an overbooked event shows a
      negative number of spots and stays open. */
  lemma OverbookedEventStaysOpen(e: Event)
    requires e.volunteers > e.maxVolunteers
    ensures !RsvpDisabled(e) && Rsvp(e).spotsLeft < 0
  {
  }

  // ---------------------------------------------------------------------
  // Colour lookups

  const DefaultCategoryColor: string := "bg-muted text-muted-foreground border-border"
  const CategoryColors: map<string, string> := map[
    "Environmental" := "bg-primary/10 text-primary border-primary/20",
    "Food" := "bg-accent/10 text-accent-foreground border-accent/20",
    "Education" := "bg-secondary/30 text-secondary-foreground border-secondary/40",
    "Animals" := "bg-muted text-muted-foreground border-border"]

  const DefaultBadgeColor: string := "bg-muted text-muted-foreground"
  const BadgeColors: map<string, string> := map[
    "New" := "bg-blue-500 text-white",
    "Featured" := "bg-yellow-500 text-yellow-900",
    "Urgent" := "bg-red-500 text-white"]

  /** `colors[key] || fallback` */
  function Lookup(colors: map<string, string>, key: string, fallback: string): string
  {
    if key in colors && colors[key] != "" then colors[key] else fallback
  }

  /** `getCategoryColor` */
  function CategoryColor(category: string): string
  {
    Lookup(CategoryColors, category, DefaultCategoryColor)
  }

  /** `getBadgeColor` */
  function BadgeColor(badge: string): string
  {
    Lookup(BadgeColors, badge, DefaultBadgeColor)
  }

  /** Both lookups answer for every key: a known key gets its own class
      string, any other key the default one, and the answer is never empty. */
  lemma ColorLookupsAreTotal(category: string, badge: string)
    ensures category in CategoryColors ==> CategoryColor(category) == CategoryColors[category]
    ensures category !in CategoryColors ==> CategoryColor(category) == DefaultCategoryColor
    ensures badge in BadgeColors ==> BadgeColor(badge) == BadgeColors[badge]
    ensures badge !in BadgeColors ==> BadgeColor(badge) == DefaultBadgeColor
    ensures CategoryColor(category) != "" && BadgeColor(badge) != ""
  {
  }
}
