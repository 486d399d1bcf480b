# charity-connect page rules, modelled in Dafny

charity-connect is a web front end where students find volunteer events and
charities publish them. Its data lives in a hosted database (`charities`,
`volunteer_events`, `volunteer_signups`, `students`). The pages reach that
database through remote calls. Around those calls the page code holds small
rules of its own; this project models those rules and proves what they
guarantee.

- **Profile** (`profile.dfy`): where the volunteer stands on the milestone
  ladder 1, 5, 15, 30, 50 hours. It computes the previous and next milestones,
  the progress between them and the hours still needed. It also splits the
  badge list into earned badges and the next three to earn.
- **Poster board** (`poster_board.dfy`):
  - the three filters: category, exact day, and location text ignoring case;
  - the "Clear all filters" control;
  - the spots-left figure and the RSVP button it drives;
  - the colour classes looked up for categories and badges.
- **Manage events** (`manage_events.dfy`):
  - the badge toggle;
  - the fallback of the duration field (`parseInt(v) || 1`);
  - the submit handler as a class with its `submitting` flag. The handler runs
    a chain of early returns before the one insert.
- **Volunteer summary** (`volunteer_summary.dfy`): for each event, its
  sign-up count, its active/closed status and how full it is as a
  percentage rounded half up.
- **Charity microsite** (`charity_microsite.dfy`):
  - the split of a charity's events into upcoming and past;
  - the count of sign-up rows for the charity's events;
  - the Instagram embeds.
- **Volunteers** (`volunteers.dfy`):
  - the join of each event's sign-ups to the students. A student who is not
    found gets the defaults "Unknown" and "".
  - the loop that builds the list of events with their RSVPs;
  - attendance confirmation: it sets the sign-up's confirmed hours and adds
    the event's duration to the student's total, using tables keyed by id.
    The page ignores the errors of these calls, so a failed read overwrites
    the total with the duration alone, and a failed update of the sign-up
    still adds the hours.

Shared pieces:
- `common.dfy`: the rows of the hosted tables, plus JavaScript's `x || d` on
  numbers and strings, where 0, "" and a missing value all count as falsy.
- `seqs.dfy`: `filter` and its laws.
- `text.dfy`: ASCII `toLowerCase`, `includes`, and ECMAScript's `parseInt`
  called without a radix.

Each remote call becomes a parameter:
- a table is a sequence of rows in table order;
- `.eq(column, v)` is a filter;
- `supabase.auth.getUser()` is an optional user, plus a failure flag where the
  page reads the error;
- a charity lookup by email is a map from email to charity id;
- the failure of the insert, and of each update and read when confirming
  attendance, is a boolean; the pages go on after a failed update or read.

Calendar days are integer keys (`DateKey`, days since 1970-01-01). A stored
date is a date-only string, and JavaScript reads such a string as UTC
midnight of that day. The current instant (`new Date()`) is a parameter
`now`, in milliseconds since the epoch. A day's midnight has not passed iff
the day is `FirstDayFrom(now)` or later.

## Model

| member | source | states |
|---|---|---|
| Profile.FindAbove | src/pages/Profile.tsx:47 | `find(m => m > hours)` answers a milestone of the list above the hours, and answers nothing exactly when no milestone is above them |
| Profile.FindAboveIsLeast | src/pages/Profile.tsx:47 | on a strictly increasing list the milestone found is the least one above the hours |
| Profile.LastAtMostIsGreatest | src/pages/Profile.tsx:48 | `filter(m => m <= hours).pop()` is missing iff every milestone is above the hours, and is otherwise the greatest milestone not above them |
| Profile.MilestonesAreLadder | src/pages/Profile.tsx:46 | the ladder is positive, strictly increasing, runs from 1 to 50 and never exceeds 50 |
| Profile.NextMilestoneIsLeastAbove | src/pages/Profile.tsx:46-47 | below 50 hours the next milestone is a ladder milestone above the hours, and no ladder milestone above the hours is smaller; from 50 hours on it is 50 |
| Profile.PrevMilestoneIsGreatestReached | src/pages/Profile.tsx:46-48 | from 1 hour on the previous milestone is the greatest ladder milestone reached; below 1 hour it is 0 |
| Profile.ProgressToNext | src/pages/Profile.tsx:45-54 | the next milestone is on the ladder, and below 50 hours the progress lies in [0, total) |
| Profile.ProgressBelowTop | src/pages/Profile.tsx:45-54 | for 0 <= hours < 50: prev <= hours < next, 0 <= current < total, and the hours still needed equal next - hours and are positive |
| Profile.ProgressAtTop | src/pages/Profile.tsx:45-54 | from 50 hours on: next is 50, total is 0, current is hours - 50, and the "hours needed" figure is 50 - hours (0 or negative) |
| Profile.ProgressPercentDefinedBelowTop | src/pages/Profile.tsx:136 | the progress bar's division has a non-zero divisor exactly when the hours are below 50 |
| Profile.ProgressPercentInRange | src/pages/Profile.tsx:136 | for 0 <= hours < 50 the progress bar's value is at least 0 and below 100 |
| Profile.EarnedUnearnedPartition | src/pages/Profile.tsx:42-43 | earned and unearned badges split the list: membership is by the flag, both keep list order, and together they hold each badge as often as the list |
| Profile.NextBadgesAreFirstUnearned | src/pages/Profile.tsx:43 | the next badges are at most three unearned badges of the list, exactly the first ones of the unearned list, and all of them when fewer than three |
| PosterBoard.FilteredEvents | src/pages/PosterBoard.tsx:93-99 | the list is no longer than the board and every listed event passes the category, day and location tests |
| PosterBoard.FilteredEventsSpec | src/pages/PosterBoard.tsx:93-99 | the filtered list is a subsequence of the board, and an event is on it iff it is on the board and passes the category, day and location tests, and it is listed as often as it is on the board |
| PosterBoard.LocationMatchIgnoresCase | src/pages/PosterBoard.tsx:96 | a non-empty location filter matches iff its lower-cased text occurs at some index of the lower-cased location, and lower-casing either side beforehand changes nothing |
| PosterBoard.HiddenClearListsEverything | src/pages/PosterBoard.tsx:93-99 | when the clear control is hidden, no filter is active and every event is listed in order |
| PosterBoard.ClearRestoresBoard | src/pages/PosterBoard.tsx:236-240 | after either clear button the whole board is listed and the clear control is hidden |
| PosterBoard.ShowClearAllIffChanged | src/pages/PosterBoard.tsx:232 | for any category the select can produce, the clear control is shown iff the filters differ from the defaults ("all", no day, "") |
| PosterBoard.RsvpDisabledIffFull | src/pages/PosterBoard.tsx:320-324 | the RSVP button is disabled and reads "Full" iff the sign-ups equal the maximum; an open button shows max - volunteers, which is non-zero, and positive within capacity |
| PosterBoard.OverbookedEventStaysOpen | src/pages/PosterBoard.tsx:120-122 | an event with more sign-ups than places shows a negative number of spots and its button stays enabled |
| PosterBoard.ColorLookupsAreTotal | src/pages/PosterBoard.tsx:101-118 | a known category or badge gets its own class string and any other key the default one; the answer is never empty |
| Text.LowerIdempotent | src/pages/PosterBoard.tsx:96 | ASCII lower-casing leaves no upper-case letter, applying it twice equals applying it once, and only "" lower-cases to "" |
| Text.IncludesIffOccurs | src/pages/PosterBoard.tsx:96 | `includes` holds iff the needle occurs in the text at some index |
| Text.ParseInt | src/pages/ManageEvents.tsx:134 | a number is read only when the first non-blank character is a digit or a sign |
| Text.ParseIntNumeral | src/pages/ManageEvents.tsx:134 | `parseInt` reads a decimal numeral back to its value when what follows is not a digit, and, after the numeral "0", not `x` or `X` ("12", "12.5", "12 hours", "12x") |
| Text.ParseIntNegativeNumeral | src/pages/ManageEvents.tsx:134 | `parseInt` of a minus sign followed by a numeral is the negated value |
| Text.ParseIntNoDigits | src/pages/ManageEvents.tsx:134 | text whose first non-blank character is neither a sign nor a digit is NaN |
| ManageEvents.ToggleBadge | src/pages/ManageEvents.tsx:38-45 | the toggled badge is in the new list iff it was not in the old one, and the list grows by at most one |
| ManageEvents.ToggleBadgeSpec | src/pages/ManageEvents.tsx:38-45 | toggling an absent badge appends it after the others; toggling a present one removes every occurrence and keeps all other badges, as often and in the same order |
| ManageEvents.ToggleFlipsOnlyThatBadge | src/pages/ManageEvents.tsx:38-45 | a toggle flips whether the toggled badge is in the list and leaves every other badge's membership unchanged |
| ManageEvents.ToggleTwiceRestores | src/pages/ManageEvents.tsx:41-43 | toggling an absent badge twice gives back the original list |
| ManageEvents.ToggleKeepsWellFormed | src/pages/ManageEvents.tsx:38-45 | a duplicate-free list stays duplicate-free, and a list drawn from the offered badges stays so when an offered badge is toggled |
| ManageEvents.OfferedValuesKept | src/pages/ManageEvents.tsx:139-163 | the initial form holds an offered category and offered, distinct badges; choosing a category from the select and toggling an offered badge keep it so |
| ManageEvents.DurationInput | src/pages/ManageEvents.tsx:134 | the stored duration is never 0 |
| ManageEvents.DurationOfNumeral | src/pages/ManageEvents.tsx:134 | a typed numeral is stored as its value, except 0, which is stored as 1 |
| ManageEvents.DurationOfNonNumber | src/pages/ManageEvents.tsx:134 | text that does not start with a sign or digit (after blanks) is stored as 1 |
| ManageEvents.NegativeDurationAccepted | src/pages/ManageEvents.tsx:132-134 | a negative numeral is stored as a negative duration, although the field's minimum is 1 |
| ManageEvents.SubmitDecision | src/pages/ManageEvents.tsx:47-73 | the chain ends in `Created` iff a day is picked, the user is read without error, a charity is registered under the user's email and the insert succeeds |
| ManageEvents.SubmitCreatesOnlyWhenReady | src/pages/ManageEvents.tsx:47-73 | an event is created iff a day is picked, a user is signed in, a charity is registered under the user's email and the insert succeeds; each missing step gives its own alert, checked in that order, and a failed insert gives the error alert |
| ManageEvents.ManageEventsPage.constructor | src/pages/ManageEvents.tsx:20-32 | the form starts with no day, the initial fields and `submitting` off |
| ManageEvents.ManageEventsPage.PickDate | src/pages/ManageEvents.tsx:101 | the calendar's selection replaces the day |
| ManageEvents.ManageEventsPage.ChooseCategory | src/pages/ManageEvents.tsx:139 | the select's value replaces the category and changes no other field |
| ManageEvents.ManageEventsPage.ClickBadge | src/pages/ManageEvents.tsx:159 | a badge button toggles that badge in the form and changes no other field |
| ManageEvents.ManageEventsPage.ChangeDuration | src/pages/ManageEvents.tsx:134 | the duration field stores its fallback-parsed value and changes no other field |
| ManageEvents.ManageEventsPage.Submit | src/pages/ManageEvents.tsx:47-73 | the outcome is the check chain's decision; only a success appends one row: the fields, the picked day and the charity's id; without a day `submitting` is untouched, otherwise it ends false |
| Common.FirstDayFrom | src/pages/VolunteerSummary.tsx:39-41 | the first day whose UTC midnight is at or after the instant: its midnight has not passed and the day before's has |
| Common.MidnightNotPassed | src/pages/CharityMicrosite.tsx:27-29 | `new Date(date) >= now` holds iff the day is the first day from `now` or later |
| Common.CurrentDayHasPassed | src/pages/CharityMicrosite.tsx:27-29 | except at exactly midnight, the current UTC day's midnight has passed, and the first day from `now` is the next one |
| VolunteerSummary.EventStatus | src/pages/VolunteerSummary.tsx:39-41 | an event is active iff its day's UTC midnight has not passed |
| VolunteerSummary.CurrentDayEventIsClosed | src/pages/VolunteerSummary.tsx:39-41 | except at exactly midnight, an event dated the current UTC day is closed and one dated the next day is active |
| VolunteerSummary.Percent | src/pages/VolunteerSummary.tsx:47-50 | 0 without capacity; otherwise r with r - 1/2 <= 100 * signups / max < r + 1/2, which is `Math.round` over exact rationals |
| VolunteerSummary.PercentIsRoundedRatio | src/pages/VolunteerSummary.tsx:47-50 | with capacity, any integer k with k - 1/2 <= 100 * signups / max < k + 1/2 is the percentage, so the rounding is unique |
| VolunteerSummary.PercentBounds | src/pages/VolunteerSummary.tsx:47-50 | within capacity the percentage is at most 100; a full event gives 100; no sign-ups give 0 |
| VolunteerSummary.PercentMonotone | src/pages/VolunteerSummary.tsx:49 | for a fixed capacity, more sign-ups never lower the percentage |
| VolunteerSummary.Summary | src/pages/VolunteerSummary.tsx:32-53 | one entry per event, in the same order, each built from its own event |
| VolunteerSummary.SummaryEntriesSpec | src/pages/VolunteerSummary.tsx:32-53 | each entry keeps its event's fields, is active iff the event's day's UTC midnight has not passed, counts at most all sign-up rows, and its percentage is 0 without capacity and at most 100 within it |
| VolunteerSummary.FetchSummary | src/pages/VolunteerSummary.tsx:13-56 | for a signed-in charity, every entry is about one of that charity's events and there are no more entries than events in the table |
| VolunteerSummary.FetchSummaryShowsOwnEvents | src/pages/VolunteerSummary.tsx:13-56 | after a fetch for a signed-in charity the entries' events are exactly the charity's events of the table, in table order: every entry is one of them, and each of them has an entry |
| CharityMicrosite.PartitionByDate | src/pages/CharityMicrosite.tsx:28-29 | an event is upcoming iff its day is the first day from now or later (its UTC midnight has not passed) and past iff earlier; both lists keep the fetched order, their lengths add up to the number of events, and together they hold every event once |
| CharityMicrosite.CurrentDayEventIsPast | src/pages/CharityMicrosite.tsx:27-29 | except at exactly midnight, an event dated the current UTC day is listed as past, not upcoming |
| CharityMicrosite.FetchEvents | src/pages/CharityMicrosite.tsx:20-33 | a failed query keeps the shown lists; otherwise the two lists together are no longer than the fetched rows |
| CharityMicrosite.FetchEventsSpec | src/pages/CharityMicrosite.tsx:20-33 | after a fetch the two lists hold exactly the charity's events, split by date, and "Active Events" plus the past count is the charity's number of events |
| CharityMicrosite.EventIds | src/pages/CharityMicrosite.tsx:43 | one id per event, in order, each the id of its event |
| CharityMicrosite.FetchVolunteers | src/pages/CharityMicrosite.tsx:35-57 | a failed event query keeps the shown count; otherwise the count is at most the number of sign-up rows fetched (0 when that query fails) |
| CharityMicrosite.FetchVolunteersSpec | src/pages/CharityMicrosite.tsx:35-57 | for a charity with events the count is the number of sign-up rows whose event is one of the charity's events; a row is counted iff so; the count never exceeds the number of sign-up rows |
| CharityMicrosite.NoEventsNoVolunteers | src/pages/CharityMicrosite.tsx:41-48 | a charity without events shows 0 volunteers; a failed event query leaves the shown count unchanged |
| CharityMicrosite.CountSignupsAppend | src/pages/CharityMicrosite.tsx:54-56 | the count over two batches of sign-up rows is the sum of their counts |
| CharityMicrosite.SameStudentCountsTwice | src/pages/CharityMicrosite.tsx:54-56 | rows are counted, not students: one student signed up for two of the charity's events counts twice |
| CharityMicrosite.CountIsSumOfEventCounts | src/pages/CharityMicrosite.tsx:54-56 | for distinct event ids the page's count equals the sum of the per-event counts of the sign-up summary |
| CharityMicrosite.EmbedsSpec | src/pages/CharityMicrosite.tsx:88-89 | every embed is keyed by the position of a non-empty URL, with that URL as source, in field order; every non-empty URL gets its embed |
| CharityMicrosite.InstagramEmbedsBounds | src/pages/CharityMicrosite.tsx:88-97 | a charity page shows at most three embeds, and none when no post URL is given |
| Volunteers.FindStudent | src/pages/Volunteers.tsx:52 | a student found has the sign-up's student id and is in the list; nothing is found only when no student has that id |
| Volunteers.FindStudentIsFirst | src/pages/Volunteers.tsx:52 | `find` answers iff some student has the id, and then answers the first such student |
| Volunteers.FindInRestriction | src/pages/Volunteers.tsx:44-52 | looking a student up among the rows fetched with `.in("id", studentIds)` gives the same answer as looking them up in the whole table, for every id the restriction keeps |
| Volunteers.RsvpFor | src/pages/Volunteers.tsx:51-60 | an RSVP carries its sign-up's ids, always has a name, and is confirmed iff positive hours are recorded |
| Volunteers.JoinRsvps | src/pages/Volunteers.tsx:51-60 | one RSVP per sign-up, in sign-up order, each the join of that sign-up against the students |
| Volunteers.RsvpForSpec | src/pages/Volunteers.tsx:51-60 | an RSVP carries its sign-up's ids; its name and email are those of the first student with the id, "Unknown" and "" when there is none or the field is empty; it is confirmed iff positive hours are recorded |
| Volunteers.RsvpsOfSpec | src/pages/Volunteers.tsx:36-60 | an event's list has one RSVP per sign-up of that event, in table order, each joined against the whole student table |
| Volunteers.BuildBoard | src/pages/Volunteers.tsx:34-66 | the loop yields one entry per event, in fetched order, each with its own event and that event's RSVPs |
| Volunteers.VolunteersPage.constructor | src/pages/Volunteers.tsx:8-9 | the page starts with no events and loading on |
| Volunteers.VolunteersPage.FetchRsvps | src/pages/Volunteers.tsx:12-70 | without a user or a charity under the user's email loading stays on and the list is kept; otherwise the list becomes the board of the charity's events and loading ends |
| Volunteers.ConfirmSignup | src/pages/Volunteers.tsx:77-80 | the table keeps its ids, and a present sign-up's confirmed hours become the duration |
| Volunteers.ConfirmSignupSpec | src/pages/Volunteers.tsx:77-80 | the sign-up's confirmed hours become the duration; its other fields and every other sign-up are unchanged; the table stays keyed by id |
| Volunteers.SetTotal | src/pages/Volunteers.tsx:91-94 | the table keeps its ids; a present student's total becomes the new total and nothing else of the row or of any other student changes |
| Volunteers.AccrueHours | src/pages/Volunteers.tsx:82-94 | when the read and the write work, the table keeps its ids and every other student is unchanged |
| Volunteers.AccrueHoursSpec | src/pages/Volunteers.tsx:82-94 | the student's total becomes the old total (0 when missing) plus the duration; every other student and field is unchanged; the table stays keyed by id |
| Volunteers.AccrueHoursTwice | src/pages/Volunteers.tsx:89 | two confirmations for the same student add both durations to the total read back |
| Volunteers.Confirmed | src/pages/Volunteers.tsx:75-98 | both tables keep their ids; a failed update leaves the sign-ups as they were, a failed write leaves the students as they were, and when all three calls work the tables are those of `ConfirmSignup` and `AccrueHours` |
| Volunteers.FailedReadLosesHours | src/pages/Volunteers.tsx:83-94 | when the read fails for a student who exists, the total is overwritten by the duration alone, losing exactly the hours accrued before |
| Volunteers.FailedUpdateAccruesTwice | src/pages/Volunteers.tsx:77-94 | when the sign-up's update fails the hours are still added and the checkbox stays enabled, so confirming the same sign-up again adds the duration twice |
| Volunteers.Store.ConfirmAttendance | src/pages/Volunteers.tsx:75-98 | the update of the sign-up, then the read and write of the total, each of which may fail without stopping the page, leave exactly the tables of `Confirmed`; when all three work, those of the two specification functions |
| Volunteers.ConfirmDisablesCheckbox | src/pages/Volunteers.tsx:124-127 | after a confirmation with a positive duration the sign-up's RSVP is confirmed and its checkbox is disabled; with a duration of 0 or less it stays unconfirmed and the checkbox stays enabled |

## Left out

- Hosted database and authentication (`src/lib/auth.ts` and every remote
  call). This is foreign code; its answers are parameters of the model.
- Rendering, hooks and routing (`src/App.tsx`, `src/pages/Index.tsx`, the JSX
  of every page). This is UI plumbing. The navigation after a successful
  submit is the `Created` outcome.
- `src/pages/CharityProfile.tsx`, `src/pages/Donations.tsx`,
  `src/pages/Marketplace.tsx` and `src/pages/Login.tsx`. They hold dummy data,
  unguarded float ratios and a simulated login timer, so there is no rule to
  model.
- Date parsing beyond date-only strings: the model takes a stored date as a
  day, read as UTC midnight, and the current instant as a number. A stored
  date with a time of day, or one `new Date` cannot parse (Invalid Date,
  which compares false both ways), is not modelled.
- VolunteerSummary.Percent: exact rational rounding. The page rounds a
  floating-point product.
- Profile.ProgressPercent: requires a non-zero total. From 50 hours on, the
  page divides by zero and hands NaN or Infinity to the progress bar; the
  model proves the total is 0 from 50 hours on (`ProgressAtTop`,
  `ProgressPercentDefinedBelowTop`) rather than modelling NaN.
- Text.ParseInt: exact integers. The page loses precision beyond 2^53, and
  `-0` is taken as 0.
- Text.Lower: lower-cases ASCII letters only. The page lower-cases all
  Unicode letters.
- PosterBoard.Lookup: keys are plain map keys. In the page, keys inherited
  from JavaScript's object prototype (for example "constructor") would find a
  truthy value.
- Concurrency is not modelled: the parallel per-event queries of the summary,
  the non-atomic read-then-write of a student's total, and two volunteers
  taking the last place. The backend is responsible for those.
- The page reload after confirming attendance is browser behaviour. The
  model stops at the new table state.
- A missing `count` from the backend in the summary: the model always counts
  rows.
- A failed sign-up or student query inside the volunteers loop, which makes
  the page throw on `null`: the model's tables always answer.
- `handleChange` in the event form copies raw input text into the form, so
  `max_volunteers` can become a string. This is input plumbing; the model
  keeps typed fields.
- Several charities under one email, which makes `.single()` fail: the model
  maps each email to at most one charity.
- Loading the charity record on the microsite (`fetchCharity`) is a remote
  call. The record decides whether "Loading..." is shown and supplies the
  name, bio and location shown as text, and the three Instagram fields; the
  model takes it as the `CharityRow` parameter of `InstagramEmbeds`.
