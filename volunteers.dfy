/** The charity's volunteer list: for each of its events the sign-ups joined
    to the students who made them, and the attendance confirmation that
    stores the event's duration on the sign-up and adds it to the student's
    total hours. */
module Volunteers {
  import opened Common
  import Seqs

  /** A `students` row as this page reads it; absent columns are `None`. */
  datatype Student = Student(id: Id, name: Option<string>, email: Option<string>, totalHours: Option<int>)

  /** One line of an event's list: who signed up, and whether attendance
      is already confirmed. */
  datatype Rsvp = Rsvp(signupId: Id, studentId: Id, studentName: string, studentEmail: string, confirmed: bool)

  // ---------------------------------------------------------------------
  // RSVP join

  /** `studentsData.find(s => s.id === studentId)` */
  function FindStudent(students: seq<Student>, studentId: Id): (r: Option<Student>)
    ensures r.Some? ==> r.value in students && r.value.id == studentId
    ensures r.None? ==> forall i :: 0 <= i < |students| ==> students[i].id != studentId
    decreases |students|
  {
    if students == [] then None
    else if students[0].id == studentId then Some(students[0])
    else FindStudent(students[1..], studentId)
  }

  /** `students[i]` is the first student with the id. */
  predicate IsFirstWithId(students: seq<Student>, studentId: Id, i: int)
  {
    0 <= i < |students| && students[i].id == studentId && forall j :: 0 <= j < i ==> students[j].id != studentId
  }

  /** `find` answers the first student with the id, and only when there is one. */
  lemma {:induction false} FindStudentIsFirst(students: seq<Student>, studentId: Id)
    ensures FindStudent(students, studentId).Some? <==> exists i :: 0 <= i < |students| && students[i].id == studentId
    ensures forall i :: IsFirstWithId(students, studentId, i) ==> FindStudent(students, studentId) == Some(students[i])
    decreases |students|
  {
    if students != [] && students[0].id != studentId {
      FindStudentIsFirst(students[1..], studentId);
      forall i | IsFirstWithId(students, studentId, i)
        ensures FindStudent(students, studentId) == Some(students[i])
      {
        assert students[1..][i - 1] == students[i];
      }
      if exists i :: 0 <= i < |students| && students[i].id == studentId {
        var i :| 0 <= i < |students| && students[i].id == studentId;
        assert students[1..][i - 1].id == studentId;
      }
    }
  }

  /** Restricting the table to some rows (`.in("id", studentIds)`) finds the
      same student for every id whose rows the restriction keeps. */
  lemma {:induction false} FindInRestriction(students: seq<Student>, keep: Student -> bool, studentId: Id)
    requires forall st: Student :: st.id == studentId ==> keep(st)
    ensures FindStudent(Seqs.Filter(students, keep), studentId) == FindStudent(students, studentId)
    decreases |students|
  {
    if students != [] {
      FindInRestriction(students[1..], keep, studentId);
    }
  }

  /** `hours_confirmed > 0`; a missing value compares as 0. */
  predicate IsConfirmed(hoursConfirmed: Option<int>)
  {
    hoursConfirmed.Some? && hoursConfirmed.value > 0
  }

  function NameOf(st: Option<Student>): Option<string>
  {
    if st.None? then None else st.value.name
  }

  function EmailOf(st: Option<Student>): Option<string>
  {
    if st.None? then None else st.value.email
  }

  /** The RSVP built for one sign-up. */
  function RsvpFor(signup: SignupRow, students: seq<Student>): (r: Rsvp)
    ensures r.signupId == signup.id && r.studentId == signup.studentId
    ensures r.studentName != ""
    ensures r.confirmed <==> signup.hoursConfirmed.Some? && signup.hoursConfirmed.value > 0
  {
    var st := FindStudent(students, signup.studentId);
    Rsvp(signup.id, signup.studentId, StringOr(NameOf(st), "Unknown"), StringOr(EmailOf(st), ""),
         IsConfirmed(signup.hoursConfirmed))
  }

  /** `signups.map(signup => ...)`: one RSVP per sign-up, in order. */
  function JoinRsvps(signups: seq<SignupRow>, students: seq<Student>): (r: seq<Rsvp>)
    ensures |r| == |signups|
    ensures forall i :: 0 <= i < |signups| ==> r[i] == RsvpFor(signups[i], students)
  {
    seq(|signups|, i requires 0 <= i < |signups| => RsvpFor(signups[i], students))
  }

  /** Each RSVP carries its sign-up's ids; the name and email are those of
      the first student with the sign-up's student id, "Unknown" and "" when
      there is none or the field is empty; it is confirmed iff positive hours
      are recorded. */
  lemma RsvpForSpec(signup: SignupRow, students: seq<Student>)
    ensures var r := RsvpFor(signup, students);
      r.signupId == signup.id && r.studentId == signup.studentId
      && (r.confirmed <==> signup.hoursConfirmed.Some? && signup.hoursConfirmed.value > 0)
      && ((forall i :: 0 <= i < |students| ==> students[i].id != signup.studentId) ==>
            r.studentName == "Unknown" && r.studentEmail == "")
      && (forall i :: IsFirstWithId(students, signup.studentId, i) ==>
            r.studentName == StringOr(students[i].name, "Unknown") && r.studentEmail == StringOr(students[i].email, ""))
  {
    FindStudentIsFirst(students, signup.studentId);
  }

  /** An event with its RSVP list. */
  datatype EventWithRsvps = EventWithRsvps(event: EventRow, rsvps: seq<Rsvp>)

  function StudentIds(signups: seq<SignupRow>): (ids: seq<Id>)
    ensures |ids| == |signups|
    ensures forall i :: 0 <= i < |signups| ==> ids[i] == signups[i].studentId
  {
    seq(|signups|, i requires 0 <= i < |signups| => signups[i].studentId)
  }

  /** The sign-ups of one event (`.eq("event_id", ...)`). */
  function SignupsOf(eventId: Id, signupTable: seq<SignupRow>): seq<SignupRow>
  {
    Seqs.Filter(signupTable, (s: SignupRow) => s.eventId == eventId)
  }

  /** One pass of the loop body: the event's sign-ups, the students among
      their ids (`.in("id", studentIds)`), and the join. */
  function RsvpsOf(eventId: Id, signupTable: seq<SignupRow>, studentTable: seq<Student>): seq<Rsvp>
  {
    var signups := SignupsOf(eventId, signupTable);
    var ids := StudentIds(signups);
    JoinRsvps(signups, Seqs.Filter(studentTable, (st: Student) => st.id in ids))
  }

  /** An event's list has one RSVP per sign-up of that event, in table order,
      and each is joined against the whole student table. */
  lemma RsvpsOfSpec(eventId: Id, signupTable: seq<SignupRow>, studentTable: seq<Student>)
    ensures var signups := SignupsOf(eventId, signupTable);
      var r := RsvpsOf(eventId, signupTable, studentTable);
      |r| == |signups|
      && Seqs.IsSubsequence(signups, signupTable)
      && (forall k :: 0 <= k < |signups| ==> signups[k].eventId == eventId)
      && (forall k :: 0 <= k < |r| ==> r[k] == RsvpFor(signups[k], studentTable))
  {
    var signups := SignupsOf(eventId, signupTable);
    var ids := StudentIds(signups);
    var keep := (st: Student) => st.id in ids;
    Seqs.FilterIsSubsequence(signupTable, (s: SignupRow) => s.eventId == eventId);
    forall k | 0 <= k < |signups| ensures RsvpFor(signups[k], Seqs.Filter(studentTable, keep)) == RsvpFor(signups[k], studentTable) {
      assert ids[k] == signups[k].studentId;
      FindInRestriction(studentTable, keep, signups[k].studentId);
    }
  }

  /** The board the loop builds: each event with its RSVPs, in fetched order. */
  function Board(events: seq<EventRow>, signupTable: seq<SignupRow>, studentTable: seq<Student>): seq<EventWithRsvps>
  {
    seq(|events|, i requires 0 <= i < |events| => EventWithRsvps(events[i], RsvpsOf(events[i].id, signupTable, studentTable)))
  }

  /** The `for (const event of eventsData || [])` loop pushing one entry per
      event into `eventsWithRSVPs`. */
  method BuildBoard(events: seq<EventRow>, signupTable: seq<SignupRow>, studentTable: seq<Student>)
    returns (board: seq<EventWithRsvps>)
    ensures board == Board(events, signupTable, studentTable)
    ensures |board| == |events|
    ensures forall i :: 0 <= i < |events| ==>
      board[i].event == events[i] && board[i].rsvps == RsvpsOf(events[i].id, signupTable, studentTable)
  {
    board := [];
    for i := 0 to |events|
      invariant |board| == i
      invariant forall j :: 0 <= j < i ==>
        board[j].event == events[j] && board[j].rsvps == RsvpsOf(events[j].id, signupTable, studentTable)
    {
      var rsvps := RsvpsOf(events[i].id, signupTable, studentTable);
      board := board + [EventWithRsvps(events[i], rsvps)];
    }
  }

  /** The page's state: the listed events and the loading flag. */
  class VolunteersPage {
    var events: seq<EventWithRsvps>
    var loading: bool

    constructor()
      ensures events == [] && loading
    {
      events := [];
      loading := true;
    }

    /** `fetchRSVPs`: loading is switched on; without a signed-in user or a
        charity under the user's email it stays on and the list is kept;
        otherwise the board of the charity's events replaces it and loading
        ends. */
    method FetchRsvps(user: Option<User>, charities: map<string, Id>, eventTable: seq<EventRow>,
                      signupTable: seq<SignupRow>, studentTable: seq<Student>)
      modifies this
      ensures user.None? || user.value.email !in charities ==> events == old(events) && loading
      ensures user.Some? && user.value.email in charities ==>
        events == Board(Seqs.Filter(eventTable, (e: EventRow) => e.charityId == charities[user.value.email]),
                        signupTable, studentTable)
        && !loading
    {
      loading := true;
      if user.None? {
        return;
      }
      if user.value.email !in charities {
        return;
      }
      var cid := charities[user.value.email];
      var own := Seqs.Filter(eventTable, (e: EventRow) => e.charityId == cid);
      var board := BuildBoard(own, signupTable, studentTable);
      events := board;
      loading := false;
    }
  }

  /** The checkbox: checked and disabled once attendance is confirmed. */
  predicate CheckboxEnabled(r: Rsvp)
  {
    !r.confirmed
  }

  // ---------------------------------------------------------------------
  // Attendance confirmation

  /** Tables keyed by their primary key. */
  predicate SignupsKeyed(signups: map<Id, SignupRow>)
  {
    forall k :: k in signups ==> signups[k].id == k
  }

  predicate StudentsKeyed(students: map<Id, Student>)
  {
    forall k :: k in students ==> students[k].id == k
  }

  /** Step 1: `update({ hours_confirmed: eventDuration }).eq("id", signupId)`;
      no row matches an unknown id. */
  function ConfirmSignup(signups: map<Id, SignupRow>, signupId: Id, duration: int): (r: map<Id, SignupRow>)
    ensures r.Keys == signups.Keys
    ensures signupId in signups ==> r[signupId].hoursConfirmed == Some(duration)
  {
    if signupId in signups then signups[signupId := signups[signupId].(hoursConfirmed := Some(duration))]
    else signups
  }

  /** `(student?.total_hours || 0)` after a read that works: the total read
      back, 0 when the student or the total is missing. */
  function TotalRead(students: map<Id, Student>, studentId: Id): int
  {
    NumberOr(if studentId in students then students[studentId].totalHours else None, 0)
  }

  /** `newTotal`: the page ignores the read's error, so a failed read leaves
      `student` null and the new total is the duration alone. */
  function NewTotal(students: map<Id, Student>, studentId: Id, duration: int, readFails: bool): int
  {
    (if readFails then 0 else TotalRead(students, studentId)) + duration
  }

  /** Step 3: `update({ total_hours: total }).eq("id", studentId)`; no row
      matches an unknown id. */
  function SetTotal(students: map<Id, Student>, studentId: Id, total: int): (r: map<Id, Student>)
    ensures r.Keys == students.Keys
    ensures studentId in students ==> r[studentId] == students[studentId].(totalHours := Some(total))
    ensures forall k :: k in students && k != studentId ==> r[k] == students[k]
  {
    if studentId in students then students[studentId := students[studentId].(totalHours := Some(total))]
    else students
  }

  /** Steps 2 and 3 when both calls work: read the student's total, write
      back the total plus the duration. */
  function AccrueHours(students: map<Id, Student>, studentId: Id, duration: int): (r: map<Id, Student>)
    ensures r.Keys == students.Keys
    ensures forall k :: k in students && k != studentId ==> r[k] == students[k]
  {
    SetTotal(students, studentId, NewTotal(students, studentId, duration, false))
  }

  /** The sign-up gets the duration as its confirmed hours, all its other
      fields and every other sign-up stay as they were, and the table stays
      keyed by id. */
  lemma ConfirmSignupSpec(signups: map<Id, SignupRow>, signupId: Id, duration: int)
    ensures var r := ConfirmSignup(signups, signupId, duration);
      r.Keys == signups.Keys
      && (signupId in signups ==> r[signupId] == signups[signupId].(hoursConfirmed := Some(duration)))
      && (forall k :: k in signups && k != signupId ==> r[k] == signups[k])
      && (SignupsKeyed(signups) ==> SignupsKeyed(r))
  {
  }

  /** The student's total becomes the old total (0 when missing) plus the
      duration; every other student and every other field is unchanged, and
      the table stays keyed by id. */
  lemma AccrueHoursSpec(students: map<Id, Student>, studentId: Id, duration: int)
    ensures var r := AccrueHours(students, studentId, duration);
      r.Keys == students.Keys
      && (studentId in students ==>
            r[studentId].totalHours == Some(
              (if students[studentId].totalHours.Some? then students[studentId].totalHours.value else 0) + duration)
            && r[studentId].(totalHours := students[studentId].totalHours) == students[studentId])
      && (forall k :: k in students && k != studentId ==> r[k] == students[k])
      && (StudentsKeyed(students) ==> StudentsKeyed(r))
  {
  }

  /** Two confirmations for the same student add both durations. */
  lemma AccrueHoursTwice(students: map<Id, Student>, studentId: Id, d1: int, d2: int)
    requires studentId in students
    ensures TotalRead(AccrueHours(AccrueHours(students, studentId, d1), studentId, d2), studentId)
      == TotalRead(students, studentId) + d1 + d2
  {
  }

  /** Both tables the confirmation writes to, as values. */
  datatype Tables = Tables(signups: map<Id, SignupRow>, students: map<Id, Student>)

  /** `handleConfirmAttendance` on the tables. The page ignores the error of
      each of its three calls: a failed update of the sign-up changes
      nothing but the hours are still added, a failed read counts the old
      total as 0, and a failed write of the total changes nothing. */
  function Confirmed(t: Tables, signupId: Id, studentId: Id, duration: int,
                     updateFails: bool, readFails: bool, writeFails: bool): (r: Tables)
    ensures r.signups.Keys == t.signups.Keys && r.students.Keys == t.students.Keys
    ensures updateFails ==> r.signups == t.signups
    ensures writeFails ==> r.students == t.students
    ensures !updateFails && !readFails && !writeFails ==>
      r == Tables(ConfirmSignup(t.signups, signupId, duration), AccrueHours(t.students, studentId, duration))
  {
    Tables(if updateFails then t.signups else ConfirmSignup(t.signups, signupId, duration),
           if writeFails then t.students else SetTotal(t.students, studentId, NewTotal(t.students, studentId, duration, readFails)))
  }

  /** A failed read of a student who exists replaces the student's total by
      the duration alone: exactly the hours accrued before are lost. */
  lemma FailedReadLosesHours(t: Tables, signupId: Id, studentId: Id, duration: int, updateFails: bool)
    requires studentId in t.students
    ensures var r := Confirmed(t, signupId, studentId, duration, updateFails, true, false);
      TotalRead(r.students, studentId) == duration
      && TotalRead(AccrueHours(t.students, studentId, duration), studentId) - TotalRead(r.students, studentId)
         == TotalRead(t.students, studentId)
  {
  }

  /** A failed update of the sign-up still adds the hours but leaves the
      sign-up unconfirmed, so its checkbox stays enabled and a second
      confirmation of the same sign-up adds the hours again. */
  lemma FailedUpdateAccruesTwice(t: Tables, signupId: Id, studentId: Id, duration: int, students: seq<Student>)
    requires signupId in t.signups && studentId in t.students
    requires CheckboxEnabled(RsvpFor(t.signups[signupId], students))
    ensures var t1 := Confirmed(t, signupId, studentId, duration, true, false, false);
      CheckboxEnabled(RsvpFor(t1.signups[signupId], students))
      && TotalRead(Confirmed(t1, signupId, studentId, duration, false, false, false).students, studentId)
         == TotalRead(t.students, studentId) + 2 * duration
  {
    var t1 := Confirmed(t, signupId, studentId, duration, true, false, false);
    AccrueHoursTwice(t.students, studentId, duration, duration);
    assert t1.students == AccrueHours(t.students, studentId, duration);
  }

  /** The hosted tables the confirmation writes to. */
  class Store {
    var signups: map<Id, SignupRow>
    var students: map<Id, Student>

    constructor(signups: map<Id, SignupRow>, students: map<Id, Student>)
      ensures this.signups == signups && this.students == students
    {
      this.signups := signups;
      this.students := students;
    }

    /** `handleConfirmAttendance`: update the sign-up, read the student's
        total, write the new total. Each call may fail, and the page goes on
        regardless. */
    method ConfirmAttendance(signupId: Id, studentId: Id, eventDuration: int,
                             updateFails: bool, readFails: bool, writeFails: bool)
      modifies this
      ensures Tables(signups, students)
        == Confirmed(Tables(old(signups), old(students)), signupId, studentId, eventDuration,
                     updateFails, readFails, writeFails)
      ensures !updateFails && !readFails && !writeFails ==>
        signups == ConfirmSignup(old(signups), signupId, eventDuration)
        && students == AccrueHours(old(students), studentId, eventDuration)
    {
      if !updateFails && signupId in signups {
        signups := signups[signupId := signups[signupId].(hoursConfirmed := Some(eventDuration))];
      }
      var total: Option<int> := None;
      if !readFails && studentId in students {
        total := students[studentId].totalHours;
      }
      var newTotal := NumberOr(total, 0) + eventDuration;
      if !writeFails && studentId in students {
        students := students[studentId := students[studentId].(totalHours := Some(newTotal))];
      }
    }
  }

  /** After a confirmation with a positive duration the rebuilt RSVP is
      confirmed, so its checkbox is disabled and the same sign-up cannot
      accrue hours again; with a duration of 0 or less it stays unconfirmed
      and the checkbox stays enabled. */
  lemma ConfirmDisablesCheckbox(signups: map<Id, SignupRow>, signupId: Id, duration: int, students: seq<Student>)
    requires signupId in signups
    ensures var row := ConfirmSignup(signups, signupId, duration)[signupId];
      (duration > 0 ==> RsvpFor(row, students).confirmed && !CheckboxEnabled(RsvpFor(row, students)))
      && (duration <= 0 ==> CheckboxEnabled(RsvpFor(row, students)))
  {
  }
}
