/** The invigilator's view of one room: the seating grid (students ordered by
    seat label and cut into rows of six), the attendance and malpractice
    updates with the summary counters they refresh, and the list of the
    invigilator's next duties. */
module InvigilatorDashboard {
  import opened Wrappers
  import opened Strings
  import opened Sequences
  import opened Records

  datatype Malpractice = Malpractice(reported: bool, description: string)

  datatype Attendance = Attendance(status: string, malpractice: Option<Malpractice>)

  /** One entry of the room's student list as the backend sends it. */
  datatype RoomStudent = RoomStudent(student: Student, seatNumber: string, attendance: Attendance)

  datatype Summary = Summary(totalStudents: int, presentCount: int, absentCount: int, malpracticeCount: int)

  /** The loaded room: its exam, the room, the students and the counters. */
  datatype DashboardData = DashboardData(examInfo: Exam, roomInfo: Room, students: seq<RoomStudent>, summary: Summary)

  // ---------------------------------------------------------------------
  // Seating order

  /** `seatNumber.match(/[A-Za-z]+/)[0]` and `parseInt(seatNumber.match(/\d+/)[0])`:
      the first run of letters and the value of the first run of digits, or
      None when either match is null (the comparator then throws). */
  function SeatKey(seatNumber: string): (k: Option<(string, nat)>)
    ensures k.Some? ==> k.value.0 != []
  {
    var fromLetter := FromFirst(seatNumber, IsLetter);
    var fromDigit := FromFirst(seatNumber, IsDigit);
    if fromLetter == [] || fromDigit == [] then None
    else Some((LeadingLetters(fromLetter), DigitsValue(LeadingDigits(fromDigit))))
  }

  /** A label has a key exactly when it holds a letter and a digit somewhere. */
  lemma SeatKeyDefined(seatNumber: string)
    ensures SeatKey(seatNumber).Some? <==>
      (exists i :: 0 <= i < |seatNumber| && IsLetter(seatNumber[i])) &&
      (exists j :: 0 <= j < |seatNumber| && IsDigit(seatNumber[j]))
  {
    var fromLetter := FromFirst(seatNumber, IsLetter);
    var fromDigit := FromFirst(seatNumber, IsDigit);
    if fromLetter != [] {
      assert fromLetter[0] == seatNumber[|seatNumber| - |fromLetter|];
    }
    if fromDigit != [] {
      assert fromDigit[0] == seatNumber[|seatNumber| - |fromDigit|];
    }
  }

  predicate Keyed(s: RoomStudent)
  {
    SeatKey(s.seatNumber).Some?
  }

  predicate AllKeyed(students: seq<RoomStudent>)
  {
    forall i :: 0 <= i < |students| ==> Keyed(students[i])
  }

  /** Letters first (localeCompare), then bench number. */
  predicate KeyLe(a: (string, nat), b: (string, nat))
  {
    if a.0 != b.0 then LexLe(a.0, b.0) else a.1 <= b.1
  }

  lemma KeyLeTotal(a: (string, nat), b: (string, nat))
    ensures KeyLe(a, b) || KeyLe(b, a)
  {
    LexLeTotal(a.0, b.0);
  }

  lemma KeyLeTransitive(a: (string, nat), b: (string, nat), c: (string, nat))
    requires KeyLe(a, b) && KeyLe(b, c)
    ensures KeyLe(a, c)
  {
    if a.0 != b.0 && b.0 != c.0 {
      LexLeTransitive(a.0, b.0, c.0);
      if a.0 == c.0 {
        LexLeAntisymmetric(a.0, b.0);
        assert false;
      }
    }
  }

  /** The seating comparator as "compare(a, b) <= 0". Entries without a key
      never reach a comparison that returns. */
  predicate SeatKeyLe(a: RoomStudent, b: RoomStudent)
  {
    var ka, kb := SeatKey(a.seatNumber), SeatKey(b.seatNumber);
    ka.Some? && kb.Some? ==> KeyLe(ka.value, kb.value)
  }

  /** On keyed entries the comparator is a total preorder. */
  lemma SeatKeyLePreorder(students: seq<RoomStudent>)
    requires AllKeyed(students)
    ensures PreorderOn(SeatKeyLe, students)
  {
    forall x, y | x in students && y in students ensures SeatKeyLe(x, y) || SeatKeyLe(y, x) {
      SeatKeyLeTotal(x, y);
    }
    forall x, y, z | x in students && y in students && z in students && SeatKeyLe(x, y) && SeatKeyLe(y, z)
      ensures SeatKeyLe(x, z)
    {
      SeatKeyLeTransitive(x, y, z);
    }
  }

  lemma SeatKeyLeTotal(x: RoomStudent, y: RoomStudent)
    requires Keyed(x) && Keyed(y)
    ensures SeatKeyLe(x, y) || SeatKeyLe(y, x)
  {
    KeyLeTotal(SeatKey(x.seatNumber).value, SeatKey(y.seatNumber).value);
  }

  lemma SeatKeyLeTransitive(x: RoomStudent, y: RoomStudent, z: RoomStudent)
    requires Keyed(x) && Keyed(y) && Keyed(z)
    requires SeatKeyLe(x, y) && SeatKeyLe(y, z)
    ensures SeatKeyLe(x, z)
  {
    KeyLeTransitive(SeatKey(x.seatNumber).value, SeatKey(y.seatNumber).value, SeatKey(z.seatNumber).value);
  }

  /** The sorted seating list is a permutation of the room's students in
      ascending (letter, bench) order. */
  lemma {:induction false} SeatingOrder(students: seq<RoomStudent>)
    requires AllKeyed(students)
    ensures multiset(SortBy(students, SeatKeyLe)) == multiset(students)
    ensures var r := SortBy(students, SeatKeyLe);
      forall i, j :: 0 <= i < j < |r| ==> SeatKeyLe(r[i], r[j])
  {
    SeatKeyLePreorder(students);
    SortBySorted(students, SeatKeyLe);
  }

  /** Labels written by the seat allocator ("A1", "B1", "A2", ...) always
      have a key: their side letter and their bench number. */
  lemma SeatKeyOfLabel(side: char, bench: nat)
    requires IsLetter(side)
    ensures SeatKey([side] + NatToString(bench)) == Some(([side], bench))
  {
    var digits := NatToString(bench);
    var s := [side] + digits;
    assert s[1..] == digits;
    assert IsDigit(digits[0]) && !IsLetter(digits[0]);
    assert FromFirst(s, IsLetter) == s;
    assert FromFirst(digits, IsDigit) == digits;
    assert FromFirst(s, IsDigit) == digits;
    assert LeadingLetters(digits) == [];
    assert LeadingLetters(s) == [side];
    LeadingAllDigits(digits);
    DigitsValueOfNatToString(bench);
  }

  // ---------------------------------------------------------------------
  // Rows of the grid

  const MaxSeatsPerRow: nat := 6

  /** The loop that cuts the sorted list into rows: `rows.push(sorted.slice(i,
      i + 6))` for i = 0, 6, 12, ... Every row has one to six seats, only the
      last can be short, and the rows read back as the sorted list. */
  method ChunkRows<T>(sortedStudents: seq<T>) returns (rows: seq<seq<T>>)
    ensures Flatten(rows) == sortedStudents
    ensures |rows| == (|sortedStudents| + MaxSeatsPerRow - 1) / MaxSeatsPerRow
    ensures forall k :: 0 <= k < |rows| ==> 0 < |rows[k]| <= MaxSeatsPerRow
    ensures forall k :: 0 <= k < |rows| - 1 ==> |rows[k]| == MaxSeatsPerRow
  {
    rows := [];
    var i := 0;
    while i < |sortedStudents|
      invariant 0 <= i <= |sortedStudents|
      invariant i < |sortedStudents| ==> i == MaxSeatsPerRow * |rows|
      invariant |rows| == (i + MaxSeatsPerRow - 1) / MaxSeatsPerRow
      invariant Flatten(rows) == sortedStudents[..i]
      invariant forall k :: 0 <= k < |rows| ==> 0 < |rows[k]| <= MaxSeatsPerRow
      invariant forall k :: 0 <= k < |rows| - 1 ==> |rows[k]| == MaxSeatsPerRow
      invariant i < |sortedStudents| ==> forall k :: 0 <= k < |rows| ==> |rows[k]| == MaxSeatsPerRow
    {
      var end := if i + MaxSeatsPerRow <= |sortedStudents| then i + MaxSeatsPerRow else |sortedStudents|;
      var row := sortedStudents[i..end];
      assert (rows + [row])[..|rows|] == rows;
      assert sortedStudents[..end] == sortedStudents[..i] + row;
      rows := rows + [row];
      i := end;
    }
    assert sortedStudents[..i] == sortedStudents;
  }

  /** What renderSeatingArrangement shows. */
  datatype Seating = NoSeating | SortFailed | Grid(rows: seq<seq<RoomStudent>>)

  /** Nothing without data or students; a comparator error when two or more
      students are listed and some seat label lacks a letter or a digit
      (every element meets the comparator once a list has two); otherwise the
      sorted students in rows. */
  method RenderSeatingArrangement(data: Option<DashboardData>) returns (view: Seating)
    ensures view == NoSeating <==> data.None? || data.value.students == []
    ensures view == SortFailed <==>
      data.Some? && |data.value.students| >= 2 && !AllKeyed(data.value.students)
    ensures view.Grid? ==>
      && data.Some?
      && Flatten(view.rows) == SortBy(data.value.students, SeatKeyLe)
      && (forall k :: 0 <= k < |view.rows| ==> 0 < |view.rows[k]| <= MaxSeatsPerRow)
      && (forall k :: 0 <= k < |view.rows| - 1 ==> |view.rows[k]| == MaxSeatsPerRow)
  {
    if data.None? || data.value.students == [] {
      return NoSeating;
    }
    var students := data.value.students;
    if |students| >= 2 && !AllKeyed(students) {
      return SortFailed;
    }
    var sortedStudents := SortBy(students, SeatKeyLe);
    var rows := ChunkRows(sortedStudents);
    return Grid(rows);
  }

  // ---------------------------------------------------------------------
  // Attendance

  function Mark(s: RoomStudent, studentId: string, status: string): RoomStudent
  {
    if s.student.id == studentId then s.(attendance := s.attendance.(status := status)) else s
  }

  /** `students.map(...)` setting the status of the student with that id. */
  function MarkStatus(students: seq<RoomStudent>, studentId: string, status: string): (r: seq<RoomStudent>)
    ensures |r| == |students|
    ensures forall i :: 0 <= i < |r| ==>
      && r[i].student == students[i].student
      && r[i].seatNumber == students[i].seatNumber
      && r[i].attendance.malpractice == students[i].attendance.malpractice
      && r[i].attendance.status == (if students[i].student.id == studentId then status else students[i].attendance.status)
  {
    if students == [] then [] else [Mark(students[0], studentId, status)] + MarkStatus(students[1..], studentId, status)
  }

  /** The status a student has once the saved one is substituted. */
  predicate HasStatusAfter(s: RoomStudent, studentId: string, status: string, wanted: string)
  {
    if s.student.id == studentId then status == wanted else s.attendance.status == wanted
  }

  predicate HasStatus(s: RoomStudent, wanted: string)
  {
    s.attendance.status == wanted
  }

  /** The recount over the old list with the new status substituted equals
      the count over the updated list. */
  lemma {:induction false} RecountIsCountOfUpdated(students: seq<RoomStudent>, studentId: string, status: string, wanted: string)
    ensures Count(students, s => HasStatusAfter(s, studentId, status, wanted)) ==
            Count(MarkStatus(students, studentId, status), s => HasStatus(s, wanted))
  {
    if students != [] {
      RecountIsCountOfUpdated(students[1..], studentId, status, wanted);
      assert MarkStatus(students, studentId, status)[1..] == MarkStatus(students[1..], studentId, status);
    }
  }

  /** Present and absent are exclusive, so the two counters never exceed the
      number of students. */
  lemma {:induction false} PresentAndAbsentBounded(students: seq<RoomStudent>)
    ensures Count(students, s => HasStatus(s, "present")) + Count(students, s => HasStatus(s, "absent")) <= |students|
  {
    if students != [] {
      PresentAndAbsentBounded(students[1..]);
      assert !(HasStatus(students[0], "present") && HasStatus(students[0], "absent"));
    }
  }

  /** saveAttendance: nothing without data or when the request fails
      (`posted` is its outcome); otherwise the student's status is set, the
      two counters are recounted and the pending change is dropped. */
  function SaveAttendance(data: Option<DashboardData>, pending: map<string, string>, studentId: string, status: string, posted: bool): (r: (Option<DashboardData>, map<string, string>))
    ensures data.None? || !posted ==> r == (data, pending)
    ensures data.Some? && posted ==>
      && r.0.Some?
      && r.0.value.examInfo == data.value.examInfo
      && r.0.value.roomInfo == data.value.roomInfo
      && r.0.value.students == MarkStatus(data.value.students, studentId, status)
      && r.0.value.summary.totalStudents == data.value.summary.totalStudents
      && r.0.value.summary.malpracticeCount == data.value.summary.malpracticeCount
      && r.0.value.summary.presentCount == Count(r.0.value.students, s => HasStatus(s, "present"))
      && r.0.value.summary.absentCount == Count(r.0.value.students, s => HasStatus(s, "absent"))
      && r.1 == pending - {studentId}
  {
    if data.None? || !posted then (data, pending)
    else
      var prev := data.value;
      RecountIsCountOfUpdated(prev.students, studentId, status, "present");
      RecountIsCountOfUpdated(prev.students, studentId, status, "absent");
      var summary := prev.summary.(
        presentCount := Count(prev.students, s => HasStatusAfter(s, studentId, status, "present")),
        absentCount := Count(prev.students, s => HasStatusAfter(s, studentId, status, "absent")));
      (Some(prev.(students := MarkStatus(prev.students, studentId, status), summary := summary)), pending - {studentId})
  }

  /** After a save the counters respect the number of students. */
  lemma SavedCountersBounded(data: DashboardData, pending: map<string, string>, studentId: string, status: string)
    ensures var r := SaveAttendance(Some(data), pending, studentId, status, true).0.value;
      r.summary.presentCount + r.summary.absentCount <= |data.students|
  {
    PresentAndAbsentBounded(MarkStatus(data.students, studentId, status));
  }

  // ---------------------------------------------------------------------
  // Malpractice

  function Flag(s: RoomStudent, studentId: string, description: string): RoomStudent
  {
    if s.student.id == studentId then s.(attendance := s.attendance.(malpractice := Some(Malpractice(true, description)))) else s
  }

  /** `students.map(...)` marking the reported student. */
  function MarkMalpractice(students: seq<RoomStudent>, studentId: string, description: string): (r: seq<RoomStudent>)
    ensures |r| == |students|
    ensures forall i :: 0 <= i < |r| ==>
      && r[i].student == students[i].student
      && r[i].seatNumber == students[i].seatNumber
      && r[i].attendance.status == students[i].attendance.status
      && r[i].attendance.malpractice ==
           (if students[i].student.id == studentId then Some(Malpractice(true, description)) else students[i].attendance.malpractice)
  {
    if students == [] then [] else [Flag(students[0], studentId, description)] + MarkMalpractice(students[1..], studentId, description)
  }

  datatype ReportOutcome = MissingDescription | ReportFailed | Reported(data: DashboardData)

  /** handleMalpracticeReport: refused without a selected student or with a
      description that trims to nothing; otherwise, once the request succeeds,
      the student is flagged with the description as typed and the counter
      goes up by one. */
  function ReportMalpractice(data: DashboardData, selected: Option<Student>, description: string, posted: bool): (r: ReportOutcome)
    ensures r == MissingDescription <==> selected.None? || Trim(description) == []
    ensures r == ReportFailed <==> selected.Some? && Trim(description) != [] && !posted
    ensures r.Reported? ==>
      && r.data.examInfo == data.examInfo
      && r.data.roomInfo == data.roomInfo
      && r.data.students == MarkMalpractice(data.students, selected.value.id, description)
      && r.data.summary == data.summary.(malpracticeCount := data.summary.malpracticeCount + 1)
  {
    if selected.None? || Trim(description) == [] then MissingDescription
    else if !posted then ReportFailed
    else Reported(data.(
      students := MarkMalpractice(data.students, selected.value.id, description),
      summary := data.summary.(malpracticeCount := data.summary.malpracticeCount + 1)))
  }

  predicate IsReported(s: RoomStudent)
  {
    s.attendance.malpractice.Some? && s.attendance.malpractice.value.reported
  }

  predicate NewlyReported(s: RoomStudent, studentId: string)
  {
    s.student.id == studentId && !IsReported(s)
  }

  /** The counter goes up by one per report, while the number of flagged
      students goes up only by the matching students not yet flagged: a
      second report on the same student raises the counter and flags nobody
      new. */
  lemma {:induction false} FlaggedCount(students: seq<RoomStudent>, studentId: string, description: string)
    ensures Count(MarkMalpractice(students, studentId, description), IsReported) ==
            Count(students, IsReported) + Count(students, s => NewlyReported(s, studentId))
  {
    if students != [] {
      FlaggedCount(students[1..], studentId, description);
      assert MarkMalpractice(students, studentId, description)[1..] == MarkMalpractice(students[1..], studentId, description);
    }
  }

  // ---------------------------------------------------------------------
  // Upcoming duties

  /** An invigilation duty as the backend lists it, with its exam filled in. */
  datatype Assignment = Assignment(facultyId: string, exam: Exam, room: Room)

  /** The invigilator's own duty on a readable date no earlier than today. */
  predicate IsUpcoming(a: Assignment, facultyId: string, today: Day)
  {
    a.facultyId == facultyId && a.exam.date.Some? && a.exam.date.value >= today
  }

  /** `dateA - dateB <= 0`; only dated duties are compared. */
  predicate DateLe(a: Assignment, b: Assignment)
  {
    match (a.exam.date, b.exam.date)
    case (Some(x), Some(y)) => x <= y
    case _ => true
  }

  function UpcomingDuties(allocations: seq<Assignment>, facultyId: string, today: Day): (r: seq<Assignment>)
    ensures forall i :: 0 <= i < |r| ==> r[i] in allocations && IsUpcoming(r[i], facultyId, today)
  {
    Filter(allocations, a => IsUpcoming(a, facultyId, today))
  }

  /** fetchUpcomingExams: the faculty's duties from today on, by date, first five. */
  function Upcoming(allocations: seq<Assignment>, facultyId: string, today: Day): (r: seq<Assignment>)
    ensures |r| <= 5
  {
    var sorted := SortBy(UpcomingDuties(allocations, facultyId, today), DateLe);
    if |sorted| <= 5 then sorted else sorted[..5]
  }

  /** Among dated duties the date order is a total preorder. */
  lemma DateLePreorder(q: seq<Assignment>)
    requires forall i :: 0 <= i < |q| ==> q[i].exam.date.Some?
    ensures PreorderOn(DateLe, q)
  {
  }

  /** A qualifying duty that is not listed comes, in the sorted list, after
      all five listed ones. */
  lemma UpcomingEarliest(allocations: seq<Assignment>, facultyId: string, today: Day, a: Assignment)
    requires a in allocations && IsUpcoming(a, facultyId, today)
    requires a !in Upcoming(allocations, facultyId, today)
    ensures var r := Upcoming(allocations, facultyId, today);
      |r| == 5 && forall i :: 0 <= i < |r| ==> DateLe(r[i], a)
  {
    var q := UpcomingDuties(allocations, facultyId, today);
    var sorted := SortBy(q, DateLe);
    var r := Upcoming(allocations, facultyId, today);
    DateLePreorder(q);
    SortBySorted(q, DateLe);
    assert a in q by {
      var k :| 0 <= k < |allocations| && allocations[k] == a;
    }
    assert a in multiset(sorted);
    assert |sorted| > 5 && r == sorted[..5];
    SortedPastPrefix(sorted, DateLe, 5, a);
  }

  /** The listed duties are the first ones of the date-sorted qualifying list. */
  lemma UpcomingPrefix(allocations: seq<Assignment>, facultyId: string, today: Day)
    ensures var r := Upcoming(allocations, facultyId, today);
      && (forall i :: 0 <= i < |r| ==> r[i] in allocations && IsUpcoming(r[i], facultyId, today))
      && (forall i, j :: 0 <= i < j < |r| ==> DateLe(r[i], r[j]))
  {
    var q := UpcomingDuties(allocations, facultyId, today);
    var sorted := SortBy(q, DateLe);
    var r := Upcoming(allocations, facultyId, today);
    DateLePreorder(q);
    SortBySorted(q, DateLe);
    forall i | 0 <= i < |r| ensures r[i] in allocations && IsUpcoming(r[i], facultyId, today) {
      assert r[i] == sorted[i];
      assert sorted[i] in multiset(q);
    }
    forall i, j | 0 <= i < j < |r| ensures DateLe(r[i], r[j]) {
      assert r[i] == sorted[i] && r[j] == sorted[j];
    }
  }

  /** The upcoming list holds at most five of the invigilator's own duties,
      all dated today or later, in ascending date order; and it holds the
      earliest ones: a qualifying duty left out means the list is full and
      none of its dates is later. */
  lemma UpcomingFacts(allocations: seq<Assignment>, facultyId: string, today: Day)
    ensures var r := Upcoming(allocations, facultyId, today);
      && |r| == (var n := Count(allocations, a => IsUpcoming(a, facultyId, today)); if n <= 5 then n else 5)
      && (forall i :: 0 <= i < |r| ==> r[i] in allocations && IsUpcoming(r[i], facultyId, today))
      && (forall i, j :: 0 <= i < j < |r| ==> r[i].exam.date.value <= r[j].exam.date.value)
      && (forall a :: a in allocations && IsUpcoming(a, facultyId, today) && a !in r ==>
            |r| == 5 && forall i :: 0 <= i < |r| ==> r[i].exam.date.value <= a.exam.date.value)
  {
    var r := Upcoming(allocations, facultyId, today);
    CountIsFilterLength(allocations, a => IsUpcoming(a, facultyId, today));
    UpcomingPrefix(allocations, facultyId, today);
    forall a | a in allocations && IsUpcoming(a, facultyId, today) && a !in r
      ensures |r| == 5 && forall i :: 0 <= i < |r| ==> r[i].exam.date.value <= a.exam.date.value
    {
      UpcomingEarliest(allocations, facultyId, today, a);
    }
  }
}
