/** The rules of the seat-allocation page (src/pages/AllocateSeats.jsx):
    which students are eligible for an exam, the checks made before an
    allocation request is sent, the normalisation of uploaded student rows,
    and the order in which one room's seats are listed. */
module AllocateSeats {
  import opened Wrappers
  import opened Strings
  import opened Sequences
  import opened Records
  import opened SeatAllocation

  // ---------------------------------------------------------------------
  // Normalised fields

  /** No whitespace at either end: what trim leaves. */
  predicate Trimmed(s: string)
  {
    s == [] || (!IsWhitespace(s[0]) && !IsWhitespace(s[|s| - 1]))
  }

  /** `(x || '').toString().trim().toUpperCase()`: department and subject code. */
  function NormUpper(s: string): (r: string)
    ensures HasNoLower(r) && Trimmed(r)
  {
    TrimEnds(s);
    ToUpper(Trim(s))
  }

  /** `(x || '').toString().trim()`: semester. */
  function NormTrim(s: string): (r: string)
    ensures Trimmed(r)
  {
    TrimEnds(s);
    Trim(s)
  }

  /** `(x || '').toString().trim().toLowerCase()`: subject name. */
  function NormLower(s: string): (r: string)
    ensures HasNoUpper(r) && Trimmed(r)
  {
    TrimEnds(s);
    ToLower(Trim(s))
  }

  /** Whitespace typed before a value does not change its normal form. */
  lemma {:induction false} LeadingSpaceIgnored(s: string)
    ensures NormUpper(" " + s) == NormUpper(s)
    ensures NormTrim(" " + s) == NormTrim(s)
    ensures NormLower(" " + s) == NormLower(s)
  {
    var t := " " + s;
    var j := SkipWhitespace(s, 0);
    assert forall i :: 1 <= i < |t| ==> t[i] == s[i - 1];
    TrimStartAt(t, j + 1);
    assert t[j + 1..] == s[j..];
    assert TrimStart(t) == TrimStart(s);
  }

  // ---------------------------------------------------------------------
  // Eligibility

  /** The subject rule, on normalised values: codes decide when both are
      present; otherwise names decide, by containment either way, when both
      are present; otherwise the rule lets the student through. */
  predicate SubjectMatch(studentSubject: string, studentCode: string, examSubject: string, examCode: string)
  {
    if studentCode != [] && examCode != [] then studentCode == examCode
    else if studentSubject != [] && examSubject != [] then
      Contains(studentSubject, examSubject) || Contains(examSubject, studentSubject)
    else true
  }

  /** When both codes are present the free-text names play no part. */
  lemma CodesOverrideNames(ss: string, ss': string, sc: string, es: string, es': string, ec: string)
    requires sc != [] && ec != []
    ensures SubjectMatch(ss, sc, es, ec) == SubjectMatch(ss', sc, es', ec) == (sc == ec)
  {
  }

  /** A student whose subject name contains the exam's (or the other way
      round) matches unless both codes are present and differ. */
  lemma {:induction false} SubjectByName(ss: string, sc: string, es: string, ec: string, k: nat)
    requires ss != [] && es != [] && OccursAt(ss, es, k)
    ensures SubjectMatch(ss, sc, es, ec) <==> (sc == [] || ec == [] || sc == ec)
  {
    ContainsAt(ss, es);
  }

  lemma {:induction false} SubjectMatchReflexive(s: string, c: string)
    ensures SubjectMatch(s, c, s, c)
  {
    if c == [] && s != [] {
      assert StartsWith(s, s);
    }
  }

  /** The test of the allocation handler: normalised department and semester
      equal, the subject rule, and not deactivated. */
  predicate EligibleForAllocation(st: Student, exam: Exam)
  {
    && NormUpper(st.department) == NormUpper(exam.department)
    && NormTrim(st.semester) == NormTrim(exam.semester)
    && SubjectMatch(NormLower(st.subject), NormUpper(st.subjectCode), NormLower(exam.subject), NormUpper(exam.subjectCode))
    && IsActive(st)
  }

  /** The day check of the page's list: skipped when either day is unknown. */
  predicate DateMatch(studentDay: Option<Day>, examDay: Option<Day>)
  {
    studentDay.Some? && examDay.Some? ==> studentDay == examDay
  }

  /** The test behind the page's list of eligible students: no exam selected
      means nobody; otherwise the same rules plus the day check. */
  predicate EligibleForDisplay(st: Student, selected: Option<Exam>)
  {
    if selected.None? then false
    else
      var exam := selected.value;
      if NormUpper(st.department) != NormUpper(exam.department) || NormTrim(st.semester) != NormTrim(exam.semester) then false
      else
        var subjectMatch := SubjectMatch(NormLower(st.subject), NormUpper(st.subjectCode), NormLower(exam.subject), NormUpper(exam.subjectCode));
        subjectMatch && DateMatch(st.examDate, exam.date) && IsActive(st)
  }

  /** The two tests agree except for the day check, which only the list
      applies; so every student listed is one the handler counts. */
  lemma DisplayIsAllocationPlusDate(st: Student, exam: Exam)
    ensures EligibleForDisplay(st, Some(exam)) <==> EligibleForAllocation(st, exam) && DateMatch(st.examDate, exam.date)
    ensures EligibleForDisplay(st, None) == false
  {
  }

  /** A deactivated student is never eligible; a missing flag counts as active. */
  lemma ActiveFlag(st: Student, exam: Exam)
    ensures st.isActive == Some(false) ==> !EligibleForAllocation(st, exam) && !EligibleForDisplay(st, Some(exam))
    ensures st.isActive == None ==> EligibleForAllocation(st, exam) == EligibleForAllocation(st.(isActive := Some(true)), exam)
  {
  }

  /** A department typed with a leading space is still the exam's. */
  lemma PaddedDepartmentStillEligible(st: Student, exam: Exam)
    ensures EligibleForAllocation(st.(department := " " + st.department), exam) == EligibleForAllocation(st, exam)
  {
    LeadingSpaceIgnored(st.department);
  }

  function EligibleStudents(students: seq<Student>, exam: Exam): (r: seq<Student>)
    ensures |r| <= |students|
    ensures forall i :: 0 <= i < |r| ==> r[i] in students && EligibleForAllocation(r[i], exam)
    ensures forall i :: 0 <= i < |students| && EligibleForAllocation(students[i], exam) ==> students[i] in r
  {
    Filter(students, st => EligibleForAllocation(st, exam))
  }

  // ---------------------------------------------------------------------
  // Before the allocation request

  /** `exams.find(exam => exam._id === id)`. */
  function FindExam(exams: seq<Exam>, id: string): (r: Option<Exam>)
    ensures r.None? <==> forall i :: 0 <= i < |exams| ==> exams[i].id != id
    ensures r.Some? ==> exists i :: (0 <= i < |exams| && exams[i] == r.value && r.value.id == id &&
      forall j :: 0 <= j < i ==> exams[j].id != id)
  {
    if exams == [] then None
    else if exams[0].id == id then Some(exams[0])
    else
      var r := FindExam(exams[1..], id);
      if r.Some? then
        var i :| 0 <= i < |exams[1..]| && exams[1..][i] == r.value && r.value.id == id &&
          forall j :: 0 <= j < i ==> exams[1..][j].id != id;
        assert exams[i + 1] == r.value;
        r
      else r
  }

  predicate OfType(room: Room, roomType: string)
  {
    room.roomType == roomType
  }

  predicate ActiveOfType(room: Room, roomType: string)
  {
    room.roomType == roomType && RoomIsActive(room)
  }

  function RoomsOfType(rooms: seq<Room>, roomType: string): (r: seq<Room>)
    ensures forall i :: 0 <= i < |r| ==> r[i] in rooms && OfType(r[i], roomType)
    ensures forall i :: 0 <= i < |rooms| && OfType(rooms[i], roomType) ==> rooms[i] in r
  {
    Filter(rooms, room => OfType(room, roomType))
  }

  function ActiveRoomsOfType(rooms: seq<Room>, roomType: string): (r: seq<Room>)
    ensures forall i :: 0 <= i < |r| ==> r[i] in rooms && ActiveOfType(r[i], roomType)
    ensures forall i :: 0 <= i < |rooms| && ActiveOfType(rooms[i], roomType) ==> rooms[i] in r
  {
    Filter(rooms, room => ActiveOfType(room, roomType))
  }

  /** `rooms.reduce((sum, room) => sum + room.capacity, 0)`. */
  function SumCapacity(rooms: seq<Room>): int
  {
    if rooms == [] then 0 else rooms[0].capacity + SumCapacity(rooms[1..])
  }

  /** The summed capacity never exceeds the seats the allocator can fill
      (a negative capacity seats nobody but lowers the sum). */
  lemma {:induction false} SumCapacityAtMostSeats(rooms: seq<Room>)
    ensures SumCapacity(rooms) <= TotalCapacity(rooms)
  {
    if rooms != [] {
      SumCapacityAtMostSeats(rooms[1..]);
    }
  }

  /** The capacity the guard compares against: the available rooms of the
      type when availability data is present, else the active rooms of it. */
  function AvailableCapacity(rooms: seq<Room>, roomType: string, availability: Option<seq<Room>>): int
  {
    if availability.Some? then SumCapacity(RoomsOfType(availability.value, roomType))
    else SumCapacity(ActiveRoomsOfType(rooms, roomType))
  }

  /** The outcome of the handler's checks, in the order it makes them. */
  datatype RequestCheck =
    | NoExamSelected
    | ExamNotFound
    | NoEligibleStudents
    | NoRoomsOfType
    | NoAvailableRoomsOfType
    | NotEnoughCapacity(students: nat, capacity: int)
    | Send(examId: string, roomType: string)

  /** The allocation handler up to the request: selectedExam "" is no
      selection, availability None is no availability data loaded. */
  function CheckAllocationRequest(selectedExam: string, exams: seq<Exam>, students: seq<Student>,
                                  rooms: seq<Room>, roomType: string, availability: Option<seq<Room>>): (r: RequestCheck)
    ensures r.NoExamSelected? <==> selectedExam == []
    ensures r.ExamNotFound? <==> selectedExam != [] && FindExam(exams, selectedExam).None?
    ensures r.NoEligibleStudents? <==>
      && selectedExam != []
      && FindExam(exams, selectedExam).Some?
      && EligibleStudents(students, FindExam(exams, selectedExam).value) == []
    ensures r.NoRoomsOfType? <==>
      && selectedExam != []
      && FindExam(exams, selectedExam).Some?
      && EligibleStudents(students, FindExam(exams, selectedExam).value) != []
      && ActiveRoomsOfType(rooms, roomType) == []
    ensures r.NoAvailableRoomsOfType? <==>
      && selectedExam != []
      && FindExam(exams, selectedExam).Some?
      && EligibleStudents(students, FindExam(exams, selectedExam).value) != []
      && ActiveRoomsOfType(rooms, roomType) != []
      && availability.Some? && RoomsOfType(availability.value, roomType) == []
    ensures r.NotEnoughCapacity? <==>
      && selectedExam != []
      && FindExam(exams, selectedExam).Some?
      && EligibleStudents(students, FindExam(exams, selectedExam).value) != []
      && ActiveRoomsOfType(rooms, roomType) != []
      && (availability.Some? ==> RoomsOfType(availability.value, roomType) != [])
      && |EligibleStudents(students, FindExam(exams, selectedExam).value)| > AvailableCapacity(rooms, roomType, availability)
    ensures r.Send? <==>
      && selectedExam != []
      && FindExam(exams, selectedExam).Some?
      && EligibleStudents(students, FindExam(exams, selectedExam).value) != []
      && ActiveRoomsOfType(rooms, roomType) != []
      && (availability.Some? ==> RoomsOfType(availability.value, roomType) != [])
      && |EligibleStudents(students, FindExam(exams, selectedExam).value)| <= AvailableCapacity(rooms, roomType, availability)
    ensures r.Send? ==> r.examId == selectedExam && r.roomType == roomType
    ensures r.NotEnoughCapacity? ==>
      && r.students > r.capacity
      && r.capacity == AvailableCapacity(rooms, roomType, availability)
      && r.students == |EligibleStudents(students, FindExam(exams, selectedExam).value)|
  {
    if selectedExam == [] then NoExamSelected
    else
      var found := FindExam(exams, selectedExam);
      if found.None? then ExamNotFound
      else
        var eligible := EligibleStudents(students, found.value);
        if |eligible| == 0 then NoEligibleStudents
        else if ActiveRoomsOfType(rooms, roomType) == [] then NoRoomsOfType
        else if availability.Some? && RoomsOfType(availability.value, roomType) == [] then NoAvailableRoomsOfType
        else
          var capacity := AvailableCapacity(rooms, roomType, availability);
          if |eligible| > capacity then NotEnoughCapacity(|eligible|, capacity)
          else Send(selectedExam, roomType)
  }

  /** Without availability data, a request that gets through the checks asks
      for no more seats than the active rooms of the type hold: filling those
      rooms in capacity order seats every eligible student. This compares the
      page's guard with the allocator of src/utils/seatAllocation.js, which
      the page itself does not call (it posts the request to the server). */
  lemma GuardedRequestFitsRooms(selectedExam: string, exams: seq<Exam>, students: seq<Student>,
                                rooms: seq<Room>, roomType: string, placed: seq<Student>)
    requires CheckAllocationRequest(selectedExam, exams, students, rooms, roomType, None).Send?
    requires |placed| <= |EligibleStudents(students, FindExam(exams, selectedExam).value)|
    ensures var exam := FindExam(exams, selectedExam).value;
      |Fill(placed, SortBy(ActiveRoomsOfType(rooms, roomType), CapacityLe), exam)| == |placed|
  {
    var exam := FindExam(exams, selectedExam).value;
    var active := ActiveRoomsOfType(rooms, roomType);
    SumCapacityAtMostSeats(active);
    TotalCapacitySortBy(active, CapacityLe);
    FillLength(placed, SortBy(active, CapacityLe), exam);
  }

  // ---------------------------------------------------------------------
  // Uploaded student rows

  /** `row[k1] || row[k2] || ... || fallback`. */
  function FirstTruthy(row: Row, keys: seq<string>, fallback: Cell): (c: Cell)
    ensures (forall i :: 0 <= i < |keys| ==> !Truthy(CellAt(row, keys[i]))) ==> c == fallback
    ensures Truthy(c) || c == fallback
  {
    if keys == [] then fallback
    else if Truthy(CellAt(row, keys[0])) then CellAt(row, keys[0])
    else FirstTruthy(row, keys[1..], fallback)
  }

  /** The chain yields the first truthy cell among the aliases, in alias
      order, when there is one. */
  lemma {:induction false} FirstTruthyIsFirst(row: Row, keys: seq<string>, fallback: Cell, i: nat)
    requires i < |keys| && Truthy(CellAt(row, keys[i]))
    requires forall j :: 0 <= j < i ==> !Truthy(CellAt(row, keys[j]))
    ensures FirstTruthy(row, keys, fallback) == CellAt(row, keys[i])
  {
    if i > 0 {
      FirstTruthyIsFirst(row, keys[1..], fallback, i - 1);
    }
  }

  /** `.toString()` of a cell that is present. */
  function ToText(c: Cell): string
    requires !c.Missing?
  {
    match c
    case Text(t) => t
    case Number(n) => IntToString(n)
  }

  const NameKeys: seq<string> := ["name", "Name", "student_name", "Student Name"]
  const RegNoKeys: seq<string> := ["regNo", "RegNo", "reg_no", "Register Number", "registerNumber"]
  const DepartmentKeys: seq<string> := ["department", "Department", "dept", "Dept"]
  const SemesterKeys: seq<string> := ["semester", "Semester", "sem", "Sem"]
  const EmailKeys: seq<string> := ["email", "Email", "emailId", "Email ID"]
  const SubjectKeys: seq<string> := ["subject", "Subject", "subjectName", "Subject Name"]
  const SubjectCodeKeys: seq<string> := ["subjectCode", "SubjectCode", "subject_code", "Subject Code"]
  const TypeKeys: seq<string> := ["type", "Type", "examType", "Exam Type"]

  /** A normalised upload row; the cells not passed through toString keep
      their spreadsheet type. */
  datatype UploadedStudent = UploadedStudent(
    name: Cell,
    regNo: string,
    department: string,
    semester: string,
    email: Cell,
    subject: Cell,
    subjectCode: Cell,
    examType: string,
    isActive: bool)

  function NormaliseRow(row: Row): (s: UploadedStudent)
    ensures s.isActive
    ensures Trimmed(s.regNo) && Trimmed(s.semester)
    ensures Trimmed(s.department) && HasNoLower(s.department)
    ensures HasNoUpper(s.examType)
  {
    UploadedStudent(
      FirstTruthy(row, NameKeys, Text("")),
      NormTrim(ToText(FirstTruthy(row, RegNoKeys, Text("")))),
      NormUpper(ToText(FirstTruthy(row, DepartmentKeys, Text("")))),
      NormTrim(ToText(FirstTruthy(row, SemesterKeys, Text("")))),
      FirstTruthy(row, EmailKeys, Text("")),
      FirstTruthy(row, SubjectKeys, Text("")),
      FirstTruthy(row, SubjectCodeKeys, Text("")),
      ToLower(ToText(FirstTruthy(row, TypeKeys, Text("regular")))),
      true)
  }

  /** `data.map(row => ...)`. */
  function NormaliseRows(rows: seq<Row>): (r: seq<UploadedStudent>)
    ensures |r| == |rows| && forall k :: 0 <= k < |rows| ==> r[k] == NormaliseRow(rows[k])
  {
    Map(rows, NormaliseRow)
  }

  /** With no exam type in any of its columns a row is a regular exam's. */
  lemma DefaultExamType(row: Row)
    requires forall i :: 0 <= i < |TypeKeys| ==> !Truthy(CellAt(row, TypeKeys[i]))
    ensures NormaliseRow(row).examType == "regular"
  {
    assert FirstTruthy(row, TypeKeys, Text("regular")) == Text("regular");
    LowerOfLower("regular");
  }

  /** The row filter after normalisation: a name, a register number, a
      department and a semester are all required. */
  predicate KeepUploadRow(s: UploadedStudent)
  {
    Truthy(s.name) && s.regNo != [] && s.department != [] && s.semester != []
  }

  /** What normalisation guarantees of every row. */
  predicate Normalised(s: UploadedStudent)
  {
    s.isActive && HasNoLower(s.department) && Trimmed(s.department) && Trimmed(s.regNo)
  }

  /** The rows sent to the bulk-upload endpoint: the normalised rows that
      have every required field, in sheet order. */
  function ProcessUpload(rows: seq<Row>): (r: seq<UploadedStudent>)
    ensures |r| <= |rows|
    ensures forall y :: y in r ==>
      && KeepUploadRow(y) && Normalised(y)
      && exists k :: 0 <= k < |rows| && y == NormaliseRow(rows[k])
    ensures forall k :: 0 <= k < |rows| && KeepUploadRow(NormaliseRow(rows[k])) ==> NormaliseRow(rows[k]) in r
  {
    var normalised := NormaliseRows(rows);
    assert normalised == Map(rows, NormaliseRow);
    var r := Filter(normalised, KeepUploadRow);
    FilterOfMap(rows, NormaliseRow, KeepUploadRow);
    forall row ensures Normalised(NormaliseRow(row)) {
      NormalisedRow(row);
    }
    r
  }

  /** Every normalised row has the guarantees of normalisation. */
  lemma NormalisedRow(row: Row)
    ensures Normalised(NormaliseRow(row))
  {
  }

  /** A row whose name column holds a blank string or a zero falls back to
      the next alias; one with no usable name at all is dropped. */
  lemma NamelessRowDropped(row: Row)
    requires forall i :: 0 <= i < |NameKeys| ==> !Truthy(CellAt(row, NameKeys[i]))
    ensures NormaliseRow(row) !in ProcessUpload([row])
  {
    assert NormaliseRow(row).name == Text("");
  }

  // ---------------------------------------------------------------------
  // Listing one room's seats

  /** The label splits at k into the two groups of ^([A-Za-z]+)(\d+)$. */
  predicate LabelSplit(seatNumber: string, k: int)
  {
    && 0 < k < |seatNumber|
    && (forall i :: 0 <= i < k ==> IsLetter(seatNumber[i]))
    && AllDigits(seatNumber[k..])
  }

  /** The letters and the number of a label matching ^([A-Za-z]+)(\d+)$, or
      ("", 0) for any other label. */
  function SeatParts(seatNumber: string): (r: (string, nat))
    ensures r.0 != [] <==> exists k :: LabelSplit(seatNumber, k)
    ensures r.0 != [] ==>
      && LabelSplit(seatNumber, |r.0|)
      && seatNumber[..|r.0|] == r.0
      && r.1 == DigitsValue(seatNumber[|r.0|..])
    ensures r.0 == [] ==> r == ([], 0)
  {
    var letters := LeadingLetters(seatNumber);
    var rest := seatNumber[|letters|..];
    if letters != [] && rest != [] && AllDigits(rest) then
      assert LabelSplit(seatNumber, |letters|);
      (letters, DigitsValue(rest))
    else
      assert forall k :: !LabelSplit(seatNumber, k) by {
        forall k | LabelSplit(seatNumber, k) ensures false {
          LeadingLettersUpTo(seatNumber, k);
        }
      }
      ([], 0)
  }

  /** `aLetter.localeCompare(bLetter) || aNum - bNum`, as "compare(a, b) <= 0":
      by letters first, then by number. */
  predicate SeatLetterMajorLe(a: Allocation, b: Allocation)
  {
    var (aLetter, aNum) := SeatParts(a.seatNumber);
    var (bLetter, bNum) := SeatParts(b.seatNumber);
    if aLetter != bLetter then LexLe(aLetter, bLetter) else aNum <= bNum
  }

  /** Every label has parts, so this comparator is a total preorder on any list. */
  lemma SeatLetterMajorLePreorder(s: seq<Allocation>)
    ensures PreorderOn(SeatLetterMajorLe, s)
  {
    forall x, y | x in s && y in s ensures SeatLetterMajorLe(x, y) || SeatLetterMajorLe(y, x) {
      LexLeTotal(SeatParts(x.seatNumber).0, SeatParts(y.seatNumber).0);
    }
    forall x, y, z | x in s && y in s && z in s && SeatLetterMajorLe(x, y) && SeatLetterMajorLe(y, z)
      ensures SeatLetterMajorLe(x, z)
    {
      var a, b, c := SeatParts(x.seatNumber).0, SeatParts(y.seatNumber).0, SeatParts(z.seatNumber).0;
      if a != b && b != c {
        LexLeTransitive(a, b, c);
        if a == c {
          LexLeAntisymmetric(a, b);
          assert false;
        }
      }
    }
  }

  /** The allocator's labels parse back into their side and bench. */
  lemma SeatLabelLetterParts(i: nat)
    ensures SeatParts(SeatLabel(i)) == (if i % 2 == 0 then "A" else "B", i / 2 + 1)
  {
    var s := SeatLabel(i);
    var digits := NatToString(i / 2 + 1);
    assert s == [s[0]] + digits;
    assert IsDigit(digits[0]) && !IsLetter(digits[0]);
    assert LeadingLetters(s) == [s[0]] + LeadingLetters(digits);
    assert LeadingLetters(s) == [s[0]];
    assert s[1..] == digits;
    DigitsValueOfNatToString(i / 2 + 1);
  }

  /** The page lists any room's seats letter by letter (every "A" seat, by
      number, before every "B" seat), as a permutation of the room's list. */
  lemma PageListsSideMajor(roomAllocations: seq<Allocation>)
    ensures multiset(SortBy(roomAllocations, SeatLetterMajorLe)) == multiset(roomAllocations)
    ensures var r := SortBy(roomAllocations, SeatLetterMajorLe);
      forall i, j :: 0 <= i < j < |r| ==> SeatLetterMajorLe(r[i], r[j])
  {
    SeatLetterMajorLePreorder(roomAllocations);
    SortBySorted(roomAllocations, SeatLetterMajorLe);
  }

  /** With three or more students in a room, the page's listing differs from
      the bench-by-bench order of the allocator in src/utils/seatAllocation.js
      (which the page itself does not call): that allocator puts B1 second,
      the page puts A2 there. */
  lemma PageOrderDiffersFromAllocation(students: seq<Student>, room: Room, exam: Exam)
    requires |students| >= 3
    ensures !SeatLetterMajorLe(RoomBlock(students, room, exam)[1], RoomBlock(students, room, exam)[2])
  {
    SeatLabelLetterParts(1);
    SeatLabelLetterParts(2);
    assert !LexLe("B", "A");
  }
}
