/** The invigilator allocation of the faculty page
    (src/pages/AllocateFaculty.jsx): staffing thresholds by headcount, the
    faculty and lab-technician pools, the rooms that hold students, and the
    loop of smartAllocateFaculty that hands out one person at most once. */
module AllocateFaculty {
  import opened Wrappers
  import opened Strings
  import opened Sequences
  import opened Records

  /** A row of the uploaded staff list; "" stands for a missing field. */
  datatype Faculty = Faculty(facultyId: string, facultyName: string, email: string, designation: string)

  /** One invigilation duty to be created. */
  datatype Duty = Duty(
    facultyName: string,
    facultyId: string,
    email: string,
    designation: string,
    role: string,
    exam: string,
    room: string)

  // ---------------------------------------------------------------------
  // Upload and pools

  /** `faculty.designation ? faculty.designation.toLowerCase() : 'faculty'`. */
  function NormaliseDesignation(designation: string): (r: string)
    ensures r != [] && HasNoUpper(r)
  {
    if designation != [] then ToLower(designation) else "faculty"
  }

  function NormaliseFaculty(rows: seq<Faculty>): (r: seq<Faculty>)
    ensures |r| == |rows|
    ensures forall i :: 0 <= i < |rows| ==>
      r[i] == rows[i].(designation := NormaliseDesignation(rows[i].designation))
  {
    seq(|rows|, i requires 0 <= i < |rows| => rows[i].(designation := NormaliseDesignation(rows[i].designation)))
  }

  /** The faculty pool test: the lower-cased designation contains "faculty"
      (the second test of the source, equality, is implied by the first). */
  predicate InFacultyPool(f: Faculty)
  {
    var designation := ToLower(f.designation);
    Contains(designation, "faculty") || designation == "faculty"
  }

  /** The lab pool test: the lower-cased designation contains "lab" or
      "technician". */
  predicate InLabPool(f: Faculty)
  {
    var designation := ToLower(f.designation);
    Contains(designation, "lab") || Contains(designation, "technician")
  }

  function FacultyPool(list: seq<Faculty>): (r: seq<Faculty>)
    ensures forall i :: 0 <= i < |r| ==> r[i] in list && InFacultyPool(r[i])
    ensures forall i :: 0 <= i < |list| && InFacultyPool(list[i]) ==> list[i] in r
  {
    Filter(list, InFacultyPool)
  }

  function LabPool(list: seq<Faculty>): (r: seq<Faculty>)
    ensures forall i :: 0 <= i < |r| ==> r[i] in list && InLabPool(r[i])
    ensures forall i :: 0 <= i < |list| && InLabPool(list[i]) ==> list[i] in r
  {
    Filter(list, InLabPool)
  }

  /** After upload, a row without a designation lands in the faculty pool. */
  lemma MissingDesignationIsFaculty(f: Faculty)
    requires f.designation == []
    ensures InFacultyPool(f.(designation := NormaliseDesignation(f.designation)))
  {
    LowerOfLower("faculty");
    assert StartsWith("faculty", "faculty");
  }

  /** The pools can overlap: a "faculty lab" designation is in both. */
  lemma PoolsOverlap(f: Faculty)
    requires f.designation == "faculty lab"
    ensures InFacultyPool(f) && InLabPool(f)
  {
    var d := ToLower(f.designation);
    assert HasNoUpper(f.designation);
    LowerOfLower(f.designation);
    assert d == f.designation;
    assert d[..7] == "faculty";
    assert d[8..11] == "lab";
    assert StartsWith(d, "faculty");
    assert OccursAt(d, "lab", 8);
    ContainsAt(d, "lab");
  }

  // ---------------------------------------------------------------------
  // Rooms that hold students

  function RoomIds(allocations: seq<Allocation>): set<string>
  {
    set i | 0 <= i < |allocations| :: allocations[i].room.id
  }

  /** The rooms of the allocations, each id once, in order of first
      occurrence. */
  function RoomsWithStudents(allocations: seq<Allocation>): seq<Room>
  {
    if allocations == [] then []
    else
      var prev := allocations[..|allocations| - 1];
      var last := allocations[|allocations| - 1];
      RoomsWithStudents(prev) + (if last.room.id in RoomIds(prev) then [] else [last.room])
  }

  lemma RoomIdsSnoc(s: seq<Allocation>, a: Allocation)
    ensures RoomIds(s + [a]) == RoomIds(s) + {a.room.id}
  {
    var t := s + [a];
    forall x | x in RoomIds(t) ensures x in RoomIds(s) + {a.room.id} {
      var i :| 0 <= i < |t| && t[i].room.id == x;
      if i < |s| { assert s[i] == t[i]; }
    }
    forall x | x in RoomIds(s) ensures x in RoomIds(t) {
      var i :| 0 <= i < |s| && s[i].room.id == x;
      assert t[i] == s[i];
    }
    assert t[|s|] == a;
  }

  function IdsOf(rooms: seq<Room>): set<string>
  {
    set i | 0 <= i < |rooms| :: rooms[i].id
  }

  lemma IdsOfSnoc(rooms: seq<Room>, room: Room)
    ensures IdsOf(rooms + [room]) == IdsOf(rooms) + {room.id}
  {
    var t := rooms + [room];
    forall x | x in IdsOf(t) ensures x in IdsOf(rooms) + {room.id} {
      var i :| 0 <= i < |t| && t[i].id == x;
      if i < |rooms| { assert rooms[i] == t[i]; }
    }
    forall x | x in IdsOf(rooms) ensures x in IdsOf(t) {
      var i :| 0 <= i < |rooms| && rooms[i].id == x;
      assert t[i] == rooms[i];
    }
    assert t[|rooms|] == room;
  }

  /** The room list has one entry per distinct room id present. */
  lemma {:induction false} RoomsWithStudentsIds(allocations: seq<Allocation>)
    ensures var r := RoomsWithStudents(allocations);
      (forall i, j :: 0 <= i < j < |r| ==> r[i].id != r[j].id) && IdsOf(r) == RoomIds(allocations)
  {
    if allocations != [] {
      var prev := allocations[..|allocations| - 1];
      var last := allocations[|allocations| - 1];
      assert allocations == prev + [last];
      RoomsWithStudentsIds(prev);
      RoomIdsSnoc(prev, last);
      var p := RoomsWithStudents(prev);
      if last.room.id !in RoomIds(prev) {
        IdsOfSnoc(p, last.room);
        var r := p + [last.room];
        forall i, j | 0 <= i < j < |r| ensures r[i].id != r[j].id {
          if j == |p| {
            assert r[i].id in IdsOf(p);
          } else {
            assert r[i] == p[i] && r[j] == p[j];
          }
        }
      } else {
        assert p + [] == p;
      }
    }
  }

  /** Each entry of the room list is the room of the first allocation with
      its id. */
  lemma {:induction false} RoomsWithStudentsFirst(allocations: seq<Allocation>)
    ensures forall i :: 0 <= i < |RoomsWithStudents(allocations)| ==>
      ListedFirst(allocations, RoomsWithStudents(allocations)[i])
  {
    if allocations != [] {
      var prev := allocations[..|allocations| - 1];
      var last := allocations[|allocations| - 1];
      RoomsWithStudentsFirst(prev);
      var p := RoomsWithStudents(prev);
      var r := RoomsWithStudents(allocations);
      forall i | 0 <= i < |r| ensures ListedFirst(allocations, r[i]) {
        if i < |p| {
          assert r[i] == p[i];
          assert ListedFirst(prev, p[i]);
          var k :| FirstWithRoomId(prev, k) && prev[k].room == p[i];
          assert allocations[k] == prev[k];
          assert FirstWithRoomId(allocations, k);
        } else {
          assert last.room.id !in RoomIds(prev);
          assert r[i] == last.room;
          forall j | 0 <= j < |allocations| - 1 ensures allocations[j].room.id != last.room.id {
            assert prev[j] == allocations[j];
          }
          assert FirstWithRoomId(allocations, |allocations| - 1);
        }
      }
    }
  }

  /** room is the room of the first allocation with its id. */
  ghost predicate ListedFirst(allocations: seq<Allocation>, room: Room)
  {
    exists k :: FirstWithRoomId(allocations, k) && allocations[k].room == room
  }

  /** allocations[k] is the first allocation with its room id. */
  ghost predicate FirstWithRoomId(allocations: seq<Allocation>, k: int)
  {
    0 <= k < |allocations| && forall j :: 0 <= j < k ==> allocations[j].room.id != allocations[k].room.id
  }

  /** The first allocation with room id x comes before the first with id y. */
  ghost predicate FirstBefore(allocations: seq<Allocation>, x: string, y: string)
  {
    exists kx, ky :: kx < ky && FirstWithRoomId(allocations, kx) && FirstWithRoomId(allocations, ky) &&
      allocations[kx].room.id == x && allocations[ky].room.id == y
  }

  /** The room list follows first-occurrence order: of two listed rooms, the
      earlier one's id first occurs earlier among the allocations. */
  lemma {:induction false} RoomsWithStudentsOrder(allocations: seq<Allocation>)
    ensures forall i, j :: 0 <= i < j < |RoomsWithStudents(allocations)| ==>
      FirstBefore(allocations, RoomsWithStudents(allocations)[i].id, RoomsWithStudents(allocations)[j].id)
  {
    if allocations != [] {
      var prev := allocations[..|allocations| - 1];
      var last := allocations[|allocations| - 1];
      assert allocations == prev + [last];
      RoomsWithStudentsOrder(prev);
      var p := RoomsWithStudents(prev);
      var r := RoomsWithStudents(allocations);
      assert r == p + (if last.room.id in RoomIds(prev) then [] else [last.room]);
      forall i, j | 0 <= i < j < |r| ensures FirstBefore(allocations, r[i].id, r[j].id) {
        if j < |p| {
          assert r[i] == p[i] && r[j] == p[j];
          assert FirstBefore(prev, p[i].id, p[j].id);
          FirstBeforeSnoc(prev, last, p[i].id, p[j].id);
        } else {
          assert r[i] == p[i] && r[j] == last.room;
          RoomsWithStudentsFirst(prev);
          RoomsWithStudentsIds(prev);
          assert p[i].id in IdsOf(p);
          NewIdAfter(prev, last, p[i]);
        }
      }
    }
  }

  /** Appending an allocation keeps every first occurrence where it was. */
  lemma FirstBeforeSnoc(prev: seq<Allocation>, last: Allocation, x: string, y: string)
    requires FirstBefore(prev, x, y)
    ensures FirstBefore(prev + [last], x, y)
  {
    var s := prev + [last];
    var kx, ky :| kx < ky && FirstWithRoomId(prev, kx) && FirstWithRoomId(prev, ky) &&
      prev[kx].room.id == x && prev[ky].room.id == y;
    FirstWithRoomIdSnoc(prev, last, kx);
    FirstWithRoomIdSnoc(prev, last, ky);
  }

  lemma FirstWithRoomIdSnoc(prev: seq<Allocation>, last: Allocation, k: int)
    requires FirstWithRoomId(prev, k)
    ensures FirstWithRoomId(prev + [last], k) && (prev + [last])[k] == prev[k]
  {
    var s := prev + [last];
    forall j | 0 <= j < k ensures s[j].room.id != s[k].room.id {
      assert s[j] == prev[j] && s[k] == prev[k];
    }
  }

  /** A room id seen for the first time at the end comes after every id seen
      before it. */
  lemma NewIdAfter(prev: seq<Allocation>, last: Allocation, room: Room)
    requires last.room.id !in RoomIds(prev)
    requires ListedFirst(prev, room)
    ensures FirstBefore(prev + [last], room.id, last.room.id)
  {
    var s := prev + [last];
    var kx :| FirstWithRoomId(prev, kx) && prev[kx].room == room;
    FirstWithRoomIdSnoc(prev, last, kx);
    forall j | 0 <= j < |prev| ensures s[j].room.id != s[|prev|].room.id {
      assert s[j] == prev[j];
    }
    assert FirstWithRoomId(s, |prev|) && s[|prev|] == last;
  }

  /** The forEach over the allocations with a Set of seen room ids. */
  method CollectRoomsWithStudents(allocations: seq<Allocation>) returns (roomsWithStudents: seq<Room>)
    ensures roomsWithStudents == RoomsWithStudents(allocations)
  {
    roomsWithStudents := [];
    var roomIds: set<string> := {};
    var k := 0;
    while k < |allocations|
      invariant 0 <= k <= |allocations|
      invariant roomIds == RoomIds(allocations[..k])
      invariant roomsWithStudents == RoomsWithStudents(allocations[..k])
    {
      var allocation := allocations[k];
      assert allocations[..k + 1][..k] == allocations[..k];
      RoomIdsSnoc(allocations[..k], allocation);
      assert allocations[..k + 1] == allocations[..k] + [allocation];
      if allocation.room.id !in roomIds {
        roomIds := roomIds + {allocation.room.id};
        roomsWithStudents := roomsWithStudents + [allocation.room];
      }
      k := k + 1;
    }
    assert allocations[..k] == allocations;
  }

  // ---------------------------------------------------------------------
  // Staffing

  /** Faculty per room: always one. */
  function RequiredFaculty(studentsInRoom: nat): nat
  {
    1
  }

  /** Lab technicians per room: none up to 24 students, one up to 36, two
      above. */
  function RequiredLabTech(studentsInRoom: nat): (n: nat)
    ensures n <= 2
  {
    if studentsInRoom <= 24 then 0 else if studentsInRoom <= 36 then 1 else 2
  }

  /** More students never means fewer technicians. */
  lemma RequiredLabTechMonotone(a: nat, b: nat)
    requires a <= b
    ensures RequiredLabTech(a) <= RequiredLabTech(b)
    ensures RequiredFaculty(a) == RequiredFaculty(b) == 1
  {
  }

  // ---------------------------------------------------------------------
  // The allocation loop

  /** What the loop carries: the duties so far and the set of ids used. */
  datatype State = State(created: seq<Duty>, used: set<string>)

  /** The test `!usedFacultyIds.has(f.facultyId)`. */
  function IsUnused(used: set<string>): Faculty -> bool
  {
    (f: Faculty) => f.facultyId !in used
  }

  /** `pool.filter(f => !usedFacultyIds.has(f.facultyId))`. */
  function Unused(pool: seq<Faculty>, used: set<string>): (r: seq<Faculty>)
    ensures |r| <= |pool|
    ensures forall i :: 0 <= i < |r| ==> r[i].facultyId !in used && r[i] in pool
    ensures forall i :: 0 <= i < |pool| && pool[i].facultyId !in used ==> pool[i] in r
    ensures r == [] <==> forall i :: 0 <= i < |pool| ==> pool[i].facultyId in used
  {
    var r := Filter(pool, IsUnused(used));
    assert forall i :: 0 <= i < |pool| ==> IsUnused(used)(pool[i]) == (pool[i].facultyId !in used);
    assert forall i :: 0 <= i < |r| ==> r[i] in pool && IsUnused(used)(r[i]);
    assert r != [] ==> exists k :: 0 <= k < |pool| && pool[k] == r[0] && pool[k].facultyId !in used;
    r
  }

  /** The candidate taken is the first one in pool order whose id is unused. */
  lemma {:induction false} UnusedHead(pool: seq<Faculty>, used: set<string>)
    requires Unused(pool, used) != []
    ensures exists i :: (0 <= i < |pool| && pool[i] == Unused(pool, used)[0] &&
      forall j :: 0 <= j < i ==> pool[j].facultyId in used)
  {
    if pool[0].facultyId in used {
      UnusedHead(pool[1..], used);
      var i :| 0 <= i < |pool[1..]| && pool[1..][i] == Unused(pool[1..], used)[0] &&
        forall j :: 0 <= j < i ==> pool[1..][j].facultyId in used;
      assert pool[i + 1] == Unused(pool, used)[0];
      forall j | 0 <= j < i + 1 ensures pool[j].facultyId in used {
        if j > 0 { assert pool[j] == pool[1..][j - 1]; }
      }
    } else {
      assert pool[0] == Unused(pool, used)[0];
    }
  }

  /** The guard before a duty is recorded. */
  predicate Qualifies(f: Faculty, examId: string, roomId: string)
  {
    f.facultyId != [] && f.facultyName != [] && examId != [] && roomId != []
  }

  /** One pass of the inner loop for the pool. */
  function Round(pool: seq<Faculty>, s: State, designation: string, examId: string, roomId: string): State
  {
    var available := Unused(pool, s.used);
    if available != [] && Qualifies(available[0], examId, roomId) then
      var f := available[0];
      State(s.created + [Duty(f.facultyName, f.facultyId, f.email, designation, "invigilator", examId, roomId)],
            s.used + {f.facultyId})
    else s
  }

  /** n passes of the inner loop for the pool. */
  function Rounds(pool: seq<Faculty>, s: State, n: nat, designation: string, examId: string, roomId: string): State
    decreases n
  {
    if n == 0 then s else Rounds(pool, Round(pool, s, designation, examId, roomId), n - 1, designation, examId, roomId)
  }

  /** The test `a.room._id === room._id`. */
  function HasRoomId(roomId: string): Allocation -> bool
  {
    (a: Allocation) => a.room.id == roomId
  }

  /** `seatAllocations.filter(a => a.room._id === room._id)`: its length is the
      headcount the staffing rule is applied to. */
  function SeatsInRoom(allocations: seq<Allocation>, roomId: string): (r: seq<Allocation>)
    ensures forall i :: 0 <= i < |r| ==> r[i] in allocations && r[i].room.id == roomId
    ensures forall i :: 0 <= i < |allocations| && allocations[i].room.id == roomId ==> allocations[i] in r
    ensures |r| == Count(allocations, HasRoomId(roomId))
  {
    var r := Filter(allocations, HasRoomId(roomId));
    assert forall i :: 0 <= i < |allocations| ==> HasRoomId(roomId)(allocations[i]) == (allocations[i].room.id == roomId);
    assert forall i :: 0 <= i < |r| ==> r[i] in allocations && HasRoomId(roomId)(r[i]);
    CountIsFilterLength(allocations, HasRoomId(roomId));
    r
  }

  /** The body of the room loop. */
  function RoomStep(room: Room, allocations: seq<Allocation>, faculty: seq<Faculty>, labTech: seq<Faculty>, s: State): State
  {
    var inRoom := SeatsInRoom(allocations, room.id);
    if inRoom == [] then s
    else
      var examId := inRoom[0].exam.id;
      var s1 := Rounds(faculty, s, RequiredFaculty(|inRoom|), "faculty", examId, room.id);
      Rounds(labTech, s1, RequiredLabTech(|inRoom|), "lab technician", examId, room.id)
  }

  /** The room loop, from state s. */
  function AllRooms(rooms: seq<Room>, allocations: seq<Allocation>, faculty: seq<Faculty>, labTech: seq<Faculty>, s: State): State
  {
    if rooms == [] then s else AllRooms(rooms[1..], allocations, faculty, labTech, RoomStep(rooms[0], allocations, faculty, labTech, s))
  }

  /** The inner loop over one pool. */
  method FillDuties(pool: seq<Faculty>, created0: seq<Duty>, used0: set<string>, required: nat,
                    designation: string, examId: string, roomId: string)
    returns (created: seq<Duty>, used: set<string>)
    ensures State(created, used) == Rounds(pool, State(created0, used0), required, designation, examId, roomId)
  {
    created, used := created0, used0;
    for i := 0 to required
      invariant Rounds(pool, State(created, used), required - i, designation, examId, roomId) ==
        Rounds(pool, State(created0, used0), required, designation, examId, roomId)
    {
      var available := Unused(pool, used);
      if |available| > 0 {
        var f := available[0];
        if f.facultyId != [] && f.facultyName != [] && examId != [] && roomId != [] {
          used := used + {f.facultyId};
          created := created + [Duty(f.facultyName, f.facultyId, f.email, designation, "invigilator", examId, roomId)];
        }
      }
    }
  }

  /** The loop of smartAllocateFaculty over the rooms with students, given
      the two pools in their shuffled order. */
  method AllocateInvigilators(availableRooms: seq<Room>, seatAllocations: seq<Allocation>,
                              shuffledFaculty: seq<Faculty>, shuffledLabTech: seq<Faculty>)
    returns (allocationsToCreate: seq<Duty>)
    ensures allocationsToCreate == AllRooms(availableRooms, seatAllocations, shuffledFaculty, shuffledLabTech, State([], {})).created
    ensures DistinctIds(allocationsToCreate)
  {
    allocationsToCreate := [];
    var usedFacultyIds: set<string> := {};
    var r := 0;
    while r < |availableRooms|
      invariant 0 <= r <= |availableRooms|
      invariant AllRooms(availableRooms[r..], seatAllocations, shuffledFaculty, shuffledLabTech, State(allocationsToCreate, usedFacultyIds)) ==
        AllRooms(availableRooms, seatAllocations, shuffledFaculty, shuffledLabTech, State([], {}))
    {
      var room := availableRooms[r];
      assert availableRooms[r..][1..] == availableRooms[r + 1..];
      var roomSeatAllocations := SeatsInRoom(seatAllocations, room.id);
      if |roomSeatAllocations| > 0 {
        var examForRoom := roomSeatAllocations[0].exam;
        var studentsInRoom := |roomSeatAllocations|;
        var requiredFaculty := RequiredFaculty(studentsInRoom);
        var requiredLabTech := RequiredLabTech(studentsInRoom);
        allocationsToCreate, usedFacultyIds := FillDuties(shuffledFaculty, allocationsToCreate, usedFacultyIds,
          requiredFaculty, "faculty", examForRoom.id, room.id);
        allocationsToCreate, usedFacultyIds := FillDuties(shuffledLabTech, allocationsToCreate, usedFacultyIds,
          requiredLabTech, "lab technician", examForRoom.id, room.id);
      }
      r := r + 1;
    }
    assert availableRooms[r..] == [];
    NoIdTwice(availableRooms, seatAllocations, shuffledFaculty, shuffledLabTech);
  }

  // ---------------------------------------------------------------------
  // What the loop guarantees

  /** No faculty id occurs in two duties. */
  ghost predicate DistinctIds(duties: seq<Duty>)
  {
    forall i, j :: 0 <= i < j < |duties| ==> duties[i].facultyId != duties[j].facultyId
  }

  /** Every duty's person is marked used, and no id is handed out twice. */
  ghost predicate Consistent(s: State)
  {
    DistinctIds(s.created) && forall i :: 0 <= i < |s.created| ==> s.created[i].facultyId in s.used
  }

  /** t extends s by at most n duties, all with the given designation, exam
      and room, and all with role "invigilator". */
  ghost predicate Adds(s: State, t: State, n: nat, designation: string, examId: string, roomId: string)
  {
    && |s.created| <= |t.created| <= |s.created| + n
    && t.created[..|s.created|] == s.created
    && s.used <= t.used
    && forall i :: |s.created| <= i < |t.created| ==>
      t.created[i].designation == designation && t.created[i].exam == examId &&
      t.created[i].room == roomId && t.created[i].role == "invigilator"
  }

  lemma RoundFacts(pool: seq<Faculty>, s: State, designation: string, examId: string, roomId: string)
    requires Consistent(s)
    ensures var t := Round(pool, s, designation, examId, roomId);
      Consistent(t) && Adds(s, t, 1, designation, examId, roomId)
  {
    var t := Round(pool, s, designation, examId, roomId);
    if t != s {
      var f := Unused(pool, s.used)[0];
      assert f.facultyId !in s.used;
      assert t.created[..|s.created|] == s.created;
      forall i, j | 0 <= i < j < |t.created| ensures t.created[i].facultyId != t.created[j].facultyId {
        if j == |s.created| {
          assert t.created[i] == s.created[i];
        } else {
          assert t.created[i] == s.created[i] && t.created[j] == s.created[j];
        }
      }
    }
  }

  lemma {:induction false} RoundsFacts(pool: seq<Faculty>, s: State, n: nat, designation: string, examId: string, roomId: string)
    requires Consistent(s)
    ensures var t := Rounds(pool, s, n, designation, examId, roomId);
      Consistent(t) && Adds(s, t, n, designation, examId, roomId)
    decreases n
  {
    if n > 0 {
      var s1 := Round(pool, s, designation, examId, roomId);
      RoundFacts(pool, s, designation, examId, roomId);
      RoundsFacts(pool, s1, n - 1, designation, examId, roomId);
      var t := Rounds(pool, s1, n - 1, designation, examId, roomId);
      AddsCompose(s, s1, t, 1, n - 1, designation, examId, roomId);
    }
  }

  /** Two extensions with the same designation, exam and room make one. */
  lemma AddsCompose(s: State, m: State, t: State, a: nat, b: nat, designation: string, examId: string, roomId: string)
    requires Adds(s, m, a, designation, examId, roomId) && Adds(m, t, b, designation, examId, roomId)
    ensures Adds(s, t, a + b, designation, examId, roomId)
  {
    PrefixOfPrefix(s.created, m.created, t.created);
    forall i | |s.created| <= i < |t.created|
      ensures t.created[i].designation == designation && t.created[i].exam == examId &&
        t.created[i].room == roomId && t.created[i].role == "invigilator"
    {
      if i < |m.created| {
        assert t.created[i] == t.created[..|m.created|][i];
      }
    }
  }

  /** The duties of t after those of s are all for the given exam and room. */
  ghost predicate NewDutiesFor(s: State, t: State, examId: string, roomId: string)
  {
    && |s.created| <= |t.created|
    && t.created[..|s.created|] == s.created
    && forall i :: |s.created| <= i < |t.created| ==>
      t.created[i].exam == examId && t.created[i].room == roomId && t.created[i].role == "invigilator"
  }

  /** A faculty extension followed by a lab-technician one, for one room. */
  lemma AddsThenAdds(s: State, m: State, t: State, a: nat, b: nat, d1: string, d2: string, examId: string, roomId: string)
    requires Adds(s, m, a, d1, examId, roomId) && Adds(m, t, b, d2, examId, roomId)
    ensures NewDutiesFor(s, t, examId, roomId)
  {
    PrefixOfPrefix(s.created, m.created, t.created);
    forall i | |s.created| <= i < |t.created|
      ensures t.created[i].exam == examId && t.created[i].room == roomId && t.created[i].role == "invigilator"
    {
      if i < |m.created| {
        assert t.created[i] == t.created[..|m.created|][i];
      }
    }
  }

  /** Per room: at most one faculty duty, then at most the required number
      of lab-technician duties, all for the exam of the room's first seat
      allocation; a room without seat allocations gets nothing. */
  lemma RoomStepFacts(room: Room, allocations: seq<Allocation>, faculty: seq<Faculty>, labTech: seq<Faculty>, s: State)
    requires Consistent(s)
    ensures var t := RoomStep(room, allocations, faculty, labTech, s);
      var inRoom := SeatsInRoom(allocations, room.id);
      && Consistent(t)
      && (inRoom == [] ==> t == s)
      && (inRoom != [] ==>
        var s1 := Rounds(faculty, s, 1, "faculty", inRoom[0].exam.id, room.id);
        && Adds(s, s1, 1, "faculty", inRoom[0].exam.id, room.id)
        && Adds(s1, t, RequiredLabTech(|inRoom|), "lab technician", inRoom[0].exam.id, room.id)
        && NewDutiesFor(s, t, inRoom[0].exam.id, room.id))
  {
    var inRoom := SeatsInRoom(allocations, room.id);
    if inRoom != [] {
      var examId := inRoom[0].exam.id;
      RoundsFacts(faculty, s, 1, "faculty", examId, room.id);
      var s1 := Rounds(faculty, s, 1, "faculty", examId, room.id);
      RoundsFacts(labTech, s1, RequiredLabTech(|inRoom|), "lab technician", examId, room.id);
      var t := Rounds(labTech, s1, RequiredLabTech(|inRoom|), "lab technician", examId, room.id);
      AddsThenAdds(s, s1, t, 1, RequiredLabTech(|inRoom|), "faculty", "lab technician", examId, room.id);
    }
  }

  lemma {:induction false} AllRoomsConsistent(rooms: seq<Room>, allocations: seq<Allocation>, faculty: seq<Faculty>, labTech: seq<Faculty>, s: State)
    requires Consistent(s)
    ensures Consistent(AllRooms(rooms, allocations, faculty, labTech, s))
  {
    if rooms != [] {
      RoomStepFacts(rooms[0], allocations, faculty, labTech, s);
      AllRoomsConsistent(rooms[1..], allocations, faculty, labTech, RoomStep(rooms[0], allocations, faculty, labTech, s));
    }
  }

  /** Within one run nobody is given two duties, across rooms and across the
      two pools, even someone listed in both. */
  lemma NoIdTwice(rooms: seq<Room>, allocations: seq<Allocation>, faculty: seq<Faculty>, labTech: seq<Faculty>)
    ensures DistinctIds(AllRooms(rooms, allocations, faculty, labTech, State([], {})).created)
  {
    AllRoomsConsistent(rooms, allocations, faculty, labTech, State([], {}));
  }

  /** When the first unused candidate of a pool lacks an id or a name it is
      never marked used, so every pass for that pool picks it again and
      records nothing. */
  lemma {:induction false} HeadBlocksPool(pool: seq<Faculty>, s: State, n: nat, designation: string, examId: string, roomId: string)
    requires Unused(pool, s.used) != []
    requires Unused(pool, s.used)[0].facultyId == [] || Unused(pool, s.used)[0].facultyName == []
    ensures Rounds(pool, s, n, designation, examId, roomId) == s
    decreases n
  {
    if n > 0 {
      assert Round(pool, s, designation, examId, roomId) == s;
      HeadBlocksPool(pool, s, n - 1, designation, examId, roomId);
    }
  }

  /** The duty is for one of the rooms, that room holds students, and the
      exam is that of the room's first seat allocation. */
  ghost predicate BelongsToRoom(d: Duty, rooms: seq<Room>, allocations: seq<Allocation>)
  {
    d.role == "invigilator" &&
    exists k :: 0 <= k < |rooms| && d.room == rooms[k].id &&
      SeatsInRoom(allocations, rooms[k].id) != [] &&
      d.exam == SeatsInRoom(allocations, rooms[k].id)[0].exam.id
  }

  ghost predicate AllBelong(duties: seq<Duty>, from: nat, rooms: seq<Room>, allocations: seq<Allocation>)
  {
    forall i :: from <= i < |duties| ==> BelongsToRoom(duties[i], rooms, allocations)
  }

  /** Every duty created from state s on is for a listed room that holds
      students, for the exam of that room's first seat allocation. */
  lemma {:induction false} DutiesBelongToRooms(rooms: seq<Room>, allocations: seq<Allocation>, faculty: seq<Faculty>, labTech: seq<Faculty>, s: State)
    requires Consistent(s)
    ensures AllBelong(AllRooms(rooms, allocations, faculty, labTech, s).created, |s.created|, rooms, allocations)
  {
    if rooms != [] {
      var s1 := RoomStep(rooms[0], allocations, faculty, labTech, s);
      RoomStepFacts(rooms[0], allocations, faculty, labTech, s);
      DutiesBelongToRooms(rooms[1..], allocations, faculty, labTech, s1);
      var t := AllRooms(rooms[1..], allocations, faculty, labTech, s1);
      AllRoomsKeepsPrefix(rooms[1..], allocations, faculty, labTech, s1);
      forall i | |s.created| <= i < |t.created| ensures BelongsToRoom(t.created[i], rooms, allocations) {
        if i < |s1.created| {
          assert t.created[i] == t.created[..|s1.created|][i] == s1.created[i];
          var inRoom := SeatsInRoom(allocations, rooms[0].id);
          assert inRoom != [];
          assert NewDutiesFor(s, s1, inRoom[0].exam.id, rooms[0].id);
        } else {
          assert AllBelong(t.created, |s1.created|, rooms[1..], allocations);
          assert BelongsToRoom(t.created[i], rooms[1..], allocations);
          var k :| 0 <= k < |rooms[1..]| && t.created[i].room == rooms[1..][k].id &&
            SeatsInRoom(allocations, rooms[1..][k].id) != [] &&
            t.created[i].exam == SeatsInRoom(allocations, rooms[1..][k].id)[0].exam.id;
          assert rooms[1..][k] == rooms[k + 1];
        }
      }
    }
  }

  lemma {:induction false} AllRoomsKeepsPrefix(rooms: seq<Room>, allocations: seq<Allocation>, faculty: seq<Faculty>, labTech: seq<Faculty>, s: State)
    requires Consistent(s)
    ensures var t := AllRooms(rooms, allocations, faculty, labTech, s);
      |s.created| <= |t.created| && t.created[..|s.created|] == s.created
  {
    if rooms != [] {
      var s1 := RoomStep(rooms[0], allocations, faculty, labTech, s);
      RoomStepFacts(rooms[0], allocations, faculty, labTech, s);
      AllRoomsKeepsPrefix(rooms[1..], allocations, faculty, labTech, s1);
      var t := AllRooms(rooms[1..], allocations, faculty, labTech, s1);
      if SeatsInRoom(allocations, rooms[0].id) != [] {
        var examId := SeatsInRoom(allocations, rooms[0].id)[0].exam.id;
        var m := Rounds(faculty, s, 1, "faculty", examId, rooms[0].id);
        assert s1.created[..|s.created|] == s1.created[..|m.created|][..|s.created|];
      }
      assert t.created[..|s.created|] == t.created[..|s1.created|][..|s.created|];
    }
  }

  // ---------------------------------------------------------------------
  // The whole handler

  /** The outcome of smartAllocateFaculty, in the order of its checks.
      NothingCreated and Create both come after the request that clears the
      duties of the selected exams. */
  datatype Outcome =
    | NoFacultyList
    | NoDateOrTime
    | NoRoomsWithStudents
    | NoFacultyInPool
    | NoExamsAtSlot
    | ClearFailed(examIds: seq<string>)
    | NothingCreated(cleared: seq<string>)
    | Create(cleared: seq<string>, duties: seq<Duty>)

  predicate AtSlot(exam: Exam, day: Day, time: string)
  {
    exam.date == Some(day) && exam.time == time
  }

  function ExamsAtSlot(exams: seq<Exam>, day: Day, time: string): (r: seq<Exam>)
    ensures forall i :: 0 <= i < |r| ==> r[i] in exams && AtSlot(r[i], day, time)
    ensures forall i :: 0 <= i < |exams| && AtSlot(exams[i], day, time) ==> exams[i] in r
  {
    Filter(exams, e => AtSlot(e, day, time))
  }

  function ExamIds(exams: seq<Exam>): (r: seq<string>)
    ensures |r| == |exams| && forall i :: 0 <= i < |exams| ==> r[i] == exams[i].id
  {
    seq(|exams|, i requires 0 <= i < |exams| => exams[i].id)
  }

  /** The handler: selectedDate None is no date chosen, selectedTime "" no
      time chosen; shuffledFaculty and shuffledLabTech are the pools in the
      order the random shuffle left them; clearFails is the request that
      clears the slot's duties throwing, which ends the run in the catch. */
  method SmartAllocateFaculty(facultyList: seq<Faculty>, selectedDate: Option<Day>, selectedTime: string,
                              availableRooms: seq<Room>, exams: seq<Exam>, seatAllocations: seq<Allocation>,
                              shuffledFaculty: seq<Faculty>, shuffledLabTech: seq<Faculty>, clearFails: bool)
    returns (outcome: Outcome)
    requires multiset(shuffledFaculty) == multiset(FacultyPool(facultyList))
    requires multiset(shuffledLabTech) == multiset(LabPool(facultyList))
    ensures outcome.NoFacultyList? <==> facultyList == []
    ensures outcome.NoDateOrTime? <==> facultyList != [] && (selectedDate.None? || selectedTime == [])
    ensures outcome.NoRoomsWithStudents? <==>
      facultyList != [] && selectedDate.Some? && selectedTime != [] && availableRooms == []
    ensures outcome.NoFacultyInPool? <==>
      facultyList != [] && selectedDate.Some? && selectedTime != [] && availableRooms != [] &&
      FacultyPool(facultyList) == []
    ensures outcome.NoExamsAtSlot? <==>
      facultyList != [] && selectedDate.Some? && selectedTime != [] && availableRooms != [] &&
      FacultyPool(facultyList) != [] && ExamsAtSlot(exams, selectedDate.value, selectedTime) == []
    ensures outcome.ClearFailed? <==>
      && facultyList != [] && selectedDate.Some? && selectedTime != [] && availableRooms != []
      && FacultyPool(facultyList) != [] && ExamsAtSlot(exams, selectedDate.value, selectedTime) != []
      && clearFails
    ensures outcome.ClearFailed? ==>
      outcome.examIds == ExamIds(ExamsAtSlot(exams, selectedDate.value, selectedTime))
    ensures outcome.Create? ==>
      && !clearFails
      && FacultyPool(facultyList) != []
      && availableRooms != []
      && selectedDate.Some?
      && outcome.cleared == ExamIds(ExamsAtSlot(exams, selectedDate.value, selectedTime))
      && outcome.cleared != []
      && outcome.duties != []
      && outcome.duties == AllRooms(availableRooms, seatAllocations, shuffledFaculty, shuffledLabTech, State([], {})).created
      && DistinctIds(outcome.duties)
      && AllBelong(outcome.duties, 0, availableRooms, seatAllocations)
      && AllFromPool(outcome.duties, FacultyPool(facultyList), LabPool(facultyList))
    ensures outcome.NothingCreated? <==>
      && facultyList != [] && selectedDate.Some? && selectedTime != [] && availableRooms != []
      && FacultyPool(facultyList) != [] && ExamsAtSlot(exams, selectedDate.value, selectedTime) != []
      && !clearFails
      && AllRooms(availableRooms, seatAllocations, shuffledFaculty, shuffledLabTech, State([], {})).created == []
    ensures outcome.NothingCreated? ==>
      outcome.cleared == ExamIds(ExamsAtSlot(exams, selectedDate.value, selectedTime))
  {
    if |facultyList| == 0 {
      return NoFacultyList;
    }
    if selectedDate.None? || selectedTime == [] {
      return NoDateOrTime;
    }
    if |availableRooms| == 0 {
      return NoRoomsWithStudents;
    }
    var facultyPool := FacultyPool(facultyList);
    if |facultyPool| == 0 {
      return NoFacultyInPool;
    }
    var selectedExams := ExamsAtSlot(exams, selectedDate.value, selectedTime);
    if |selectedExams| == 0 {
      return NoExamsAtSlot;
    }
    var examIds := ExamIds(selectedExams);
    if clearFails {
      return ClearFailed(examIds);
    }
    var allocationsToCreate := AllocateInvigilators(availableRooms, seatAllocations, shuffledFaculty, shuffledLabTech);
    if |allocationsToCreate| == 0 {
      return NothingCreated(examIds);
    }
    DutiesBelongToRooms(availableRooms, seatAllocations, shuffledFaculty, shuffledLabTech, State([], {}));
    DutiesComeFromPools(availableRooms, seatAllocations, shuffledFaculty, shuffledLabTech, State([], {}));
    ShuffleKeepsPools(allocationsToCreate, shuffledFaculty, shuffledLabTech, facultyPool, LabPool(facultyList));
    return Create(examIds, allocationsToCreate);
  }

  /** The duty names a person of the pool its designation says. */
  ghost predicate FromPool(d: Duty, faculty: seq<Faculty>, labTech: seq<Faculty>)
  {
    (d.designation == "faculty" ==> exists f :: f in faculty && f.facultyId == d.facultyId && f.facultyName == d.facultyName) &&
    (d.designation == "lab technician" ==> exists f :: f in labTech && f.facultyId == d.facultyId && f.facultyName == d.facultyName)
  }

  ghost predicate AllFromPool(duties: seq<Duty>, faculty: seq<Faculty>, labTech: seq<Faculty>)
  {
    forall i :: 0 <= i < |duties| ==> FromPool(duties[i], faculty, labTech)
  }

  lemma {:induction false} RoundsFromPool(pool: seq<Faculty>, s: State, n: nat, designation: string, examId: string, roomId: string,
                                          faculty: seq<Faculty>, labTech: seq<Faculty>)
    requires (designation == "faculty" && pool == faculty) || (designation == "lab technician" && pool == labTech)
    requires AllFromPool(s.created, faculty, labTech)
    ensures AllFromPool(Rounds(pool, s, n, designation, examId, roomId).created, faculty, labTech)
    decreases n
  {
    if n > 0 {
      var s1 := Round(pool, s, designation, examId, roomId);
      var available := Unused(pool, s.used);
      if available != [] && Qualifies(available[0], examId, roomId) {
        var f := available[0];
        assert f in pool;
        forall i | 0 <= i < |s1.created| ensures FromPool(s1.created[i], faculty, labTech) {
          if i < |s.created| {
            assert s1.created[i] == s.created[i];
          }
        }
      }
      RoundsFromPool(pool, s1, n - 1, designation, examId, roomId, faculty, labTech);
    }
  }

  /** The shuffle only reorders: whoever is given a faculty duty is in the
      faculty pool, and whoever is given a lab duty is in the lab pool. */
  lemma {:induction false} DutiesComeFromPools(rooms: seq<Room>, allocations: seq<Allocation>, faculty: seq<Faculty>, labTech: seq<Faculty>, s: State)
    requires AllFromPool(s.created, faculty, labTech)
    ensures AllFromPool(AllRooms(rooms, allocations, faculty, labTech, s).created, faculty, labTech)
  {
    if rooms != [] {
      var inRoom := SeatsInRoom(allocations, rooms[0].id);
      if inRoom != [] {
        var examId := inRoom[0].exam.id;
        var s1 := Rounds(faculty, s, RequiredFaculty(|inRoom|), "faculty", examId, rooms[0].id);
        RoundsFromPool(faculty, s, RequiredFaculty(|inRoom|), "faculty", examId, rooms[0].id, faculty, labTech);
        RoundsFromPool(labTech, s1, RequiredLabTech(|inRoom|), "lab technician", examId, rooms[0].id, faculty, labTech);
      }
      DutiesComeFromPools(rooms[1..], allocations, faculty, labTech, RoomStep(rooms[0], allocations, faculty, labTech, s));
    }
  }

  /** A permutation of a pool has the same people: a duty drawn from the
      shuffled pools is drawn from the pools themselves. */
  lemma ShuffleKeepsPools(duties: seq<Duty>, faculty: seq<Faculty>, labTech: seq<Faculty>,
                          facultyPool: seq<Faculty>, labPool: seq<Faculty>)
    requires multiset(faculty) == multiset(facultyPool) && multiset(labTech) == multiset(labPool)
    requires AllFromPool(duties, faculty, labTech)
    ensures AllFromPool(duties, facultyPool, labPool)
  {
    forall i | 0 <= i < |duties| ensures FromPool(duties[i], facultyPool, labPool) {
      var d := duties[i];
      assert FromPool(d, faculty, labTech);
      if d.designation == "faculty" {
        var f :| f in faculty && f.facultyId == d.facultyId && f.facultyName == d.facultyName;
        assert f in multiset(facultyPool);
      }
      if d.designation == "lab technician" {
        var f :| f in labTech && f.facultyId == d.facultyId && f.facultyName == d.facultyName;
        assert f in multiset(labPool);
      }
    }
  }
}
