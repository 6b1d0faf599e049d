/** The seat-allocation library (src/utils/seatAllocation.js): placing the
    students of one exam into rooms, grouping the result by room, checking it
    for duplicate students, and ordering one room's seats bench by bench. */
module SeatAllocation {
  import opened Wrappers
  import opened Strings
  import opened Sequences
  import opened Records

  // ---------------------------------------------------------------------
  // Choosing and ordering the students

  /** The exam's cohort, by exact comparison: no trimming, no case folding. */
  predicate InCohort(st: Student, exam: Exam)
  {
    st.department == exam.department && st.semester == exam.semester
  }

  function Cohort(students: seq<Student>, exam: Exam): (r: seq<Student>)
    ensures |r| <= |students|
    ensures forall i :: 0 <= i < |r| ==> InCohort(r[i], exam) && r[i] in students
    ensures forall i :: 0 <= i < |students| && InCohort(students[i], exam) ==> students[i] in r
  {
    Filter(students, st => InCohort(st, exam))
  }

  /** Array.prototype.findIndex on the registration number: the first index
      holding regNo, or -1. */
  function FindIndexByRegNo(s: seq<Student>, regNo: string): (r: int)
    ensures -1 <= r < |s|
    ensures r == -1 ==> forall i :: 0 <= i < |s| ==> s[i].regNo != regNo
    ensures r >= 0 ==> s[r].regNo == regNo && forall i :: 0 <= i < r ==> s[i].regNo != regNo
  {
    if s == [] then -1
    else if s[0].regNo == regNo then 0
    else
      var k := FindIndexByRegNo(s[1..], regNo);
      if k == -1 then -1 else k + 1
  }

  /** The entries of self[from..] that sit at the first index of their
      registration number. */
  function KeepFirstFrom(self: seq<Student>, from: nat): seq<Student>
    requires from <= |self|
    decreases |self| - from
  {
    if from == |self| then []
    else
      (if FindIndexByRegNo(self, self[from].regNo) == from then [self[from]] else [])
      + KeepFirstFrom(self, from + 1)
  }

  /** `self.filter((s, index) => index === self.findIndex(t => t.regNo === s.regNo))`. */
  function KeepFirstByRegNo(self: seq<Student>): seq<Student>
  {
    KeepFirstFrom(self, 0)
  }

  /** s[i] is the first entry of s with its registration number. */
  ghost predicate FirstOfItsRegNo(s: seq<Student>, i: int)
    requires 0 <= i < |s|
  {
    forall j :: 0 <= j < i ==> s[j].regNo != s[i].regNo
  }

  /** x is an entry of self at or after from that is the first of its number. */
  ghost predicate KeptFrom(self: seq<Student>, from: nat, x: Student)
  {
    exists i :: from <= i < |self| && self[i] == x && FirstOfItsRegNo(self, i)
  }

  /** Every survivor of KeepFirstFrom is an entry at or after from that is
      the first of its number. */
  lemma {:induction false} KeepFirstFromOrigin(self: seq<Student>, from: nat)
    requires from <= |self|
    ensures forall k :: 0 <= k < |KeepFirstFrom(self, from)| ==> KeptFrom(self, from, KeepFirstFrom(self, from)[k])
    decreases |self| - from
  {
    if from < |self| {
      KeepFirstFromOrigin(self, from + 1);
      var rest := KeepFirstFrom(self, from + 1);
      if FindIndexByRegNo(self, self[from].regNo) == from {
        var r := [self[from]] + rest;
        assert r == KeepFirstFrom(self, from);
        forall k | 0 <= k < |r| ensures KeptFrom(self, from, r[k]) {
          if k == 0 {
            assert FirstOfItsRegNo(self, from);
          } else {
            assert r[k] == rest[k - 1];
            assert KeptFrom(self, from + 1, rest[k - 1]);
            var i :| from + 1 <= i < |self| && self[i] == rest[k - 1] && FirstOfItsRegNo(self, i);
          }
        }
      } else {
        forall k | 0 <= k < |rest| ensures KeptFrom(self, from, rest[k]) {
          assert KeptFrom(self, from + 1, rest[k]);
          var i :| from + 1 <= i < |self| && self[i] == rest[k] && FirstOfItsRegNo(self, i);
        }
      }
    }
  }

  /** No registration number occurs twice. */
  ghost predicate DistinctRegNos(s: seq<Student>)
  {
    forall j, k :: 0 <= j < k < |s| ==> s[j].regNo != s[k].regNo
  }

  lemma {:induction false} KeepFirstFromDistinct(self: seq<Student>, from: nat)
    requires from <= |self|
    ensures DistinctRegNos(KeepFirstFrom(self, from))
    decreases |self| - from
  {
    if from < |self| {
      KeepFirstFromDistinct(self, from + 1);
      var rest := KeepFirstFrom(self, from + 1);
      if FindIndexByRegNo(self, self[from].regNo) == from {
        KeepFirstFromOrigin(self, from + 1);
        // a later survivor is the first of its own number, so it cannot
        // share self[from]'s number
        forall k | 0 <= k < |rest| ensures rest[k].regNo != self[from].regNo {
          assert KeptFrom(self, from + 1, rest[k]);
          var i :| from + 1 <= i < |self| && self[i] == rest[k] && FirstOfItsRegNo(self, i);
          assert self[from].regNo != self[i].regNo;
        }
        var r := [self[from]] + rest;
        assert r == KeepFirstFrom(self, from);
        forall j, k | 0 <= j < k < |r| ensures r[j].regNo != r[k].regNo {
          assert r[k] == rest[k - 1];
          if j > 0 { assert r[j] == rest[j - 1]; }
        }
        assert DistinctRegNos(r);
      }
    }
  }

  lemma {:induction false} KeepFirstFromComplete(self: seq<Student>, from: nat)
    requires from <= |self|
    ensures forall i :: from <= i < |self| && FirstOfItsRegNo(self, i) ==> self[i] in KeepFirstFrom(self, from)
    decreases |self| - from
  {
    if from < |self| {
      KeepFirstFromComplete(self, from + 1);
      if FindIndexByRegNo(self, self[from].regNo) != from {
        var f := FindIndexByRegNo(self, self[from].regNo);
        assert f < from;
        assert !FirstOfItsRegNo(self, from);
      }
    }
  }

  /** Removing duplicates keeps exactly the first record of every
      registration number: the survivors have pairwise distinct numbers, each
      is the first of its number in the input, and every first occurrence
      survives. */
  lemma KeepFirstByRegNoFacts(self: seq<Student>)
    ensures var r := KeepFirstByRegNo(self);
      && |r| <= |self|
      && (forall j, k :: 0 <= j < k < |r| ==> r[j].regNo != r[k].regNo)
      && (forall k :: 0 <= k < |r| ==> exists i :: 0 <= i < |self| && self[i] == r[k] && FirstOfItsRegNo(self, i))
      && (forall i :: 0 <= i < |self| && FirstOfItsRegNo(self, i) ==> self[i] in r)
  {
    KeepFirstFromOrigin(self, 0);
    KeepFirstFromDistinct(self, 0);
    KeepFirstFromComplete(self, 0);
    KeepFirstFromLength(self, 0);
  }

  lemma {:induction false} KeepFirstFromLength(self: seq<Student>, from: nat)
    requires from <= |self|
    ensures |KeepFirstFrom(self, from)| <= |self| - from
    decreases |self| - from
  {
    if from < |self| {
      KeepFirstFromLength(self, from + 1);
    }
  }

  /** `a.regNo.localeCompare(b.regNo) <= 0`. */
  predicate RegNoLe(a: Student, b: Student)
  {
    LexLe(a.regNo, b.regNo)
  }

  lemma RegNoLePreorder(s: seq<Student>)
    ensures PreorderOn(RegNoLe, s)
  {
    forall x, y | x in s && y in s ensures RegNoLe(x, y) || RegNoLe(y, x) {
      LexLeTotal(x.regNo, y.regNo);
    }
    forall x, y, z | x in s && y in s && z in s && RegNoLe(x, y) && RegNoLe(y, z)
      ensures RegNoLe(x, z)
    {
      LexLeTransitive(x.regNo, y.regNo, z.regNo);
    }
  }

  /** The students the allocator places, in the order it places them. */
  function SortedCohort(students: seq<Student>, exam: Exam): seq<Student>
  {
    SortBy(KeepFirstByRegNo(Cohort(students, exam)), RegNoLe)
  }

  function RegNoOf(s: Student): string
  {
    s.regNo
  }

  /** The students to place: all from the exam's cohort, one per registration
      number, in strictly ascending registration-number order. */
  lemma SortedCohortFacts(students: seq<Student>, exam: Exam)
    ensures var r := SortedCohort(students, exam);
      && |r| == |KeepFirstByRegNo(Cohort(students, exam))|
      && (forall k :: 0 <= k < |r| ==> r[k] in students && InCohort(r[k], exam))
      && (forall j, k :: 0 <= j < k < |r| ==> LexLe(r[j].regNo, r[k].regNo) && r[j].regNo != r[k].regNo)
  {
    var c := Cohort(students, exam);
    var u := KeepFirstByRegNo(c);
    var r := SortBy(u, RegNoLe);
    KeepFirstByRegNoFacts(c);
    assert DistinctBy(u, RegNoOf);
    SortByDistinct(u, RegNoLe, RegNoOf);
    RegNoLePreorder(u);
    SortBySorted(u, RegNoLe);
    forall k | 0 <= k < |r| ensures r[k] in students && InCohort(r[k], exam) {
      assert r[k] in multiset(u);
      var m :| 0 <= m < |u| && u[m] == r[k];
      var i :| 0 <= i < |c| && c[i] == u[m] && FirstOfItsRegNo(c, i);
    }
    forall j, k | 0 <= j < k < |r| ensures LexLe(r[j].regNo, r[k].regNo) && r[j].regNo != r[k].regNo {
      assert RegNoOf(r[j]) != RegNoOf(r[k]);
    }
  }

  // ---------------------------------------------------------------------
  // Ordering the rooms and filling them

  /** `a.capacity - b.capacity <= 0`. */
  predicate CapacityLe(a: Room, b: Room)
  {
    a.capacity <= b.capacity
  }

  lemma CapacityLePreorder(s: seq<Room>)
    ensures PreorderOn(CapacityLe, s)
  {
  }

  /** How many students a room takes: `for (i = 0; i < capacity ...)` runs
      no times for a capacity that is zero or negative. */
  function Seats(room: Room): nat
  {
    if room.capacity < 0 then 0 else room.capacity
  }

  function TotalCapacity(rooms: seq<Room>): nat
  {
    if rooms == [] then 0 else Seats(rooms[0]) + TotalCapacity(rooms[1..])
  }

  lemma {:induction false} TotalCapacityInsert(x: Room, s: seq<Room>, le: (Room, Room) -> bool)
    ensures TotalCapacity(Insert(x, s, le)) == Seats(x) + TotalCapacity(s)
  {
    if s != [] && !le(x, s[0]) {
      TotalCapacityInsert(x, s[1..], le);
      assert ([s[0]] + Insert(x, s[1..], le))[1..] == Insert(x, s[1..], le);
    }
  }

  /** Reordering the rooms does not change their total capacity. */
  lemma {:induction false} TotalCapacitySortBy(s: seq<Room>, le: (Room, Room) -> bool)
    ensures TotalCapacity(SortBy(s, le)) == TotalCapacity(s)
  {
    if s != [] {
      TotalCapacitySortBy(s[1..], le);
      TotalCapacityInsert(s[0], SortBy(s[1..], le), le);
    }
  }

  function Min(a: int, b: int): int
  {
    if a <= b then a else b
  }

  /** `${i % 2 === 0 ? 'A' : 'B'}${Math.floor(i / 2) + 1}`: two students per
      bench, the first on side A. */
  function SeatLabel(i: nat): string
  {
    [if i % 2 == 0 then 'A' else 'B'] + NatToString(i / 2 + 1)
  }

  /** Two placements in one room never share a label. */
  lemma SeatLabelInjective(i: nat, j: nat)
    requires SeatLabel(i) == SeatLabel(j)
    ensures i == j
  {
    assert SeatLabel(i)[0] == SeatLabel(j)[0];
    assert SeatLabel(i)[1..] == NatToString(i / 2 + 1);
    assert SeatLabel(j)[1..] == NatToString(j / 2 + 1);
    NatToStringInjective(i / 2 + 1, j / 2 + 1);
  }

  /** The allocations for one room: the i-th student gets SeatLabel(i). */
  function RoomBlock(students: seq<Student>, room: Room, exam: Exam): (r: seq<Allocation>)
    ensures |r| == |students|
  {
    seq(|students|, i requires 0 <= i < |students| =>
      Allocation(students[i], room, exam, SeatLabel(i)))
  }

  /** The allocator's result for students already ordered and rooms already
      ordered: each room in turn takes the next students, up to its seats. */
  function Fill(students: seq<Student>, rooms: seq<Room>, exam: Exam): seq<Allocation>
    decreases |rooms|
  {
    if students == [] || rooms == [] then []
    else
      var n := Min(Seats(rooms[0]), |students|);
      RoomBlock(students[..n], rooms[0], exam) + Fill(students[n..], rooms[1..], exam)
  }

  /** The number of allocations in room. */
  function CountRoom(allocations: seq<Allocation>, room: Room): nat
  {
    if allocations == [] then 0
    else (if allocations[0].room == room then 1 else 0) + CountRoom(allocations[1..], room)
  }

  lemma {:induction false} CountRoomConcat(a: seq<Allocation>, b: seq<Allocation>, room: Room)
    ensures CountRoom(a + b, room) == CountRoom(a, room) + CountRoom(b, room)
  {
    if a == [] {
      assert a + b == b;
    } else {
      assert (a + b)[1..] == a[1..] + b;
      CountRoomConcat(a[1..], b, room);
    }
  }

  lemma {:induction false} CountRoomUniform(a: seq<Allocation>, r: Room, room: Room)
    requires forall i :: 0 <= i < |a| ==> a[i].room == r
    ensures CountRoom(a, room) == if r == room then |a| else 0
  {
    if a != [] {
      CountRoomUniform(a[1..], r, room);
    }
  }

  /** Everyone is placed while seats last: the result has
      min(#students, total seats) entries. */
  lemma {:induction false} FillLength(students: seq<Student>, rooms: seq<Room>, exam: Exam)
    ensures |Fill(students, rooms, exam)| == Min(|students|, TotalCapacity(rooms))
    decreases |rooms|
  {
    if students != [] && rooms != [] {
      var n := Min(Seats(rooms[0]), |students|);
      FillLength(students[n..], rooms[1..], exam);
    }
  }

  /** The k-th allocation seats the k-th student, for the given exam, in one
      of the given rooms; so the students come out in input order, each once. */
  lemma {:induction false} FillAt(students: seq<Student>, rooms: seq<Room>, exam: Exam, k: nat)
    requires k < |Fill(students, rooms, exam)|
    ensures k < |students|
    ensures Fill(students, rooms, exam)[k].student == students[k]
    ensures Fill(students, rooms, exam)[k].exam == exam
    ensures Fill(students, rooms, exam)[k].room in rooms
    decreases |rooms|
  {
    var n := Min(Seats(rooms[0]), |students|);
    var block := RoomBlock(students[..n], rooms[0], exam);
    var rest := Fill(students[n..], rooms[1..], exam);
    if k >= n {
      FillAt(students[n..], rooms[1..], exam, k - n);
      assert Fill(students, rooms, exam)[k] == rest[k - n];
    }
  }

  /** The rooms of the allocations, read in order, have non-decreasing
      capacity. */
  ghost predicate CapacityOrdered(f: seq<Allocation>)
  {
    forall j, k :: 0 <= j < k < |f| ==> f[j].room.capacity <= f[k].room.capacity
  }

  /** Rooms are used in the order given: with rooms sorted by capacity, the
      allocations come out in non-decreasing room capacity. */
  lemma {:induction false} FillRoomOrder(students: seq<Student>, rooms: seq<Room>, exam: Exam)
    requires SortedBy(rooms, CapacityLe)
    ensures CapacityOrdered(Fill(students, rooms, exam))
    decreases |rooms|
  {
    if students != [] && rooms != [] {
      var n := Min(Seats(rooms[0]), |students|);
      var block := RoomBlock(students[..n], rooms[0], exam);
      var rest := Fill(students[n..], rooms[1..], exam);
      assert Fill(students, rooms, exam) == block + rest;
      assert SortedBy(rooms[1..], CapacityLe);
      FillRoomOrder(students[n..], rooms[1..], exam);
      forall k | 0 <= k < |rest| ensures rooms[0].capacity <= rest[k].room.capacity {
        FillAt(students[n..], rooms[1..], exam, k);
        var m :| 0 <= m < |rooms[1..]| && rooms[1..][m] == rest[k].room;
        assert CapacityLe(rooms[0], rooms[m + 1]);
      }
      BlockThenLarger(block, rest, rooms[0]);
    }
  }

  lemma BlockThenLarger(block: seq<Allocation>, rest: seq<Allocation>, r: Room)
    requires forall i :: 0 <= i < |block| ==> block[i].room == r
    requires forall k :: 0 <= k < |rest| ==> r.capacity <= rest[k].room.capacity
    requires CapacityOrdered(rest)
    ensures CapacityOrdered(block + rest)
  {
    var f := block + rest;
    forall j, k | 0 <= j < k < |f| ensures f[j].room.capacity <= f[k].room.capacity {
      if k >= |block| {
        assert f[k] == rest[k - |block|];
        if j >= |block| {
          assert f[j] == rest[j - |block|];
        }
      }
    }
  }

  /** No room entry is listed twice. */
  ghost predicate DistinctRooms(rooms: seq<Room>)
  {
    forall i, j :: 0 <= i < j < |rooms| ==> rooms[i] != rooms[j]
  }

  /** Capacity bound: a room listed once holds at most its capacity, a room
      not listed holds nobody. */
  lemma {:induction false} FillCapacity(students: seq<Student>, rooms: seq<Room>, exam: Exam, room: Room)
    requires DistinctRooms(rooms)
    ensures CountRoom(Fill(students, rooms, exam), room) <= if room in rooms then Seats(room) else 0
    decreases |rooms|
  {
    if students != [] && rooms != [] {
      var n := Min(Seats(rooms[0]), |students|);
      var block := RoomBlock(students[..n], rooms[0], exam);
      var rest := Fill(students[n..], rooms[1..], exam);
      assert DistinctRooms(rooms[1..]);
      FillCapacity(students[n..], rooms[1..], exam, room);
      CountRoomConcat(block, rest, room);
      CountRoomUniform(block, rooms[0], room);
      if room == rooms[0] {
        forall m | 0 <= m < |rooms[1..]| ensures rooms[1..][m] != room {
          assert rooms[1..][m] == rooms[m + 1];
        }
      } else if room in rooms[1..] {
        assert room in rooms;
      }
    }
  }

  /** The i-th student placed in a room gets SeatLabel(i): allocation k's
      label is SeatLabel of the number of earlier allocations in its room. */
  lemma {:induction false} FillLabels(students: seq<Student>, rooms: seq<Room>, exam: Exam, k: nat)
    requires DistinctRooms(rooms)
    requires k < |Fill(students, rooms, exam)|
    ensures var f := Fill(students, rooms, exam);
      f[k].seatNumber == SeatLabel(CountRoom(f[..k], f[k].room))
    decreases |rooms|
  {
    var n := Min(Seats(rooms[0]), |students|);
    var block := RoomBlock(students[..n], rooms[0], exam);
    var rest := Fill(students[n..], rooms[1..], exam);
    assert Fill(students, rooms, exam) == block + rest;
    if k < n {
      BlockLabels(students[..n], rooms[0], exam, rest, k);
    } else {
      DistinctRoomsTail(rooms);
      FillLabels(students[n..], rooms[1..], exam, k - n);
      FillAt(students[n..], rooms[1..], exam, k - n);
      assert |block| == n && forall i :: 0 <= i < |block| ==> block[i].room == rooms[0];
      LaterRoomLabel(block, rest, rooms, k);
    }
  }

  lemma DistinctRoomsTail(rooms: seq<Room>)
    requires rooms != [] && DistinctRooms(rooms)
    ensures DistinctRooms(rooms[1..])
  {
    forall i, j | 0 <= i < j < |rooms[1..]| ensures rooms[1..][i] != rooms[1..][j] {
      assert rooms[1..][i] == rooms[i + 1] && rooms[1..][j] == rooms[j + 1];
    }
  }

  /** An allocation placed after the first room's block keeps the label it
      had among the later rooms. */
  lemma LaterRoomLabel(block: seq<Allocation>, rest: seq<Allocation>, rooms: seq<Room>, k: nat)
    requires rooms != [] && DistinctRooms(rooms)
    requires |block| <= k < |block| + |rest|
    requires forall i :: 0 <= i < |block| ==> block[i].room == rooms[0]
    requires rest[k - |block|].room in rooms[1..]
    requires rest[k - |block|].seatNumber == SeatLabel(CountRoom(rest[..k - |block|], rest[k - |block|].room))
    ensures var f := block + rest;
      f[k].seatNumber == SeatLabel(CountRoom(f[..k], f[k].room))
  {
    LaterRoomNotFirst(rooms, rest[k - |block|].room);
    AfterBlockLabels(block, rooms[0], rest, k - |block|);
  }

  lemma LaterRoomNotFirst(rooms: seq<Room>, room: Room)
    requires rooms != [] && DistinctRooms(rooms) && room in rooms[1..]
    ensures room != rooms[0]
  {
    var m :| 0 <= m < |rooms[1..]| && rooms[1..][m] == room;
    assert rooms[m + 1] == room;
  }

  lemma BlockLabels(students: seq<Student>, room: Room, exam: Exam, rest: seq<Allocation>, k: nat)
    requires k < |students|
    ensures var f := RoomBlock(students, room, exam) + rest;
      f[k].seatNumber == SeatLabel(CountRoom(f[..k], f[k].room))
  {
    var block := RoomBlock(students, room, exam);
    var f := block + rest;
    assert f[..k] == block[..k];
    CountRoomUniform(block[..k], room, room);
  }

  lemma AfterBlockLabels(block: seq<Allocation>, r: Room, rest: seq<Allocation>, k: nat)
    requires forall i :: 0 <= i < |block| ==> block[i].room == r
    requires k < |rest| && rest[k].room != r
    requires rest[k].seatNumber == SeatLabel(CountRoom(rest[..k], rest[k].room))
    ensures var f := block + rest;
      f[|block| + k].seatNumber == SeatLabel(CountRoom(f[..|block| + k], f[|block| + k].room))
  {
    var f := block + rest;
    assert f[|block| + k] == rest[k];
    assert f[..|block| + k] == block + rest[..k];
    CountRoomConcat(block, rest[..k], rest[k].room);
    CountRoomUniform(block, r, rest[k].room);
  }

  /** No two allocations share a (room, seat label) pair. */
  lemma FillSeatsDistinct(students: seq<Student>, rooms: seq<Room>, exam: Exam, j: nat, k: nat)
    requires DistinctRooms(rooms)
    requires j < k < |Fill(students, rooms, exam)|
    requires Fill(students, rooms, exam)[j].room == Fill(students, rooms, exam)[k].room
    ensures Fill(students, rooms, exam)[j].seatNumber != Fill(students, rooms, exam)[k].seatNumber
  {
    var f := Fill(students, rooms, exam);
    var room := f[k].room;
    FillLabels(students, rooms, exam, j);
    FillLabels(students, rooms, exam, k);
    assert f[..k] == f[..j] + f[j..k];
    CountRoomConcat(f[..j], f[j..k], room);
    assert CountRoom(f[j..k], room) >= 1;
    if f[j].seatNumber == f[k].seatNumber {
      SeatLabelInjective(CountRoom(f[..j], room), CountRoom(f[..k], room));
    }
  }

  lemma RoomBlockSnoc(s: seq<Student>, start: nat, j: nat, room: Room, exam: Exam)
    requires start <= j < |s|
    ensures RoomBlock(s[start..j + 1], room, exam) ==
      RoomBlock(s[start..j], room, exam) + [Allocation(s[j], room, exam, SeatLabel(j - start))]
  {
  }

  /** One pass of the outer loop: room r takes the next min(seats, left)
      students starting at start. */
  lemma FillStep(s: seq<Student>, rooms: seq<Room>, exam: Exam, start: nat, r: nat)
    requires start < |s| && r < |rooms|
    ensures var n := Min(Seats(rooms[r]), |s| - start);
      Fill(s[start..], rooms[r..], exam) ==
      RoomBlock(s[start..start + n], rooms[r], exam) + Fill(s[start + n..], rooms[r + 1..], exam)
  {
    var n := Min(Seats(rooms[r]), |s| - start);
    assert s[start..][..n] == s[start..start + n];
    assert s[start..][n..] == s[start + n..];
    assert rooms[r..][1..] == rooms[r + 1..];
  }

  /** One pass of the room loop moves one room's block from the rest of the
      fill to the allocations made so far. */
  lemma FillAppend(done: seq<Allocation>, s: seq<Student>, rooms: seq<Room>, exam: Exam,
                   start: nat, r: nat, block: seq<Allocation>, next: nat)
    requires start < |s| && r < |rooms|
    requires next == start + Min(Seats(rooms[r]), |s| - start)
    requires block == RoomBlock(s[start..next], rooms[r], exam)
    ensures done + Fill(s[start..], rooms[r..], exam) == (done + block) + Fill(s[next..], rooms[r + 1..], exam)
  {
    var later := Fill(s[next..], rooms[r + 1..], exam);
    assert Fill(s[start..], rooms[r..], exam) == block + later by {
      FillStep(s, rooms, exam, start, r);
    }
    ConcatAssociative(done, block, later);
  }

  /** allocateSeatsForExam: filter the cohort, drop repeated registration
      numbers, sort students by registration number and a copy of the rooms by
      capacity, then fill the rooms in order with a shared student cursor. */
  method AllocateSeatsForExam(students: seq<Student>, rooms: seq<Room>, exam: Exam)
    returns (allocations: seq<Allocation>)
    ensures allocations == Fill(SortedCohort(students, exam), SortBy(rooms, CapacityLe), exam)
    ensures |allocations| == Min(|KeepFirstByRegNo(Cohort(students, exam))|, TotalCapacity(rooms))
    ensures forall k :: 0 <= k < |allocations| ==>
      && allocations[k].student == SortedCohort(students, exam)[k]
      && allocations[k].student.department == exam.department
      && allocations[k].student.semester == exam.semester
      && allocations[k].exam == exam
      && allocations[k].room in rooms
    ensures forall j, k :: 0 <= j < k < |allocations| ==>
      && LexLe(allocations[j].student.regNo, allocations[k].student.regNo)
      && allocations[j].student.regNo != allocations[k].student.regNo
      && allocations[j].room.capacity <= allocations[k].room.capacity
  {
    var eligibleStudents := Cohort(students, exam);
    var uniqueStudents := KeepFirstByRegNo(eligibleStudents);
    var sortedStudents := SortBy(uniqueStudents, RegNoLe);
    var sortedRooms := SortBy(rooms, CapacityLe);
    allocations := FillInOrder(sortedStudents, sortedRooms, exam);
    AllocationFacts(students, rooms, exam);
  }

  /** The loops of allocateSeatsForExam over the sorted students and rooms:
      a shared student cursor; each room takes students until it is full or
      they run out; no room is visited once they have run out. */
  method FillInOrder(sortedStudents: seq<Student>, sortedRooms: seq<Room>, exam: Exam)
    returns (allocations: seq<Allocation>)
    ensures allocations == Fill(sortedStudents, sortedRooms, exam)
  {
    ghost var target := Fill(sortedStudents, sortedRooms, exam);

    allocations := [];
    var studentIndex := 0;
    var r := 0;
    while r < |sortedRooms|
      invariant 0 <= r <= |sortedRooms|
      invariant 0 <= studentIndex <= |sortedStudents|
      invariant allocations + Fill(sortedStudents[studentIndex..], sortedRooms[r..], exam) == target
    {
      if studentIndex >= |sortedStudents| {
        break;
      }
      var room := sortedRooms[r];
      ghost var start := studentIndex;
      var studentsForRoom;
      studentsForRoom, studentIndex := SeatRoom(sortedStudents, studentIndex, room, exam);
      FillAppend(allocations, sortedStudents, sortedRooms, exam, start, r, studentsForRoom, studentIndex);
      allocations := allocations + studentsForRoom;
      r := r + 1;
    }
    assert Fill(sortedStudents[studentIndex..], sortedRooms[r..], exam) == [];
  }

  /** The inner loop of allocateSeatsForExam: room takes the students from
      the cursor on, one seat at a time, until it is full or they run out. */
  method SeatRoom(sortedStudents: seq<Student>, start: nat, room: Room, exam: Exam)
    returns (studentsForRoom: seq<Allocation>, studentIndex: nat)
    requires start <= |sortedStudents|
    ensures studentIndex == start + Min(Seats(room), |sortedStudents| - start)
    ensures studentsForRoom == RoomBlock(sortedStudents[start..studentIndex], room, exam)
  {
    var roomCapacity := room.capacity;
    studentsForRoom := [];
    studentIndex := start;
    var i := 0;
    while i < roomCapacity && studentIndex < |sortedStudents|
      invariant 0 <= i <= Seats(room)
      invariant studentIndex == start + i <= |sortedStudents|
      invariant studentsForRoom == RoomBlock(sortedStudents[start..studentIndex], room, exam)
    {
      RoomBlockSnoc(sortedStudents, start, studentIndex, room, exam);
      studentsForRoom := studentsForRoom +
        [Allocation(sortedStudents[studentIndex], room, exam, SeatLabel(i))];
      studentIndex := studentIndex + 1;
      i := i + 1;
    }
  }

  /** What the fill promises for sorted students and sorted rooms. */
  lemma AllocationFacts(students: seq<Student>, rooms: seq<Room>, exam: Exam)
    ensures var s := SortedCohort(students, exam);
      var f := Fill(s, SortBy(rooms, CapacityLe), exam);
      && |f| == Min(|KeepFirstByRegNo(Cohort(students, exam))|, TotalCapacity(rooms))
      && (forall k :: 0 <= k < |f| ==>
        && f[k].student == s[k]
        && f[k].student.department == exam.department
        && f[k].student.semester == exam.semester
        && f[k].exam == exam
        && f[k].room in rooms)
      && (forall j, k :: 0 <= j < k < |f| ==>
        && LexLe(f[j].student.regNo, f[k].student.regNo)
        && f[j].student.regNo != f[k].student.regNo
        && f[j].room.capacity <= f[k].room.capacity)
  {
    var s := SortedCohort(students, exam);
    var sr := SortBy(rooms, CapacityLe);
    var f := Fill(s, sr, exam);
    FillLength(s, sr, exam);
    SortedCohortFacts(students, exam);
    TotalCapacitySortBy(rooms, CapacityLe);
    CapacityLePreorder(rooms);
    SortBySorted(rooms, CapacityLe);
    FillRoomOrder(s, sr, exam);
    forall k | 0 <= k < |f| ensures f[k].student == s[k] && f[k].exam == exam && f[k].room in rooms {
      FillAt(s, sr, exam, k);
      assert f[k].room in multiset(sr);
    }
    forall j, k | 0 <= j < k < |f|
      ensures LexLe(f[j].student.regNo, f[k].student.regNo) && f[j].student.regNo != f[k].student.regNo
    {
      FillAt(s, sr, exam, j);
      FillAt(s, sr, exam, k);
    }
  }

  /** With no room entry repeated, the allocator's result stays within every
      room's capacity and gives every seat label at most once per room. */
  lemma AllocationWithinRooms(students: seq<Student>, rooms: seq<Room>, exam: Exam)
    requires DistinctRooms(rooms)
    ensures var f := Fill(SortedCohort(students, exam), SortBy(rooms, CapacityLe), exam);
      && (forall room :: CountRoom(f, room) <= if room in rooms then Seats(room) else 0)
      && (forall j, k :: 0 <= j < k < |f| && f[j].room == f[k].room ==> f[j].seatNumber != f[k].seatNumber)
  {
    var s := SortedCohort(students, exam);
    var sr := SortBy(rooms, CapacityLe);
    var f := Fill(s, sr, exam);
    SortByDistinct(rooms, CapacityLe, (x: Room) => x);
    assert DistinctRooms(sr) by {
      forall i, j | 0 <= i < j < |sr| ensures sr[i] != sr[j] {
        assert ((x: Room) => x)(sr[i]) != ((x: Room) => x)(sr[j]);
      }
    }
    forall room ensures CountRoom(f, room) <= if room in rooms then Seats(room) else 0 {
      FillCapacity(s, sr, exam, room);
      assert room in sr <==> room in multiset(rooms);
    }
    forall j, k | 0 <= j < k < |f| && f[j].room == f[k].room ensures f[j].seatNumber != f[k].seatNumber {
      FillSeatsDistinct(s, sr, exam, j, k);
    }
  }

  // ---------------------------------------------------------------------
  // Checking a result

  datatype Validation = Validation(isValid: bool, allocatedCount: nat, totalCount: int, duplicatesFound: bool)

  function RegNos(allocations: seq<Allocation>): (r: seq<string>)
    ensures |r| == |allocations|
    ensures forall i :: 0 <= i < |r| ==> r[i] == allocations[i].student.regNo
  {
    seq(|allocations|, i requires 0 <= i < |allocations| => allocations[i].student.regNo)
  }

  /** `new Set(xs)`. */
  function ToSet(xs: seq<string>): set<string>
  {
    set i | 0 <= i < |xs| :: xs[i]
  }

  ghost predicate Distinct(xs: seq<string>)
  {
    forall i, j :: 0 <= i < j < |xs| ==> xs[i] != xs[j]
  }

  /** A list has as many distinct values as entries exactly when no value
      repeats. */
  lemma {:induction false} SetSizeDistinct(xs: seq<string>)
    ensures |ToSet(xs)| <= |xs|
    ensures |ToSet(xs)| == |xs| <==> Distinct(xs)
  {
    if xs != [] {
      var tail := xs[1..];
      SetSizeDistinct(tail);
      assert ToSet(xs) == {xs[0]} + ToSet(tail) by {
        forall v | v in ToSet(xs) ensures v in {xs[0]} + ToSet(tail) {
          var i :| 0 <= i < |xs| && xs[i] == v;
          if i > 0 { assert tail[i - 1] == v; }
        }
        forall v | v in ToSet(tail) ensures v in ToSet(xs) {
          var i :| 0 <= i < |tail| && tail[i] == v;
          assert xs[i + 1] == v;
        }
      }
      if xs[0] in ToSet(tail) {
        var i :| 0 <= i < |tail| && tail[i] == xs[0];
        assert xs[0] == xs[i + 1];
        assert !Distinct(xs);
      } else {
        assert Distinct(xs) <==> Distinct(tail) by {
          if Distinct(tail) {
            forall i, j | 0 <= i < j < |xs| ensures xs[i] != xs[j] {
              if i == 0 {
                assert tail[j - 1] == xs[j];
              } else {
                assert tail[i - 1] == xs[i] && tail[j - 1] == xs[j];
              }
            }
          }
          if Distinct(xs) {
            forall i, j | 0 <= i < j < |tail| ensures tail[i] != tail[j] {
              assert xs[i + 1] == tail[i] && xs[j + 1] == tail[j];
            }
          }
        }
      }
    } else {
      assert ToSet(xs) == {};
    }
  }

  /** validateAllocation: valid exactly when no registration number repeats;
      the duplicate flag is the negation; the counts are passed through. */
  function ValidateAllocation(allocations: seq<Allocation>, totalStudents: int): (v: Validation)
    ensures v.isValid <==> forall i, j :: 0 <= i < j < |allocations| ==>
      allocations[i].student.regNo != allocations[j].student.regNo
    ensures v.duplicatesFound == !v.isValid
    ensures v.allocatedCount == |allocations| && v.totalCount == totalStudents
  {
    var allocatedStudents := |allocations|;
    var uniqueStudents := |ToSet(RegNos(allocations))|;
    SetSizeDistinct(RegNos(allocations));
    Validation(allocatedStudents == uniqueStudents, allocatedStudents, totalStudents,
      allocatedStudents != uniqueStudents)
  }

  /** The allocator's own output always passes the validator. */
  lemma AllocationIsValid(students: seq<Student>, rooms: seq<Room>, exam: Exam, totalStudents: int)
    ensures ValidateAllocation(Fill(SortedCohort(students, exam), SortBy(rooms, CapacityLe), exam), totalStudents).isValid
  {
    var s := SortedCohort(students, exam);
    var f := Fill(s, SortBy(rooms, CapacityLe), exam);
    SortedCohortFacts(students, exam);
    forall i, j | 0 <= i < j < |f| ensures f[i].student.regNo != f[j].student.regNo {
      FillAt(s, SortBy(rooms, CapacityLe), exam, i);
      FillAt(s, SortBy(rooms, CapacityLe), exam, j);
    }
  }

  // ---------------------------------------------------------------------
  // Grouping by room

  /** The allocations whose room has number roomNo, in input order. */
  function InRoom(allocations: seq<Allocation>, roomNo: string): (r: seq<Allocation>)
    ensures |r| <= |allocations|
  {
    if allocations == [] then []
    else
      (if allocations[0].room.roomNo == roomNo then [allocations[0]] else [])
      + InRoom(allocations[1..], roomNo)
  }

  lemma {:induction false} InRoomConcat(a: seq<Allocation>, b: seq<Allocation>, roomNo: string)
    ensures InRoom(a + b, roomNo) == InRoom(a, roomNo) + InRoom(b, roomNo)
  {
    if a == [] {
      assert a + b == b;
    } else {
      var h := if a[0].room.roomNo == roomNo then [a[0]] else [];
      assert (a + b)[0] == a[0] && (a + b)[1..] == a[1..] + b;
      InRoomConcat(a[1..], b, roomNo);
      ConcatAssociative(h, InRoom(a[1..], roomNo), InRoom(b, roomNo));
    }
  }

  /** An allocation is in roomNo's group exactly when it is in the input and
      its room has that number. */
  lemma {:induction false} InRoomMembers(allocations: seq<Allocation>, roomNo: string)
    ensures forall x :: x in InRoom(allocations, roomNo) <==> x in allocations && x.room.roomNo == roomNo
  {
    if allocations != [] {
      InRoomMembers(allocations[1..], roomNo);
      assert allocations == [allocations[0]] + allocations[1..];
    }
  }

  function RoomNumbers(allocations: seq<Allocation>): set<string>
  {
    set i | 0 <= i < |allocations| :: allocations[i].room.roomNo
  }

  /** groupAllocationsByRoom (and the identical forEach in the allocation
      page): one bucket per room number present, holding that room's
      allocations in input order. */
  method GroupAllocationsByRoom(allocations: seq<Allocation>)
    returns (groups: map<string, seq<Allocation>>)
    ensures groups.Keys == RoomNumbers(allocations)
    ensures forall roomNo :: roomNo in groups ==> groups[roomNo] == InRoom(allocations, roomNo)
  {
    groups := map[];
    var k := 0;
    while k < |allocations|
      invariant 0 <= k <= |allocations|
      invariant groups.Keys == RoomNumbers(allocations[..k])
      invariant forall roomNo :: roomNo in groups ==> groups[roomNo] == InRoom(allocations[..k], roomNo)
    {
      var allocation := allocations[k];
      var roomNo := allocation.room.roomNo;
      assert allocations[..k + 1] == allocations[..k] + [allocation];
      RoomNumbersSnoc(allocations[..k], allocation);
      if roomNo !in groups {
        InRoomAbsent(allocations[..k], roomNo);
        groups := groups[roomNo := []];
      }
      groups := groups[roomNo := groups[roomNo] + [allocation]];
      forall key | key in groups ensures groups[key] == InRoom(allocations[..k + 1], key) {
        InRoomSnoc(allocations[..k], allocation, key);
      }
      k := k + 1;
    }
    assert allocations[..k] == allocations;
  }

  lemma {:induction false} InRoomSnoc(s: seq<Allocation>, a: Allocation, roomNo: string)
    ensures InRoom(s + [a], roomNo) == InRoom(s, roomNo) + (if a.room.roomNo == roomNo then [a] else [])
  {
    InRoomConcat(s, [a], roomNo);
    assert [a][1..] == [];
  }

  /** A room number with no allocation has an empty group. */
  lemma {:induction false} InRoomAbsent(s: seq<Allocation>, roomNo: string)
    requires roomNo !in RoomNumbers(s)
    ensures InRoom(s, roomNo) == []
  {
    if s != [] {
      assert s[0].room.roomNo != roomNo;
      assert RoomNumbers(s[1..]) <= RoomNumbers(s) by {
        forall x | x in RoomNumbers(s[1..]) ensures x in RoomNumbers(s) {
          var i :| 0 <= i < |s[1..]| && s[1..][i].room.roomNo == x;
          assert s[i + 1].room.roomNo == x;
        }
      }
      InRoomAbsent(s[1..], roomNo);
    }
  }

  lemma RoomNumbersSnoc(s: seq<Allocation>, a: Allocation)
    ensures RoomNumbers(s + [a]) == RoomNumbers(s) + {a.room.roomNo}
  {
    var t := s + [a];
    forall x | x in RoomNumbers(t) ensures x in RoomNumbers(s) + {a.room.roomNo} {
      var i :| 0 <= i < |t| && t[i].room.roomNo == x;
      if i < |s| { assert s[i] == t[i]; }
    }
    forall x | x in RoomNumbers(s) ensures x in RoomNumbers(t) {
      var i :| 0 <= i < |s| && s[i].room.roomNo == x;
      assert t[i] == s[i];
    }
    assert t[|s|] == a;
  }

  function SumGroupSizes(allocations: seq<Allocation>, roomNos: seq<string>): nat
  {
    if roomNos == [] then 0 else |InRoom(allocations, roomNos[0])| + SumGroupSizes(allocations, roomNos[1..])
  }

  /** The number of entries of keys equal to x. */
  function Occurrences(keys: seq<string>, x: string): nat
  {
    if keys == [] then 0 else (if keys[0] == x then 1 else 0) + Occurrences(keys[1..], x)
  }

  lemma {:induction false} SumGroupSizesStep(a: Allocation, rest: seq<Allocation>, roomNos: seq<string>)
    ensures SumGroupSizes([a] + rest, roomNos) == SumGroupSizes(rest, roomNos) + Occurrences(roomNos, a.room.roomNo)
  {
    if roomNos != [] {
      SumGroupSizesStep(a, rest, roomNos[1..]);
      assert ([a] + rest)[1..] == rest;
    }
  }

  lemma {:induction false} OccurrencesOfDistinct(keys: seq<string>, x: string)
    requires Distinct(keys) && x in keys
    ensures Occurrences(keys, x) == 1
  {
    if keys[0] == x {
      OccurrencesAbsent(keys[1..], x);
    } else {
      assert Distinct(keys[1..]);
      OccurrencesOfDistinct(keys[1..], x);
    }
  }

  lemma {:induction false} OccurrencesAbsent(keys: seq<string>, x: string)
    requires x !in keys
    ensures Occurrences(keys, x) == 0
  {
    if keys != [] {
      OccurrencesAbsent(keys[1..], x);
    }
  }

  /** Every allocation lands in exactly one group: over any list of the room
      numbers present, each once, the group sizes add up to the input length. */
  lemma {:induction false} GroupSizesSum(allocations: seq<Allocation>, roomNos: seq<string>)
    requires Distinct(roomNos)
    requires forall i :: 0 <= i < |allocations| ==> allocations[i].room.roomNo in roomNos
    ensures SumGroupSizes(allocations, roomNos) == |allocations|
  {
    if allocations == [] {
      SumGroupSizesEmpty(roomNos);
    } else {
      var a := allocations[0];
      var rest := allocations[1..];
      assert allocations == [a] + rest;
      GroupSizesSum(rest, roomNos);
      SumGroupSizesStep(a, rest, roomNos);
      OccurrencesOfDistinct(roomNos, a.room.roomNo);
    }
  }

  lemma {:induction false} SumGroupSizesEmpty(roomNos: seq<string>)
    ensures SumGroupSizes([], roomNos) == 0
  {
    if roomNos != [] {
      SumGroupSizesEmpty(roomNos[1..]);
    }
  }

  // ---------------------------------------------------------------------
  // Ordering one room's seats

  /** `parseInt(seatNumber.substring(1))`: the bench; None is NaN. No radix
      is given, so a "0x" after the side letter makes the rest base 16. */
  function BenchOf(seatNumber: string): Option<int>
  {
    ParseInt(if seatNumber == [] then [] else seatNumber[1..])
  }

  /** A label whose number is written "0x..." has that base-16 value as its
      bench: "A0x1" and "A1" share bench 1. */
  lemma BenchOfHexLabel(side: char, hex: string)
    requires hex != [] && forall i :: 0 <= i < |hex| ==> IsHexDigit(hex[i])
    ensures BenchOf([side] + "0x" + hex) == Some(HexValue(hex))
  {
    assert ([side] + "0x" + hex)[1..] == "0x" + hex;
    ParseIntOfHex(hex);
  }

  /** `seatNumber.charAt(0)`: the side. */
  function SideOf(seatNumber: string): string
  {
    if seatNumber == [] then [] else [seatNumber[0]]
  }

  /** The comparator of generateSeatArrangement, as "compare(a, b) <= 0":
      by bench, then by side. A NaN bench makes the comparator return NaN,
      which sort reads as 0 (equal). */
  predicate BenchMajorLe(a: Allocation, b: Allocation)
  {
    var aNum := BenchOf(a.seatNumber);
    var bNum := BenchOf(b.seatNumber);
    if aNum.None? || bNum.None? then true
    else if aNum.value != bNum.value then aNum.value < bNum.value
    else LexLe(SideOf(a.seatNumber), SideOf(b.seatNumber))
  }

  /** Every seat label has a numeric bench after its first character. */
  ghost predicate BenchesParse(s: seq<Allocation>)
  {
    forall i :: 0 <= i < |s| ==> BenchOf(s[i].seatNumber).Some?
  }

  lemma BenchMajorLePreorder(s: seq<Allocation>)
    requires BenchesParse(s)
    ensures PreorderOn(BenchMajorLe, s)
  {
    forall x, y | x in s && y in s ensures BenchMajorLe(x, y) || BenchMajorLe(y, x) {
      LexLeTotal(SideOf(x.seatNumber), SideOf(y.seatNumber));
    }
    forall x, y, z | x in s && y in s && z in s && BenchMajorLe(x, y) && BenchMajorLe(y, z)
      ensures BenchMajorLe(x, z)
    {
      if BenchOf(x.seatNumber) == BenchOf(y.seatNumber) == BenchOf(z.seatNumber) {
        LexLeTransitive(SideOf(x.seatNumber), SideOf(y.seatNumber), SideOf(z.seatNumber));
      }
    }
  }

  /** generateSeatArrangement: sorts its argument in place, bench-major. */
  method GenerateSeatArrangement(roomAllocations: array<Allocation>)
    modifies roomAllocations
    ensures roomAllocations[..] == SortBy(old(roomAllocations[..]), BenchMajorLe)
    ensures multiset(roomAllocations[..]) == multiset(old(roomAllocations[..]))
  {
    SortInPlace(roomAllocations, BenchMajorLe);
  }

  /** When every bench parses, the arrangement is a permutation ordered by
      bench and, within a bench, by side. */
  lemma SeatArrangementSorted(s: seq<Allocation>)
    requires BenchesParse(s)
    ensures multiset(SortBy(s, BenchMajorLe)) == multiset(s)
    ensures var r := SortBy(s, BenchMajorLe);
      forall i, j :: 0 <= i < j < |r| ==>
        BenchOf(r[i].seatNumber).Some? && BenchOf(r[j].seatNumber).Some? &&
        (BenchOf(r[i].seatNumber).value < BenchOf(r[j].seatNumber).value ||
          (BenchOf(r[i].seatNumber).value == BenchOf(r[j].seatNumber).value &&
           LexLe(SideOf(r[i].seatNumber), SideOf(r[j].seatNumber))))
  {
    var r := SortBy(s, BenchMajorLe);
    BenchMajorLePreorder(s);
    SortBySorted(s, BenchMajorLe);
    forall i | 0 <= i < |r| ensures BenchOf(r[i].seatNumber).Some? {
      assert r[i] in multiset(s);
    }
  }

  /** A label's side is its letter and its bench the number after it. */
  lemma LabelParts(side: char, bench: nat)
    ensures BenchOf([side] + NatToString(bench)) == Some(bench)
    ensures SideOf([side] + NatToString(bench)) == [side]
  {
    assert ([side] + NatToString(bench))[1..] == NatToString(bench);
    ParseIntOfNatToString(bench);
  }

  /** Side A of a bench comes before side B of it. */
  lemma SameBenchInOrder(a: Allocation, b: Allocation, bench: nat)
    requires a.seatNumber == ['A'] + NatToString(bench) && b.seatNumber == ['B'] + NatToString(bench)
    ensures BenchMajorLe(a, b)
  {
    LabelParts('A', bench);
    LabelParts('B', bench);
    assert LexLe("A", "B");
  }

  /** Side B of a bench comes before side A of the next bench. */
  lemma NextBenchInOrder(a: Allocation, b: Allocation, bench: nat)
    requires a.seatNumber == ['B'] + NatToString(bench) && b.seatNumber == ['A'] + NatToString(bench + 1)
    ensures BenchMajorLe(a, b)
  {
    LabelParts('B', bench);
    LabelParts('A', bench + 1);
  }

  /** Each seat of a room's block is in arrangement order with the next:
      seat i + 1 is on the same bench at side B, or on the next bench. */
  lemma RoomBlockInOrder(students: seq<Student>, room: Room, exam: Exam)
    ensures var b := RoomBlock(students, room, exam);
      forall i :: 0 <= i < |b| - 1 ==> BenchMajorLe(b[i], b[i + 1])
  {
    var b := RoomBlock(students, room, exam);
    forall i | 0 <= i < |b| - 1 ensures BenchMajorLe(b[i], b[i + 1]) {
      var bench := i / 2 + 1;
      if i % 2 == 0 {
        assert (i + 1) % 2 == 1 && (i + 1) / 2 + 1 == bench;
        SameBenchInOrder(b[i], b[i + 1], bench);
      } else {
        assert (i + 1) % 2 == 0 && (i + 1) / 2 + 1 == bench + 1;
        NextBenchInOrder(b[i], b[i + 1], bench);
      }
    }
  }

  /** The allocator already emits one room's seats in arrangement order
      (A1, B1, A2, B2, ...), so arranging one room's block changes nothing. */
  lemma ArrangementOfRoomBlock(students: seq<Student>, room: Room, exam: Exam)
    ensures SortBy(RoomBlock(students, room, exam), BenchMajorLe) == RoomBlock(students, room, exam)
  {
    var b := RoomBlock(students, room, exam);
    RoomBlockInOrder(students, room, exam);
    SortByOfSorted(b, BenchMajorLe);
  }
}
