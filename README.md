# Exam seating and invigilation — a Dafny model

This project models the core of a web application that a college uses to run
examinations:

- the seat allocator (`allocateSeatsForExam` and its helpers). It picks an
  exam's cohort, drops repeated registration numbers and sorts the students.
  It then fills the rooms, smallest first, two students per bench, with labels
  `A1, B1, A2, B2, …`;
- the seat-allocation page. It decides who is eligible for an exam, guards the
  allocation request (exam chosen, students, rooms of the type, enough
  capacity), normalises an uploaded student sheet, and lists each room's seats;
- the faculty page. It normalises staff designations, forms the faculty and
  lab-technician pools, finds the rooms that hold students, and hands out
  invigilation duties by headcount (one faculty member per room, plus up to two
  lab technicians), never giving the same person two duties;
- the invigilator dashboard. It shows the seating grid sorted by seat label in
  rows of six, records attendance and malpractice with the summary counters
  they refresh, and lists the invigilator's next five duties;
- the room administration page: the listing order, the conversion of the
  add/edit form, and the all-or-nothing check of a spreadsheet of rooms;
- the campus chat widget. It looks up a building by exact name, then by
  containment, then by word prefix;
- the password-change form's three checks.

Modules follow the program's files:

- `SeatAllocation` (seat_allocation.dfy): the allocator;
- `AllocateSeats`, `AllocateFaculty`, `InvigilatorDashboard`: the three pages;
- `ManageRooms`, `ChatBot`, `ChangePassword`: the room page and the two
  components;
- `Records`: the shared entities;
- `Strings` and `Sequences`: the JavaScript built-ins the core relies on
  (`trim`, `toUpperCase`, `includes`, `localeCompare`, `parseInt`, `filter`,
  and the stable `Array.prototype.sort`).

Loops of the source are methods with invariants, each proved equal to a
specification function:

- the allocator's room and seat loops;
- the faculty loop and its inner pool loops;
- the room-collection loop;
- the row-chunking loop;
- the room-sheet validation loop;
- the two in-place sorts, which work on an `array`.

The properties of those functions are proved as lemmas. A stable insertion
sort (`Sequences.SortBy`) stands for `Array.prototype.sort`. It is proved to
return a sorted permutation, to keep equal elements in input order, and to
leave an already sorted list unchanged.

Conventions:

- A missing or falsy JavaScript value is `""` for strings, `None` for an
  optional day or flag, and `Missing` for a spreadsheet cell.
- Dates are abstract day numbers (`Day`); an unparsable date is `None`.
- Every request to the backend is left out. Its success or failure is a `bool`
  parameter where the page branches on it.
- The allocator works on list values and never reorders or changes its inputs. This matches the source, which sorts a filtered copy of the students and a copy of the rooms. The two sorts that do work in place (the seat arrangement and the room listing) are methods on an `array`.
- `Math.random` in the faculty shuffle is left out. The shuffled pools are
  parameters, required to be permutations of the pools.

## Model

| member | source | states |
|---|---|---|
| `SeatAllocation.Cohort` | src/utils/seatAllocation.js:3-6 | The cohort holds exactly the input students whose department and semester equal the exam's, compared exactly. |
| `SeatAllocation.FindIndexByRegNo` | src/utils/seatAllocation.js:9 | The result is the first index holding the registration number, or -1 when no entry holds it. |
| `SeatAllocation.KeepFirstFromOrigin` | src/utils/seatAllocation.js:8-10 | Every survivor of the duplicate filter is an input entry that is the first of its registration number. |
| `SeatAllocation.KeepFirstFromDistinct` | src/utils/seatAllocation.js:8-10 | No registration number occurs twice among the survivors. |
| `SeatAllocation.KeepFirstFromComplete` | src/utils/seatAllocation.js:8-10 | Every first occurrence of a registration number survives. |
| `SeatAllocation.KeepFirstFromLength` | src/utils/seatAllocation.js:8-10 | The filter never lengthens the list. |
| `SeatAllocation.KeepFirstByRegNoFacts` | src/utils/seatAllocation.js:8-10 | Deduplication keeps exactly the first record of every registration number: the survivors are distinct, each is a first occurrence, and all first occurrences survive. |
| `SeatAllocation.RegNoLePreorder` | src/utils/seatAllocation.js:12 | Comparing registration numbers with localeCompare is a total preorder. |
| `SeatAllocation.SortedCohortFacts` | src/utils/seatAllocation.js:3-12 | The students to place come from the cohort, one per registration number, in strictly ascending registration-number order. |
| `SeatAllocation.CapacityLePreorder` | src/utils/seatAllocation.js:14 | The capacity comparator is a total preorder. |
| `SeatAllocation.TotalCapacityInsert` | src/utils/seatAllocation.js:14 | Inserting a room into a list adds its seats to the list's total. |
| `SeatAllocation.TotalCapacitySortBy` | src/utils/seatAllocation.js:14 | Sorting the rooms leaves their total seats unchanged. |
| `SeatAllocation.SeatLabelInjective` | src/utils/seatAllocation.js:30 | Two seat positions in a room never get the same label. |
| `SeatAllocation.RoomBlock` | src/utils/seatAllocation.js:25-33 | A room's block has one allocation per student it takes. |
| `SeatAllocation.CountRoomConcat` | src/utils/seatAllocation.js:35 | Allocations to a room add up over a concatenation. |
| `SeatAllocation.CountRoomUniform` | src/utils/seatAllocation.js:23-35 | A block for one room counts only toward that room. |
| `SeatAllocation.FillLength` | src/utils/seatAllocation.js:19-36 | The fill places min(number of students, total seats) students. |
| `SeatAllocation.FillAt` | src/utils/seatAllocation.js:19-36 | The k-th allocation seats the k-th student, for the exam, in one of the given rooms. |
| `SeatAllocation.FillRoomOrder` | src/utils/seatAllocation.js:14-36 | With rooms sorted by capacity, the allocations come out in non-decreasing room capacity. |
| `SeatAllocation.BlockThenLarger` | src/utils/seatAllocation.js:19-36 | A room's block followed by allocations to rooms at least as large keeps capacity order. |
| `SeatAllocation.FillCapacity` | src/utils/seatAllocation.js:22-25 | A room listed once receives at most its capacity; a room not listed receives nobody. |
| `SeatAllocation.FillLabels` | src/utils/seatAllocation.js:25-31 | Each allocation's label is SeatLabel of the number of earlier allocations in its room. |
| `SeatAllocation.BlockLabels` | src/utils/seatAllocation.js:25-31 | The label rule holds within a room's block, whatever follows it. |
| `SeatAllocation.AfterBlockLabels` | src/utils/seatAllocation.js:19-36 | A block for another room in front does not disturb the label rule of the allocations that follow. |
| `SeatAllocation.FillSeatsDistinct` | src/utils/seatAllocation.js:25-31 | No two allocations share both a room and a seat label. |
| `SeatAllocation.RoomBlockSnoc` | src/utils/seatAllocation.js:25-33 | Taking one more student appends their allocation with the next label. |
| `SeatAllocation.FillStep` | src/utils/seatAllocation.js:19-36 | One pass of the room loop takes min(seats, students left) students into the current room, and the rest are filled from the next room on. |
| `SeatAllocation.FillAppend` | src/utils/seatAllocation.js:35 | Appending the room's block moves it from the remaining fill to the allocations made so far. |
| `SeatAllocation.AllocateSeatsForExam` | src/utils/seatAllocation.js:2-39 | The allocator returns the fill of the sorted cohort into the capacity-sorted rooms. Its size is min(unique cohort, total seats). Each entry seats a cohort student for the exam in a given room. Registration numbers strictly ascend and room capacities never decrease. |
| `SeatAllocation.FillInOrder` | src/utils/seatAllocation.js:16-38 | The room loop with its shared cursor and early exit computes exactly the specified fill. |
| `SeatAllocation.SeatRoom` | src/utils/seatAllocation.js:22-33 | The seat loop takes min(seats, students left) students from the cursor and labels them in order; the cursor moves past them. |
| `SeatAllocation.AllocationFacts` | src/utils/seatAllocation.js:2-39 | The allocator's result has these properties: size, cohort membership, exam, rooms, ascending distinct registration numbers, non-decreasing capacity. |
| `SeatAllocation.AllocationWithinRooms` | src/utils/seatAllocation.js:19-36 | With no room repeated, no room is overfilled and no (room, label) pair repeats. |
| `SeatAllocation.RegNos` | src/utils/seatAllocation.js:54 | The mapped list holds each allocation's registration number, in order. |
| `SeatAllocation.SetSizeDistinct` | src/utils/seatAllocation.js:54-57 | A Set is no larger than its source list and is as large exactly when no value repeats. |
| `SeatAllocation.ValidateAllocation` | src/utils/seatAllocation.js:52-62 | The result is valid exactly when no registration number repeats. The duplicate flag is its negation. The counts are the list length and the given total. |
| `SeatAllocation.AllocationIsValid` | src/utils/seatAllocation.js:2-62 | The allocator's output always passes the validator. |
| `SeatAllocation.InRoom` | src/utils/seatAllocation.js:42-49 | A room's group is never longer than the input. |
| `SeatAllocation.InRoomConcat` | src/utils/seatAllocation.js:42-49 | Grouping distributes over concatenation. |
| `SeatAllocation.InRoomMembers` | src/utils/seatAllocation.js:42-49 | An allocation is in a room number's group exactly when it is in the input with that room number. |
| `SeatAllocation.GroupAllocationsByRoom` | src/utils/seatAllocation.js:41-50 | There is one bucket per room number present, holding that room's allocations in input order. |
| `SeatAllocation.InRoomSnoc` | src/utils/seatAllocation.js:47 | Pushing an allocation extends only its own room's group. |
| `SeatAllocation.InRoomAbsent` | src/utils/seatAllocation.js:44-46 | A room number with no allocation has an empty group. |
| `SeatAllocation.RoomNumbersSnoc` | src/utils/seatAllocation.js:44-46 | Pushing an allocation adds its room number to the keys. |
| `SeatAllocation.SumGroupSizesStep` | src/utils/seatAllocation.js:42-49 | One allocation contributes once per occurrence of its room number in the key list. |
| `SeatAllocation.OccurrencesOfDistinct` | src/utils/seatAllocation.js:44-46 | A key listed once occurs once. |
| `SeatAllocation.OccurrencesAbsent` | src/utils/seatAllocation.js:44-46 | A key not listed occurs zero times. |
| `SeatAllocation.GroupSizesSum` | src/utils/seatAllocation.js:41-50 | Every allocation lands in exactly one group: over the room numbers present, the group sizes add up to the input length. |
| `SeatAllocation.SumGroupSizesEmpty` | src/utils/seatAllocation.js:42 | No allocations give empty groups. |
| `SeatAllocation.BenchMajorLePreorder` | src/utils/seatAllocation.js:65-73 | When every bench parses, the arrangement comparator is a total preorder. |
| `SeatAllocation.GenerateSeatArrangement` | src/utils/seatAllocation.js:64-74 | The array is sorted in place: its new contents are the stable bench-major sort of the old, and a permutation of them. |
| `SeatAllocation.SeatArrangementSorted` | src/utils/seatAllocation.js:65-73 | The arrangement is a permutation ordered by bench number and, within a bench, by side. |
| `SeatAllocation.BenchOfHexLabel` | src/utils/seatAllocation.js:66-67 | A label whose number is written "0x…" has the base-16 value of the rest as its bench. |
| `SeatAllocation.LabelParts` | src/utils/seatAllocation.js:66-69 | A label's first character is its side, and the integer after it is its bench. |
| `SeatAllocation.SameBenchInOrder` | src/utils/seatAllocation.js:71-72 | Side A of a bench sorts before side B of it. |
| `SeatAllocation.NextBenchInOrder` | src/utils/seatAllocation.js:71 | Side B of a bench sorts before side A of the next bench. |
| `SeatAllocation.RoomBlockInOrder` | src/utils/seatAllocation.js:25-31 | Each seat of a room's block is in arrangement order with the next. |
| `SeatAllocation.ArrangementOfRoomBlock` | src/utils/seatAllocation.js:64-74 | Arranging a block the allocator produced leaves it unchanged: A1, B1, A2, B2, … is already bench-major. |
| `AllocateSeats.NormUpper` | src/pages/AllocateSeats.jsx:279 | The department or code normal form has no surrounding whitespace and no lower-case letter. |
| `AllocateSeats.NormTrim` | src/pages/AllocateSeats.jsx:280 | The semester normal form has no surrounding whitespace. |
| `AllocateSeats.NormLower` | src/pages/AllocateSeats.jsx:281 | The subject normal form has no surrounding whitespace and no upper-case letter. |
| `AllocateSeats.LeadingSpaceIgnored` | src/pages/AllocateSeats.jsx:279-287 | A leading space does not change any normal form. |
| `AllocateSeats.CodesOverrideNames` | src/pages/AllocateSeats.jsx:295-296 | With both subject codes present, the match is code equality and the names play no part. |
| `AllocateSeats.SubjectByName` | src/pages/AllocateSeats.jsx:295-301 | A student whose subject name contains the exam's matches unless both codes are present and differ. |
| `AllocateSeats.SubjectMatchReflexive` | src/pages/AllocateSeats.jsx:293-301 | A subject always matches itself. |
| `AllocateSeats.DisplayIsAllocationPlusDate` | src/pages/AllocateSeats.jsx:528-561 | The page's list adds only the day check to the handler's test, and lists nobody with no exam selected. |
| `AllocateSeats.ActiveFlag` | src/pages/AllocateSeats.jsx:291 | A deactivated student is never eligible; a missing flag counts as active. |
| `AllocateSeats.PaddedDepartmentStillEligible` | src/pages/AllocateSeats.jsx:279 | A department typed with a leading space does not change eligibility. |
| `AllocateSeats.EligibleStudents` | src/pages/AllocateSeats.jsx:278-304 | The eligible list holds exactly the input students that pass the handler's test. |
| `AllocateSeats.FindExam` | src/pages/AllocateSeats.jsx:272 | The result is the first exam with that id, or none when no exam has it. |
| `AllocateSeats.RoomsOfType` | src/pages/AllocateSeats.jsx:322-324 | The available rooms kept are exactly those of the type. |
| `AllocateSeats.ActiveRoomsOfType` | src/pages/AllocateSeats.jsx:311-314 | The rooms kept are exactly those of the type not deactivated. |
| `AllocateSeats.SumCapacityAtMostSeats` | src/pages/AllocateSeats.jsx:332-336 | The summed capacity never exceeds the seats the allocator can fill. |
| `AllocateSeats.CheckAllocationRequest` | src/pages/AllocateSeats.jsx:266-341 | Each outcome happens exactly when its check is the first to fail, in order: no exam, exam not found, no eligible students, no rooms of the type, no available rooms of the type (only with availability data), not enough capacity. The request is sent exactly when all pass, with the selected exam and room type. A refusal for capacity reports the student count and the capacity. |
| `AllocateSeats.GuardedRequestFitsRooms` | src/pages/AllocateSeats.jsx:311-341 | Without availability data, a request that passes the checks fits its rooms: filling the active rooms of the type with the allocator of src/utils/seatAllocation.js seats every eligible student. The page itself posts the request to the server and does not call that allocator. |
| `AllocateSeats.FirstTruthy` | src/pages/AllocateSeats.jsx:224-232 | An alias chain yields a truthy cell, or the fallback when no alias is truthy. |
| `AllocateSeats.FirstTruthyIsFirst` | src/pages/AllocateSeats.jsx:224-232 | The chain yields the first truthy alias in order. |
| `AllocateSeats.NormaliseRow` | src/pages/AllocateSeats.jsx:223-234 | A normalised row is active. Its register number, department and semester are trimmed. Its department has no lower-case letter and its exam type no upper-case letter. |
| `AllocateSeats.NormaliseRows` | src/pages/AllocateSeats.jsx:223-241 | Rows are normalised one for one, in order. |
| `AllocateSeats.DefaultExamType` | src/pages/AllocateSeats.jsx:232 | A row with no exam type in any alias is a regular exam's. |
| `AllocateSeats.ProcessUpload` | src/pages/AllocateSeats.jsx:223-242 | The rows sent are exactly the normalised rows with a name, register number, department and semester, each normalised. |
| `AllocateSeats.NamelessRowDropped` | src/pages/AllocateSeats.jsx:224-242 | A row with no usable name in any alias is dropped. |
| `AllocateSeats.SeatParts` | src/pages/AllocateSeats.jsx:452-455 | A label has parts exactly when it splits into one or more ASCII letters followed by one or more digits. The parts are then that letter prefix and the value of the digits. Any other label yields ("", 0). |
| `AllocateSeats.SeatLetterMajorLePreorder` | src/pages/AllocateSeats.jsx:451-461 | The page's seat comparator is a total preorder on any list. |
| `AllocateSeats.SeatLabelLetterParts` | src/pages/AllocateSeats.jsx:452-455 | The allocator's labels parse back into their side letter and bench number. |
| `AllocateSeats.PageListsSideMajor` | src/pages/AllocateSeats.jsx:843-853 | Sorting any room's seat list with the page's comparator yields a permutation of the list, ordered by letter group and then by number. |
| `AllocateSeats.PageOrderDiffersFromAllocation` | src/pages/AllocateSeats.jsx:451-461 | With three or more students in a room, the page's order differs from the bench-major order of the allocator in src/utils/seatAllocation.js, which the page itself does not call. |
| `AllocateFaculty.NormaliseDesignation` | src/pages/AllocateFaculty.jsx:149 | A normalised designation is non-empty and has no upper-case letter. |
| `AllocateFaculty.NormaliseFaculty` | src/pages/AllocateFaculty.jsx:147-150 | Each row is kept with only its designation normalised. |
| `AllocateFaculty.FacultyPool` | src/pages/AllocateFaculty.jsx:187-190 | The faculty pool holds exactly the staff whose lower-cased designation contains "faculty". |
| `AllocateFaculty.LabPool` | src/pages/AllocateFaculty.jsx:192-195 | The lab pool holds exactly the staff whose lower-cased designation contains "lab" or "technician". |
| `AllocateFaculty.MissingDesignationIsFaculty` | src/pages/AllocateFaculty.jsx:147-190 | After upload, a row without a designation is in the faculty pool. |
| `AllocateFaculty.PoolsOverlap` | src/pages/AllocateFaculty.jsx:187-195 | The pools can overlap: a "faculty lab" designation is in both. |
| `AllocateFaculty.RoomIdsSnoc` | src/pages/AllocateFaculty.jsx:116-117 | Visiting an allocation adds its room id to the seen set. |
| `AllocateFaculty.IdsOfSnoc` | src/pages/AllocateFaculty.jsx:118 | Pushing a room adds its id to the ids listed. |
| `AllocateFaculty.RoomsWithStudentsIds` | src/pages/AllocateFaculty.jsx:112-120 | The room list has one entry per distinct room id among the allocations. |
| `AllocateFaculty.RoomsWithStudentsFirst` | src/pages/AllocateFaculty.jsx:112-120 | Each listed room is the room of the first allocation with its id. |
| `AllocateFaculty.RoomsWithStudentsOrder` | src/pages/AllocateFaculty.jsx:112-120 | The room list is in first-occurrence order: of two listed rooms, the earlier one's id first occurs earlier among the allocations. |
| `AllocateFaculty.CollectRoomsWithStudents` | src/pages/AllocateFaculty.jsx:112-120 | The forEach with a seen-set computes the first-occurrence room list. |
| `AllocateFaculty.RequiredLabTech` | src/pages/AllocateFaculty.jsx:231-243 | A room never needs more than two lab technicians. |
| `AllocateFaculty.RequiredLabTechMonotone` | src/pages/AllocateFaculty.jsx:231-243 | More students never mean fewer technicians, and every room needs exactly one faculty member. |
| `AllocateFaculty.Unused` | src/pages/AllocateFaculty.jsx:247 | The candidates are exactly the pool members whose ids are unused; there are none exactly when every pool member's id is used. |
| `AllocateFaculty.UnusedHead` | src/pages/AllocateFaculty.jsx:247-249 | The candidate taken is the first in pool order whose id is unused. |
| `AllocateFaculty.SeatsInRoom` | src/pages/AllocateFaculty.jsx:225 | The room's seat allocations are exactly the input allocations with that room id, and their number, the headcount the staffing rule uses, is the count of such allocations. |
| `AllocateFaculty.FillDuties` | src/pages/AllocateFaculty.jsx:246-269 | The inner pool loop computes the specified rounds. |
| `AllocateFaculty.AllocateInvigilators` | src/pages/AllocateFaculty.jsx:218-296 | The room loop computes the specified duties, and no faculty id gets two duties. |
| `AllocateFaculty.RoundFacts` | src/pages/AllocateFaculty.jsx:246-269 | One pass adds at most one duty, for the given designation, exam and room, to someone not yet used, and marks them used. |
| `AllocateFaculty.RoundsFacts` | src/pages/AllocateFaculty.jsx:246-295 | n passes add at most n such duties, keeping ids distinct. |
| `AllocateFaculty.AddsCompose` | src/pages/AllocateFaculty.jsx:246-269 | Two runs of passes with the same designation, exam and room make one. |
| `AllocateFaculty.AddsThenAdds` | src/pages/AllocateFaculty.jsx:245-295 | The faculty passes and then the lab passes for one room add only duties for that exam and room. |
| `AllocateFaculty.RoomStepFacts` | src/pages/AllocateFaculty.jsx:224-295 | Per room: at most one faculty duty, then at most the required lab duties, all for the exam of the room's first seat allocation. A room without seat allocations gets nothing. |
| `AllocateFaculty.AllRoomsConsistent` | src/pages/AllocateFaculty.jsx:219-296 | The room loop keeps ids distinct and every duty's id marked used. |
| `AllocateFaculty.NoIdTwice` | src/pages/AllocateFaculty.jsx:219-296 | Nobody is given two duties in one run, even someone in both pools. |
| `AllocateFaculty.HeadBlocksPool` | src/pages/AllocateFaculty.jsx:247-256 | When the first unused candidate lacks an id or a name, it is never marked used, so every pass for that pool records nothing. |
| `AllocateFaculty.DutiesBelongToRooms` | src/pages/AllocateFaculty.jsx:224-295 | Every duty is for a listed room that holds students, for the exam of its first seat allocation. |
| `AllocateFaculty.AllRoomsKeepsPrefix` | src/pages/AllocateFaculty.jsx:257-283 | Duties are only appended. |
| `AllocateFaculty.ExamsAtSlot` | src/pages/AllocateFaculty.jsx:203-207 | The selected exams are exactly those on the chosen day and time. |
| `AllocateFaculty.ExamIds` | src/pages/AllocateFaculty.jsx:215 | The id list holds the selected exams' ids, in order. |
| `AllocateFaculty.SmartAllocateFaculty` | src/pages/AllocateFaculty.jsx:168-301 | Each refusal happens exactly when its check is the first to fail: no staff list, then no date or time, no rooms with students, an empty faculty pool, no exams at the slot. The run then ends with an error exactly when the request clearing the slot's duties fails. Both remaining outcomes come after the selected exams' duties are cleared. Nothing is created exactly when the clear succeeds and the loop yields no duty. Otherwise the duties sent are the loop's output: ids distinct, each for a room with students and its first exam, each person from the pool their designation names. |
| `AllocateFaculty.RoundsFromPool` | src/pages/AllocateFaculty.jsx:246-295 | The passes over a pool give duties only to its members. |
| `AllocateFaculty.DutiesComeFromPools` | src/pages/AllocateFaculty.jsx:245-295 | A faculty duty goes to someone in the faculty pool, and a lab duty to someone in the lab pool. |
| `AllocateFaculty.ShuffleKeepsPools` | src/pages/AllocateFaculty.jsx:221-222 | Shuffling the pools does not change who can be chosen. |
| `InvigilatorDashboard.SeatKey` | src/pages/InvigilatorDashboard.jsx:395-398 | A key's letter part is never empty. |
| `InvigilatorDashboard.SeatKeyDefined` | src/pages/InvigilatorDashboard.jsx:395-398 | A label has a key exactly when it contains both a letter and a digit. |
| `InvigilatorDashboard.KeyLeTotal` | src/pages/InvigilatorDashboard.jsx:401-405 | Any two keys compare. |
| `InvigilatorDashboard.KeyLeTransitive` | src/pages/InvigilatorDashboard.jsx:401-405 | The key comparison is transitive. |
| `InvigilatorDashboard.SeatKeyLePreorder` | src/pages/InvigilatorDashboard.jsx:393-406 | On labels that have keys, the comparator is a total preorder. |
| `InvigilatorDashboard.SeatingOrder` | src/pages/InvigilatorDashboard.jsx:393-406 | The sorted list is a permutation of the room's students, in ascending (letter, bench) order. |
| `InvigilatorDashboard.SeatKeyOfLabel` | src/pages/InvigilatorDashboard.jsx:395-398 | An allocator label's key is its side letter and its bench number. |
| `InvigilatorDashboard.ChunkRows` | src/pages/InvigilatorDashboard.jsx:409-414 | The rows read back as the sorted list. There are ceil(n/6) rows of one to six seats, and only the last may be short. |
| `InvigilatorDashboard.RenderSeatingArrangement` | src/pages/InvigilatorDashboard.jsx:389-414 | Nothing is shown without data or students. The sort fails when two or more students are listed and some label lacks a letter or digit. Otherwise the grid reads as the sorted students. |
| `InvigilatorDashboard.MarkStatus` | src/pages/InvigilatorDashboard.jsx:270-274 | Only the matching student's status changes; everything else is kept. |
| `InvigilatorDashboard.RecountIsCountOfUpdated` | src/pages/InvigilatorDashboard.jsx:277-282 | Recounting the old list with the new status substituted equals counting the updated list. |
| `InvigilatorDashboard.PresentAndAbsentBounded` | src/pages/InvigilatorDashboard.jsx:277-282 | The present and absent counts together never exceed the number of students. |
| `InvigilatorDashboard.SaveAttendance` | src/pages/InvigilatorDashboard.jsx:268-291 | A failed save changes nothing. A successful save sets the status, makes both counters the counts over the updated list, keeps the other fields, and drops the pending change. |
| `InvigilatorDashboard.SavedCountersBounded` | src/pages/InvigilatorDashboard.jsx:275-283 | After a save, present plus absent is at most the number of students. |
| `InvigilatorDashboard.MarkMalpractice` | src/pages/InvigilatorDashboard.jsx:322-335 | Only the reported student is flagged with the description; all else is kept. |
| `InvigilatorDashboard.ReportMalpractice` | src/pages/InvigilatorDashboard.jsx:301-340 | A report is refused without a student or with a blank description. After a successful request, the student is flagged and the counter rises by one. |
| `InvigilatorDashboard.FlaggedCount` | src/pages/InvigilatorDashboard.jsx:320-339 | Flagged students increase only by matching students not yet flagged. So a repeated report raises the counter past the number of flagged students. |
| `InvigilatorDashboard.UpcomingDuties` | src/pages/InvigilatorDashboard.jsx:181-185 | The kept duties are the invigilator's own, dated today or later. |
| `InvigilatorDashboard.Upcoming` | src/pages/InvigilatorDashboard.jsx:191 | At most five duties are listed. |
| `InvigilatorDashboard.DateLePreorder` | src/pages/InvigilatorDashboard.jsx:186-190 | Among dated duties the date comparator is a total preorder. |
| `InvigilatorDashboard.UpcomingEarliest` | src/pages/InvigilatorDashboard.jsx:181-191 | A qualifying duty left out means the list is full and no listed date is later than it. |
| `InvigilatorDashboard.UpcomingPrefix` | src/pages/InvigilatorDashboard.jsx:181-191 | The listed duties qualify and are in date order. |
| `InvigilatorDashboard.UpcomingFacts` | src/pages/InvigilatorDashboard.jsx:181-191 | The list is min(5, qualifying) of the invigilator's duties from today on, in ascending date order, and the earliest ones. |
| `ManageRooms.RoomLePreorder` | src/pages/ManageRooms.jsx:29-32 | The listing comparator is a total preorder. |
| `ManageRooms.RoomOrder` | src/pages/ManageRooms.jsx:29-32 | The listed rooms are a permutation of the fetched ones, by floor and then by room number. |
| `ManageRooms.SortFetchedRooms` | src/pages/ManageRooms.jsx:29-33 | The response array is sorted in place into that order. |
| `ManageRooms.ToNumber` | src/pages/ManageRooms.jsx:44-45 | Blank text converts to 0. |
| `ManageRooms.ToNumberOfLetters` | src/pages/ManageRooms.jsx:44-45 | Text that holds a letter after trimming converts to NaN. |
| `ManageRooms.NumberOfDigits` | src/pages/ManageRooms.jsx:44-45 | A run of digits, signed or not, converts to its value. |
| `ManageRooms.ToNumberOfIntToString` | src/pages/ManageRooms.jsx:44-45 | Converting a typed integer gives the integer back. |
| `ManageRooms.NumericData` | src/pages/ManageRooms.jsx:42-46 | Capacity and floor become numbers; the other fields are sent as they are. |
| `ManageRooms.EditThenSubmit` | src/pages/ManageRooms.jsx:42-71 | Saving an edited room unchanged sends back the stored values. |
| `ManageRooms.SubmitTypedNumbers` | src/pages/ManageRooms.jsx:42-46 | Integers typed into the floor and capacity fields are sent as those integers. |
| `ManageRooms.CheckRoomUpload` | src/pages/ManageRooms.jsx:114-131 | An empty sheet is refused. One incomplete row refuses the whole sheet. Otherwise the rows are sent exactly as read. |
| `ManageRooms.ZeroIsMissing` | src/pages/ManageRooms.jsx:123 | A ground floor or zero capacity read as the number 0 refuses the sheet. |
| `ChatBot.FindIndex` | src/components/ChatBot.jsx:16-31 | The result is the first index satisfying the test, or -1 when none does. |
| `ChatBot.Find` | src/components/ChatBot.jsx:16-31 | The result is an entry satisfying the test, or none exactly when no entry does. |
| `ChatBot.FindBhavan` | src/components/ChatBot.jsx:12-35 | Any answer is an entry of the table. |
| `ChatBot.ExactImpliesContains` | src/components/ChatBot.jsx:16-24 | An exact match is a contains match. |
| `ChatBot.FuzzyImpliesContains` | src/components/ChatBot.jsx:22-31 | A word-prefix match is a contains match. |
| `ChatBot.FindBhavanExact` | src/components/ChatBot.jsx:15-19 | The first exact match is the answer. |
| `ChatBot.FindBhavanContains` | src/components/ChatBot.jsx:21-25 | With no exact match, the first contains match is the answer. |
| `ChatBot.FuzzyStageRedundant` | src/components/ChatBot.jsx:27-32 | The word-prefix stage never changes the answer. |
| `ChatBot.FindBhavanNull` | src/components/ChatBot.jsx:12-35 | The answer is null exactly when no lower-cased name contains the lower-cased search. |
| `ChatBot.HandleSend` | src/components/ChatBot.jsx:37-50 | Blank input is ignored. Otherwise the input is posted as typed and looked up untrimmed. The reply gives directions exactly when the lookup succeeds, and the field is cleared. |
| `ChatBot.UntrimmedSearch` | src/components/ChatBot.jsx:38-43 | For non-blank input, the reply is an apology exactly when no name contains the untrimmed input. |
| `ChangePassword.CheckPasswordChange` | src/components/ChangePassword.jsx:33-54 | The refusals come in order: empty field, confirmation mismatch, unchanged password. Only a form passing all three is sent, with role, id, current and new password. |
| `ChangePassword.SentRequestIsSound` | src/components/ChangePassword.jsx:33-54 | A sent request has a non-empty new password that differs from the current one and was typed twice alike. |
| `Strings.TrimIdempotent` | src/pages/AllocateSeats.jsx:225-227 | Trimming twice is trimming once. |
| `Strings.LexLeTotal` | src/utils/seatAllocation.js:12 | localeCompare, taken as code-point order, compares any two strings. |
| `Strings.LexLeTransitive` | src/utils/seatAllocation.js:12 | Code-point order is transitive. |
| `Strings.LexLeAntisymmetric` | src/utils/seatAllocation.js:12 | Code-point order is antisymmetric. |
| `Strings.ParseIntOfDigits` | src/utils/seatAllocation.js:66-67 | parseInt with no radix reads a run of decimal digits as its decimal value. |
| `Strings.ParseIntOfNatToString` | src/utils/seatAllocation.js:66-67 | parseInt reads a printed bench number back. |
| `Strings.ParseIntOfHex` | src/utils/seatAllocation.js:66-67 | With no radix given, parseInt reads the digits after "0x" in base 16. |
| `Sequences.FilterConcat` | src/utils/seatAllocation.js:3-6 | Filtering distributes over concatenation, so the elements kept stay in input order. |
| `Sequences.FilterAll` | src/utils/seatAllocation.js:3-6 | A filter that every element passes returns the list unchanged. |
| `Sequences.SortBySorted` | src/utils/seatAllocation.js:12-14 | Sorting with a total preorder yields a sorted permutation. |
| `Sequences.SortByStable` | src/utils/seatAllocation.js:12-14 | The sort is stable: equal elements keep their input order. |
| `Sequences.SortByOfSorted` | src/utils/seatAllocation.js:64-74 | Sorting an already ordered list leaves it unchanged. |
| `Sequences.SortInPlace` | src/utils/seatAllocation.js:65 | The in-place array sort leaves the array holding the specified stable sort of its old contents. |

## Left out

- Requests to the backend (axios), toasts, timers, React state updates other than the ones modelled, modal resets, page navigation and `fetchFacultyStats`. A request's outcome is a `bool` parameter where the page branches on it.
- The spreadsheet reader (XLSX) and the date parser (`parseDate`, `formatDateForComparison`, `new Date`). Sheets arrive as rows of typed cells. Dates are abstract day numbers, with `None` for an unreadable date.
- `Math.random` in the faculty shuffle. The shuffled pools are inputs required to be permutations of the pools.
- The chat widget's building table, a bundled JSON file, is a parameter.
- Case mapping covers ASCII letters only.
- `localeCompare` is modelled as code-point order of the strings.
- `parseInt` keeps every digit exact; the rounding of numerals beyond 2^53 to floating point is not modelled.
- `Number()` is modelled for decimal integers only. Fractions, exponents and hexadecimal text are not modelled.
- Spreadsheet numbers are integers in the model.
- Object key order in the grouping is not modelled: the groups are a `map`.
- groupAllocationsByRoom: a room number equal to an inherited object property name (such as `constructor`) is not modelled.
- A comparator result of NaN is read as 0 (equal), which is how `Array.prototype.sort` treats it. A comparator that throws is modelled only in the invigilator grid, as `SortFailed`.
- The engine's sorting algorithm is modelled by a stable insertion sort. The in-place sorts write the sorted result back element by element, so only the final array contents are modelled, not the intermediate states.
- InvigilatorDashboard.RenderSeatingArrangement: the sort failure assumes that a list of two or more elements has every element compared at least once, as in the engine's sort.
- Percentages and other floating-point display values on the pages.
- AllocateFaculty.PoolsOverlap: states one concrete designation in both pools, not every such designation.
- Export of the allocation workbook is not part of this model, beyond the per-room grouping and the seat order it uses.
