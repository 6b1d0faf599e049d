/** The records the pages exchange with the backend, after the fallback
    chains `x || ''` have been applied: a missing text field is the empty
    string, a missing flag or date is None. Dates are calendar days already
    normalised (the date parsing itself is not modelled). */
module Records {
  import opened Wrappers

  /** A calendar day, as the date normaliser would produce it. */
  type Day = int

  datatype Student = Student(
    id: string,
    regNo: string,
    name: string,
    department: string,
    semester: string,
    subject: string,
    subjectCode: string,
    examDate: Option<Day>,
    isActive: Option<bool>)

  /** `student.isActive !== false`: a missing flag counts as active. */
  predicate IsActive(s: Student)
  {
    s.isActive != Some(false)
  }

  datatype Room = Room(
    id: string,
    roomNo: string,
    floorNo: int,
    block: string,
    capacity: int,
    roomType: string,
    isActive: Option<bool>)

  /** `room.isActive !== false`. */
  predicate RoomIsActive(r: Room)
  {
    r.isActive != Some(false)
  }

  datatype Exam = Exam(
    id: string,
    subject: string,
    subjectCode: string,
    department: string,
    semester: string,
    date: Option<Day>,
    time: string)

  /** One student seated in one room for one exam, with a seat label such as
      "A3" (side letter, then bench number). */
  datatype Allocation = Allocation(student: Student, room: Room, exam: Exam, seatNumber: string)

  /** A spreadsheet cell as the sheet reader hands it over. */
  datatype Cell = Missing | Text(text: string) | Number(value: int)

  /** A row: column header to cell. */
  type Row = map<string, Cell>

  /** JavaScript truthiness of a cell. */
  predicate Truthy(c: Cell)
  {
    match c
    case Missing => false
    case Text(t) => t != []
    case Number(n) => n != 0
  }

  function CellAt(row: Row, key: string): Cell
  {
    if key in row then row[key] else Missing
  }
}
