/** The room administration page: the order in which rooms are listed, the
    conversion of the add/edit form into a request body, and the
    all-or-nothing check on a spreadsheet of rooms before the bulk upload. */
module ManageRooms {
  import opened Strings
  import opened Sequences
  import opened Records

  // ---------------------------------------------------------------------
  // Listing order

  /** The listing comparator as "compare(a, b) <= 0": `a.floor_no - b.floor_no`
      when the floors differ, else `a.room_no.localeCompare(b.room_no)`. */
  predicate RoomLe(a: Room, b: Room)
  {
    if a.floorNo != b.floorNo then a.floorNo < b.floorNo else LexLe(a.roomNo, b.roomNo)
  }

  /** The comparator is a total preorder on every list of rooms. */
  lemma RoomLePreorder(rooms: seq<Room>)
    ensures PreorderOn(RoomLe, rooms)
  {
    forall x, y | x in rooms && y in rooms ensures RoomLe(x, y) || RoomLe(y, x) {
      LexLeTotal(x.roomNo, y.roomNo);
    }
    forall x, y, z | x in rooms && y in rooms && z in rooms && RoomLe(x, y) && RoomLe(y, z)
      ensures RoomLe(x, z)
    {
      if x.floorNo == y.floorNo == z.floorNo {
        LexLeTransitive(x.roomNo, y.roomNo, z.roomNo);
      }
    }
  }

  /** The listed rooms are the fetched ones, by floor and then by room
      number within a floor. */
  lemma {:induction false} RoomOrder(rooms: seq<Room>)
    ensures multiset(SortBy(rooms, RoomLe)) == multiset(rooms)
    ensures var r := SortBy(rooms, RoomLe);
      forall i, j :: 0 <= i < j < |r| ==>
        r[i].floorNo <= r[j].floorNo &&
        (r[i].floorNo == r[j].floorNo ==> LexLe(r[i].roomNo, r[j].roomNo))
  {
    RoomLePreorder(rooms);
    SortBySorted(rooms, RoomLe);
    var r := SortBy(rooms, RoomLe);
    assert forall i, j :: 0 <= i < j < |r| ==> RoomLe(r[i], r[j]);
  }

  /** fetchRooms sorts the response array in place before listing it. */
  method SortFetchedRooms(rooms: array<Room>)
    modifies rooms
    ensures rooms[..] == SortBy(old(rooms[..]), RoomLe)
    ensures multiset(rooms[..]) == multiset(old(rooms[..]))
    ensures forall i, j :: 0 <= i < j < rooms.Length ==>
      rooms[i].floorNo <= rooms[j].floorNo &&
      (rooms[i].floorNo == rooms[j].floorNo ==> LexLe(rooms[i].roomNo, rooms[j].roomNo))
  {
    RoomOrder(rooms[..]);
    SortInPlace(rooms, RoomLe);
  }

  // ---------------------------------------------------------------------
  // Form conversion

  /** JavaScript's Number() result, for the integral values the model covers. */
  datatype Numeric = Finite(value: int) | NaN

  /** Number(s) on a string: surrounding whitespace is ignored, the empty
      string is 0, an optional sign followed by decimal digits is that
      integer, anything else is NaN. */
  function ToNumber(s: string): (r: Numeric)
    ensures Trim(s) == [] ==> r == Finite(0)
  {
    NumberOfTrimmed(Trim(s))
  }

  /** The conversion once the surrounding whitespace is gone. */
  function NumberOfTrimmed(t: string): Numeric
  {
    if t == [] then Finite(0)
    else
      var body := if t[0] == '-' || t[0] == '+' then t[1..] else t;
      if body != [] && AllDigits(body) then
        var v: int := DigitsValue(body);
        Finite(if t[0] == '-' then -v else v)
      else NaN
  }

  /** Text that still holds a letter once trimmed is not a number. */
  lemma ToNumberOfLetters(s: string, i: nat)
    requires i < |Trim(s)| && IsLetter(Trim(s)[i])
    ensures ToNumber(s) == NaN
  {
    var t := Trim(s);
    var body := if t[0] == '-' || t[0] == '+' then t[1..] else t;
    if t[0] == '-' || t[0] == '+' {
      assert i > 0 && body[i - 1] == t[i];
    } else {
      assert body[i] == t[i];
    }
  }

  /** A run of digits, with or without a minus sign, converts to its value. */
  lemma NumberOfDigits(negative: bool, digits: string)
    requires digits != [] && AllDigits(digits)
    ensures NumberOfTrimmed((if negative then "-" else "") + digits) ==
      Finite(if negative then -(DigitsValue(digits) as int) else DigitsValue(digits))
  {
    var t := (if negative then "-" else "") + digits;
    assert IsDigit(digits[0]);
    if negative {
      assert t[1..] == digits;
    } else {
      assert t == digits;
    }
  }

  /** Typing an integer into the field and converting it gives it back. */
  lemma ToNumberOfIntToString(n: int)
    ensures ToNumber(IntToString(n)) == Finite(n)
  {
    var m: nat := if n < 0 then -n else n;
    var digits := NatToString(m);
    var s := IntToString(n);
    assert s == (if n < 0 then "-" else "") + digits;
    IntToStringUnpadded(n);
    NumberOfDigits(n < 0, digits);
    DigitsValueOfNatToString(m);
  }

  /** A form field holds the typed text, or the number handleEdit copied in. */
  datatype Field = TextField(text: string) | NumberField(number: int)

  function FieldNumber(f: Field): Numeric
  {
    match f
    case TextField(t) => ToNumber(t)
    case NumberField(n) => Finite(n)
  }

  datatype RoomForm = RoomForm(roomNo: Field, floorNo: Field, block: Field, capacity: Field, roomType: Field)

  datatype RoomBody = RoomBody(roomNo: Field, floorNo: Numeric, block: Field, capacity: Numeric, roomType: Field)

  /** handleSubmit's `numericData`: capacity and floor_no become numbers, the
      other fields go as they are. */
  function NumericData(form: RoomForm): (body: RoomBody)
    ensures body.roomNo == form.roomNo && body.block == form.block && body.roomType == form.roomType
    ensures body.capacity == FieldNumber(form.capacity) && body.floorNo == FieldNumber(form.floorNo)
  {
    RoomBody(form.roomNo, FieldNumber(form.floorNo), form.block, FieldNumber(form.capacity), form.roomType)
  }

  /** handleEdit: the form shows the stored room. */
  function EditForm(room: Room): RoomForm
  {
    RoomForm(TextField(room.roomNo), NumberField(room.floorNo), TextField(room.block), NumberField(room.capacity), TextField(room.roomType))
  }

  /** Saving an edited room unchanged sends the stored values back. */
  lemma EditThenSubmit(room: Room)
    ensures NumericData(EditForm(room)) ==
      RoomBody(TextField(room.roomNo), Finite(room.floorNo), TextField(room.block), Finite(room.capacity), TextField(room.roomType))
  {
  }

  /** Numbers typed into the floor and capacity fields are sent as those numbers. */
  lemma SubmitTypedNumbers(form: RoomForm, floor: int, capacity: int)
    requires form.floorNo == TextField(IntToString(floor)) && form.capacity == TextField(IntToString(capacity))
    ensures NumericData(form).floorNo == Finite(floor) && NumericData(form).capacity == Finite(capacity)
  {
    ToNumberOfIntToString(floor);
    ToNumberOfIntToString(capacity);
  }

  // ---------------------------------------------------------------------
  // Bulk upload

  /** `row.room_no && row.floor_no && row.block && row.capacity && row.room_type`. */
  predicate Complete(row: Row)
  {
    && Truthy(CellAt(row, "room_no"))
    && Truthy(CellAt(row, "floor_no"))
    && Truthy(CellAt(row, "block"))
    && Truthy(CellAt(row, "capacity"))
    && Truthy(CellAt(row, "room_type"))
  }

  datatype UploadOutcome = EmptyFile | MissingFields | SendBulk(rows: seq<Row>)

  /** The checks before `POST /api/rooms/bulk`: an empty sheet is refused, a
      single row with a falsy required cell refuses the whole sheet, and
      otherwise the rows are sent exactly as read. */
  method CheckRoomUpload(data: seq<Row>) returns (outcome: UploadOutcome)
    ensures outcome == EmptyFile <==> data == []
    ensures outcome == MissingFields <==> data != [] && exists i :: 0 <= i < |data| && !Complete(data[i])
    ensures outcome.SendBulk? ==> outcome.rows == data
  {
    if |data| == 0 {
      return EmptyFile;
    }
    for i := 0 to |data|
      invariant forall k :: 0 <= k < i ==> Complete(data[k])
    {
      var row := data[i];
      if !Truthy(CellAt(row, "room_no")) || !Truthy(CellAt(row, "floor_no")) || !Truthy(CellAt(row, "block"))
         || !Truthy(CellAt(row, "capacity")) || !Truthy(CellAt(row, "room_type"))
      {
        assert !Complete(data[i]);
        return MissingFields;
      }
    }
    return SendBulk(data);
  }

  /** A ground floor or a zero capacity read as the number 0 is falsy, so
      such a row refuses the upload. */
  lemma ZeroIsMissing(row: Row)
    requires CellAt(row, "floor_no") == Number(0) || CellAt(row, "capacity") == Number(0)
    ensures !Complete(row)
  {
  }
}
