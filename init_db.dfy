/** `populate_from_csv` (backend/init_db.py): empty the three tables, then
    reload rooms and timetable from the two CSV files. A file is None when
    it does not exist; each parsed line is a row of optional cells, None
    where `csv.DictReader` has no value for the column. */
module Loader {
  import opened Models

  datatype RoomCsvRow = RoomCsvRow(
    roomId: Option<string>,
    block: Option<string>,
    capacity: Cell<int>,
    kind: Option<string>,
    ac: Option<string>,
    lat: Cell<real>,
    lon: Cell<real>,
    amenities: Option<string>)

  datatype TimetableCsvRow = TimetableCsvRow(roomId: Option<string>, day: Option<string>, slot: Cell<int>, course: Option<string>)

  /** How the load ended. `int()` or `float()` of a malformed cell raises,
      and so does the unique index on `room_id` at the commit. */
  datatype Outcome = Loaded | CsvMissing | BadRoomRow | DuplicateRoomId | BadTimetableRow

  /** `x or default` for a text cell. */
  function OrText(c: Option<string>, default: string): (s: string)
    ensures c.Some? && c.value != "" ==> s == c.value
    ensures c.None? || c.value == "" ==> s == default
  {
    if c.Some? && c.value != "" then c.value else default
  }

  /** `int(x or 0)`, `float(x or 0.0)` for a well-formed numeric cell. */
  function OrNumber<T>(c: Cell<T>, default: T): T
    requires !c.Malformed?
  {
    if c.Value? then c.v else default
  }

  predicate RoomRowParses(row: RoomCsvRow)
  {
    !row.capacity.Malformed? && !row.lat.Malformed? && !row.lon.Malformed?
  }

  /** The `Room` built from one line. The id and block are taken as they
      are; a missing one is stored as the empty string where the source
      stores NULL, so two rows without an id collide on "". */
  function RoomOf(row: RoomCsvRow): Room
    requires RoomRowParses(row)
  {
    Room(OrText(row.roomId, ""), OrText(row.block, ""), OrNumber(row.capacity, 0),
         OrText(row.kind, "lecture"), OrText(row.ac, "No"),
         OrNumber(row.lat, 0.0), OrNumber(row.lon, 0.0), OrText(row.amenities, ""))
  }

  predicate TimetableRowParses(row: TimetableCsvRow)
  {
    !row.slot.Malformed?
  }

  function EntryOf(row: TimetableCsvRow): TimetableEntry
    requires TimetableRowParses(row)
  {
    TimetableEntry(OrText(row.roomId, ""), OrText(row.day, ""), OrNumber(row.slot, 0), OrText(row.course, "-"))
  }

  /** The per-column defaults: an empty line becomes a room of capacity 0,
      type "lecture", no AC, no amenities, at (0, 0); an empty timetable
      line is slot 0 with course "-". */
  lemma Defaults()
    ensures var room := RoomOf(RoomCsvRow(None, None, Blank, None, None, Blank, Blank, None));
      room.capacity == 0 && room.kind == "lecture" && room.ac == "No" && room.amenities == ""
      && room.lat == 0.0 && room.lon == 0.0
    ensures var room := RoomOf(RoomCsvRow(None, None, Blank, Some(""), Some(""), Blank, Blank, Some("")));
      room.kind == "lecture" && room.ac == "No" && room.amenities == ""
    ensures var e := EntryOf(TimetableCsvRow(None, None, Blank, None));
      e.slot == 0 && e.course == "-"
    ensures EntryOf(TimetableCsvRow(None, None, Blank, Some(""))).course == "-"
  {
  }

  /** A value in a cell is kept as it is. */
  lemma ValuesKept(row: RoomCsvRow, capacity: int, kind: string)
    requires RoomRowParses(row) && row.capacity == Value(capacity) && row.kind == Some(kind) && kind != ""
    ensures RoomOf(row).capacity == capacity && RoomOf(row).kind == kind
  {
  }

  /** The whole reload. */
  method PopulateFromCsv(db: Database, roomsCsv: Option<seq<RoomCsvRow>>, timetableCsv: Option<seq<TimetableCsvRow>>)
    returns (outcome: Outcome)
    modifies db
    ensures db.Valid()
    ensures db.occupancies == []
    ensures outcome == CsvMissing <==> roomsCsv.None? || timetableCsv.None?
    ensures outcome == CsvMissing ==> db.rooms == [] && db.timetables == []
    ensures roomsCsv.Some? && timetableCsv.Some? ==>
      (outcome == BadRoomRow <==> exists i | 0 <= i < |roomsCsv.value| :: !RoomRowParses(roomsCsv.value[i]))
    ensures outcome == BadRoomRow || outcome == DuplicateRoomId ==> db.rooms == [] && db.timetables == []
    ensures outcome == DuplicateRoomId || outcome == BadTimetableRow || outcome == Loaded ==>
      forall i | 0 <= i < |roomsCsv.value| :: RoomRowParses(roomsCsv.value[i])
    ensures outcome == DuplicateRoomId ==>
      exists i, j | 0 <= i < j < |roomsCsv.value| :: OrText(roomsCsv.value[i].roomId, "") == OrText(roomsCsv.value[j].roomId, "")
    ensures outcome == BadTimetableRow || outcome == Loaded ==>
      (|db.rooms| == |roomsCsv.value|
       && forall i | 0 <= i < |roomsCsv.value| :: db.rooms[i] == RoomOf(roomsCsv.value[i]))
    ensures outcome == BadTimetableRow ==>
      (db.timetables == [] && exists i | 0 <= i < |timetableCsv.value| :: !TimetableRowParses(timetableCsv.value[i]))
    ensures outcome == Loaded ==>
      (|db.timetables| == |timetableCsv.value|
       && forall i | 0 <= i < |timetableCsv.value| :: TimetableRowParses(timetableCsv.value[i]) && db.timetables[i] == EntryOf(timetableCsv.value[i]))
  {
    ClearAll(db);
    if roomsCsv.None? || timetableCsv.None? {
      return CsvMissing;
    }
    var rooms, ok := BuildRooms(roomsCsv.value);
    if !ok {
      return BadRoomRow;
    }
    var unique := Distinct(rooms);
    if !unique {
      return DuplicateRoomId;
    }
    db.rooms := rooms;
    var entries, ttOk := BuildEntries(timetableCsv.value);
    if !ttOk {
      return BadTimetableRow;
    }
    db.timetables := entries;
    outcome := Loaded;
  }

  /** The three deletes and their commit: occupancies, timetable, rooms. */
  method ClearAll(db: Database)
    modifies db
    ensures db.rooms == [] && db.timetables == [] && db.occupancies == []
    ensures db.Valid()
  {
    db.occupancies := [];
    db.timetables := [];
    db.rooms := [];
  }

  /** The rooms loop: one room per line in file order, or failure at the
      first line whose number does not parse. */
  method BuildRooms(rows: seq<RoomCsvRow>) returns (rooms: seq<Room>, ok: bool)
    ensures ok <==> forall i | 0 <= i < |rows| :: RoomRowParses(rows[i])
    ensures ok ==> |rooms| == |rows| && forall i | 0 <= i < |rows| :: rooms[i] == RoomOf(rows[i])
  {
    rooms := [];
    var i := 0;
    while i < |rows|
      invariant 0 <= i <= |rows|
      invariant |rooms| == i
      invariant forall k | 0 <= k < i :: RoomRowParses(rows[k]) && rooms[k] == RoomOf(rows[k])
    {
      if !RoomRowParses(rows[i]) {
        return rooms, false;
      }
      rooms := rooms + [RoomOf(rows[i])];
      i := i + 1;
    }
    ok := true;
  }

  /** The timetable loop; duplicate (room, day, slot) lines are all kept. */
  method BuildEntries(rows: seq<TimetableCsvRow>) returns (entries: seq<TimetableEntry>, ok: bool)
    ensures ok <==> forall i | 0 <= i < |rows| :: TimetableRowParses(rows[i])
    ensures ok ==> |entries| == |rows| && forall i | 0 <= i < |rows| :: entries[i] == EntryOf(rows[i])
  {
    entries := [];
    var i := 0;
    while i < |rows|
      invariant 0 <= i <= |rows|
      invariant |entries| == i
      invariant forall k | 0 <= k < i :: TimetableRowParses(rows[k]) && entries[k] == EntryOf(rows[k])
    {
      if !TimetableRowParses(rows[i]) {
        return entries, false;
      }
      entries := entries + [EntryOf(rows[i])];
      i := i + 1;
    }
    ok := true;
  }

  /** The unique index's check at the commit. */
  method Distinct(rooms: seq<Room>) returns (ok: bool)
    ensures ok <==> DistinctRoomIds(rooms)
  {
    var i := 0;
    while i < |rooms|
      invariant 0 <= i <= |rooms|
      invariant forall a, b | 0 <= a < b < |rooms| && a < i :: rooms[a].roomId != rooms[b].roomId
    {
      var j := i + 1;
      while j < |rooms|
        invariant i < j <= |rooms|
        invariant forall b | i < b < j :: rooms[i].roomId != rooms[b].roomId
      {
        if rooms[i].roomId == rooms[j].roomId {
          return false;
        }
        j := j + 1;
      }
      i := i + 1;
    }
    ok := true;
  }
}
