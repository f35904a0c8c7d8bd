/** The three tables of the campus database (backend/models.py) and the
    session object that owns them. Timestamps are microseconds since the Unix
    epoch, in UTC. */
module Models {

  datatype Option<+T> = None | Some(value: T)

  /** A numeric CSV cell as `int()` or `float()` sees it: missing or empty,
      a number, or text that does not parse. */
  datatype Cell<T> = Blank | Value(v: T) | Malformed

  /** Day tokens, Monday first, as both the status lookup and the coverage
      grid spell them. */
  const DayNames: seq<string> := ["Mon", "Tue", "Wed", "Thu", "Fri", "Sat", "Sun"]

  /** One row of `rooms`. `kind` is the `type` column. Every writer of the
      table fills every column, so none is nullable here. */
  datatype Room = Room(
    roomId: string,
    block: string,
    capacity: int,
    kind: string,
    ac: string,
    lat: real,
    lon: real,
    amenities: string)

  /** One row of `timetables`: a booking of a room in a (day, slot) cell. */
  datatype TimetableEntry = TimetableEntry(roomId: string, day: string, slot: int, course: string)

  /** One row of `occupancies`: an append-only occupancy sample. */
  datatype Occupancy = Occupancy(id: nat, roomId: string, timestamp: int, level: int)

  /** The contents of the three tables at one moment. */
  datatype Tables = Tables(rooms: seq<Room>, timetables: seq<TimetableEntry>, occupancies: seq<Occupancy>)

  /** The unique index on `rooms.room_id`. */
  predicate DistinctRoomIds(rooms: seq<Room>)
  {
    forall i, j | 0 <= i < j < |rooms| :: rooms[i].roomId != rooms[j].roomId
  }

  /** The primary key of `occupancies`. */
  predicate DistinctOccupancyIds(occ: seq<Occupancy>)
  {
    forall i, j | 0 <= i < j < |occ| :: occ[i].id != occ[j].id
  }

  function MaxOccupancyId(occ: seq<Occupancy>): (m: nat)
    ensures forall i | 0 <= i < |occ| :: occ[i].id <= m
    ensures occ == [] ==> m == 0
  {
    if occ == [] then 0
    else
      var rest := MaxOccupancyId(occ[..|occ| - 1]);
      var last := occ[|occ| - 1].id;
      if last > rest then last else rest
  }

  /** The key the store gives the next inserted sample: one more than the
      largest key present, so it collides with none. */
  function NextOccupancyId(occ: seq<Occupancy>): (id: nat)
    ensures id > 0
    ensures forall i | 0 <= i < |occ| :: occ[i].id != id
  {
    MaxOccupancyId(occ) + 1
  }

  /** The database session: three tables that handlers query and append to. */
  class Database {
    var rooms: seq<Room>
    var timetables: seq<TimetableEntry>
    var occupancies: seq<Occupancy>

    ghost predicate Valid()
      reads this
    {
      DistinctRoomIds(rooms) && DistinctOccupancyIds(occupancies)
    }

    function Snapshot(): Tables
      reads this
    {
      Tables(rooms, timetables, occupancies)
    }

    constructor ()
      ensures Valid()
      ensures rooms == [] && timetables == [] && occupancies == []
    {
      rooms, timetables, occupancies := [], [], [];
    }
  }
}
