/** The room handlers of the HTTP API (backend/main.py): the full listing,
    the free-room listing, the detail view and the check-in. A 404 response
    is the `NotFound` value. */
module Api {
  import opened Models
  import opened Crud
  import Sorting

  /** `schemas.RoomOut`: the room's columns plus its status label and level. */
  datatype RoomOut = RoomOut(room: Room, status: string, level: int)

  datatype Response<T> = Ok(value: T) | NotFound

  /** The detail view never lists more samples than this. */
  const HistoryLimit := 50

  function View(t: Tables, r: Room, now: int): RoomOut
  {
    var d := ComputeStatus(t, r, now);
    RoomOut(r, Label(d.status), d.level)
  }

  /** `rooms_all`: one entry per stored room, in store order, carrying the
      status and level `compute_status` derives for it. */
  method RoomsAll(t: Tables, now: int) returns (out: seq<RoomOut>)
    ensures |out| == |t.rooms|
    ensures forall i | 0 <= i < |out| ::
      out[i].room == t.rooms[i]
      && out[i].status == Label(ComputeStatus(t, t.rooms[i], now).status)
      && out[i].level == ComputeStatus(t, t.rooms[i], now).level
  {
    out := [];
    var i := 0;
    while i < |t.rooms|
      invariant 0 <= i <= |t.rooms|
      invariant |out| == i
      invariant forall k | 0 <= k < i :: out[k] == View(t, t.rooms[k], now)
    {
      var d := ComputeStatus(t, t.rooms[i], now);
      out := out + [RoomOut(t.rooms[i], Label(d.status), d.level)];
      i := i + 1;
    }
  }

  /** `rooms_free`: the free-room query rendered as `RoomOut` entries. */
  method RoomsFree(t: Tables, block: Option<string>, capacity: Option<int>, now: int)
    returns (out: seq<RoomOut>)
    ensures |out| <= CandidateCap
    ensures forall o | o in out ::
      o.room in t.rooms
      && MatchesFilter(o.room, block, capacity)
      && o.status == Label(FreeAndEmpty)
      && o.level <= OccThreshold
      && o == View(t, o.room, now)
    ensures forall r | r in Take(Candidates(t.rooms, block, capacity), CandidateCap) ::
      ComputeStatus(t, r, now).status == FreeAndEmpty ==> View(t, r, now) in out
  {
    var results := RoomsFreeFiltered(t, block, capacity, now);
    out := RenderAll(results);
    RenderedFree(t, block, capacity, now, results, out);
  }

  /** The `[RoomOut(...) for ...]` rendering of the scored rooms. */
  method RenderAll(results: seq<Scored>) returns (out: seq<RoomOut>)
    ensures |out| == |results|
    ensures forall k | 0 <= k < |results| :: out[k] == Rendered(results[k])
  {
    out := [];
    var i := 0;
    while i < |results|
      invariant 0 <= i <= |results|
      invariant |out| == i
      invariant forall k | 0 <= k < i :: out[k] == Rendered(results[k])
    {
      out := out + [Rendered(results[i])];
      i := i + 1;
    }
  }

  /** Rendering keeps what the free-room query promises about its rooms. */
  lemma RenderedFree(t: Tables, block: Option<string>, capacity: Option<int>, now: int,
                     results: seq<Scored>, out: seq<RoomOut>)
    requires |results| <= CandidateCap
    requires forall s | s in results ::
      s.room in t.rooms
      && MatchesFilter(s.room, block, capacity)
      && s.status == FreeAndEmpty
      && s.level <= OccThreshold
      && s == Score(t, s.room, now)
    requires forall r | r in Take(Candidates(t.rooms, block, capacity), CandidateCap) ::
      ComputeStatus(t, r, now).status == FreeAndEmpty ==> Score(t, r, now) in results
    requires |out| == |results|
    requires forall k | 0 <= k < |results| :: out[k] == Rendered(results[k])
    ensures |out| <= CandidateCap
    ensures forall o | o in out ::
      o.room in t.rooms
      && MatchesFilter(o.room, block, capacity)
      && o.status == Label(FreeAndEmpty)
      && o.level <= OccThreshold
      && o == View(t, o.room, now)
    ensures forall r | r in Take(Candidates(t.rooms, block, capacity), CandidateCap) ::
      ComputeStatus(t, r, now).status == FreeAndEmpty ==> View(t, r, now) in out
  {
    forall o | o in out
      ensures o.room in t.rooms && MatchesFilter(o.room, block, capacity)
      ensures o.status == Label(FreeAndEmpty) && o.level <= OccThreshold && o == View(t, o.room, now)
    {
      var k :| 0 <= k < |out| && out[k] == o;
      assert results[k] in results;
    }
    forall r | r in Take(Candidates(t.rooms, block, capacity), CandidateCap)
      && ComputeStatus(t, r, now).status == FreeAndEmpty
      ensures View(t, r, now) in out
    {
      var k :| 0 <= k < |results| && results[k] == Score(t, r, now);
      assert out[k] == View(t, r, now);
    }
  }

  function Rendered(s: Scored): RoomOut
  {
    RoomOut(s.room, Label(s.status), s.level)
  }

  /** The room's timetable entries, in store order. */
  function EntriesOf(tt: seq<TimetableEntry>, roomId: string): (r: seq<TimetableEntry>)
    ensures forall e :: e in r <==> e in tt && e.roomId == roomId
    ensures forall e :: multiset(r)[e] == if e.roomId == roomId then multiset(tt)[e] else 0
  {
    if tt == [] then []
    else
      var rest := EntriesOf(tt[..|tt| - 1], roomId);
      var e := tt[|tt| - 1];
      assert tt == tt[..|tt| - 1] + [e];
      if e.roomId == roomId then rest + [e] else rest
  }

  /** The room's occupancy samples, in store order. */
  function SamplesOf(occ: seq<Occupancy>, roomId: string): (r: seq<Occupancy>)
    ensures forall o :: o in r <==> o in occ && o.roomId == roomId
    ensures forall o :: multiset(r)[o] == if o.roomId == roomId then multiset(occ)[o] else 0
  {
    if occ == [] then []
    else
      var rest := SamplesOf(occ[..|occ| - 1], roomId);
      var o := occ[|occ| - 1];
      assert occ == occ[..|occ| - 1] + [o];
      if o.roomId == roomId then rest + [o] else rest
  }

  /** `order_by(timestamp.desc())`: the sort key is the negated timestamp. */
  function NewestFirstKey(o: Occupancy): real
  {
    -(o.timestamp as real)
  }

  /** The 50 newest samples of the room, newest first, each stored sample
      at most as often as it is stored. */
  function History(occ: seq<Occupancy>, roomId: string): (h: seq<Occupancy>)
    ensures |h| == if |SamplesOf(occ, roomId)| < HistoryLimit then |SamplesOf(occ, roomId)| else HistoryLimit
    ensures multiset(h) <= multiset(SamplesOf(occ, roomId))
    ensures forall o | o in h :: o in occ && o.roomId == roomId
    ensures forall i, j | 0 <= i < j < |h| :: h[i].timestamp >= h[j].timestamp
    ensures forall o | o in occ && o.roomId == roomId && o !in h ::
      forall i | 0 <= i < |h| :: o.timestamp <= h[i].timestamp
  {
    var mine := SamplesOf(occ, roomId);
    var sorted := Sorting.SortBy(mine, NewestFirstKey);
    var n := if |sorted| < HistoryLimit then |sorted| else HistoryLimit;
    NewestPrefix(mine, sorted, n);
    sorted[..n]
  }

  lemma NewestPrefix(mine: seq<Occupancy>, sorted: seq<Occupancy>, n: nat)
    requires multiset(sorted) == multiset(mine)
    requires Sorting.SortedBy(sorted, NewestFirstKey)
    requires n <= |sorted|
    ensures multiset(sorted[..n]) <= multiset(mine)
    ensures forall o | o in sorted[..n] :: o in mine
    ensures forall i, j | 0 <= i < j < n :: sorted[..n][i].timestamp >= sorted[..n][j].timestamp
    ensures forall o | o in mine && o !in sorted[..n] ::
      forall i | 0 <= i < n :: o.timestamp <= sorted[..n][i].timestamp
  {
    assert sorted == sorted[..n] + sorted[n..];
    forall o | o in sorted[..n] ensures o in mine {
      assert o in sorted;
      assert o in multiset(sorted);
    }
    forall i, j | 0 <= i < j < n ensures sorted[..n][i].timestamp >= sorted[..n][j].timestamp {
      assert NewestFirstKey(sorted[i]) <= NewestFirstKey(sorted[j]);
    }
    forall o | o in mine && o !in sorted[..n]
      ensures forall i | 0 <= i < n :: o.timestamp <= sorted[..n][i].timestamp
    {
      assert o in multiset(mine);
      assert o in sorted;
      Sorting.TopByKey(sorted, NewestFirstKey, n, o);
    }
  }

  datatype Detail = Detail(room: Room, timetable: seq<TimetableEntry>, history: seq<Occupancy>)

  /** `room_detail`: 404 for an unknown id; otherwise the room, all its
      timetable entries and its 50 newest samples, newest first. The response
      shows each sample's timestamp and level. */
  function RoomDetail(t: Tables, roomId: string): (r: Response<Detail>)
    ensures r.NotFound? <==> forall i | 0 <= i < |t.rooms| :: t.rooms[i].roomId != roomId
    ensures r.Ok? ==> r.value.room in t.rooms && r.value.room.roomId == roomId
    ensures r.Ok? ==> forall e :: e in r.value.timetable <==> e in t.timetables && e.roomId == roomId
    ensures r.Ok? ==> forall e ::
      multiset(r.value.timetable)[e] == if e.roomId == roomId then multiset(t.timetables)[e] else 0
    ensures r.Ok? ==> r.value.history == History(t.occupancies, roomId)
  {
    match FindRoom(t.rooms, roomId)
    case None => NotFound
    case Some(room) => Ok(Detail(room, EntriesOf(t.timetables, roomId), History(t.occupancies, roomId)))
  }

  /** `checkin`: 404 and no change for an unknown id; otherwise exactly one
      sample is appended with the level as sent (no range check), and the
      response carries its key. */
  method Checkin(db: Database, roomId: string, level: int, now: int) returns (r: Response<nat>)
    requires db.Valid()
    modifies db
    ensures db.Valid()
    ensures r.NotFound? <==> forall i | 0 <= i < |db.rooms| :: db.rooms[i].roomId != roomId
    ensures r.NotFound? ==> db.occupancies == old(db.occupancies)
    ensures r.Ok? ==> (r.value == NextOccupancyId(old(db.occupancies))
                       && db.occupancies == old(db.occupancies) + [Occupancy(r.value, roomId, now, level)])
    ensures db.rooms == old(db.rooms) && db.timetables == old(db.timetables)
  {
    var found := FindRoom(db.rooms, roomId);
    if found.None? {
      return NotFound;
    }
    var o := AddOccupancy(db, roomId, level, now);
    r := Ok(o.id);
  }

  /** After a successful check-in stamped no earlier than the room's other
      samples, the room reports the checked-in level. */
  lemma CheckinSetsLevel(t: Tables, room: Room, now: int, id: nat, level: int)
    requires forall i | 0 <= i < |t.occupancies| && t.occupancies[i].roomId == room.roomId ::
      t.occupancies[i].timestamp <= now
    ensures View(Tables(t.rooms, t.timetables, t.occupancies + [Occupancy(id, room.roomId, now, level)]), room, now).level == level
  {
    StatusAfterSample(t, room, now, Occupancy(id, room.roomId, now, level));
  }
}
