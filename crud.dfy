/** Room status derivation and the free-room query (backend/crud.py). The
    clock is the parameter `now`. */
module Crud {
  import opened Models
  import opened Text
  import Arith

  /** A level above this makes an unbooked room "occupied". */
  const OccThreshold := 30
  /** `rooms_free_filtered` never looks at more candidates than this. */
  const CandidateCap := 100

  const MicrosPerMinute := 60_000_000
  const MicrosPerHour := 60 * MicrosPerMinute
  const MicrosPerDay := 24 * MicrosPerHour
  const MicrosPerWeek := 7 * MicrosPerDay
  /** 1970-01-01 was a Thursday; Monday is weekday 0. */
  const EpochWeekday := 3

  datatype DaySlot = DaySlot(day: string, slot: int)

  /** `datetime.weekday()` of the instant, Monday = 0. */
  function Weekday(now: int): (w: int)
    ensures 0 <= w < 7
  {
    (now / MicrosPerDay + EpochWeekday) % 7
  }

  /** `datetime.hour` of the instant. */
  function HourOfDay(now: int): (h: int)
    ensures 0 <= h < 24
  {
    (now / MicrosPerHour) % 24
  }

  /** `current_day_slot`: the day token of the weekday and the hour modulo 10. */
  function CurrentDaySlot(now: int): (k: DaySlot)
    ensures k.day in DayNames
    ensures 0 <= k.slot <= 9
  {
    DaySlot(DayNames[Weekday(now)], HourOfDay(now) % 10)
  }

  /** The key repeats every week. */
  lemma DaySlotWeekly(now: int)
    ensures CurrentDaySlot(now + MicrosPerWeek) == CurrentDaySlot(now)
  {
    Arith.DivModUnique(now + MicrosPerWeek, MicrosPerDay, now / MicrosPerDay + 7, now % MicrosPerDay);
    Arith.DivModUnique(now + MicrosPerWeek, MicrosPerHour, now / MicrosPerHour + 168, now % MicrosPerHour);
    var h := now / MicrosPerHour;
    Arith.DivModUnique(h + 168, 24, h / 24 + 7, h % 24);
    var w := now / MicrosPerDay + EpochWeekday;
    Arith.DivModUnique(w + 7, 7, w / 7 + 1, w % 7);
  }

  /** One day later the key names the next weekday, at the same slot. */
  lemma DaySlotNextDay(now: int)
    ensures CurrentDaySlot(now + MicrosPerDay).day == DayNames[(Weekday(now) + 1) % 7]
    ensures CurrentDaySlot(now + MicrosPerDay).slot == CurrentDaySlot(now).slot
  {
    Arith.DivModUnique(now + MicrosPerDay, MicrosPerDay, now / MicrosPerDay + 1, now % MicrosPerDay);
    Arith.DivModUnique(now + MicrosPerDay, MicrosPerHour, now / MicrosPerHour + 24, now % MicrosPerHour);
    var h := now / MicrosPerHour;
    Arith.DivModUnique(h + 24, 24, h / 24 + 1, h % 24);
    var w := now / MicrosPerDay + EpochWeekday;
    var v := w % 7;
    Arith.DivModUnique(w + 1, 7, if v == 6 then w / 7 + 1 else w / 7, (v + 1) % 7);
    Arith.DivModUnique(v + 1, 7, if v == 6 then 1 else 0, (v + 1) % 7);
  }

  /** 2024-01-01 (a Monday) at 13:00 UTC falls in Monday's slot 3. */
  lemma DaySlotExample()
    ensures CurrentDaySlot(1_704_067_200_000_000 + 13 * MicrosPerHour) == DaySlot("Mon", 3)
  {
  }

  /** `get_room_by_id`: the first room with the identifier. */
  function FindRoom(rooms: seq<Room>, roomId: string): (r: Option<Room>)
    ensures r.None? <==> forall i | 0 <= i < |rooms| :: rooms[i].roomId != roomId
    ensures r.Some? ==> r.value in rooms && r.value.roomId == roomId
  {
    if rooms == [] then None
    else if rooms[0].roomId == roomId then Some(rooms[0])
    else FindRoom(rooms[1..], roomId)
  }

  /** `get_latest_occupancy`: a sample of the room with the greatest timestamp
      (among equal timestamps, the one stored last), or none. */
  function LatestOccupancy(occ: seq<Occupancy>, roomId: string): (r: Option<Occupancy>)
    ensures r.None? <==> forall i | 0 <= i < |occ| :: occ[i].roomId != roomId
    ensures r.Some? ==> r.value in occ && r.value.roomId == roomId
    ensures r.Some? ==> forall i | 0 <= i < |occ| && occ[i].roomId == roomId :: occ[i].timestamp <= r.value.timestamp
  {
    if occ == [] then None
    else
      var rest := LatestOccupancy(occ[..|occ| - 1], roomId);
      var last := occ[|occ| - 1];
      if last.roomId != roomId then rest
      else if rest.Some? && rest.value.timestamp > last.timestamp then rest
      else Some(last)
  }

  /** The level of the latest sample, 0 when the room has none. */
  function LatestLevel(occ: seq<Occupancy>, roomId: string): int
  {
    match LatestOccupancy(occ, roomId)
    case None => 0
    case Some(o) => o.level
  }

  /** A timetable entry exists for the room in the cell. */
  predicate IsBooked(tt: seq<TimetableEntry>, roomId: string, k: DaySlot)
  {
    exists e | e in tt :: e.roomId == roomId && e.day == k.day && e.slot == k.slot
  }

  datatype Status = Booked | FreeButOccupied | FreeAndEmpty

  /** The label the API reports for each status. */
  function Label(s: Status): string
  {
    match s
    case Booked => "Booked"
    case FreeButOccupied => "Free but Occupied \U{274C}"
    case FreeAndEmpty => "Free & Empty \U{2705}"
  }

  /** The prefix test `rooms_free_filtered` applies picks out exactly FreeAndEmpty. */
  lemma FreeEmptyPrefix(s: Status)
    ensures StartsWith(Label(s), "Free & Empty") <==> s == FreeAndEmpty
  {
    if s == FreeButOccupied {
      assert Label(s)[..12][5] == 'b';
    } else if s == FreeAndEmpty {
      assert Label(s)[..12] == "Free & Empty";
    }
  }

  /** The substring test the dashboards apply picks out exactly Booked. */
  lemma BookedSubstring(s: Status)
    ensures Contains(Label(s), "Booked") <==> s == Booked
  {
    if s == Booked {
      PrefixContained(Label(s), "Booked");
    } else {
      NotContainsWithoutFirstChar(Label(s), "Booked");
    }
  }

  datatype Derived = Derived(status: Status, level: int)

  /** `compute_status`: Booked when the current cell is booked, otherwise by
      the latest level against the threshold; the level is reported either way. */
  function ComputeStatus(t: Tables, room: Room, now: int): Derived
  {
    var level := LatestLevel(t.occupancies, room.roomId);
    if IsBooked(t.timetables, room.roomId, CurrentDaySlot(now)) then Derived(Booked, level)
    else if level > OccThreshold then Derived(FreeButOccupied, level)
    else Derived(FreeAndEmpty, level)
  }

  /** The status rules, with the reported level tied to the stored samples:
      it is the level of a sample with the greatest timestamp, or 0. */
  lemma StatusRules(t: Tables, room: Room, now: int)
    ensures var d := ComputeStatus(t, room, now);
      (d.status == Booked <==> IsBooked(t.timetables, room.roomId, CurrentDaySlot(now)))
      && (d.status == FreeButOccupied <==> d.status != Booked && d.level > OccThreshold)
      && (d.status == FreeAndEmpty <==> d.status != Booked && d.level <= OccThreshold)
      && ((forall i | 0 <= i < |t.occupancies| :: t.occupancies[i].roomId != room.roomId) ==> d.level == 0)
      && (forall i | 0 <= i < |t.occupancies| && t.occupancies[i].roomId == room.roomId ::
            exists j | 0 <= j < |t.occupancies| ::
              t.occupancies[j].roomId == room.roomId && d.level == t.occupancies[j].level
              && t.occupancies[i].timestamp <= t.occupancies[j].timestamp)
  {
    var latest := LatestOccupancy(t.occupancies, room.roomId);
    if latest.Some? {
      var j :| 0 <= j < |t.occupancies| && t.occupancies[j] == latest.value;
      assert t.occupancies[j].roomId == room.roomId;
    }
  }

  /** A booked room stays Booked whatever samples are stored. */
  lemma BookedWhateverLevel(t: Tables, room: Room, now: int, samples: seq<Occupancy>)
    requires IsBooked(t.timetables, room.roomId, CurrentDaySlot(now))
    ensures ComputeStatus(Tables(t.rooms, t.timetables, samples), room, now).status == Booked
  {
  }

  /** A room with no samples and no booking is Free & Empty at level 0. */
  lemma UnknownRoomIsEmpty(t: Tables, room: Room, now: int)
    requires forall i | 0 <= i < |t.occupancies| :: t.occupancies[i].roomId != room.roomId
    requires forall i | 0 <= i < |t.timetables| :: t.timetables[i].roomId != room.roomId
    ensures ComputeStatus(t, room, now) == Derived(FreeAndEmpty, 0)
  {
  }

  /** A new sample of the room, no older than its others, sets the level
      the status reports; an unbooked room then splits at the threshold. */
  lemma {:induction false} StatusAfterSample(t: Tables, room: Room, now: int, o: Occupancy)
    requires o.roomId == room.roomId
    requires forall i | 0 <= i < |t.occupancies| && t.occupancies[i].roomId == room.roomId ::
      t.occupancies[i].timestamp <= o.timestamp
    ensures var d := ComputeStatus(Tables(t.rooms, t.timetables, t.occupancies + [o]), room, now);
      d.level == o.level
      && (!IsBooked(t.timetables, room.roomId, CurrentDaySlot(now)) ==>
            d.status == (if o.level > OccThreshold then FreeButOccupied else FreeAndEmpty))
  {
    var occ := t.occupancies + [o];
    assert occ[..|occ| - 1] == t.occupancies;
  }

  /** A sample of another room leaves the status unchanged. */
  lemma {:induction false} OtherRoomSampleIrrelevant(t: Tables, room: Room, now: int, o: Occupancy)
    requires o.roomId != room.roomId
    ensures ComputeStatus(Tables(t.rooms, t.timetables, t.occupancies + [o]), room, now)
         == ComputeStatus(t, room, now)
  {
    var occ := t.occupancies + [o];
    assert occ[..|occ| - 1] == t.occupancies;
  }

  /** The block filter applies only for a non-empty block, the capacity
      filter only for a non-zero capacity (both are falsy tests in the source). */
  predicate MatchesFilter(r: Room, block: Option<string>, capacity: Option<int>)
  {
    (block.Some? && block.value != "" ==> r.block == block.value)
    && (capacity.Some? && capacity.value != 0 ==> r.capacity >= capacity.value)
  }

  /** The filtered room query, in store order. */
  function Candidates(rooms: seq<Room>, block: Option<string>, capacity: Option<int>): (c: seq<Room>)
    ensures |c| <= |rooms|
    ensures forall i | 0 <= i < |c| :: c[i] in rooms && MatchesFilter(c[i], block, capacity)
    ensures forall r | r in rooms && MatchesFilter(r, block, capacity) :: r in c
    ensures forall r :: multiset(c)[r] == if MatchesFilter(r, block, capacity) then multiset(rooms)[r] else 0
  {
    if rooms == [] then []
    else
      var rest := Candidates(rooms[..|rooms| - 1], block, capacity);
      var r := rooms[|rooms| - 1];
      assert rooms == rooms[..|rooms| - 1] + [r];
      if MatchesFilter(r, block, capacity) then rest + [r] else rest
  }

  /** `.limit(n)`. */
  function Take<T>(s: seq<T>, n: nat): (r: seq<T>)
    ensures |r| <= n && |r| <= |s|
    ensures r == s[..|r|]
  {
    if |s| <= n then s else s[..n]
  }

  /** `head(n)` keeps exactly `min(n, |s|)` rows. */
  lemma TakeLength<T>(s: seq<T>, n: nat)
    ensures |Take(s, n)| == if |s| < n then |s| else n
  {
  }

  datatype Scored = Scored(room: Room, status: Status, level: int)

  function Score(t: Tables, r: Room, now: int): Scored
  {
    var d := ComputeStatus(t, r, now);
    Scored(r, d.status, d.level)
  }

  /** The scored rooms among `cands` that are Free & Empty, in order. */
  function FreeAmong(t: Tables, cands: seq<Room>, now: int): seq<Scored>
  {
    if cands == [] then []
    else
      var rest := FreeAmong(t, cands[..|cands| - 1], now);
      var s := Score(t, cands[|cands| - 1], now);
      if StartsWith(Label(s.status), "Free & Empty") then rest + [s] else rest
  }

  /** `FreeAmong` keeps exactly the Free & Empty candidates, scored, in order. */
  lemma {:induction false} FreeAmongExact(t: Tables, cands: seq<Room>, now: int)
    ensures |FreeAmong(t, cands, now)| <= |cands|
    ensures forall s | s in FreeAmong(t, cands, now) ::
      s.room in cands && s == Score(t, s.room, now) && s.status == FreeAndEmpty
    ensures forall r | r in cands ::
      ComputeStatus(t, r, now).status == FreeAndEmpty ==> Score(t, r, now) in FreeAmong(t, cands, now)
  {
    if cands != [] {
      var init := cands[..|cands| - 1];
      FreeAmongExact(t, init, now);
      FreeEmptyPrefix(Score(t, cands[|cands| - 1], now).status);
      assert cands == init + [cands[|cands| - 1]];
    }
  }

  /** `rooms_free_filtered`: filter, cap the candidates at 100, keep the
      Free & Empty ones. */
  method RoomsFreeFiltered(t: Tables, block: Option<string>, capacity: Option<int>, now: int)
    returns (results: seq<Scored>)
    ensures results == FreeAmong(t, Take(Candidates(t.rooms, block, capacity), CandidateCap), now)
    ensures |results| <= CandidateCap
    ensures forall s | s in results ::
      s.room in t.rooms
      && MatchesFilter(s.room, block, capacity)
      && s.status == FreeAndEmpty
      && s.level <= OccThreshold
      && s == Score(t, s.room, now)
    ensures forall r | r in Take(Candidates(t.rooms, block, capacity), CandidateCap) ::
      ComputeStatus(t, r, now).status == FreeAndEmpty ==> Score(t, r, now) in results
    ensures |Candidates(t.rooms, block, capacity)| <= CandidateCap ==>
      forall r | r in t.rooms && MatchesFilter(r, block, capacity) ::
        ComputeStatus(t, r, now).status == FreeAndEmpty ==> Score(t, r, now) in results
  {
    var cands := Take(Candidates(t.rooms, block, capacity), CandidateCap);
    results := FreeScan(t, cands, now);
    FreeFilteredFacts(t, block, capacity, now);
    if |Candidates(t.rooms, block, capacity)| <= CandidateCap {
      UncappedFree(t, block, capacity, now);
    }
  }

  /** The loop over the capped candidates keeping the Free & Empty ones. */
  method FreeScan(t: Tables, cands: seq<Room>, now: int) returns (results: seq<Scored>)
    ensures results == FreeAmong(t, cands, now)
  {
    results := [];
    var i := 0;
    while i < |cands|
      invariant 0 <= i <= |cands|
      invariant results == FreeAmong(t, cands[..i], now)
    {
      assert cands[..i + 1][..i] == cands[..i];
      var d := ComputeStatus(t, cands[i], now);
      if StartsWith(Label(d.status), "Free & Empty") {
        results := results + [Scored(cands[i], d.status, d.level)];
      }
      i := i + 1;
    }
    assert cands[..i] == cands;
  }

  /** What the free-room query promises about the capped, filtered candidates. */
  lemma FreeFilteredFacts(t: Tables, block: Option<string>, capacity: Option<int>, now: int)
    ensures var results := FreeAmong(t, Take(Candidates(t.rooms, block, capacity), CandidateCap), now);
      |results| <= CandidateCap
      && (forall s | s in results ::
            s.room in t.rooms
            && MatchesFilter(s.room, block, capacity)
            && s.status == FreeAndEmpty
            && s.level <= OccThreshold
            && s == Score(t, s.room, now))
      && (forall r | r in Take(Candidates(t.rooms, block, capacity), CandidateCap) ::
            ComputeStatus(t, r, now).status == FreeAndEmpty ==> Score(t, r, now) in results)
  {
    CappedCandidates(t.rooms, block, capacity);
    FreeFactsOver(t, Take(Candidates(t.rooms, block, capacity), CandidateCap), block, capacity, now);
  }

  /** The same facts for any list of at most 100 stored, matching rooms. */
  lemma FreeFactsOver(t: Tables, cands: seq<Room>, block: Option<string>, capacity: Option<int>, now: int)
    requires |cands| <= CandidateCap
    requires forall r | r in cands :: r in t.rooms && MatchesFilter(r, block, capacity)
    ensures var results := FreeAmong(t, cands, now);
      |results| <= CandidateCap
      && (forall s | s in results ::
            s.room in t.rooms
            && MatchesFilter(s.room, block, capacity)
            && s.status == FreeAndEmpty
            && s.level <= OccThreshold
            && s == Score(t, s.room, now))
      && (forall r | r in cands ::
            ComputeStatus(t, r, now).status == FreeAndEmpty ==> Score(t, r, now) in results)
  {
    FreeAmongExact(t, cands, now);
  }

  /** When the filter leaves at most 100 rooms, the cap drops none, so every
      stored room that passes the filter and is Free & Empty is listed. */
  lemma UncappedFree(t: Tables, block: Option<string>, capacity: Option<int>, now: int)
    requires |Candidates(t.rooms, block, capacity)| <= CandidateCap
    ensures forall r | r in t.rooms && MatchesFilter(r, block, capacity) ::
      ComputeStatus(t, r, now).status == FreeAndEmpty
      ==> Score(t, r, now) in FreeAmong(t, Take(Candidates(t.rooms, block, capacity), CandidateCap), now)
  {
    var all := Candidates(t.rooms, block, capacity);
    assert Take(all, CandidateCap) == all;
    FreeAmongExact(t, all, now);
  }

  /** The capped candidates are rooms of the table that pass the filter. */
  lemma CappedCandidates(rooms: seq<Room>, block: Option<string>, capacity: Option<int>)
    ensures forall r | r in Take(Candidates(rooms, block, capacity), CandidateCap) ::
      r in rooms && MatchesFilter(r, block, capacity)
  {
    var all := Candidates(rooms, block, capacity);
    var cands := Take(all, CandidateCap);
    forall r | r in cands ensures r in rooms && MatchesFilter(r, block, capacity) {
      var i :| 0 <= i < |cands| && cands[i] == r;
      assert all[i] == r;
    }
  }

  /** `add_occupancy`: exactly one sample is appended, with the level as
      given (no range check); the rest of the store is untouched. */
  method AddOccupancy(db: Database, roomId: string, level: int, now: int) returns (o: Occupancy)
    requires db.Valid()
    modifies db
    ensures db.Valid()
    ensures o == Occupancy(NextOccupancyId(old(db.occupancies)), roomId, now, level)
    ensures db.occupancies == old(db.occupancies) + [o]
    ensures db.rooms == old(db.rooms) && db.timetables == old(db.timetables)
  {
    o := Occupancy(NextOccupancyId(db.occupancies), roomId, now, level);
    db.occupancies := db.occupancies + [o];
  }
}
