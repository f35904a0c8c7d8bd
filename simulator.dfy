/** One cycle of the background occupancy simulator (backend/main.py). The
    Gaussian draws and the `random.sample` positions are parameters; the
    thread, the sleeps and the retry loop are outside the model. */
module Simulator {
  import opened Models
  import Arith

  /** The simulator only looks at the first rooms of the store. */
  const RoomWindow := 200
  /** It writes at most this many samples per cycle. */
  const PicksPerCycle := 10

  function Min(a: int, b: int): int
  {
    if a < b then a else b
  }

  /** `max(0, min(100, int(x)))`. */
  function Clamp(x: real): (level: int)
    ensures 0 <= level <= 100
    ensures 0 <= Arith.TruncToInt(x) <= 100 ==> level == Arith.TruncToInt(x)
    ensures Arith.TruncToInt(x) < 0 ==> level == 0
    ensures Arith.TruncToInt(x) > 100 ==> level == 100
  {
    var v := Arith.TruncToInt(x);
    if v > 100 then 100 else if v < 0 then 0 else v
  }

  /** What `random.sample(rooms, k=min(10, len(rooms)))` returns: that many
      distinct positions into the rooms it was given. */
  predicate SamplePositions(picks: seq<nat>, n: nat)
  {
    |picks| == Min(PicksPerCycle, n)
    && (forall k | 0 <= k < |picks| :: picks[k] < n)
    && (forall j, k | 0 <= j < k < |picks| :: picks[j] != picks[k])
  }

  /** One pass of the loop body: the first 200 rooms are fetched; with none,
      nothing is written; otherwise one clamped sample is appended per picked
      room, all stamped `now`. */
  method Cycle(db: Database, picks: seq<nat>, draws: seq<real>, now: int)
    requires db.Valid()
    requires SamplePositions(picks, Min(RoomWindow, |db.rooms|))
    requires |draws| == |picks|
    modifies db
    ensures db.Valid()
    ensures db.rooms == old(db.rooms) && db.timetables == old(db.timetables)
    ensures |db.occupancies| == |old(db.occupancies)| + |picks|
    ensures db.occupancies[..|old(db.occupancies)|] == old(db.occupancies)
    ensures var added := db.occupancies[|old(db.occupancies)|..];
      (forall k | 0 <= k < |picks| ::
         added[k].roomId == db.rooms[picks[k]].roomId && added[k].level == Clamp(draws[k])
         && added[k].timestamp == now && 0 <= added[k].level <= 100)
      && (forall j, k | 0 <= j < k < |added| :: added[j].roomId != added[k].roomId)
  {
    var window := Min(RoomWindow, |db.rooms|);
    if window == 0 {
      return;
    }
    ghost var before := db.occupancies;
    var k := 0;
    while k < |picks|
      invariant 0 <= k <= |picks|
      invariant db.Valid()
      invariant db.rooms == old(db.rooms) && db.timetables == old(db.timetables)
      invariant |db.occupancies| == |before| + k
      invariant db.occupancies[..|before|] == before
      invariant forall j | 0 <= j < k ::
        var o := db.occupancies[|before| + j];
        o.roomId == db.rooms[picks[j]].roomId && o.level == Clamp(draws[j]) && o.timestamp == now
    {
      var rid := db.rooms[picks[k]].roomId;
      var o := Occupancy(NextOccupancyId(db.occupancies), rid, now, Clamp(draws[k]));
      db.occupancies := db.occupancies + [o];
      k := k + 1;
    }
    var added := db.occupancies[|before|..];
    assert forall j | 0 <= j < |picks| :: added[j] == db.occupancies[|before| + j];
    forall j, k | 0 <= j < k < |added| ensures added[j].roomId != added[k].roomId {
      if picks[j] < picks[k] {
        assert db.rooms[picks[j]].roomId != db.rooms[picks[k]].roomId;
      } else {
        assert db.rooms[picks[k]].roomId != db.rooms[picks[j]].roomId;
      }
    }
  }

  /** A cycle over an empty store writes nothing. */
  lemma EmptyStoreNoPicks(picks: seq<nat>)
    requires SamplePositions(picks, 0)
    ensures picks == []
  {
  }

  /** With at least ten rooms in the window exactly ten are picked. */
  lemma TenPicks(picks: seq<nat>, n: nat)
    requires SamplePositions(picks, n) && n >= PicksPerCycle
    ensures |picks| == PicksPerCycle
  {
  }

  /** `int(gauss)` truncates toward zero before clamping: -0.5 gives 0 and
      100.9 gives 100, 42.7 gives 42. */
  lemma ClampExamples()
    ensures Clamp(-0.5) == 0 && Clamp(100.9) == 100 && Clamp(42.7) == 42 && Clamp(-37.2) == 0
  {
  }
}
