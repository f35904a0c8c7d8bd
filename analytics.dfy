/** The analytics endpoints of the HTTP API (backend/main.py): the block
    heatmap and the summary with its block table, room-type counts, timetable
    coverage grid and recent insert rate. */
module Analytics {
  import opened Models
  import opened Crud
  import opened Assoc
  import Arith
  import Text

  /** With every stored level in [0, 100], a room's latest level is too. */
  lemma LatestLevelWithin(occ: seq<Occupancy>, roomId: string)
    requires forall i | 0 <= i < |occ| :: 0 <= occ[i].level <= 100
    ensures 0 <= LatestLevel(occ, roomId) <= 100
  {
    var latest := LatestOccupancy(occ, roomId);
    if latest.Some? {
      var j :| 0 <= j < |occ| && occ[j] == latest.value;
    }
  }

  // ---------------------------------------------------------------- heatmap

  function BlocksOf(rooms: seq<Room>): (bs: seq<string>)
    ensures |bs| == |rooms|
    ensures forall i | 0 <= i < |rooms| :: bs[i] == rooms[i].block
  {
    if rooms == [] then [] else BlocksOf(rooms[..|rooms| - 1]) + [rooms[|rooms| - 1].block]
  }

  /** The latest levels of the rooms in block `b`, in store order. */
  function BlockLevels(t: Tables, rooms: seq<Room>, b: string): (v: seq<int>)
    ensures |v| == Count(BlocksOf(rooms), b)
  {
    if rooms == [] then []
    else
      var rest := BlockLevels(t, rooms[..|rooms| - 1], b);
      var r := rooms[|rooms| - 1];
      assert BlocksOf(rooms)[..|rooms| - 1] == BlocksOf(rooms[..|rooms| - 1]);
      if r.block == b then rest + [LatestLevel(t.occupancies, r.roomId)] else rest
  }

  /** `blocks.setdefault(r.block, []).append(level)` over the rooms. */
  function HeatGroups(t: Tables, rooms: seq<Room>): seq<Entry<string, seq<int>>>
  {
    if rooms == [] then []
    else
      var m := HeatGroups(t, rooms[..|rooms| - 1]);
      var r := rooms[|rooms| - 1];
      Put(m, r.block, Get(m, r.block, []) + [LatestLevel(t.occupancies, r.roomId)])
  }

  /** The grouping lists every block once, first occurrence first, with the
      latest levels of exactly its rooms. */
  lemma {:induction false} HeatGroupsExact(t: Tables, rooms: seq<Room>)
    ensures Keys(HeatGroups(t, rooms)) == Dedup(BlocksOf(rooms))
    ensures DistinctKeys(HeatGroups(t, rooms))
    ensures forall b :: Get(HeatGroups(t, rooms), b, []) == BlockLevels(t, rooms, b)
  {
    if rooms != [] {
      var init := rooms[..|rooms| - 1];
      var m := HeatGroups(t, init);
      var r := rooms[|rooms| - 1];
      var v := Get(m, r.block, []) + [LatestLevel(t.occupancies, r.roomId)];
      HeatGroupsExact(t, init);
      assert BlocksOf(rooms)[..|rooms| - 1] == BlocksOf(init);
      PutKeys(m, r.block, v);
      PutDistinct(m, r.block, v);
      forall b ensures Get(HeatGroups(t, rooms), b, []) == BlockLevels(t, rooms, b) {
        PutGet(m, r.block, v, b, []);
      }
    }
  }

  datatype HeatCell = HeatCell(block: string, avgOccupancy: int)

  /** `sum(v) // len(v) if v else 0`. */
  function Average(v: seq<int>): int
  {
    if |v| > 0 then Arith.FloorMean(v) else 0
  }

  /** `heatmap`: one cell per block that has rooms, in first-occurrence
      order, holding the floor mean of its rooms' latest levels (0 for a room
      without samples). The `day` and `slot` arguments are accepted and
      ignored. */
  method Heatmap(t: Tables, day: Option<string>, slot: Option<int>) returns (agg: seq<HeatCell>)
    ensures |agg| == |Dedup(BlocksOf(t.rooms))|
    ensures forall k | 0 <= k < |agg| ::
      agg[k].block == Dedup(BlocksOf(t.rooms))[k]
      && |BlockLevels(t, t.rooms, agg[k].block)| > 0
      && agg[k].avgOccupancy == Arith.FloorMean(BlockLevels(t, t.rooms, agg[k].block))
    ensures (forall i | 0 <= i < |t.occupancies| :: 0 <= t.occupancies[i].level <= 100) ==>
      forall k | 0 <= k < |agg| :: 0 <= agg[k].avgOccupancy <= 100
  {
    var blocks := GroupLevels(t);
    agg := Averages(blocks);
    HeatCellsExact(t, agg);
    if forall i | 0 <= i < |t.occupancies| :: 0 <= t.occupancies[i].level <= 100 {
      HeatCellsWithin(t, agg);
    }
  }

  /** The grouping loop of `heatmap`. */
  method GroupLevels(t: Tables) returns (blocks: seq<Entry<string, seq<int>>>)
    ensures blocks == HeatGroups(t, t.rooms)
  {
    blocks := [];
    var i := 0;
    while i < |t.rooms|
      invariant 0 <= i <= |t.rooms|
      invariant blocks == HeatGroups(t, t.rooms[..i])
    {
      assert t.rooms[..i + 1][..i] == t.rooms[..i];
      var r := t.rooms[i];
      var level := LatestLevel(t.occupancies, r.roomId);
      blocks := Put(blocks, r.block, Get(blocks, r.block, []) + [level]);
      i := i + 1;
    }
    assert t.rooms[..i] == t.rooms;
  }

  /** The `agg` comprehension of `heatmap`. */
  method Averages(blocks: seq<Entry<string, seq<int>>>) returns (agg: seq<HeatCell>)
    ensures |agg| == |blocks|
    ensures forall j | 0 <= j < |blocks| :: agg[j] == HeatCell(blocks[j].key, Average(blocks[j].val))
  {
    agg := [];
    var k := 0;
    while k < |blocks|
      invariant 0 <= k <= |blocks|
      invariant |agg| == k
      invariant forall j | 0 <= j < k :: agg[j] == HeatCell(blocks[j].key, Average(blocks[j].val))
    {
      agg := agg + [HeatCell(blocks[k].key, Average(blocks[k].val))];
      k := k + 1;
    }
  }

  lemma HeatCellsExact(t: Tables, agg: seq<HeatCell>)
    requires |agg| == |HeatGroups(t, t.rooms)|
    requires forall j | 0 <= j < |agg| ::
      agg[j] == HeatCell(HeatGroups(t, t.rooms)[j].key, Average(HeatGroups(t, t.rooms)[j].val))
    ensures |agg| == |Dedup(BlocksOf(t.rooms))|
    ensures forall k | 0 <= k < |agg| ::
      agg[k].block == Dedup(BlocksOf(t.rooms))[k]
      && |BlockLevels(t, t.rooms, agg[k].block)| > 0
      && agg[k].avgOccupancy == Arith.FloorMean(BlockLevels(t, t.rooms, agg[k].block))
  {
    var blocks := HeatGroups(t, t.rooms);
    HeatGroupsExact(t, t.rooms);
    forall j | 0 <= j < |agg|
      ensures agg[j].block == Dedup(BlocksOf(t.rooms))[j]
      ensures |BlockLevels(t, t.rooms, agg[j].block)| > 0
      ensures agg[j].avgOccupancy == Arith.FloorMean(BlockLevels(t, t.rooms, agg[j].block))
    {
      var b := blocks[j].key;
      assert Keys(blocks)[j] == b;
      GetDistinct(blocks, b, [], j);
      assert b in BlocksOf(t.rooms);
      CountPositive(BlocksOf(t.rooms), b);
    }
  }

  lemma HeatCellsWithin(t: Tables, agg: seq<HeatCell>)
    requires forall i | 0 <= i < |t.occupancies| :: 0 <= t.occupancies[i].level <= 100
    requires forall k | 0 <= k < |agg| ::
      |BlockLevels(t, t.rooms, agg[k].block)| > 0
      && agg[k].avgOccupancy == Arith.FloorMean(BlockLevels(t, t.rooms, agg[k].block))
    ensures forall k | 0 <= k < |agg| :: 0 <= agg[k].avgOccupancy <= 100
  {
    forall j | 0 <= j < |agg| ensures 0 <= agg[j].avgOccupancy <= 100 {
      var v := BlockLevels(t, t.rooms, agg[j].block);
      BlockLevelsWithin(t, t.rooms, agg[j].block);
      Arith.FloorMeanWithin(v, 0, 100);
    }
  }

  lemma {:induction false} CountPositive<K>(ks: seq<K>, k: K)
    requires k in ks
    ensures Count(ks, k) > 0
  {
    if ks[|ks| - 1] != k {
      assert ks == ks[..|ks| - 1] + [ks[|ks| - 1]];
      CountPositive(ks[..|ks| - 1], k);
    }
  }

  lemma {:induction false} BlockLevelsWithin(t: Tables, rooms: seq<Room>, b: string)
    requires forall i | 0 <= i < |t.occupancies| :: 0 <= t.occupancies[i].level <= 100
    ensures forall i | 0 <= i < |BlockLevels(t, rooms, b)| :: 0 <= BlockLevels(t, rooms, b)[i] <= 100
  {
    if rooms != [] {
      BlockLevelsWithin(t, rooms[..|rooms| - 1], b);
      LatestLevelWithin(t.occupancies, rooms[|rooms| - 1].roomId);
    }
  }

  // ------------------------------------------------------- summary: blocks

  function RoomIdsOf(rooms: seq<Room>): (ids: seq<string>)
    ensures |ids| == |rooms|
    ensures forall i | 0 <= i < |rooms| :: ids[i] == rooms[i].roomId
  {
    if rooms == [] then [] else RoomIdsOf(rooms[..|rooms| - 1]) + [rooms[|rooms| - 1].roomId]
  }

  /** `latest_levels[r.room_id] = level` over the rooms. */
  function LatestLevels(t: Tables, rooms: seq<Room>): seq<Entry<string, int>>
  {
    if rooms == [] then []
    else
      var r := rooms[|rooms| - 1];
      Put(LatestLevels(t, rooms[..|rooms| - 1]), r.roomId, LatestLevel(t.occupancies, r.roomId))
  }

  /** Looking a stored room up in `latest_levels` gives its latest level. */
  lemma {:induction false} LatestLevelsGet(t: Tables, rooms: seq<Room>, id: string)
    ensures Get(LatestLevels(t, rooms), id, 0) ==
      if id in RoomIdsOf(rooms) then LatestLevel(t.occupancies, id) else 0
  {
    if rooms != [] {
      var init := rooms[..|rooms| - 1];
      var r := rooms[|rooms| - 1];
      assert RoomIdsOf(rooms) == RoomIdsOf(init) + [r.roomId];
      LatestLevelsGet(t, init, id);
      PutGet(LatestLevels(t, init), r.roomId, LatestLevel(t.occupancies, r.roomId), id, 0);
    }
  }

  /** The `latest_levels` loop. */
  method LatestLevelTable(t: Tables) returns (latest: seq<Entry<string, int>>)
    ensures forall i | 0 <= i < |t.rooms| ::
      Get(latest, t.rooms[i].roomId, 0) == LatestLevel(t.occupancies, t.rooms[i].roomId)
  {
    latest := [];
    var i := 0;
    while i < |t.rooms|
      invariant 0 <= i <= |t.rooms|
      invariant latest == LatestLevels(t, t.rooms[..i])
    {
      assert t.rooms[..i + 1][..i] == t.rooms[..i];
      latest := Put(latest, t.rooms[i].roomId, LatestLevel(t.occupancies, t.rooms[i].roomId));
      i := i + 1;
    }
    assert t.rooms[..i] == t.rooms;
    forall i | 0 <= i < |t.rooms|
      ensures Get(latest, t.rooms[i].roomId, 0) == LatestLevel(t.occupancies, t.rooms[i].roomId)
    {
      LatestLevelsGet(t, t.rooms, t.rooms[i].roomId);
      assert RoomIdsOf(t.rooms)[i] == t.rooms[i].roomId;
    }
  }

  /** `r.block or 'Unknown'`. */
  function BlockKey(r: Room): string
  {
    if r.block == "" then "Unknown" else r.block
  }

  function BlockKeys(rooms: seq<Room>): (ks: seq<string>)
    ensures |ks| == |rooms|
    ensures forall i | 0 <= i < |rooms| :: ks[i] == BlockKey(rooms[i])
  {
    if rooms == [] then [] else BlockKeys(rooms[..|rooms| - 1]) + [BlockKey(rooms[|rooms| - 1])]
  }

  /** The running totals of one block: rooms, summed levels, capacity. */
  datatype BlockAcc = BlockAcc(rooms: int, levels: int, capacity: int)

  function AccRooms(a: BlockAcc): int { a.rooms }
  function AccCapacity(a: BlockAcc): int { a.capacity }

  const NoAcc := BlockAcc(0, 0, 0)

  /** The three `+=` updates of a block's counters for one room. */
  function Tick(a: BlockAcc, r: Room, level: int): BlockAcc
  {
    BlockAcc(a.rooms + 1, a.levels + level, a.capacity + r.capacity)
  }

  /** The counters of block key `k` summed directly over its rooms. */
  function KeyTotals(t: Tables, rooms: seq<Room>, k: string): BlockAcc
  {
    if rooms == [] then NoAcc
    else
      var a := KeyTotals(t, rooms[..|rooms| - 1], k);
      var r := rooms[|rooms| - 1];
      if BlockKey(r) == k then Tick(a, r, LatestLevel(t.occupancies, r.roomId)) else a
  }

  /** The `defaultdict` of block counters after the rooms loop. */
  function BlockGroups(latest: seq<Entry<string, int>>, rooms: seq<Room>): seq<Entry<string, BlockAcc>>
  {
    if rooms == [] then []
    else
      var m := BlockGroups(latest, rooms[..|rooms| - 1]);
      var r := rooms[|rooms| - 1];
      Put(m, BlockKey(r), Tick(Get(m, BlockKey(r), NoAcc), r, Get(latest, r.roomId, 0)))
  }

  function CapacitySum(rooms: seq<Room>): int
  {
    if rooms == [] then 0 else CapacitySum(rooms[..|rooms| - 1]) + rooms[|rooms| - 1].capacity
  }

  /** The keys are the block keys of the rooms, each once, in first-occurrence order. */
  lemma {:induction false} BlockGroupsKeys(latest: seq<Entry<string, int>>, rooms: seq<Room>)
    ensures Keys(BlockGroups(latest, rooms)) == Dedup(BlockKeys(rooms))
    ensures DistinctKeys(BlockGroups(latest, rooms))
  {
    if rooms != [] {
      var init := rooms[..|rooms| - 1];
      var m := BlockGroups(latest, init);
      var r := rooms[|rooms| - 1];
      var a := Tick(Get(m, BlockKey(r), NoAcc), r, Get(latest, r.roomId, 0));
      BlockGroupsKeys(latest, init);
      assert BlockKeys(rooms)[..|rooms| - 1] == BlockKeys(init);
      PutKeys(m, BlockKey(r), a);
      PutDistinct(m, BlockKey(r), a);
    }
  }

  /** Over all blocks the room counts add up to the number of rooms and the
      capacities to the total capacity; every block has at least one room. */
  lemma {:induction false} BlockGroupsTotals(latest: seq<Entry<string, int>>, rooms: seq<Room>)
    ensures SumOf(BlockGroups(latest, rooms), AccRooms) == |rooms|
    ensures SumOf(BlockGroups(latest, rooms), AccCapacity) == CapacitySum(rooms)
    ensures forall i | 0 <= i < |BlockGroups(latest, rooms)| :: BlockGroups(latest, rooms)[i].val.rooms >= 1
  {
    if rooms != [] {
      var init := rooms[..|rooms| - 1];
      var m := BlockGroups(latest, init);
      var r := rooms[|rooms| - 1];
      var a := Tick(Get(m, BlockKey(r), NoAcc), r, Get(latest, r.roomId, 0));
      BlockGroupsTotals(latest, init);
      SumPut(m, BlockKey(r), a, AccRooms, NoAcc);
      SumPut(m, BlockKey(r), a, AccCapacity, NoAcc);
      GetNonNegative(m, BlockKey(r));
      PutPositive(m, BlockKey(r), a);
    }
  }

  /** With a faithful `latest_levels`, each block's counters are its rooms'
      count, summed latest levels and summed capacity. */
  lemma {:induction false} BlockGroupsGet(t: Tables, latest: seq<Entry<string, int>>, rooms: seq<Room>, k: string)
    requires forall i | 0 <= i < |rooms| :: Get(latest, rooms[i].roomId, 0) == LatestLevel(t.occupancies, rooms[i].roomId)
    ensures Get(BlockGroups(latest, rooms), k, NoAcc) == KeyTotals(t, rooms, k)
  {
    if rooms != [] {
      var init := rooms[..|rooms| - 1];
      var m := BlockGroups(latest, init);
      var r := rooms[|rooms| - 1];
      BlockGroupsGet(t, latest, init, k);
      BlockGroupsGet(t, latest, init, BlockKey(r));
      PutGet(m, BlockKey(r), Tick(Get(m, BlockKey(r), NoAcc), r, Get(latest, r.roomId, 0)), k, NoAcc);
    }
  }

  lemma {:induction false} GetNonNegative(m: seq<Entry<string, BlockAcc>>, k: string)
    requires forall i | 0 <= i < |m| :: m[i].val.rooms >= 1
    ensures Get(m, k, NoAcc).rooms >= 0
  {
    if m != [] && m[0].key != k {
      GetNonNegative(m[1..], k);
    }
  }

  lemma {:induction false} PutPositive(m: seq<Entry<string, BlockAcc>>, k: string, a: BlockAcc)
    requires a.rooms >= 1
    requires forall i | 0 <= i < |m| :: m[i].val.rooms >= 1
    ensures forall i | 0 <= i < |Put(m, k, a)| :: Put(m, k, a)[i].val.rooms >= 1
  {
    if m != [] && m[0].key != k {
      PutPositive(m[1..], k, a);
    }
  }

  /** The per-room loop filling the block counters. */
  method BlockTotals(t: Tables, latest: seq<Entry<string, int>>) returns (acc: seq<Entry<string, BlockAcc>>)
    ensures acc == BlockGroups(latest, t.rooms)
  {
    acc := [];
    var i := 0;
    while i < |t.rooms|
      invariant 0 <= i <= |t.rooms|
      invariant acc == BlockGroups(latest, t.rooms[..i])
    {
      assert t.rooms[..i + 1][..i] == t.rooms[..i];
      var r := t.rooms[i];
      var b := BlockKey(r);
      acc := Put(acc, b, Tick(Get(acc, b, NoAcc), r, Get(latest, r.roomId, 0)));
      i := i + 1;
    }
    assert t.rooms[..i] == t.rooms;
  }

  /** One line of the `blocks` table. */
  datatype BlockStats = BlockStats(rooms: int, avgOccupancy: int, capacity: int, usedCapacityPct: int)

  function StatRooms(s: BlockStats): int { s.rooms }
  function StatCapacity(s: BlockStats): int { s.capacity }

  /** `int(round(total / max(1, rooms)))`, the utilisation equal to it. */
  function Finish(a: BlockAcc): (s: BlockStats)
    ensures s.rooms == a.rooms && s.capacity == a.capacity
    ensures s.usedCapacityPct == s.avgOccupancy
    ensures 2 * (a.levels - s.avgOccupancy * (if a.rooms > 1 then a.rooms else 1)) <= (if a.rooms > 1 then a.rooms else 1)
    ensures 2 * (s.avgOccupancy * (if a.rooms > 1 then a.rooms else 1) - a.levels) <= (if a.rooms > 1 then a.rooms else 1)
  {
    var avg := Arith.RoundHalfEven(a.levels, if a.rooms > 1 then a.rooms else 1);
    BlockStats(a.rooms, avg, a.capacity, avg)
  }

  /** The loop over `blocks.items()` that turns level totals into averages. */
  method FinishAll(acc: seq<Entry<string, BlockAcc>>) returns (finished: seq<Entry<string, BlockStats>>)
    ensures |finished| == |acc|
    ensures forall j | 0 <= j < |acc| :: finished[j] == Entry(acc[j].key, Finish(acc[j].val))
  {
    finished := [];
    var k := 0;
    while k < |acc|
      invariant 0 <= k <= |acc|
      invariant |finished| == k
      invariant forall j | 0 <= j < k :: finished[j] == Entry(acc[j].key, Finish(acc[j].val))
    {
      finished := finished + [Entry(acc[k].key, Finish(acc[k].val))];
      k := k + 1;
    }
  }

  lemma {:induction false} FinishedSums(m: seq<Entry<string, BlockAcc>>, f: seq<Entry<string, BlockStats>>)
    requires |f| == |m|
    requires forall i | 0 <= i < |m| :: f[i] == Entry(m[i].key, Finish(m[i].val))
    ensures SumOf(f, StatRooms) == SumOf(m, AccRooms)
    ensures SumOf(f, StatCapacity) == SumOf(m, AccCapacity)
    ensures Keys(f) == Keys(m)
    ensures DistinctKeys(m) ==> DistinctKeys(f)
  {
    if m != [] {
      FinishedSums(m[1..], f[1..]);
    }
  }

  /** Each finished line holds the finished totals of its key. */
  lemma FinishedValues(t: Tables, acc: seq<Entry<string, BlockAcc>>, f: seq<Entry<string, BlockStats>>)
    requires DistinctKeys(acc)
    requires forall k :: Get(acc, k, NoAcc) == KeyTotals(t, t.rooms, k)
    requires |f| == |acc|
    requires forall i | 0 <= i < |acc| :: f[i] == Entry(acc[i].key, Finish(acc[i].val))
    ensures forall e | e in f :: e.val == Finish(KeyTotals(t, t.rooms, e.key))
  {
    forall e | e in f ensures e.val == Finish(KeyTotals(t, t.rooms, e.key)) {
      var i :| 0 <= i < |f| && f[i] == e;
      GetDistinct(acc, acc[i].key, NoAcc, i);
    }
  }

  /** `blocks`: one line per block key (a room without a block counts under
      "Unknown"), in key order; each line holds its rooms' count, capacity
      and rounded mean latest level; the counts add up to the number of
      rooms and the capacities to the total capacity. */
  method BlockSummary(t: Tables) returns (blocks: seq<Entry<string, BlockStats>>)
    ensures KeysAscending(blocks)
    ensures forall e | e in blocks :: e.key in BlockKeys(t.rooms)
    ensures forall i | 0 <= i < |t.rooms| :: exists e | e in blocks :: e.key == BlockKey(t.rooms[i])
    ensures forall e | e in blocks :: e.val == Finish(KeyTotals(t, t.rooms, e.key))
    ensures SumOf(blocks, StatRooms) == |t.rooms|
    ensures SumOf(blocks, StatCapacity) == CapacitySum(t.rooms)
  {
    var finished := BlockTable(t);
    blocks := SortByKey(finished);
    SumSortByKey(finished, StatRooms);
    SumSortByKey(finished, StatCapacity);
    SortedKeys(t, finished, blocks);
    forall e | e in blocks ensures e.val == Finish(KeyTotals(t, t.rooms, e.key)) {
      assert e in multiset(finished);
    }
  }

  /** The block lines before sorting, in first-occurrence order of the keys. */
  method BlockTable(t: Tables) returns (finished: seq<Entry<string, BlockStats>>)
    ensures Keys(finished) == Dedup(BlockKeys(t.rooms))
    ensures DistinctKeys(finished)
    ensures forall e | e in finished :: e.val == Finish(KeyTotals(t, t.rooms, e.key))
    ensures SumOf(finished, StatRooms) == |t.rooms|
    ensures SumOf(finished, StatCapacity) == CapacitySum(t.rooms)
  {
    var latest := LatestLevelTable(t);
    var acc := BlockTotals(t, latest);
    BlockGroupsKeys(latest, t.rooms);
    BlockGroupsTotals(latest, t.rooms);
    AccValues(t, latest, acc);
    finished := FinishAll(acc);
    FinishedSums(acc, finished);
    FinishedValues(t, acc, finished);
  }

  lemma AccValues(t: Tables, latest: seq<Entry<string, int>>, acc: seq<Entry<string, BlockAcc>>)
    requires forall i | 0 <= i < |t.rooms| ::
      Get(latest, t.rooms[i].roomId, 0) == LatestLevel(t.occupancies, t.rooms[i].roomId)
    requires acc == BlockGroups(latest, t.rooms)
    ensures forall k :: Get(acc, k, NoAcc) == KeyTotals(t, t.rooms, k)
  {
    forall k ensures Get(acc, k, NoAcc) == KeyTotals(t, t.rooms, k) {
      BlockGroupsGet(t, latest, t.rooms, k);
    }
  }

  lemma SortedKeys(t: Tables, finished: seq<Entry<string, BlockStats>>, blocks: seq<Entry<string, BlockStats>>)
    requires multiset(blocks) == multiset(finished)
    requires Keys(finished) == Dedup(BlockKeys(t.rooms))
    ensures forall e | e in blocks :: e.key in BlockKeys(t.rooms)
    ensures forall i | 0 <= i < |t.rooms| :: exists e | e in blocks :: e.key == BlockKey(t.rooms[i])
  {
    forall e | e in blocks ensures e.key in BlockKeys(t.rooms) {
      assert e in multiset(finished);
      var j :| 0 <= j < |finished| && finished[j] == e;
      assert Keys(finished)[j] == e.key;
    }
    forall i | 0 <= i < |t.rooms| ensures exists e | e in blocks :: e.key == BlockKey(t.rooms[i]) {
      assert BlockKeys(t.rooms)[i] == BlockKey(t.rooms[i]);
      var k := BlockKey(t.rooms[i]);
      assert k in Keys(finished);
      var j :| 0 <= j < |finished| && Keys(finished)[j] == k;
      assert finished[j] in multiset(blocks);
    }
  }

  /** `sum(int(r.capacity or 0) for r in rooms)`. */
  method TotalCapacity(t: Tables) returns (total: int)
    ensures total == CapacitySum(t.rooms)
  {
    total := 0;
    var i := 0;
    while i < |t.rooms|
      invariant 0 <= i <= |t.rooms|
      invariant total == CapacitySum(t.rooms[..i])
    {
      assert t.rooms[..i + 1][..i] == t.rooms[..i];
      total := total + t.rooms[i].capacity;
      i := i + 1;
    }
    assert t.rooms[..i] == t.rooms;
  }

  // -------------------------------------------------------- summary: types

  /** `str(r.type or 'lecture')`. */
  function TypeKey(r: Room): string
  {
    if r.kind == "" then "lecture" else r.kind
  }

  function TypeKeys(rooms: seq<Room>): (ks: seq<string>)
    ensures |ks| == |rooms|
    ensures forall i | 0 <= i < |rooms| :: ks[i] == TypeKey(rooms[i])
  {
    if rooms == [] then [] else TypeKeys(rooms[..|rooms| - 1]) + [TypeKey(rooms[|rooms| - 1])]
  }

  /** `types[key] += 1` per room: each type once, with its number of rooms,
      the counts adding up to the number of rooms. */
  method TypeCounts(t: Tables) returns (types: seq<Entry<string, int>>)
    ensures Keys(types) == Dedup(TypeKeys(t.rooms))
    ensures forall k :: Get(types, k, 0) == Count(TypeKeys(t.rooms), k)
    ensures SumOf(types, Id) == |t.rooms|
  {
    types := [];
    var i := 0;
    while i < |t.rooms|
      invariant 0 <= i <= |t.rooms|
      invariant types == Tally(TypeKeys(t.rooms[..i]))
    {
      assert TypeKeys(t.rooms[..i + 1])[..i] == TypeKeys(t.rooms[..i]);
      var k := TypeKey(t.rooms[i]);
      types := Put(types, k, Get(types, k, 0) + 1);
      i := i + 1;
    }
    assert t.rooms[..i] == t.rooms;
    TallyKeys(TypeKeys(t.rooms));
    TallySum(TypeKeys(t.rooms));
    forall k ensures Get(types, k, 0) == Count(TypeKeys(t.rooms), k) {
      TallyCounts(TypeKeys(t.rooms), k);
    }
  }

  // ----------------------------------------------------- summary: coverage

  /** `str(r.type or 'lecture').lower() == 'lecture'`. */
  predicate IsLecture(r: Room)
  {
    Text.Lower(TypeKey(r)) == "lecture"
  }

  /** `lecture_ids`: the identifiers of the lecture rooms. */
  function LectureIds(rooms: seq<Room>): set<string>
  {
    set r | r in rooms && IsLecture(r) :: r.roomId
  }

  /** The distinct lecture rooms with a timetable entry in the cell. */
  function BookedIn(tt: seq<TimetableEntry>, ids: set<string>, day: string, slot: int): (b: set<string>)
    ensures b <= ids
  {
    set e | e in tt && e.day == day && e.slot == slot && e.roomId in ids :: e.roomId
  }

  /** `int(round(count / denom * 100))` with `denom = max(1, len(lecture_ids))`. */
  function Percent(count: int, total: int): int
  {
    Arith.RoundHalfEven(100 * count, if total > 1 then total else 1)
  }

  lemma PercentWithin(count: int, total: int)
    requires 0 <= count <= total
    ensures 0 <= Percent(count, total) <= 100
  {
    Arith.RoundWithin(100 * count, if total > 1 then total else 1, 100);
  }

  lemma SubsetCard<T>(a: set<T>, b: set<T>)
    requires a <= b
    ensures |a| <= |b|
  {
    assert b == a + (b - a);
  }

  /** The coverage of one (day, slot) cell. */
  function CoverageCell(t: Tables, day: string, slot: int): (p: int)
    ensures 0 <= p <= 100
  {
    var ids := LectureIds(t.rooms);
    var booked := BookedIn(t.timetables, ids, day, slot);
    SubsetCard(booked, ids);
    PercentWithin(|booked|, |ids|);
    Percent(|booked|, |ids|)
  }

  /** A list without repeats has as many distinct elements as entries. */
  lemma {:induction false} DistinctCard<T>(s: seq<T>)
    requires forall p, q | 0 <= p < q < |s| :: s[p] != s[q]
    ensures |(set x | x in s)| == |s|
  {
    if s != [] {
      var init := s[..|s| - 1];
      var last := s[|s| - 1];
      DistinctCard(init);
      assert s == init + [last];
      assert (set x | x in s) == (set x | x in init) + {last};
      assert last !in init by {
        forall p | 0 <= p < |init| ensures init[p] != last {
          assert init[p] == s[p];
        }
      }
    }
  }

  /** The timetable entries of the cell for lecture rooms name exactly the
      rooms of `cell`, which are pairwise distinct lecture rooms. */
  predicate BooksExactly(t: Tables, day: string, slot: int, cell: seq<string>)
  {
    (forall p, q | 0 <= p < q < |cell| :: cell[p] != cell[q])
    && (forall p | 0 <= p < |cell| :: cell[p] in LectureIds(t.rooms))
    && (forall p | 0 <= p < |cell| ::
          exists e | e in t.timetables :: e.day == day && e.slot == slot && e.roomId == cell[p])
    && (forall e | e in t.timetables && e.day == day && e.slot == slot && e.roomId in LectureIds(t.rooms) ::
          e.roomId in cell)
  }

  /** Such a cell is covered at the rounded share |cell| of the lecture
      rooms. */
  lemma CoverageOfCell(t: Tables, day: string, slot: int, cell: seq<string>)
    requires BooksExactly(t, day, slot, cell)
    ensures CoverageCell(t, day, slot) == Percent(|cell|, |LectureIds(t.rooms)|)
  {
    var ids := LectureIds(t.rooms);
    var booked := BookedIn(t.timetables, ids, day, slot);
    forall x | x in cell ensures x in booked {
      var p :| 0 <= p < |cell| && cell[p] == x;
      var e :| e in t.timetables && e.day == day && e.slot == slot && e.roomId == cell[p];
    }
    assert booked == set x | x in cell;
    DistinctCard(cell);
  }

  /** With 660 lecture rooms, a cell booking 396 distinct ones of them is
      reported as 60 percent covered. */
  lemma CampusCellCoverage(t: Tables, day: string, slot: int, cell: seq<string>)
    requires |LectureIds(t.rooms)| == 660 && |cell| == 396
    requires BooksExactly(t, day, slot, cell)
    ensures CoverageCell(t, day, slot) == 60
  {
    CoverageOfCell(t, day, slot, cell);
  }

  /** `timetable_coverage_pct`: seven day rows, Monday first, of ten slots
      each, every cell the rounded percentage of lecture rooms booked then. */
  method Coverage(t: Tables) returns (coverage: seq<seq<int>>)
    ensures |coverage| == |DayNames| == 7
    ensures forall d | 0 <= d < 7 :: |coverage[d]| == 10
    ensures forall d, s | 0 <= d < 7 && 0 <= s < 10 ::
      coverage[d][s] == CoverageCell(t, DayNames[d], s) && 0 <= coverage[d][s] <= 100
  {
    var ids := LectureIds(t.rooms);
    var denom := if |ids| > 1 then |ids| else 1;
    coverage := [];
    var d := 0;
    while d < 7
      invariant 0 <= d <= 7
      invariant |coverage| == d
      invariant forall d0 | 0 <= d0 < d :: |coverage[d0]| == 10
      invariant forall d0, s | 0 <= d0 < d && 0 <= s < 10 :: coverage[d0][s] == CoverageCell(t, DayNames[d0], s)
    {
      var row := CoverageRow(t, ids, denom, DayNames[d]);
      coverage := coverage + [row];
      d := d + 1;
    }
  }

  /** The ten slots of one day: `coverage[d][s] = ...` for s in range(10). */
  method CoverageRow(t: Tables, ids: set<string>, denom: int, day: string) returns (row: seq<int>)
    requires ids == LectureIds(t.rooms) && denom == if |ids| > 1 then |ids| else 1
    ensures |row| == 10
    ensures forall s | 0 <= s < 10 :: row[s] == CoverageCell(t, day, s)
  {
    row := [];
    var s := 0;
    while s < 10
      invariant 0 <= s <= 10
      invariant |row| == s
      invariant forall s0 | 0 <= s0 < s :: row[s0] == CoverageCell(t, day, s0)
    {
      var count := |BookedIn(t.timetables, ids, day, s)|;
      row := row + [Arith.RoundHalfEven(100 * count, denom)];
      s := s + 1;
    }
  }

  /** Three of five lecture rooms booked is 60; one of three is 33. */
  lemma PercentExamples()
    ensures Percent(3, 5) == 60
    ensures Percent(1, 3) == 33
    ensures Percent(0, 0) == 0
  {
  }

  // -------------------------------------------------- summary: insert rate

  const InsertWindow := 5 * MicrosPerMinute

  /** `timestamp >= since`, in store order. */
  function RecentSamples(occ: seq<Occupancy>, since: int): (r: seq<Occupancy>)
    ensures |r| <= |occ|
    ensures forall o | o in r :: o in occ && o.timestamp >= since
    ensures forall o | o in occ && o.timestamp >= since :: o in r
    ensures forall o :: multiset(r)[o] == if o.timestamp >= since then multiset(occ)[o] else 0
  {
    if occ == [] then []
    else
      var rest := RecentSamples(occ[..|occ| - 1], since);
      var o := occ[|occ| - 1];
      assert occ == occ[..|occ| - 1] + [o];
      if o.timestamp >= since then rest + [o] else rest
  }

  /** `timestamp.replace(second=0, microsecond=0)`: the start of its minute. */
  function MinuteOf(ts: int): (m: int)
    ensures m % MicrosPerMinute == 0
    ensures m <= ts < m + MicrosPerMinute
  {
    ts - ts % MicrosPerMinute
  }

  function MinutesOf(s: seq<Occupancy>): (ms: seq<int>)
    ensures |ms| == |s|
    ensures forall i | 0 <= i < |s| :: ms[i] == MinuteOf(s[i].timestamp)
  {
    if s == [] then [] else MinutesOf(s[..|s| - 1]) + [MinuteOf(s[|s| - 1].timestamp)]
  }

  /** The counting loop: one increment of its minute's bucket per sample. */
  method TallyMinutes(recent: seq<Occupancy>) returns (perMin: seq<Entry<int, int>>)
    ensures perMin == Tally(MinutesOf(recent))
  {
    perMin := [];
    var i := 0;
    while i < |recent|
      invariant 0 <= i <= |recent|
      invariant perMin == Tally(MinutesOf(recent[..i]))
    {
      assert MinutesOf(recent[..i + 1])[..i] == MinutesOf(recent[..i]);
      var m := MinuteOf(recent[i].timestamp);
      perMin := Put(perMin, m, Get(perMin, m, 0) + 1);
      i := i + 1;
    }
    assert recent[..i] == recent;
  }

  datatype InsertRate = InsertRate(total: int, perMinute: seq<Entry<int, int>>)

  /** The insert counter: the samples of the last five minutes bucketed by
      minute; the buckets add up to the total, which is the number of
      samples stamped no earlier than five minutes ago. */
  method InsertsLast5m(t: Tables, now: int) returns (rate: InsertRate)
    ensures rate.total == SumOf(rate.perMinute, Id)
    ensures rate.total == |RecentSamples(t.occupancies, now - InsertWindow)|
    ensures Keys(rate.perMinute) == Dedup(MinutesOf(RecentSamples(t.occupancies, now - InsertWindow)))
    ensures forall m :: Get(rate.perMinute, m, 0) == Count(MinutesOf(RecentSamples(t.occupancies, now - InsertWindow)), m)
  {
    var recent := RecentSamples(t.occupancies, now - InsertWindow);
    var perMin := TallyMinutes(recent);
    TallyKeys(MinutesOf(recent));
    TallySum(MinutesOf(recent));
    forall m ensures Get(perMin, m, 0) == Count(MinutesOf(recent), m) {
      TallyCounts(MinutesOf(recent), m);
    }
    rate := InsertRate(SumOf(perMin, Id), perMin);
  }

  // ---------------------------------------------------------------- summary

  datatype Summary = Summary(
    totalRooms: int,
    totalCapacity: int,
    types: seq<Entry<string, int>>,
    blocks: seq<Entry<string, BlockStats>>,
    coverage: seq<seq<int>>,
    inserts: InsertRate)

  /** `analytics_summary`. */
  method AnalyticsSummary(t: Tables, now: int) returns (s: Summary)
    ensures s.totalRooms == |t.rooms|
    ensures s.totalCapacity == CapacitySum(t.rooms)
    // blocks: sorted by key, exactly the rooms' block keys, each with its
    // finished totals
    ensures KeysAscending(s.blocks)
    ensures forall e | e in s.blocks :: e.key in BlockKeys(t.rooms)
    ensures forall i | 0 <= i < |t.rooms| :: exists e | e in s.blocks :: e.key == BlockKey(t.rooms[i])
    ensures forall e | e in s.blocks :: e.val == Finish(KeyTotals(t, t.rooms, e.key))
    ensures SumOf(s.blocks, StatRooms) == s.totalRooms
    ensures SumOf(s.blocks, StatCapacity) == s.totalCapacity
    // types: each type key once, in first-appearance order, with its count
    ensures Keys(s.types) == Dedup(TypeKeys(t.rooms))
    ensures forall k :: Get(s.types, k, 0) == Count(TypeKeys(t.rooms), k)
    ensures SumOf(s.types, Id) == s.totalRooms
    // coverage: the 7 x 10 grid of coverage cells, in day order
    ensures |s.coverage| == 7 && forall d | 0 <= d < 7 :: |s.coverage[d]| == 10
    ensures forall d, c | 0 <= d < 7 && 0 <= c < 10 ::
      s.coverage[d][c] == CoverageCell(t, DayNames[d], c) && 0 <= s.coverage[d][c] <= 100
    // inserts: per-minute counts of the samples of the last five minutes
    ensures s.inserts.total == SumOf(s.inserts.perMinute, Id)
    ensures s.inserts.total == |RecentSamples(t.occupancies, now - InsertWindow)|
    ensures Keys(s.inserts.perMinute) == Dedup(MinutesOf(RecentSamples(t.occupancies, now - InsertWindow)))
    ensures forall m :: Get(s.inserts.perMinute, m, 0) == Count(MinutesOf(RecentSamples(t.occupancies, now - InsertWindow)), m)
  {
    var blocks := BlockSummary(t);
    var totalCapacity := TotalCapacity(t);
    var types := TypeCounts(t);
    var coverage := Coverage(t);
    var rate := InsertsLast5m(t, now);
    s := Summary(|t.rooms|, totalCapacity, types, blocks, coverage, rate);
  }

  /** Rounding in the block table is half to even: 31 over 3 rooms is 10,
      and 25 over 2 is 12. */
  lemma BlockAverageExamples()
    ensures Finish(BlockAcc(3, 31, 180)).avgOccupancy == 10
    ensures Finish(BlockAcc(2, 25, 120)).avgOccupancy == 12
    ensures Finish(BlockAcc(2, 27, 120)).avgOccupancy == 14
  {
  }
}
