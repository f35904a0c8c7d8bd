/** The admin dashboard's rules (streamlit_admin/admin.py): the tier of a
    room, the block/status/capacity filter with its row cap, and the tier
    tally. The rows are the `/rooms/all` entries. */
module Admin {
  import opened Models
  import opened Dashboard
  import Text
  import Crud
  import Api

  /** `derive_status_from_row`. A missing or None status counts as the empty
      string and a missing or None level as 0; a "Booked" anywhere in the
      status wins over the level. */
  function DeriveStatus(status: Option<string>, level: Option<int>): (t: Tier)
    ensures status.Some? && Text.Contains(status.value, "Booked") ==> t == Full
    ensures !(status.Some? && Text.Contains(status.value, "Booked")) ==>
      var lvl := if level.Some? then level.value else 0;
      (t == Full <==> lvl >= FullThreshold)
      && (t == Partial <==> PartialThreshold < lvl < FullThreshold)
      && (t == Free <==> lvl <= PartialThreshold)
  {
    var backend := if status.Some? then status.value else "";
    var lvl := if level.Some? then level.value else 0;
    if Text.Contains(backend, "Booked") then Full
    else if lvl >= FullThreshold then Full
    else if lvl > PartialThreshold then Partial
    else Free
  }

  function RowTier(r: Api.RoomOut): Tier
  {
    DeriveStatus(Some(r.status), Some(r.level))
  }

  /** The backend's derivations are consistent with its threshold: Free &
      Empty at or below it, Free but Occupied above it. */
  predicate Consistent(d: Crud.Derived)
  {
    (d.status == Crud.FreeAndEmpty ==> d.level <= Crud.OccThreshold)
    && (d.status == Crud.FreeButOccupied ==> d.level > Crud.OccThreshold)
  }

  /** Against the backend's own status: a room is Free exactly when the
      backend calls it Free & Empty, Booked rooms are Full, and a room the
      backend calls Free but Occupied is Partial or Full. */
  lemma TiersOfStatus(d: Crud.Derived)
    requires Consistent(d)
    ensures var tier := DeriveStatus(Some(Crud.Label(d.status)), Some(d.level));
      (tier == Free <==> d.status == Crud.FreeAndEmpty)
      && (d.status == Crud.Booked ==> tier == Full)
      && (d.status == Crud.FreeButOccupied ==> tier == Partial || tier == Full)
      && (tier == Full <==> d.status == Crud.Booked || d.level >= FullThreshold)
  {
    Crud.BookedSubstring(d.status);
  }

  /** The same, for the rows `/rooms/all` serves. */
  lemma TiersOfBackend(t: Tables, room: Room, now: int)
    ensures var d := Crud.ComputeStatus(t, room, now);
      var tier := RowTier(Api.View(t, room, now));
      (tier == Free <==> d.status == Crud.FreeAndEmpty)
      && (tier == Full <==> d.status == Crud.Booked || d.level >= FullThreshold)
  {
    var d := Crud.ComputeStatus(t, room, now);
    assert Consistent(d);
    TiersOfStatus(d);
  }

  /** The three selectors of the quick table. "All" and a minimum capacity
      of 0 impose nothing. */
  predicate Selected(r: Api.RoomOut, block: string, status: string, minCap: nat)
  {
    (block == "All" || r.room.block == block)
    && (status == "All" || TierName(RowTier(r)) == status)
    && (minCap == 0 || r.room.capacity >= minCap)
  }

  /** The quick table: `q` narrowed selector by selector, `total_matches`
      rows matching, and the first `rows_to_show` of them displayed. */
  method QuickTable(rows: seq<Api.RoomOut>, block: string, status: string, minCap: nat, rowsToShow: nat)
    returns (shown: seq<Api.RoomOut>, totalMatches: nat)
    ensures totalMatches == |Filter(rows, (r: Api.RoomOut) => Selected(r, block, status, minCap))|
    ensures shown == Crud.Take(Filter(rows, (r: Api.RoomOut) => Selected(r, block, status, minCap)), rowsToShow)
    ensures |shown| == if totalMatches < rowsToShow then totalMatches else rowsToShow
    ensures forall i | 0 <= i < |shown| :: shown[i] in rows && Selected(shown[i], block, status, minCap)
  {
    var q := Narrow(rows, block, status, minCap);
    totalMatches := |q|;
    shown := Crud.Take(q, rowsToShow);
    Crud.TakeLength(q, rowsToShow);
  }

  /** `q = q[q.block == block]` and so on, one selector at a time; a
      selector left at "All" or 0 is skipped. */
  method Narrow(rows: seq<Api.RoomOut>, block: string, status: string, minCap: nat) returns (q: seq<Api.RoomOut>)
    ensures q == Filter(rows, (r: Api.RoomOut) => Selected(r, block, status, minCap))
  {
    q := rows;
    ghost var sel: Api.RoomOut -> bool := r => true;
    FilterAll(rows, sel);
    if block != "All" {
      ghost var next: Api.RoomOut -> bool := (r: Api.RoomOut) => sel(r) && r.room.block == block;
      FilterTwice(rows, sel, (r: Api.RoomOut) => r.room.block == block, next);
      q := Filter(q, (r: Api.RoomOut) => r.room.block == block);
      sel := next;
    }
    if status != "All" {
      ghost var next: Api.RoomOut -> bool := (r: Api.RoomOut) => sel(r) && TierName(RowTier(r)) == status;
      FilterTwice(rows, sel, (r: Api.RoomOut) => TierName(RowTier(r)) == status, next);
      q := Filter(q, (r: Api.RoomOut) => TierName(RowTier(r)) == status);
      sel := next;
    }
    if minCap != 0 {
      ghost var next: Api.RoomOut -> bool := (r: Api.RoomOut) => sel(r) && r.room.capacity >= minCap;
      FilterTwice(rows, sel, (r: Api.RoomOut) => r.room.capacity >= minCap, next);
      q := Filter(q, (r: Api.RoomOut) => r.room.capacity >= minCap);
      sel := next;
    }
    FilterSame(rows, sel, (r: Api.RoomOut) => Selected(r, block, status, minCap));
  }

  datatype TierCounts = TierCounts(free: nat, partial: nat, full: nat)

  function CountTier(rows: seq<Api.RoomOut>, t: Tier): nat
  {
    if rows == [] then 0 else CountTier(rows[..|rows| - 1], t) + (if RowTier(rows[|rows| - 1]) == t then 1 else 0)
  }

  /** `value_counts().reindex(["Free", "Partial", "Full"], fill_value=0)`:
      every room lands in exactly one of the three counts. */
  function StatusCounts(rows: seq<Api.RoomOut>): (c: TierCounts)
    ensures c.free + c.partial + c.full == |rows|
    ensures c.free == CountTier(rows, Free) && c.partial == CountTier(rows, Partial) && c.full == CountTier(rows, Full)
  {
    if rows == [] then TierCounts(0, 0, 0)
    else
      var c := StatusCounts(rows[..|rows| - 1]);
      match RowTier(rows[|rows| - 1])
      case Free => TierCounts(c.free + 1, c.partial, c.full)
      case Partial => TierCounts(c.free, c.partial + 1, c.full)
      case Full => TierCounts(c.free, c.partial, c.full + 1)
  }

  /** The boundaries: 30 is still Free, 31 Partial, 94 Partial, 95 Full, and
      "Booked" is Full at level 0. */
  lemma ThresholdExamples()
    ensures DeriveStatus(Some(""), Some(30)) == Free && DeriveStatus(Some(""), Some(31)) == Partial
    ensures DeriveStatus(Some(""), Some(94)) == Partial && DeriveStatus(Some(""), Some(95)) == Full
    ensures DeriveStatus(None, None) == Free
    ensures DeriveStatus(Some(Crud.Label(Crud.Booked)), Some(0)) == Full
  {
    Crud.BookedSubstring(Crud.Booked);
    Text.NotContainsWithoutFirstChar("", "Booked");
  }
}
