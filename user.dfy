/** The user dashboard's rules (streamlit_user/user.py): its own copy of
    the tier rule, the search/block/capacity filter, the three sort modes,
    the result cap and who may check in. The distance of each room from the
    user is given with the row. */
module User {
  import opened Models
  import opened Dashboard
  import Text
  import Crud
  import Api
  import Admin
  import Sorting

  /** `derive_status_from_row`, as this dashboard writes it. */
  function DeriveStatus(status: Option<string>, level: Option<int>): Tier
  {
    var backend := if status.Some? then status.value else "";
    var lvl := if level.Some? then level.value else 0;
    if Text.Contains(backend, "Booked") then Full
    else if lvl >= FullThreshold then Full
    else if lvl > PartialThreshold then Partial
    else Free
  }

  /** Both dashboards classify every room the same way. */
  lemma SameRulesAsAdmin(status: Option<string>, level: Option<int>)
    ensures DeriveStatus(status, level) == Admin.DeriveStatus(status, level)
  {
  }

  /** A `/rooms/all` row with the `distance_m` column added. */
  datatype Located = Located(row: Api.RoomOut, distance: real)

  function Tier(l: Located): Tier
  {
    DeriveStatus(Some(l.row.status), Some(l.row.level))
  }

  /** The search box: the lowercased query inside the lowercased id or
      amenities. */
  predicate Matches(l: Located, query: string)
  {
    var ql := Text.Lower(query);
    Text.Contains(Text.Lower(l.row.room.roomId), ql) || Text.Contains(Text.Lower(l.row.room.amenities), ql)
  }

  /** All three filters; "All", a minimum of 0 and an empty query impose
      nothing. */
  predicate Kept(l: Located, query: string, block: string, minCapacity: nat)
  {
    (block == "All" || l.row.room.block == block)
    && (minCapacity == 0 || l.row.room.capacity >= minCapacity)
    && (query == "" || Matches(l, query))
  }

  datatype SortMode = ByDistance | ByCapacity | ByOccupancy

  /** `sort_values("distance_m")`, `sort_values("capacity", ascending=False)`
      and `sort_values("occupancy_level")` as ascending keys. */
  function SortKey(mode: SortMode): Located -> real
  {
    match mode
    case ByDistance => (l: Located) => l.distance
    case ByCapacity => (l: Located) => -(l.row.room.capacity as real)
    case ByOccupancy => (l: Located) => l.row.level as real
  }

  /** The `filtered` table before the sort. */
  function Filtered(rows: seq<Located>, query: string, block: string, minCapacity: nat): seq<Located>
  {
    Filter(rows, (l: Located) => Kept(l, query, block, minCapacity))
  }

  /** Filter, sort and take the first `MAX_RESULTS` rows. */
  method Nearest(rows: seq<Located>, query: string, block: string, minCapacity: nat, mode: SortMode, maxResults: nat)
    returns (nearest: seq<Located>)
    ensures nearest == Crud.Take(Sorting.SortBy(Filtered(rows, query, block, minCapacity), SortKey(mode)), maxResults)
    ensures |nearest| <= maxResults
    ensures forall i | 0 <= i < |nearest| :: nearest[i] in rows && Kept(nearest[i], query, block, minCapacity)
    ensures InModeOrder(nearest, mode)
    ensures forall x | x in Filtered(rows, query, block, minCapacity) && x !in nearest ::
      forall i | 0 <= i < |nearest| :: SortKey(mode)(nearest[i]) <= SortKey(mode)(x)
  {
    var filtered := FilterRows(rows, query, block, minCapacity);
    var sorted := Sorting.SortBy(filtered, SortKey(mode));
    nearest := Crud.Take(sorted, maxResults);
    Ranked(filtered, sorted, |nearest|, SortKey(mode));
    ModeOrder(sorted[..|nearest|], mode);
  }

  /** The order each sort mode promises, in the table's own columns. */
  predicate InModeOrder(s: seq<Located>, mode: SortMode)
  {
    (mode == ByDistance ==> forall i, j | 0 <= i < j < |s| :: s[i].distance <= s[j].distance)
    && (mode == ByCapacity ==> forall i, j | 0 <= i < j < |s| :: s[i].row.room.capacity >= s[j].row.room.capacity)
    && (mode == ByOccupancy ==> forall i, j | 0 <= i < j < |s| :: s[i].row.level <= s[j].row.level)
  }

  /** A prefix of a table sorted by the mode's key is in the mode's order:
      nearest first, largest first, or emptiest first. */
  lemma ModeOrder(s: seq<Located>, mode: SortMode)
    requires Sorting.SortedBy(s, SortKey(mode))
    ensures InModeOrder(s, mode)
  {
    forall i, j | 0 <= i < j < |s| ensures SortKey(mode)(s[i]) <= SortKey(mode)(s[j]) {
    }
  }

  /** The three filters, applied one after the other to `filtered`. */
  method FilterRows(rows: seq<Located>, query: string, block: string, minCapacity: nat)
    returns (filtered: seq<Located>)
    ensures filtered == Filtered(rows, query, block, minCapacity)
  {
    filtered := rows;
    ghost var sel: Located -> bool := (l: Located) => true;
    FilterAll(rows, sel);
    if block != "All" {
      ghost var next: Located -> bool := (l: Located) => sel(l) && l.row.room.block == block;
      FilterTwice(rows, sel, (l: Located) => l.row.room.block == block, next);
      filtered := Filter(filtered, (l: Located) => l.row.room.block == block);
      sel := next;
    }
    if minCapacity != 0 {
      ghost var next: Located -> bool := (l: Located) => sel(l) && l.row.room.capacity >= minCapacity;
      FilterTwice(rows, sel, (l: Located) => l.row.room.capacity >= minCapacity, next);
      filtered := Filter(filtered, (l: Located) => l.row.room.capacity >= minCapacity);
      sel := next;
    }
    if query != "" {
      ghost var next: Located -> bool := (l: Located) => sel(l) && Matches(l, query);
      FilterTwice(rows, sel, (l: Located) => Matches(l, query), next);
      filtered := Filter(filtered, (l: Located) => Matches(l, query));
      sel := next;
    }
    FilterSame(rows, sel, (l: Located) => Kept(l, query, block, minCapacity));
  }

  /** What the first `n` rows of the sorted table promise. */
  lemma Ranked(kept: seq<Located>, sorted: seq<Located>, n: nat, key: Located -> real)
    requires multiset(sorted) == multiset(kept) && Sorting.SortedBy(sorted, key) && n <= |sorted|
    ensures forall i | 0 <= i < n :: sorted[..n][i] in kept
    ensures forall x | x in kept && x !in sorted[..n] :: forall i | 0 <= i < n :: key(sorted[..n][i]) <= key(x)
  {
    forall i | 0 <= i < n ensures sorted[..n][i] in kept {
      assert sorted[i] in multiset(sorted);
    }
    forall x | x in kept && x !in sorted[..n] ensures forall i | 0 <= i < n :: key(sorted[..n][i]) <= key(x) {
      assert x in multiset(kept);
      Sorting.TopByKey(sorted, key, n, x);
    }
  }

  /** The sorted table before the cap is a reordering of the filtered one. */
  lemma SortIsPermutation(rows: seq<Located>, query: string, block: string, minCapacity: nat, mode: SortMode)
    ensures var f := Filtered(rows, query, block, minCapacity);
      multiset(Sorting.SortBy(f, SortKey(mode))) == multiset(f)
  {
  }

  /** The check-in button is live for Free and Partial rooms only. */
  predicate CanCheckIn(t: Tier)
  {
    t == Free || t == Partial
  }

  /** The level a check-in posts. */
  const CheckInLevel := 1

  /** What a click on a row's button sends: the check-in level, or nothing
      for a Full room, whose button is disabled. */
  function CheckInRequest(l: Located): (r: Option<int>)
    ensures r.Some? <==> Tier(l) != Full
    ensures r.Some? ==> r.value == CheckInLevel
  {
    if CanCheckIn(Tier(l)) then Some(CheckInLevel) else None
  }

  /** A booked room can never be checked into from this page. */
  lemma BookedNotCheckable(l: Located)
    requires l.row.status == Crud.Label(Crud.Booked)
    ensures CheckInRequest(l).None?
  {
    Crud.BookedSubstring(Crud.Booked);
  }
}
