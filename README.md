# Smart Study Map — a verified model of the room-status and analytics core

Smart Study Map is a campus service:

- a FastAPI back end stores rooms, their weekly timetable and occupancy samples;
- it derives a status for each room (Booked, Free but Occupied, or Free & Empty) from the current day/slot and the latest sample;
- it serves room listings, a free-room query, room details, check-ins and campus analytics;
- a background simulator writes random samples;
- two Streamlit dashboards (admin and user) turn the backend status into Free/Partial/Full tiers and filter, sort and cap the room tables;
- an ops monitor probes the back end and computes uptime metrics from a CSV log;
- a generator script writes a fixed campus (721 rooms) and a random timetable.

This project models that core in Dafny and proves what the code promises. Inputs the code reads from the world are parameters:

- the clock is an `int` of microseconds since the Unix epoch (UTC);
- the random draws are a stream of naturals;
- file contents are optional sequences of parsed lines;
- the HTTP outcome of a probe is a datatype.

Modules follow the program's files:

| module | file | models |
|---|---|---|
| `Models` | models.dfy | the three tables (`backend/models.py`) and the mutable store `Database` |
| `Crud` | crud.dfy | `backend/crud.py`: day/slot key, latest sample, status rules, free-room query, append |
| `Api` | api.dfy | the room handlers of `backend/main.py` (listing, free rooms, detail, check-in) |
| `Analytics` | analytics.dfy | heatmap and summary of `backend/main.py` |
| `Simulator` | simulator.dfy | one cycle of the occupancy simulator of `backend/main.py` |
| `Loader` | init_db.dfy | `backend/init_db.py`: clear and reload from CSV rows |
| `Health` | health.dfy | `ops/health_monitor.py`: probe classification, log append, window read, metrics |
| `Dashboard`, `Admin` | dashboard.dfy, admin.dfy | `streamlit_admin/admin.py`: tiers, quick table, status counts |
| `User` | user.dfy | `streamlit_user/user.py`: tiers, search/filter/sort/cap, check-in eligibility |
| `Generator` | generator.dfy | `scripts/generate_sample_data.py`: campus rooms and timetable |
| `Text`, `Arith`, `Assoc`, `Sorting` | text.dfy, arith.dfy, assoc.dfy, sorting.dfy | Python built-ins the core relies on: substring tests, `lower()`, decimal rendering, `round()`, floor division, dictionaries in insertion order, `sorted` |

How the source is represented in Dafny:

- Python dictionaries are association lists in first-insertion order (`Assoc`). `defaultdict` counters are `Tally`/`Put` over them.
- `round()` is half-to-even on exact rationals (`Arith.RoundHalfEven`, `Arith.RoundReal`). `//` is Euclidean division, which agrees with Python's floor division for a positive divisor.
- The store is a class whose methods change its sequences. Read-only handlers take a value snapshot, `Tables`.
- Loop-based operations are methods proved against a specification function. The properties are lemmas about those functions.
- The generator's in-place `rng.shuffle` is an array method proved equal to a Fisher–Yates specification function.

## Model

| member | source | states |
|---|---|---|
| Crud.CurrentDaySlot | smart_study_map_2/backend/crud.py:8-14 | the key's day is one of the seven day names (Monday first) and its slot lies in 0..9 |
| Crud.DaySlotWeekly | smart_study_map_2/backend/crud.py:10-14 | the key repeats every week |
| Crud.DaySlotNextDay | smart_study_map_2/backend/crud.py:10-14 | 24 hours later the day is the next day name and the slot is unchanged |
| Crud.DaySlotExample | smart_study_map_2/backend/crud.py:10-14 | 2024-01-01 13:00 UTC maps to ("Mon", 3) |
| Crud.FindRoom | smart_study_map_2/backend/crud.py:19-20 | absent exactly when no stored room has the id; a found room is stored and has the id |
| Crud.LatestOccupancy | smart_study_map_2/backend/crud.py:29-30 | absent exactly when the room has no sample; otherwise a stored sample of the room whose timestamp is the largest among the room's samples |
| Crud.FreeEmptyPrefix | smart_study_map_2/backend/crud.py:40-53 | a status label starts with "Free & Empty" exactly for the free-and-empty status |
| Crud.BookedSubstring | smart_study_map_2/backend/crud.py:38-42 | only the Booked label contains "Booked" |
| Crud.StatusRules | smart_study_map_2/backend/crud.py:32-42 | Booked iff a timetable entry matches (room, day, slot); otherwise level > 30 gives occupied and level ≤ 30 gives empty; the level is 0 with no sample and otherwise the level of a latest-timestamp sample |
| Crud.BookedWhateverLevel | smart_study_map_2/backend/crud.py:35-39 | a booked room is Booked whatever samples are stored |
| Crud.UnknownRoomIsEmpty | smart_study_map_2/backend/crud.py:36-42 | a room with no entries and no samples is Free & Empty at level 0 |
| Crud.StatusAfterSample | smart_study_map_2/backend/crud.py:36-42 | after a sample no older than the room's others, the room reports that sample's level, and (unbooked) the threshold status for it |
| Crud.OtherRoomSampleIrrelevant | smart_study_map_2/backend/crud.py:35-37 | a sample for another room does not change a room's status or level |
| Crud.Candidates | smart_study_map_2/backend/crud.py:45-49 | exactly the stored rooms matching the block and minimum capacity, each as often as it is stored and no other, where an absent, empty or zero filter imposes nothing |
| Crud.Take | smart_study_map_2/backend/crud.py:51 | `limit(n)`: a prefix of at most n elements |
| Crud.TakeLength | smart_study_map_2/backend/crud.py:51 | the prefix has exactly min(n, length) elements |
| Crud.FreeAmongExact | smart_study_map_2/backend/crud.py:51-54 | the kept candidates are exactly the Free & Empty ones, each with its computed status and level |
| Crud.RoomsFreeFiltered | smart_study_map_2/backend/crud.py:44-55 | at most 100 results, each a stored room matching the filters, Free & Empty with level ≤ 30; every Free & Empty room among the first 100 candidates is in the result, and when at most 100 stored rooms match, every stored, matching, Free & Empty room is |
| Crud.FreeScan | smart_study_map_2/backend/crud.py:50-54 | the loop over the candidates appends exactly the Free & Empty ones, scored, in candidate order |
| Crud.FreeFilteredFacts | smart_study_map_2/backend/crud.py:44-55 | the scan of the capped, filtered candidates gives at most 100 stored, matching, Free & Empty rooms and misses none of the Free & Empty candidates |
| Crud.UncappedFree | smart_study_map_2/backend/crud.py:44-55 | when at most 100 stored rooms match the filters, the cap drops none, so every stored, matching, Free & Empty room is in the result |
| Crud.FreeFactsOver | smart_study_map_2/backend/crud.py:51-55 | any list of at most 100 stored, matching rooms yields at most 100 Free & Empty results, each scored, and misses none of its Free & Empty rooms |
| Crud.CappedCandidates | smart_study_map_2/backend/crud.py:45-51 | every room of `q.limit(100)` is a stored room passing the block and capacity filters |
| Crud.AddOccupancy | smart_study_map_2/backend/crud.py:22-27 | exactly one sample with the given room and unchecked level and a fresh id is appended; rooms and timetable unchanged |
| Models.NextOccupancyId | smart_study_map_2/backend/models.py:30 | a new primary key is positive and differs from every stored one |
| Models.MaxOccupancyId | smart_study_map_2/backend/models.py:30 | bounds every stored key |
| Models.Database.constructor | smart_study_map_2/backend/models.py:6-33 | the store starts with three empty tables |
| Api.RoomsAll | smart_study_map_2/backend/main.py:58-76 | one entry per stored room, in store order, carrying the room and its computed status label and level |
| Api.RoomsFree | smart_study_map_2/backend/main.py:79-96 | at most 100 entries, each a stored, matching, Free & Empty room rendered with its own status; every Free & Empty room among the capped candidates appears |
| Api.EntriesOf | smart_study_map_2/backend/main.py:104 | an entry is listed iff it is stored and belongs to the room, and as often as it is stored |
| Api.SamplesOf | smart_study_map_2/backend/main.py:105 | a sample is selected iff it is stored and belongs to the room, and as often as it is stored |
| Api.History | smart_study_map_2/backend/main.py:105 | min(50, #samples) of the room's samples, newest first, each at most as often as it is stored; any sample left out is no newer than every one listed |
| Api.RoomDetail | smart_study_map_2/backend/main.py:99-113 | 404 iff the id is unknown; otherwise the room, all its timetable entries, each as often as it is stored, and its history |
| Api.Checkin | smart_study_map_2/backend/main.py:119-125 | 404 with the store unchanged iff the id is unknown; otherwise exactly one sample with the unvalidated level is appended and its id returned |
| Api.CheckinSetsLevel | smart_study_map_2/backend/main.py:124 | after a check-in stamped no earlier than the room's samples, the room reports the checked-in level |
| Analytics.LatestLevelWithin | smart_study_map_2/backend/main.py:133-134 | when stored levels lie in 0..100, so does the latest level (0 by default) |
| Analytics.BlockLevels | smart_study_map_2/backend/main.py:132-135 | a block's list holds one level per room of that block |
| Analytics.HeatGroupsExact | smart_study_map_2/backend/main.py:130-135 | the `setdefault(...).append` dictionary has each block once, in first-appearance order, mapped to the latest levels of its rooms |
| Analytics.GroupLevels | smart_study_map_2/backend/main.py:130-135 | the grouping loop builds exactly that dictionary |
| Analytics.Averages | smart_study_map_2/backend/main.py:136 | one cell per group with the group's floor mean |
| Analytics.HeatCellsExact | smart_study_map_2/backend/main.py:135-136 | each cell's block appears once, in first-appearance order, with a non-empty level list and avg = sum // count |
| Analytics.HeatCellsWithin | smart_study_map_2/backend/main.py:136 | with levels in 0..100 every average lies in 0..100 |
| Analytics.Heatmap | smart_study_map_2/backend/main.py:128-137 | one cell per distinct block in first-appearance order with the floor average of its rooms' latest levels; day and slot are ignored; averages stay in 0..100 |
| Analytics.LatestLevelsGet | smart_study_map_2/backend/main.py:145-148 | the latest-level dictionary maps each stored room id to its latest level and anything else to the default 0 |
| Analytics.LatestLevelTable | smart_study_map_2/backend/main.py:145-148 | the loop builds that table |
| Analytics.BlockGroupsKeys | smart_study_map_2/backend/main.py:151-156 | the per-block counters have each block key (None becomes 'Unknown') once, first-appearance order |
| Analytics.BlockGroupsTotals | smart_study_map_2/backend/main.py:151-156 | the block room counts add up to the number of rooms and the capacities (None as 0) to the capacity total; every block has at least one room |
| Analytics.BlockGroupsGet | smart_study_map_2/backend/main.py:152-156 | each block's counters are the room count, capacity sum and latest-level sum of its rooms |
| Analytics.BlockTotals | smart_study_map_2/backend/main.py:151-156 | the counting loop builds exactly those counters |
| Analytics.Finish | smart_study_map_2/backend/main.py:157-160 | the average is the integer nearest to total / max(1, rooms), never more than 1/2 away (Python `round`), and `used_capacity_pct` equals it |
| Analytics.FinishAll | smart_study_map_2/backend/main.py:157-160 | every block's counters are finished in place, keys kept |
| Analytics.FinishedSums | smart_study_map_2/backend/main.py:157-160 | finishing keeps the keys, their distinctness and the room and capacity sums |
| Analytics.FinishedValues | smart_study_map_2/backend/main.py:157-160 | each finished block holds the finished totals of its own rooms |
| Analytics.BlockTable | smart_study_map_2/backend/main.py:151-160 | distinct block keys in first-appearance order carrying finished totals whose sums match the room count and capacity total |
| Analytics.SortedKeys | smart_study_map_2/backend/main.py:193 | sorting the blocks neither adds nor drops a block key |
| Analytics.BlockSummary | smart_study_map_2/backend/main.py:151-193 | blocks sorted by name, exactly the keys of the rooms, each with its own finished totals, room counts summing to total_rooms and capacities to total_capacity |
| Analytics.TotalCapacity | smart_study_map_2/backend/main.py:162 | the sum of capacities with None as 0 |
| Analytics.TypeCounts | smart_study_map_2/backend/main.py:165-167 | each type key (None as 'lecture') counted by its occurrences, first-appearance order, counts adding up to the number of rooms |
| Analytics.BookedIn | smart_study_map_2/backend/main.py:176 | the distinct booked rooms of a cell are lecture rooms |
| Analytics.PercentWithin | smart_study_map_2/backend/main.py:177 | a count no larger than the total gives a percentage in 0..100 |
| Analytics.CoverageCell | smart_study_map_2/backend/main.py:170-177 | a coverage cell lies in 0..100 |
| Analytics.CoverageOfCell | smart_study_map_2/backend/main.py:173-177 | a cell whose lecture-room entries name exactly a list of distinct lecture rooms is covered at round(100 · length / max(1, #lecture rooms)) |
| Analytics.CampusCellCoverage | smart_study_map_2/backend/main.py:173-177 | with 660 lecture rooms, a cell whose entries name 396 distinct ones is reported as 60 |
| Analytics.CoverageRow | smart_study_map_2/backend/main.py:175-177 | ten slots per day, each the coverage cell |
| Analytics.Coverage | smart_study_map_2/backend/main.py:170-177 | a 7 × 10 grid in day order whose cells are round(100 · booked lecture rooms / max(1, lecture rooms)) within 0..100 |
| Analytics.PercentExamples | smart_study_map_2/backend/main.py:177 | 3 of 5 gives 60, 1 of 3 gives 33, 0 of 0 gives 0 |
| Analytics.RecentSamples | smart_study_map_2/backend/main.py:181-182 | a sample is selected iff it is stored and no older than the cutoff, and as often as it is stored |
| Analytics.MinuteOf | smart_study_map_2/backend/main.py:185 | the minute bucket is the minute-aligned start containing the timestamp |
| Analytics.TallyMinutes | smart_study_map_2/backend/main.py:183-186 | the counting loop builds exactly the per-minute tally of the samples' minutes |
| Analytics.InsertsLast5m | smart_study_map_2/backend/main.py:180-187 | the total equals the sum of the per-minute buckets and the number of samples of the last 5 minutes; each bucket counts exactly its samples |
| Analytics.AnalyticsSummary | smart_study_map_2/backend/main.py:140-197 | room and capacity totals; the blocks sorted by key, exactly the rooms' block keys, each with its finished totals, summing to the totals; each type key once in first-appearance order with its count; the 7 × 10 grid of coverage cells; per-minute counts of the last five minutes' samples and their total |
| Analytics.BlockAverageExamples | smart_study_map_2/backend/main.py:158 | 31 over 3 rooms gives 10; 25/2 gives 12 and 27/2 gives 14 (ties to even) |
| Simulator.Clamp | smart_study_map_2/backend/main.py:210 | the level lies in 0..100 and is the truncated draw when that is in range, 0 below, 100 above |
| Simulator.Cycle | smart_study_map_2/backend/main.py:205-213 | one sample per picked room among the first 200, all for distinct rooms, clamped and stamped now; earlier samples, rooms and timetable unchanged |
| Simulator.EmptyStoreNoPicks | smart_study_map_2/backend/main.py:206-208 | an empty store gets no sample |
| Simulator.TenPicks | smart_study_map_2/backend/main.py:209 | with at least ten rooms exactly ten are picked |
| Simulator.ClampExamples | smart_study_map_2/backend/main.py:210 | -0.5 and -37.2 give 0, 42.7 gives 42, 100.9 gives 100 |
| Health.ProbeHealth | smart_study_map_2/ops/health_monitor.py:28-50 | "up" iff the response is ok; error None iff up; a not-ok response records its code and "HTTP <code>"; an exception gives "down", no HTTP status, and its message |
| Health.AppendProbe | smart_study_map_2/ops/health_monitor.py:53-65 | a new file gets the header then the row; an existing one gets exactly one row appended |
| Health.HeaderOnce | smart_study_map_2/ops/health_monitor.py:54-58 | the log keeps exactly one header, on its first line, across appends |
| Health.ReadWindow | smart_study_map_2/ops/health_monitor.py:68-89 | the loop's result is the window specification at cutoff now − minutes, and every kept row is at or after the cutoff |
| Health.MissingFileReadsEmpty | smart_study_map_2/ops/health_monitor.py:70-71 | no file reads as no rows |
| Health.WindowKeepsEach | smart_study_map_2/ops/health_monitor.py:76-88 | one row per data line with a parsed timestamp at or after the cutoff, in file order; the row at that line's position is the line's own conversion (timestamp, status, latency, HTTP status, and a non-empty error or none) |
| Health.MalformedSticks | smart_study_map_2/ops/health_monitor.py:85-86 | a malformed latency or HTTP status cell aborts the whole read |
| Health.AppendThenRead | smart_study_map_2/ops/health_monitor.py:53-89 | appending a fresh probe then reading gives the previous rows followed by that probe |
| Health.CountStatus | smart_study_map_2/ops/health_monitor.py:100 | a status count is at most the row count |
| Health.UpsPlusDowns | smart_study_map_2/ops/health_monitor.py:100-105 | ups + downs ≤ total |
| Health.UpLatenciesEmpty | smart_study_map_2/ops/health_monitor.py:103 | the latency list is empty iff no "up" row carries a latency |
| Health.LastDown | smart_study_map_2/ops/health_monitor.py:107-111 | the reverse scan finds nothing iff there is no "down" row |
| Health.LastDownIsLast | smart_study_map_2/ops/health_monitor.py:107-111 | a found timestamp is that of a "down" row with no "down" row after it |
| Health.UptimeWithin | smart_study_map_2/ops/health_monitor.py:102 | the rounded uptime lies in 0..100 |
| Health.ComputeMetrics | smart_study_map_2/ops/health_monitor.py:92-112 | empty input gives (0.0, None, 0, None); errors equal the "down" count; last_down is None iff there are no errors and is otherwise the last "down" row; uptime in 0..100; average None iff no "up" row has a latency |
| Health.MetricsExample | smart_study_map_2/ops/health_monitor.py:98-112 | [up, up, down, up] rows give 75.0 uptime, the mean of the up latencies, one error and the down row's time |
| Loader.OrText | smart_study_map_2/backend/init_db.py:28-32 | `value or default`: an absent or empty cell gives the default, any other the value |
| Loader.Defaults | smart_study_map_2/backend/init_db.py:24-44 | blank cells give capacity 0, type 'lecture', AC 'No', amenities '', coordinates 0.0, slot 0 and course '-' |
| Loader.ValuesKept | smart_study_map_2/backend/init_db.py:27-28 | given capacity and type values are stored as they are |
| Loader.ClearAll | smart_study_map_2/backend/init_db.py:14-17 | all three tables are emptied |
| Loader.BuildRooms | smart_study_map_2/backend/init_db.py:21-35 | succeeds iff every row parses, then one room per row in order |
| Loader.BuildEntries | smart_study_map_2/backend/init_db.py:37-47 | succeeds iff every row parses, then one entry per row in order, duplicates kept |
| Loader.Distinct | smart_study_map_2/backend/models.py:9 | true iff the room ids are pairwise distinct (the unique column) |
| Loader.PopulateFromCsv | smart_study_map_2/backend/init_db.py:10-48 | samples always cleared; a missing file leaves everything empty; a bad or duplicate room row leaves rooms and timetable empty; a bad timetable row keeps the committed rooms; a full load stores one room and one entry per row with defaults |
| Dashboard.TierNamesDistinct | smart_study_map_2/streamlit_admin/admin.py:111 | the three tier names differ |
| Dashboard.Filter | smart_study_map_2/streamlit_admin/admin.py:176-182 | boolean-mask filtering keeps exactly the matching rows |
| Dashboard.FilterCounts | smart_study_map_2/streamlit_admin/admin.py:176-182 | the mask keeps each passing row as often as the table holds it, and drops every other row |
| Dashboard.FilterTwice | smart_study_map_2/streamlit_admin/admin.py:176-182 | two successive masks equal one mask with both conditions |
| Dashboard.FilterAll | smart_study_map_2/streamlit_admin/admin.py:177-181 | a skipped filter (a mask that holds everywhere) keeps the table |
| Dashboard.FilterSame | smart_study_map_2/streamlit_admin/admin.py:176-182 | masks that agree everywhere give the same table |
| Admin.DeriveStatus | smart_study_map_2/streamlit_admin/admin.py:104-122 | a status containing "Booked" gives Full; otherwise, with a missing level as 0, Full iff level ≥ 95, Partial iff 30 < level < 95, Free iff level ≤ 30 |
| Admin.TiersOfStatus | smart_study_map_2/streamlit_admin/admin.py:116-122 | over a backend-derived status: Free iff Free & Empty, Booked gives Full, Free but Occupied gives Partial or Full, Full iff Booked or level ≥ 95 |
| Admin.TiersOfBackend | smart_study_map_2/streamlit_admin/admin.py:113-122 | the same for every room's `/rooms/all` entry |
| Admin.QuickTable | smart_study_map_2/streamlit_admin/admin.py:176-196 | the match count is the number of rows matching block, tier and nonzero minimum capacity; the shown rows are the first min(matches, rows_to_show) of them |
| Admin.Narrow | smart_study_map_2/streamlit_admin/admin.py:176-182 | narrowing by block, then tier, then a nonzero minimum capacity, equals one filter by the combined selector |
| Admin.StatusCounts | smart_study_map_2/streamlit_admin/admin.py:234-235 | each tier's count is its number of rows and the three add up to the number of rows |
| Admin.ThresholdExamples | smart_study_map_2/streamlit_admin/admin.py:51-52 | 30 is Free, 31 and 94 Partial, 95 Full, no data Free, Booked Full |
| User.SameRulesAsAdmin | smart_study_map_2/streamlit_user/user.py:104-113 | the user tier rule equals the admin one on every input |
| User.FilterRows | smart_study_map_2/streamlit_user/user.py:127-134 | the block, capacity and search narrowing equals one filter by all three |
| User.SortIsPermutation | smart_study_map_2/streamlit_user/user.py:137-142 | each sort mode's output is a permutation of the filtered rows |
| User.ModeOrder | smart_study_map_2/streamlit_user/user.py:137-142 | distance non-decreasing, capacity non-increasing, or level non-decreasing |
| User.Ranked | smart_study_map_2/streamlit_user/user.py:144 | the head holds filtered rows and no row left out ranks before a shown one |
| User.Nearest | smart_study_map_2/streamlit_user/user.py:126-144 | at most MAX_RESULTS rows, each a stored row passing block, capacity and case-insensitive id/amenity search, in the mode's order, and no filtered row left out ranks before a shown one |
| User.CheckInRequest | smart_study_map_2/streamlit_user/user.py:172-188 | a check-in is offered iff the tier is not Full, and it always sends level 1 |
| User.BookedNotCheckable | smart_study_map_2/streamlit_user/user.py:107-108 | a Booked room is never offered a check-in |
| Sorting.SortBy | smart_study_map_2/streamlit_user/user.py:137-142 | `sort_values`: a permutation, ordered by the key |
| Sorting.SortSortedIsIdentity | smart_study_map_2/streamlit_user/user.py:137-142 | sorting an ordered table leaves it unchanged |
| Assoc.PutGet | smart_study_map_2/backend/main.py:154-156 | after `d[k] = v`, k maps to v and every other key is unchanged |
| Assoc.GetMissing | smart_study_map_2/backend/main.py:156 | `d.get(k, default)` of a missing key is the default |
| Assoc.GetFirst | smart_study_map_2/backend/main.py:156 | `d.get(k, default)` of a present key is the value stored under it |
| Assoc.PutKeys | smart_study_map_2/backend/main.py:151-156 | `d[k] = v` keeps an existing key in its place and appends a new key last, the order `items()` iterates in |
| Assoc.TallyCounts | smart_study_map_2/backend/main.py:165-167 | a `defaultdict(int)` tally maps each key to its number of occurrences |
| Assoc.TallySum | smart_study_map_2/backend/main.py:165-167 | the tallies add up to the number of keys |
| Assoc.SortByKey | smart_study_map_2/backend/main.py:193 | `sorted(d.items())`: a permutation with ascending keys |
| Arith.RoundHalfEven | smart_study_map_2/backend/main.py:158 | `round(n / d)`: the nearest integer, ties to even |
| Arith.RoundReal | smart_study_map_2/ops/health_monitor.py:102 | `round(x)` on a real: the nearest integer, ties to even |
| Arith.FloorMeanWithin | smart_study_map_2/backend/main.py:136 | a floor mean of values in a range lies in that range |
| Arith.TruncToInt | smart_study_map_2/backend/main.py:210 | `int(x)` truncates toward zero |
| Text.LessTotal | smart_study_map_2/backend/main.py:193 | any two different block names are ordered one way or the other, as `sorted` needs |
| Text.Lower | smart_study_map_2/streamlit_user/user.py:133 | `lower()` keeps the length and maps each character |
| Text.ContainsIffWindow | smart_study_map_2/streamlit_user/user.py:134 | `q in s` iff some window of s equals q |
| Generator.WriteUb | smart_study_map_2/scripts/generate_sample_data.py:20-26 | the nested loops emit the 300 UB rows, floor-major |
| Generator.TpNumbers | smart_study_map_2/scripts/generate_sample_data.py:30 | the room-number closed form equals the allowed list |
| Generator.WriteTp | smart_study_map_2/scripts/generate_sample_data.py:28-42 | 120 TP lecture rows then the four labs |
| Generator.Tp2Floors | smart_study_map_2/scripts/generate_sample_data.py:46 | the floor closed form equals the classroom floor list, with 'G' as 0 |
| Generator.WriteTp2Classrooms | smart_study_map_2/scripts/generate_sample_data.py:46-52 | 240 TP2 classrooms, floor 'G' written "00" |
| Generator.WriteTp2Labs | smart_study_map_2/scripts/generate_sample_data.py:54-58 | 45 labs on floors 3–5 |
| Generator.WriteAuditoriums | smart_study_map_2/scripts/generate_sample_data.py:60-64 | 12 auditoriums on floor 7 with the listed capacities |
| Generator.WriteRooms | smart_study_map_2/scripts/generate_sample_data.py:18-64 | the room file is the campus list: 721 rows with pairwise distinct ids |
| Generator.IdParts | smart_study_map_2/scripts/generate_sample_data.py:24 | a zero-padded id reads back its floor and room number |
| Generator.CampusIdsDistinct | smart_study_map_2/scripts/generate_sample_data.py:20-64 | every id determines its row's position, so all 721 ids differ |
| Generator.CampusShape | smart_study_map_2/scripts/generate_sample_data.py:20-64 | 300/120/4/240/45/12 rows per segment, 721 in all; UB-0101, UB-1520, TP-0221, TP-0522, TP-0823, TP-1124, TP2-0001 and TP2-0712 as written |
| Generator.Capacities | smart_study_map_2/scripts/generate_sample_data.py:60-64 | only the auditoriums (the last 12 rows) differ from 60 seats, and their capacities add up to 1330 |
| Generator.CampusLectureList | smart_study_map_2/scripts/generate_sample_data.py:77 | the lecture rooms are the UB, TP and TP2 classrooms in file order |
| Generator.CampusLectures | smart_study_map_2/scripts/generate_sample_data.py:77-78 | 660 lecture rooms, pairwise distinct |
| Generator.BookableCourses | smart_study_map_2/scripts/generate_sample_data.py:87 | the bookable courses are the four that are not '-' |
| Generator.FisherYatesKeeps | smart_study_map_2/scripts/generate_sample_data.py:84 | shuffling is a permutation and keeps distinct ids distinct |
| Generator.Shuffle | smart_study_map_2/scripts/generate_sample_data.py:84 | the in-place shuffle equals the Fisher–Yates specification and takes one draw per position above the first |
| Generator.BookCell | smart_study_map_2/scripts/generate_sample_data.py:84-88 | one cell: the lecture list is shuffled in place by Fisher–Yates over the draw stream, and the rows are `CellOf` its first `per_slot` rooms (or all, if fewer), with the draws after the shuffle; lecture rooms, distinct when the list is, courses not '-' |
| Generator.AssignCourses | smart_study_map_2/scripts/generate_sample_data.py:86-88 | the rows are `CellOf` the selected rooms: one per room in order, the q-th course from the q-th draw; one draw per room |
| Generator.CellOfRows | smart_study_map_2/scripts/generate_sample_data.py:86-88 | row q of a cell is for the q-th selected room, at that day and slot, with the course of draw k + q |
| Generator.CellOfBooks | smart_study_map_2/scripts/generate_sample_data.py:86-88 | rows for selected lecture rooms book the cell: lecture rooms, distinct when the list is, every course other than '-' |
| Generator.WriteTimetable | smart_study_map_2/scripts/generate_sample_data.py:72-88 | 70 cells in day-major order, each booking min(max(1, ⌊0.6·n⌋), n) lecture rooms, distinct when the lecture ids are (true of the campus, `CampusLectures`), each with a real course; 70 times that many rows |
| Generator.CampusBookings | smart_study_map_2/scripts/generate_sample_data.py:79-80 | with 660 lecture rooms each cell books 396, at least half, and 396 of 660 rounds to 60 percent |

## Left out

- HTTP, ORM and UI plumbing is not modelled: FastAPI routing, CORS, uvicorn, the `/health` and `/admin/load_csv` endpoints, SQLAlchemy sessions, and all Streamlit, plotly and folium rendering, caching and the CSV-upload temp files. The handlers are modelled on the data they read and write.
- `get_rooms` (`backend/crud.py:16-17`) is not modelled; no modelled handler calls it.
- Threads, sleeps, the perpetual loop and the simulator's exception handler are not modelled; `Simulator.Cycle` is one pass of the loop body. `random.gauss` draws and `random.sample` positions are parameters, and the uniformity of the sample is not modelled.
- The clock is a parameter: `now` and the stored timestamps are integers of microseconds in UTC. The naive `datetime.utcnow` column default compared with an aware `now` is not modelled.
- Database ids are modelled as max + 1 (`Models.NextOccupancyId`), the rowid rule for an integer primary key; other id allocation schemes are not.
- Room columns are never NULL in the model: where a loaded row lacks a room id or block, the model stores the empty string, while `row.get` on an absent column stores NULL (`backend/init_db.py:25`). The summary's `r.block or 'Unknown'` (`backend/main.py:153`) treats "" and NULL alike, and `Analytics.BlockKey` maps "" to 'Unknown' as it does. The heatmap (`backend/main.py:135`) groups by the raw block and the dashboards' `fillna("Unknown")` replaces only NULL, so there a "" block keeps the key "", where a NULL block would be keyed None in the heatmap and 'Unknown' in the dashboards. The same holds for timetable rows: `Loader.EntryOf` stores "" for a missing room id or day, where `backend/init_db.py:41-42` stores NULL. A "" day never matches a day name, so coverage sees no difference there. An id-less timetable entry does differ: the model matches its "" to the id of a lecture room loaded without an id, whereas `Timetable.room_id.in_(lecture_ids)` (`backend/main.py:174`) never matches NULL.
- Loader.PopulateFromCsv: a load with two or more rows lacking a room id ends as `DuplicateRoomId` with no rooms stored, because `Loader.RoomOf` stores each missing id as "" and the database keeps room ids distinct. The source stores NULL for each, and its unique `room_id` column (`backend/models.py:9`, nullable) accepts any number of NULLs, so it loads them. Loads in which at most one row lacks a room id are modelled as the source behaves.
- Crud.LatestOccupancy, Crud.StatusAfterSample, Api.CheckinSetsLevel: when two samples of a room share the newest timestamp, the model reports the one stored last. `order_by(desc(timestamp)).first()` (`backend/crud.py:30`) leaves that order to the database, so the source promises no particular one. `Crud.StatusAfterSample` and `Api.CheckinSetsLevel` rely on this tie-break only when the new sample's timestamp equals the newest stored one; for a strictly newer sample they hold whatever order the database picks.
- A NULL room id or block makes `/rooms/all` and `/rooms/free` fail response validation in the source, because `backend/schemas.py:6-7` declares both as `str`. The model's "" passes, so `Api.RoomsAll` and `Api.RoomsFree` do not reproduce that failure.
- CSV parsing is abstracted: each cell is absent, blank, a value or malformed. DictReader details (quoting, blank lines, extra columns) are not modelled, and neither is the exact text `int()` and `float()` accept.
- A failing `int()`/`float()` or a duplicate room id in the loader raises; this is modelled as an outcome value. The per-table commits decide what stays stored.
- Health monitor: the network call, `perf_counter` latency and ISO-8601 parsing are not modelled. The latency is a parameter and a timestamp cell is a parsed integer or absent. Latency formatting in the CSV and its rounding to two decimals are not modelled.
- Health.ReadWindow: the `row.get("status", "down")` default is unreachable with the fixed header, so a short line's missing status is modelled as absent rather than "down".
- Floating point is replaced by exact arithmetic: `round(x, 2)` is exact half-to-even rounding of reals, `int(n * 0.6)` is `(n * 6) / 10`, and `int(x)` truncation is exact. These coincide with the floats for the values the lemmas name (for n = 660, 0.6 · 660 evaluates to exactly 396.0), but not necessarily for every input.
- User.Nearest: the haversine distance and the 1e9 sentinel for rows without coordinates are not modelled; each row carries its distance as a parameter. The location presets are not modelled either.
- User.Nearest: pandas' default sort is not stable, and the model sorts stably, so among equal keys the model fixes one order. Its contract (mode order, top-k and permutation) holds for any tie order.
- The dashboards' "Avg occupancy %" metric (`int(mean)`) and the block option lists are not modelled.
- Generator: coordinates and `jitter`, the CSV headers and file writes are not modelled, so a room row has no lat/lon.
- Generator: randomness is modelled as one draw from a stream per `_randbelow` call, reduced modulo the bound. CPython's rejection sampling over 32-bit words is not modelled, so the model does not reproduce the seed-1 output; its properties hold for every stream.
- Generator.WriteTimetable: states each cell's shape (size, day, slot, lecture rooms, distinctness, real courses), not which rooms and courses each cell gets. `Generator.BookCell` states those exactly for one cell; the 70 successive shuffles of the same list are not composed into one closed form.
- `Text.Lower` folds ASCII letters only; Python's `str.lower` is full Unicode.
- `streamlit_ops/ops_dashboard.py`, `streamlit_campus_map.py`, `run_all.py` and `backend/tests/test_api.py` are not part of this model. `backend/schemas.py` appears only as the `Api.RoomOut` record.
