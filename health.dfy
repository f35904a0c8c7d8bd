/** The backend health monitor (ops/health_monitor.py): classifying one
    probe, appending it to the CSV log, reading a time window back and
    computing the uptime metrics. The clock, the request and its latency are
    parameters; the log file is a sequence of lines, absent or present. */
module Health {
  import opened Models
  import Arith
  import Text

  /** What the HTTP request did: answered with a status code, or raised. */
  datatype ProbeOutcome = Response(code: int) | Raised(message: string)

  /** `ProbeResult`; `timestamp` in microseconds since the epoch. */
  datatype ProbeResult = ProbeResult(
    timestamp: int,
    status: string,
    latencyMs: Option<real>,
    httpStatus: Option<int>,
    error: Option<string>)

  /** `requests.Response.ok`: no 4xx or 5xx status. */
  predicate ResponseOk(code: int)
  {
    !(400 <= code < 600)
  }

  /** `probe_health`: it never fails. An ok response is "up" with no error,
      any other response is "down" with "HTTP <code>", and an exception is
      "down" with its message and no status code. The latency is measured
      either way. */
  function ProbeHealth(outcome: ProbeOutcome, now: int, latencyMs: real): (p: ProbeResult)
    ensures p.timestamp == now && p.latencyMs == Some(latencyMs)
    ensures p.status == "up" || p.status == "down"
    ensures p.status == "up" <==> outcome.Response? && ResponseOk(outcome.code)
    ensures p.error.None? <==> p.status == "up"
    ensures outcome.Response? ==> p.httpStatus == Some(outcome.code)
    ensures outcome.Response? && !ResponseOk(outcome.code) ==>
      p.error == Some("HTTP " + Text.IntToString(outcome.code))
    ensures outcome.Raised? ==> p.httpStatus.None? && p.error == Some(outcome.message)
  {
    match outcome
    case Response(code) =>
      if ResponseOk(code) then ProbeResult(now, "up", Some(latencyMs), Some(code), None)
      else ProbeResult(now, "down", Some(latencyMs), Some(code), Some("HTTP " + Text.IntToString(code)))
    case Raised(message) =>
      ProbeResult(now, "down", Some(latencyMs), None, Some(message))
  }

  // -------------------------------------------------------------- the log

  /** A line of the log. `ts` is None when the first cell is missing or is
      not an ISO timestamp; a text cell is None when the line is too short to
      reach it. */
  datatype Line =
    | HeaderLine
    | DataLine(ts: Option<int>, status: Option<string>, latency: Cell<real>, http: Cell<int>, error: Option<string>)

  /** None: the file does not exist. */
  type Log = Option<seq<Line>>

  /** The row `append_probe` writes: None becomes an empty cell. */
  function Render(p: ProbeResult): Line
  {
    DataLine(
      Some(p.timestamp),
      Some(p.status),
      if p.latencyMs.Some? then Value(p.latencyMs.value) else Blank,
      if p.httpStatus.Some? then Value(p.httpStatus.value) else Blank,
      Some(if p.error.Some? then p.error.value else ""))
  }

  /** `append_probe`: a missing file is created with the header first; an
      existing one only grows by the data row. */
  function AppendProbe(log: Log, p: ProbeResult): (r: Log)
    ensures r.Some?
    ensures log.None? ==> r.value == [HeaderLine, Render(p)]
    ensures log.Some? ==> r.value == log.value + [Render(p)]
  {
    match log
    case None => Some([HeaderLine, Render(p)])
    case Some(lines) => Some(lines + [Render(p)])
  }

  function HeaderCount(lines: seq<Line>): nat
  {
    if lines == [] then 0 else HeaderCount(lines[..|lines| - 1]) + (if lines[|lines| - 1].HeaderLine? then 1 else 0)
  }

  /** Appending never adds a second header: a log made only by
      `append_probe` has its one header as its first line. */
  lemma {:induction false} HeaderOnce(log: Log, p: ProbeResult)
    requires log.Some? ==> |log.value| > 0 && log.value[0] == HeaderLine && HeaderCount(log.value) == 1
    ensures var r := AppendProbe(log, p).value;
      |r| > 0 && r[0] == HeaderLine && HeaderCount(r) == 1
  {
    var r := AppendProbe(log, p).value;
    assert r[..|r| - 1] == if log.None? then [HeaderLine] else log.value;
    if log.None? {
      assert [HeaderLine][..0] == [];
    }
  }

  /** A row of `read_window`'s result. */
  datatype Row = Row(timestamp: int, status: Option<string>, latencyMs: Option<real>, httpStatus: Option<int>, error: Option<string>)

  datatype Window = Rows(rows: seq<Row>) | ParseError

  function Filled<T>(c: Cell<T>): Option<T>
    requires !c.Malformed?
  {
    if c.Value? then Some(c.v) else None
  }

  /** A data line within the window, converted; `float()` or `int()` of a
      malformed cell raises. */
  function Convert(ts: int, l: Line): Window
    requires l.DataLine?
  {
    if l.latency.Malformed? || l.http.Malformed? then ParseError
    else
      Rows([Row(ts, l.status, Filled(l.latency), Filled(l.http),
                if l.error.Some? && l.error.value != "" then l.error else None)])
  }

  /** The rows of `lines` (the header already consumed) stamped at or after
      the cutoff; lines without a readable timestamp are skipped, and a
      malformed number in a kept line aborts the read. */
  function WindowOf(lines: seq<Line>, cutoff: int): Window
  {
    if lines == [] then Rows([])
    else
      var rest := WindowOf(lines[..|lines| - 1], cutoff);
      var l := lines[|lines| - 1];
      if rest.ParseError? then ParseError
      else if l.HeaderLine? || l.ts.None? || l.ts.value < cutoff then rest
      else
        match Convert(l.ts.value, l)
        case ParseError => ParseError
        case Rows(one) => Rows(rest.rows + one)
  }

  /** What `read_window` returns for the whole file. `csv.DictReader` takes
      the first line as the column names, so only a log whose first line is
      the header yields rows. */
  function ReadSpec(log: Log, cutoff: int): Window
  {
    if log.None? || log.value == [] then Rows([])
    else if log.value[0] != HeaderLine then Rows([])
    else WindowOf(log.value[1..], cutoff)
  }

  /** `read_window(minutes)`: the loop over the file's data lines. */
  method ReadWindow(log: Log, now: int, minutes: int) returns (w: Window)
    ensures w == ReadSpec(log, now - minutes * 60_000_000)
    ensures w.Rows? ==> forall i | 0 <= i < |w.rows| :: w.rows[i].timestamp >= now - minutes * 60_000_000
  {
    var cutoff := now - minutes * 60_000_000;
    if log.None? || log.value == [] || log.value[0] != HeaderLine {
      return Rows([]);
    }
    var lines := log.value[1..];
    var rows: seq<Row> := [];
    var i := 0;
    while i < |lines|
      invariant 0 <= i <= |lines|
      invariant WindowOf(lines[..i], cutoff) == Rows(rows)
      invariant forall k | 0 <= k < |rows| :: rows[k].timestamp >= cutoff
    {
      assert lines[..i + 1][..i] == lines[..i];
      var l := lines[i];
      if l.DataLine? && l.ts.Some? && l.ts.value >= cutoff {
        if l.latency.Malformed? || l.http.Malformed? {
          MalformedSticks(lines, i + 1, cutoff);
          assert lines[..|lines|] == lines;
          return ParseError;
        }
        var err := if l.error.Some? && l.error.value != "" then l.error else None;
        rows := rows + [Row(l.ts.value, l.status, Filled(l.latency), Filled(l.http), err)];
      }
      i := i + 1;
    }
    assert lines[..i] == lines;
    w := Rows(rows);
  }

  /** Once a prefix fails to parse, every longer prefix does. */
  lemma {:induction false} MalformedSticks(lines: seq<Line>, n: nat, cutoff: int)
    requires n <= |lines| && WindowOf(lines[..n], cutoff) == ParseError
    ensures WindowOf(lines, cutoff) == ParseError
    decreases |lines| - n
  {
    if n < |lines| {
      assert lines[..n + 1][..n] == lines[..n];
      MalformedSticks(lines, n + 1, cutoff);
    } else {
      assert lines[..n] == lines;
    }
  }

  /** Lines the window keeps: data lines with a timestamp at or after the
      cutoff. */
  function KeptCount(lines: seq<Line>, cutoff: int): nat
  {
    if lines == [] then 0
    else
      var l := lines[|lines| - 1];
      KeptCount(lines[..|lines| - 1], cutoff) + (if l.DataLine? && l.ts.Some? && l.ts.value >= cutoff then 1 else 0)
  }

  /** A successful read yields one row per kept line, in file order, and
      that row is the line's own conversion. */
  lemma {:induction false} WindowKeepsEach(lines: seq<Line>, cutoff: int)
    requires WindowOf(lines, cutoff).Rows?
    ensures |WindowOf(lines, cutoff).rows| == KeptCount(lines, cutoff)
    ensures forall i | 0 <= i < |lines| && lines[i].DataLine? && lines[i].ts.Some? && lines[i].ts.value >= cutoff ::
      exists k | 0 <= k < KeptCount(lines, cutoff) ::
        Convert(lines[i].ts.value, lines[i]) == Rows([WindowOf(lines, cutoff).rows[k]])
        && k == KeptCount(lines[..i], cutoff)
  {
    if lines != [] {
      var init := lines[..|lines| - 1];
      var l := lines[|lines| - 1];
      WindowKeepsEach(init, cutoff);
      var rows := WindowOf(lines, cutoff).rows;
      var before := WindowOf(init, cutoff).rows;
      assert rows[..|before|] == before;
      forall i | 0 <= i < |lines| && lines[i].DataLine? && lines[i].ts.Some? && lines[i].ts.value >= cutoff
        ensures exists k | 0 <= k < KeptCount(lines, cutoff) ::
          Convert(lines[i].ts.value, lines[i]) == Rows([rows[k]]) && k == KeptCount(lines[..i], cutoff)
      {
        if i < |init| {
          assert init[i] == lines[i] && init[..i] == lines[..i];
          var k :| 0 <= k < KeptCount(init, cutoff) && Convert(lines[i].ts.value, lines[i]) == Rows([before[k]])
            && k == KeptCount(init[..i], cutoff);
          assert rows[k] == before[k];
        } else {
          assert lines[..i] == init;
          assert Convert(l.ts.value, l) == Rows([rows[|before|]]);
        }
      }
    }
  }

  /** The row a probe reads back as: the empty error string is None. */
  function Recorded(p: ProbeResult): Row
  {
    Row(p.timestamp, Some(p.status), p.latencyMs, p.httpStatus,
        if p.error.Some? && p.error.value != "" then p.error else None)
  }

  /** Reading after an append returns the earlier rows and then the probe,
      when it falls in the window. */
  lemma AppendThenRead(log: Log, p: ProbeResult, cutoff: int, before: seq<Row>)
    requires log.Some? ==> |log.value| > 0 && log.value[0] == HeaderLine
    requires ReadSpec(log, cutoff) == Rows(before)
    requires p.timestamp >= cutoff
    ensures ReadSpec(AppendProbe(log, p), cutoff) == Rows(before + [Recorded(p)])
  {
    var lines := AppendProbe(log, p).value;
    assert Convert(p.timestamp, Render(p)) == Rows([Recorded(p)]);
    if log.None? {
      assert lines[1..] == [Render(p)];
      assert [Render(p)][..0] == [];
      assert WindowOf([], cutoff) == Rows([]);
    } else {
      assert lines[1..] == log.value[1..] + [Render(p)];
      assert lines[1..][..|lines| - 2] == log.value[1..];
    }
  }

  /** A file that is not there reads as no rows. */
  lemma MissingFileReadsEmpty(cutoff: int)
    ensures ReadSpec(None, cutoff) == Rows([])
  {
  }

  // ---------------------------------------------------------- the metrics

  function CountStatus(rows: seq<Row>, s: string): (n: nat)
    ensures n <= |rows|
  {
    if rows == [] then 0
    else CountStatus(rows[..|rows| - 1], s) + (if rows[|rows| - 1].status == Some(s) then 1 else 0)
  }

  /** "up" and "down" rows are disjoint, so they never exceed the total. */
  lemma {:induction false} UpsPlusDowns(rows: seq<Row>)
    ensures CountStatus(rows, "up") + CountStatus(rows, "down") <= |rows|
  {
    if rows != [] {
      UpsPlusDowns(rows[..|rows| - 1]);
    }
  }

  /** The latencies of the "up" rows that have one, in order. */
  function UpLatencies(rows: seq<Row>): seq<real>
  {
    if rows == [] then []
    else
      var rest := UpLatencies(rows[..|rows| - 1]);
      var r := rows[|rows| - 1];
      if r.status == Some("up") && r.latencyMs.Some? then rest + [r.latencyMs.value] else rest
  }

  lemma {:induction false} UpLatenciesEmpty(rows: seq<Row>)
    ensures UpLatencies(rows) == [] <==>
      forall i | 0 <= i < |rows| :: !(rows[i].status == Some("up") && rows[i].latencyMs.Some?)
  {
    if rows != [] {
      UpLatenciesEmpty(rows[..|rows| - 1]);
    }
  }

  function SumReal(v: seq<real>): real
  {
    if v == [] then 0.0 else SumReal(v[..|v| - 1]) + v[|v| - 1]
  }

  /** The timestamp of the last "down" row, scanning from the end. */
  function LastDown(rows: seq<Row>): (r: Option<int>)
    ensures r.None? <==> CountStatus(rows, "down") == 0
  {
    if rows == [] then None
    else if rows[|rows| - 1].status == Some("down") then Some(rows[|rows| - 1].timestamp)
    else LastDown(rows[..|rows| - 1])
  }

  /** `round(x, 2)` on the exact value, half to even. */
  function Round2(x: real): real
  {
    Arith.RoundReal(x * 100.0) as real / 100.0
  }

  datatype Metrics = Metrics(uptimePct: real, avgLatencyMs: Option<real>, errorsCount: int, lastDownAt: Option<int>)

  /** The metrics of a window, as `compute_metrics` defines them. */
  function MetricsOf(rows: seq<Row>): Metrics
  {
    if rows == [] then Metrics(0.0, None, 0, None)
    else
      var lat := UpLatencies(rows);
      Metrics(
        Round2(CountStatus(rows, "up") as real / |rows| as real * 100.0),
        if lat == [] then None else Some(Round2(SumReal(lat) / |lat| as real)),
        CountStatus(rows, "down"),
        LastDown(rows))
  }

  /** `compute_metrics`: the counts over the rows, then the scan from the
      end that stops at the first "down" row. */
  method ComputeMetrics(rows: seq<Row>) returns (m: Metrics)
    ensures m == MetricsOf(rows)
    ensures rows == [] ==> m == Metrics(0.0, None, 0, None)
    ensures m.errorsCount == CountStatus(rows, "down")
    ensures m.lastDownAt.None? <==> m.errorsCount == 0
    ensures m.lastDownAt.Some? ==> exists i | 0 <= i < |rows| ::
      rows[i].status == Some("down") && rows[i].timestamp == m.lastDownAt.value
      && forall j | i < j < |rows| :: rows[j].status != Some("down")
    ensures 0.0 <= m.uptimePct <= 100.0
    ensures m.avgLatencyMs.None? <==>
      forall i | 0 <= i < |rows| :: !(rows[i].status == Some("up") && rows[i].latencyMs.Some?)
  {
    if rows == [] {
      return Metrics(0.0, None, 0, None);
    }
    var ups := CountStatus(rows, "up");
    var total := |rows|;
    var uptime := Round2(ups as real / total as real * 100.0);
    var lat := UpLatencies(rows);
    var avg := if lat == [] then None else Some(Round2(SumReal(lat) / |lat| as real));
    var errors := CountStatus(rows, "down");
    var lastDown: Option<int> := None;
    var i := |rows|;
    assert rows[..i] == rows;
    while i > 0
      invariant 0 <= i <= |rows|
      invariant lastDown.None?
      invariant forall j | i <= j < |rows| :: rows[j].status != Some("down")
      invariant LastDown(rows) == LastDown(rows[..i])
    {
      assert rows[..i][..i - 1] == rows[..i - 1];
      if rows[i - 1].status == Some("down") {
        lastDown := Some(rows[i - 1].timestamp);
        break;
      }
      i := i - 1;
    }
    assert i == 0 ==> rows[..i] == [];
    m := Metrics(uptime, avg, errors, lastDown);
    UptimeWithin(ups, total);
    LastDownIsLast(rows);
    UpLatenciesEmpty(rows);
  }

  lemma UptimeWithin(ups: nat, total: nat)
    requires 0 < total && ups <= total
    ensures 0.0 <= Round2(ups as real / total as real * 100.0) <= 100.0
  {
    var x := ups as real / total as real * 100.0;
    assert 0.0 <= x <= 100.0;
    Arith.RoundRealWithin(x * 100.0, 10000);
  }

  lemma {:induction false} LastDownIsLast(rows: seq<Row>)
    ensures LastDown(rows).Some? ==> exists i | 0 <= i < |rows| ::
      rows[i].status == Some("down") && rows[i].timestamp == LastDown(rows).value
      && forall j | i < j < |rows| :: rows[j].status != Some("down")
  {
    if rows != [] && rows[|rows| - 1].status != Some("down") {
      LastDownIsLast(rows[..|rows| - 1]);
      if LastDown(rows).Some? {
        var init := rows[..|rows| - 1];
        var i :| 0 <= i < |init| && init[i].status == Some("down") && init[i].timestamp == LastDown(init).value
          && forall j | i < j < |init| :: init[j].status != Some("down");
        assert rows[i] == init[i];
      }
    }
  }

  /** Three "up" rows and one "down" row give 75.0 uptime, the mean of the
      three "up" latencies, one error, and the "down" row's time. */
  lemma MetricsExample()
    ensures MetricsOf(ExampleRows()) == Metrics(75.0, Some(20.0), 1, Some(3))
  {
    ExampleCounts();
    ExampleLatencies();
    ExampleLastDown();
    assert 3 as real / 4 as real * 100.0 * 100.0 == 7500 as real;
    Arith.RoundRealOfInt(7500);
    assert 60.0 / 3 as real * 100.0 == 2000 as real;
    Arith.RoundRealOfInt(2000);
  }

  lemma ExampleCounts()
    ensures CountStatus(ExampleRows(), "up") == 3 && CountStatus(ExampleRows(), "down") == 1
  {
    var rows := ExampleRows();
    var r1, r2, r3, r4 := rows[0], rows[1], rows[2], rows[3];
    assert rows[..3] == [r1, r2, r3] && [r1, r2, r3][..2] == [r1, r2];
    assert [r1, r2][..1] == [r1] && [r1][..0] == [];
    assert CountStatus([r1], "up") == 1 && CountStatus(rows, "up") == 3;
    assert CountStatus([r1, r2], "down") == 0 && CountStatus(rows, "down") == 1;
  }

  lemma ExampleLatencies()
    ensures UpLatencies(ExampleRows()) == [10.0, 20.0, 30.0]
    ensures SumReal([10.0, 20.0, 30.0]) == 60.0
  {
    var rows := ExampleRows();
    var r1, r2, r3, r4 := rows[0], rows[1], rows[2], rows[3];
    assert rows[..3] == [r1, r2, r3] && [r1, r2, r3][..2] == [r1, r2];
    assert [r1, r2][..1] == [r1] && [r1][..0] == [];
    assert UpLatencies([r1]) == [10.0];
    assert UpLatencies([r1, r2, r3]) == [10.0, 20.0];
    assert [10.0, 20.0, 30.0][..2] == [10.0, 20.0];
    assert [10.0, 20.0][..1] == [10.0];
    assert [10.0][..0] == [];
  }

  lemma ExampleLastDown()
    ensures LastDown(ExampleRows()) == Some(3)
  {
    var rows := ExampleRows();
    assert rows[..3][2].status == Some("down");
  }

  /** Two probes up, then one down, then one up again. */
  function ExampleRows(): seq<Row>
  {
    [Row(1, Some("up"), Some(10.0), Some(200), None),
     Row(2, Some("up"), Some(20.0), Some(200), None),
     Row(3, Some("down"), None, None, Some("timeout")),
     Row(4, Some("up"), Some(30.0), Some(200), None)]
  }
}
