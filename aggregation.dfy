/**
 * The aggregation half of db/storage.js as functions over the table model:
 * the window-token parser, the fixed-window aggregation and the checkpoint
 * aggregation. Each returns the new tables together with what the
 * JavaScript function resolves to (or the error it throws). The clock is a
 * parameter `now`; both clock reads inside one call see the same `now`.
 */
module Aggregation {
  import opened Wrappers
  import opened Text
  import opened Clock
  import opened Tables

  // ---------------------------------------------------------------------
  // timeFrameToMilliseconds

  /** A JavaScript number as parseInt and integer arithmetic produce it here. */
  datatype JsNumber = NaN | Finite(value: int)

  /** The two exceptions the aggregation functions can throw. */
  datatype AggregationError =
    | UnsupportedTimeFrame  // `new Error("Unsupported time frame")`
    | InvalidTimeValue      // the RangeError of `toISOString` on an invalid date

  /** WhiteSpace and LineTerminator of ECMAScript, which parseInt skips. */
  predicate IsJsSpace(c: char)
  {
    c == '\t' || c == '\n' || c == '\U{b}' || c == '\U{c}' || c == '\r' || c == ' '
    || c == '\U{a0}' || c == '\U{1680}' || '\U{2000}' <= c <= '\U{200a}'
    || c == '\U{2028}' || c == '\U{2029}' || c == '\U{202f}' || c == '\U{205f}'
    || c == '\U{3000}' || c == '\U{feff}'
  }

  function DropLeadingJsSpace(s: string): (r: string)
    ensures |r| <= |s| && r == s[|s| - |r|..]
    ensures r == [] || !IsJsSpace(r[0])
  {
    if s != [] && IsJsSpace(s[0]) then DropLeadingJsSpace(s[1..]) else s
  }

  /** The longest prefix of s made of digits of the radix. */
  function DigitPrefix(s: string, radix: nat): (r: string)
    ensures |r| <= |s| && r == s[..|r|]
    ensures AllDigitsOf(r, radix)
    ensures |r| == |s| || !IsDigitOf(s[|r|], radix)
  {
    if s != [] && IsDigitOf(s[0], radix) then
      var rest := DigitPrefix(s[1..], radix);
      assert s[..|rest| + 1] == [s[0]] + s[1..][..|rest|];
      [s[0]] + rest
    else []
  }

  /**
   * `parseInt(s)` with no radix: leading white space is skipped, one sign is
   * taken, a `0x`/`0X` prefix switches to hexadecimal, and the longest run
   * of digits that follows is read; with no digit the result is NaN.
   */
  function ParseInt(s: string): JsNumber
  {
    var t := DropLeadingJsSpace(s);
    if t != [] && t[0] == '-' then Negate(ParseUnsigned(t[1..]))
    else if t != [] && t[0] == '+' then ParseUnsigned(t[1..])
    else ParseUnsigned(t)
  }

  function Negate(n: JsNumber): JsNumber
  {
    if n.NaN? then NaN else Finite(-n.value)
  }

  /** The digits after the sign: hexadecimal after a `0x`/`0X` prefix, decimal otherwise. */
  function ParseUnsigned(u: string): JsNumber
  {
    if |u| >= 2 && u[0] == '0' && (u[1] == 'x' || u[1] == 'X') then LeadingValue(u[2..], 16)
    else LeadingValue(u, 10)
  }

  /** The value of the longest run of digits at the start of w, NaN when there is none. */
  function LeadingValue(w: string, radix: nat): JsNumber
  {
    var ds := DigitPrefix(w, radix);
    if ds == [] then NaN else Finite(RadixValue(ds, radix))
  }

  /** A decimal numeral followed by a non-digit reads back as its value. */
  lemma ParseIntOfDecimal(n: int, rest: string)
    requires rest != [] && !IsDigitOf(rest[0], 10) && rest[0] != 'x' && rest[0] != 'X'
    ensures ParseInt(DecimalString(n) + rest) == Finite(n)
  {
    var m: nat := if n < 0 then -n else n;
    var digits := Digits(m, 10);
    DigitRunThenStop(digits, rest);
    RadixValueOfDigits(m, 10);
    var s := (if n < 0 then "-" else "") + (digits + rest);
    assert DecimalString(n) + rest == s;
    ParseIntOfDigits(digits, rest, n < 0);
  }

  /** parseInt on an optional minus sign, a run of decimal digits and a non-digit. */
  lemma ParseIntOfDigits(digits: string, rest: string, negative: bool)
    requires digits != [] && AllDigitsOf(digits, 10)
    requires rest != [] && rest[0] != 'x' && rest[0] != 'X'
    requires DigitPrefix(digits + rest, 10) == digits
    ensures var v: int := RadixValue(digits, 10);
      ParseInt((if negative then "-" else "") + (digits + rest)) == Finite(if negative then -v else v)
  {
    var u := digits + rest;
    var s := (if negative then "-" else "") + u;
    ParseUnsignedOfDigits(digits, rest);
    NoLeadingSpace(s);
    if negative {
      assert s[0] == '-' && s[1..] == u;
    } else {
      assert s == u;
      assert IsDigitOf(s[0], 10);
    }
  }

  lemma NoLeadingSpace(s: string)
    requires s != [] && !IsJsSpace(s[0])
    ensures DropLeadingJsSpace(s) == s
  {
  }

  lemma ParseUnsignedOfDigits(digits: string, rest: string)
    requires digits != [] && AllDigitsOf(digits, 10)
    requires rest != [] && rest[0] != 'x' && rest[0] != 'X'
    requires DigitPrefix(digits + rest, 10) == digits
    ensures ParseUnsigned(digits + rest) == Finite(RadixValue(digits, 10))
  {
    var u := digits + rest;
    assert !(|u| >= 2 && u[0] == '0' && (u[1] == 'x' || u[1] == 'X')) by {
      if |digits| >= 2 {
        assert u[1] == digits[1] && IsDigitOf(digits[1], 10);
      } else {
        assert u[1] == rest[0];
      }
    }
  }

  lemma DigitRunThenStop(digits: string, rest: string)
    requires digits != [] && AllDigitsOf(digits, 10)
    requires rest != [] && !IsDigitOf(rest[0], 10)
    ensures DigitPrefix(digits + rest, 10) == digits
  {
    var w := digits + rest;
    var p := DigitPrefix(w, 10);
    assert forall i :: 0 <= i < |digits| ==> IsDigitOf(w[i], 10);
    assert !IsDigitOf(w[|digits|], 10);
    assert p == w[..|digits|];
  }

  /** Multiplies a parseInt result by a whole number, NaN staying NaN. */
  function Scale(n: JsNumber, k: int): (r: JsNumber)
    ensures r.NaN? <==> n.NaN?
  {
    if n.NaN? then NaN else Finite(n.value * k)
  }

  /** timeFrameToMilliseconds: `Nm` is N minutes, `Nh` is N hours, any other ending throws. */
  function TimeFrameToMilliseconds(tf: string): (r: Result<JsNumber, AggregationError>)
    ensures r.Err? <==> tf == [] || (tf[|tf| - 1] != 'm' && tf[|tf| - 1] != 'h')
    ensures r.Err? ==> r.error == UnsupportedTimeFrame
  {
    if tf != [] && tf[|tf| - 1] == 'm' then Ok(Scale(ParseInt(tf), MsPerMinute))
    else if tf != [] && tf[|tf| - 1] == 'h' then Ok(Scale(ParseInt(tf), MsPerHour))
    else Err(UnsupportedTimeFrame)
  }

  /** `"Nm"` is N * 60000 milliseconds, for every integer N. */
  lemma TimeFrameMinutes(n: int)
    ensures TimeFrameToMilliseconds(DecimalString(n) + "m") == Ok(Finite(n * 60000))
  {
    ParseIntOfDecimal(n, "m");
  }

  /** `"Nh"` is N * 3600000 milliseconds, for every integer N. */
  lemma TimeFrameHours(n: int)
    ensures TimeFrameToMilliseconds(DecimalString(n) + "h") == Ok(Finite(n * 3600000))
  {
    ParseIntOfDecimal(n, "h");
  }

  // ---------------------------------------------------------------------
  // Window selection and the reduce of the JavaScript code

  /** `WHERE sensorId = ? AND timestamp >= ?`, in table order. */
  function Since(rs: seq<Reading>, id: string, start: int): (r: seq<Reading>)
    ensures forall x :: x in r <==> x in rs && x.sensorId == id && start <= x.timestamp
  {
    if rs == [] then []
    else
      var x := rs[|rs| - 1];
      assert rs == rs[..|rs| - 1] + [x];
      Since(rs[..|rs| - 1], id, start) + (if x.sensorId == id && start <= x.timestamp then [x] else [])
  }

  /** `WHERE sensorId = ? AND timestamp > ? AND timestamp <= ?`, in table order. */
  function Between(rs: seq<Reading>, id: string, lo: int, hi: int): (r: seq<Reading>)
    ensures forall x :: x in r <==> x in rs && x.sensorId == id && lo < x.timestamp <= hi
  {
    if rs == [] then []
    else
      var x := rs[|rs| - 1];
      assert rs == rs[..|rs| - 1] + [x];
      Between(rs[..|rs| - 1], id, lo, hi) + (if x.sensorId == id && lo < x.timestamp <= hi then [x] else [])
  }

  /**
   * `rows.reduce((sum, r) => sum + r.x, 0) / rows.length`: a NULL value
   * adds nothing to the sum but still counts in the length.
   */
  function ReduceMean(vs: seq<Option<real>>): real
    requires vs != []
  {
    SumPresent(vs) / |vs| as real
  }

  /** The mean of a column does not depend on the order of the rows. */
  lemma ReduceMeanPermutation(a: seq<Reading>, b: seq<Reading>, m: Measure)
    requires multiset(a) == multiset(b) && a != []
    ensures |b| == |a| && Column(b, m) != []
    ensures ReduceMean(Column(a, m)) == ReduceMean(Column(b, m))
  {
    assert |a| == |multiset(a)| == |multiset(b)| == |b|;
    SumPresentPermutation(a, b, m);
  }

  /**
   * A NULL among the rows lowers the mean: it adds nothing to the sum but
   * still counts in the divisor, whereas SQL AVG skips it altogether.
   */
  lemma ReduceMeanCountsNull(vs: seq<Option<real>>)
    ensures SumPresent(vs + [None]) == SumPresent(vs)
    ensures ReduceMean(vs + [None]) == SumPresent(vs) / (|vs| + 1) as real
    ensures SqlAvg(vs + [None]) == SqlAvg(vs)
  {
    assert (vs + [None])[..|vs|] == vs;
  }

  /** Without NULLs the reduce mean is SQL AVG. */
  lemma ReduceMeanIsAvgWithoutNull(vs: seq<Option<real>>)
    requires vs != [] && forall i :: 0 <= i < |vs| ==> vs[i].Some?
    ensures SqlAvg(vs) == Some(ReduceMean(vs))
  {
    CountAllPresent(vs);
  }

  lemma {:induction false} CountAllPresent(vs: seq<Option<real>>)
    requires forall i :: 0 <= i < |vs| ==> vs[i].Some?
    ensures CountPresent(vs) == |vs|
    decreases |vs|
  {
    if vs != [] {
      CountAllPresent(vs[..|vs| - 1]);
    }
  }

  /** A row is the newest of a set of rows. */
  ghost predicate IsNewestOf(x: Reading, rs: seq<Reading>)
  {
    x in rs && forall y :: y in rs ==> y.timestamp <= x.timestamp
  }

  // ---------------------------------------------------------------------
  // aggregateSensorData

  /** What aggregateSensorData resolves to when the window holds readings. */
  datatype WindowAggregate = WindowAggregate(
    sensorId: string,
    timeFrame: string,
    lastReading: Sample,
    avgTemperature: real,
    avgHumidity: real,
    aggregationTime: int)

  /** The rows of the window query, newest first. */
  function WindowRows(t: Tables, id: string, start: int): seq<Reading>
  {
    OrderByTimestamp(Since(t.readings, id, start), Descending)
  }

  /**
   * The instant `now - ms` the window starts at, or the error thrown on the
   * way: timeFrameToMilliseconds throws for an unsupported suffix, and
   * toISOString throws for a NaN or out-of-range start.
   */
  function WindowStart(tf: string, now: int): (r: Result<int, AggregationError>)
    ensures r.Ok? ==> ValidTime(r.value)
  {
    match TimeFrameToMilliseconds(tf)
    case Err(e) => Err(e)
    case Ok(ms) =>
      if ms.NaN? || !ValidTime(now - ms.value) then Err(InvalidTimeValue)
      else Ok(now - ms.value)
  }

  /**
   * aggregateSensorData(id, tf) at time `now`: the new tables and the
   * result (None for the JavaScript `null`), or the error thrown.
   */
  function AggregateFixed(t: Tables, id: string, tf: string, now: int)
    : (Tables, Result<Option<WindowAggregate>, AggregationError>)
  {
    match WindowStart(tf, now)
    case Err(e) => (t, Err(e))
    case Ok(start) => AggregateWindow(t, id, tf, now, WindowRows(t, id, start))
  }

  /** The part of aggregateSensorData after the window query returned `rows`. */
  function AggregateWindow(t: Tables, id: string, tf: string, now: int, rows: seq<Reading>)
    : (Tables, Result<Option<WindowAggregate>, AggregationError>)
  {
    if rows == [] then (t, Ok(None))
    else
      var last := SampleOf(rows[0]);
      var avgT := ReduceMean(Column(rows, Temperature));
      var avgH := ReduceMean(Column(rows, Humidity));
      var row := AggregateRow(id, tf, last.timestamp, last.temperature, last.humidity, Some(avgT), Some(avgH), now);
      (t.(aggregated := t.aggregated + [row]), Ok(Some(WindowAggregate(id, tf, last, avgT, avgH, now))))
  }

  /** A window token `Nm`/`Nh` whose start is a valid time starts the window `ms` before `now`. */
  lemma WindowStartOfFrame(tf: string, now: int, ms: int)
    requires TimeFrameToMilliseconds(tf) == Ok(Finite(ms)) && ValidTime(now - ms)
    ensures WindowStart(tf, now) == Ok(now - ms)
  {
  }

  /** A time frame that is not `...m` or `...h`, or that parses to NaN or too far back, throws and changes nothing. */
  lemma AggregateFixedErrors(t: Tables, id: string, tf: string, now: int)
    ensures var ms := TimeFrameToMilliseconds(tf);
      && (ms.Err? ==> AggregateFixed(t, id, tf, now) == (t, Err(UnsupportedTimeFrame)))
      && (ms.Ok? && (ms.value.NaN? || !ValidTime(now - ms.value.value)) ==>
            AggregateFixed(t, id, tf, now) == (t, Err(InvalidTimeValue)))
  {
  }

  /** When no reading of the sensor is at or after the window start, the result is null and nothing is written. */
  lemma AggregateFixedEmptyWindow(t: Tables, id: string, tf: string, now: int, start: int)
    requires WindowStart(tf, now) == Ok(start)
    requires Since(t.readings, id, start) == []
    ensures AggregateFixed(t, id, tf, now) == (t, Ok(None))
  {
    assert |WindowRows(t, id, start)| == 0;
  }

  /**
   * When some reading of the sensor is at or after the window start,
   * exactly one row labelled `tf` is appended, carrying the newest reading
   * of the window and the reduce means over the whole window, and the other
   * tables do not change.
   */
  lemma AggregateFixedContract(t: Tables, id: string, tf: string, now: int, start: int)
    requires WindowStart(tf, now) == Ok(start)
    requires Since(t.readings, id, start) != []
    ensures var (t', r) := AggregateFixed(t, id, tf, now);
      var window := Since(t.readings, id, start);
      && r.Ok? && r.value.Some?
      && var a := r.value.value;
      && a.sensorId == id && a.timeFrame == tf && a.aggregationTime == now
      && (exists x :: IsNewestOf(x, window) && SampleOf(x) == a.lastReading)
      && a.avgTemperature == ReduceMean(Column(window, Temperature))
      && a.avgHumidity == ReduceMean(Column(window, Humidity))
      && t' == t.(aggregated := t.aggregated + [AggregateRow(id, tf,
           a.lastReading.timestamp, a.lastReading.temperature, a.lastReading.humidity,
           Some(a.avgTemperature), Some(a.avgHumidity), now)])
  {
    var window := Since(t.readings, id, start);
    var rows := WindowRows(t, id, start);
    assert |rows| == |window|;
    NewestIsLatest(window);
    assert IsNewestOf(rows[0], window);
    ReduceMeanPermutation(rows, window, Temperature);
    ReduceMeanPermutation(rows, window, Humidity);
  }

  // ---------------------------------------------------------------------
  // getLastAggregatedAt / updateLastAggregatedAt

  /** getLastAggregatedAt: the stored checkpoint, None when there is no row. */
  function LastAggregatedAt(t: Tables, id: string): (r: Option<int>)
    ensures r.Some? <==> id in t.aggregatorState
    ensures r.Some? ==> r.value == t.aggregatorState[id]
  {
    if id in t.aggregatorState then Some(t.aggregatorState[id]) else None
  }

  /** updateLastAggregatedAt: the upsert of one aggregator_state row. */
  function SetCheckpoint(t: Tables, id: string, at: int): (t': Tables)
    ensures t'.readings == t.readings && t'.metadata == t.metadata && t'.aggregated == t.aggregated
    ensures LastAggregatedAt(t', id) == Some(at)
    ensures forall other :: other != id ==> LastAggregatedAt(t', other) == LastAggregatedAt(t, other)
  {
    t.(aggregatorState := t.aggregatorState[id := at])
  }

  // ---------------------------------------------------------------------
  // aggregateSensorDataCheckpoint

  /** The time frame a call without `selectedTimeFrame` records. */
  const DefaultCheckpointFrame: string := "checkpoint"

  /** The two messages of a run that finds no new reading. */
  const DuplicateInserted: string := "Nenhuma leitura nova; registro duplicado inserido."
  const NothingNew: string := "Nenhuma leitura nova"

  /** What aggregateSensorDataCheckpoint resolves to. */
  datatype CheckpointOutcome =
    | NoNewReadings(sensorId: string, message: string, timeFrame: string)
    | Aggregated(
        sensorId: string,
        lastReading: Sample,
        avgTemperature: real,
        avgHumidity: real,
        aggregationTime: int,
        timeFrame: string)

  /**
   * The exclusive lower bound of the scan: the epoch when there is no
   * checkpoint, otherwise one second after it (an instant past the last
   * valid time throws).
   */
  function CheckpointStart(t: Tables, id: string): (r: Result<int, AggregationError>)
    ensures id !in t.aggregatorState ==> r == Ok(0)
    ensures id in t.aggregatorState ==>
      r == if ValidTime(t.aggregatorState[id] + 1000) then Ok(t.aggregatorState[id] + 1000) else Err(InvalidTimeValue)
  {
    match LastAggregatedAt(t, id)
    case None => Ok(0)
    case Some(cp) => if ValidTime(cp + MsPerSecond) then Ok(cp + MsPerSecond) else Err(InvalidTimeValue)
  }

  /** The rows of the checkpoint scan, oldest first. */
  function CheckpointRows(t: Tables, id: string, lo: int, now: int): seq<Reading>
  {
    OrderByTimestamp(Between(t.readings, id, lo, now), Ascending)
  }

  /** aggregateSensorDataCheckpoint(id, frame) at time `now`. */
  function AggregateCheckpoint(t: Tables, id: string, frame: string, now: int)
    : (Tables, Result<CheckpointOutcome, AggregationError>)
  {
    match CheckpointStart(t, id)
    case Err(e) => (t, Err(e))
    case Ok(lo) =>
      var rows := CheckpointRows(t, id, lo, now);
      if rows == [] then
        var mine := OfSensor(t.readings, id);
        var t1 := SetCheckpoint(t, id, now);
        if mine == [] then (t1, Ok(NoNewReadings(id, NothingNew, frame)))
        else
          var last := Newest(mine);
          var row := AggregateRow(id, frame, last.timestamp, last.temperature, last.humidity,
                                  last.temperature, last.humidity, now);
          (t1.(aggregated := t1.aggregated + [row]), Ok(NoNewReadings(id, DuplicateInserted, frame)))
      else
        var last := SampleOf(rows[|rows| - 1]);
        var avgT := ReduceMean(Column(rows, Temperature));
        var avgH := ReduceMean(Column(rows, Humidity));
        var row := AggregateRow(id, frame, last.timestamp, last.temperature, last.humidity, Some(avgT), Some(avgH), now);
        (SetCheckpoint(t.(aggregated := t.aggregated + [row]), id, now), Ok(Aggregated(id, last, avgT, avgH, now, frame)))
  }

  /**
   * The scan selects exactly the sensor's readings after the lower bound and
   * not after `now`, oldest first; with a checkpoint the lower bound is one
   * second past it, so a reading at most one second after the checkpoint is
   * never selected.
   */
  lemma {:induction false} CheckpointSelection(t: Tables, id: string, now: int, lo: int)
    requires CheckpointStart(t, id) == Ok(lo)
    ensures var rows := CheckpointRows(t, id, lo, now);
      && (forall x :: x in rows <==> x in t.readings && x.sensorId == id && lo < x.timestamp <= now)
      && (forall i, j :: 0 <= i < j < |rows| ==> rows[i].timestamp <= rows[j].timestamp)
      && (id !in t.aggregatorState ==> lo == 0)
      && (id in t.aggregatorState ==> lo == t.aggregatorState[id] + 1000)
      && (forall x: Reading :: id in t.aggregatorState && x.timestamp <= t.aggregatorState[id] + 1000 ==> x !in rows)
  {
    var between := Between(t.readings, id, lo, now);
    var rows := CheckpointRows(t, id, lo, now);
    OrderByTimestampSorts(between, Ascending);
    forall x ensures x in rows <==> x in between {
      assert x in rows <==> x in multiset(rows);
    }
    forall i, j | 0 <= i < j < |rows| ensures rows[i].timestamp <= rows[j].timestamp {
      assert Key(rows[i], Ascending) <= Key(rows[j], Ascending);
    }
  }

  /**
   * With new readings: one row labelled `frame` is appended with the last
   * reading of the ascending scan (a newest one of the scan) and the reduce
   * means over the scan, then the checkpoint becomes `now`; readings,
   * metadata and other sensors' checkpoints do not change.
   */
  lemma {:induction false} CheckpointWithNewReadings(t: Tables, id: string, frame: string, now: int, lo: int)
    requires CheckpointStart(t, id) == Ok(lo)
    requires Between(t.readings, id, lo, now) != []
    ensures var (t', r) := AggregateCheckpoint(t, id, frame, now);
      var scan := Between(t.readings, id, lo, now);
      && r.Ok? && r.value.Aggregated?
      && var a := r.value;
      && a.sensorId == id && a.timeFrame == frame && a.aggregationTime == now
      && (exists x :: IsNewestOf(x, scan) && SampleOf(x) == a.lastReading)
      && a.avgTemperature == ReduceMean(Column(scan, Temperature))
      && a.avgHumidity == ReduceMean(Column(scan, Humidity))
      && t'.aggregated == t.aggregated + [AggregateRow(id, frame,
           a.lastReading.timestamp, a.lastReading.temperature, a.lastReading.humidity,
           Some(a.avgTemperature), Some(a.avgHumidity), now)]
      && t'.readings == t.readings && t'.metadata == t.metadata
      && t'.aggregatorState == t.aggregatorState[id := now]
  {
    var scan := Between(t.readings, id, lo, now);
    var rows := CheckpointRows(t, id, lo, now);
    assert |rows| == |scan|;
    OrderByTimestampSorts(scan, Ascending);
    var last := rows[|rows| - 1];
    assert last in multiset(scan);
    forall y | y in scan ensures y.timestamp <= last.timestamp {
      assert y in multiset(rows);
      var j :| 0 <= j < |rows| && rows[j] == y;
      if j < |rows| - 1 {
        assert Key(rows[j], Ascending) <= Key(last, Ascending);
      }
    }
    assert IsNewestOf(last, scan);
    ReduceMeanPermutation(rows, scan, Temperature);
    ReduceMeanPermutation(rows, scan, Humidity);
  }

  /**
   * With no new readings the checkpoint still becomes `now`, even for a
   * sensor with no readings at all; a sentinel row copying the sensor's
   * newest reading into both its last and its mean columns is appended
   * exactly when the sensor has some reading.
   */
  lemma CheckpointWithoutNewReadings(t: Tables, id: string, frame: string, now: int, lo: int)
    requires CheckpointStart(t, id) == Ok(lo)
    requires Between(t.readings, id, lo, now) == []
    ensures var (t', r) := AggregateCheckpoint(t, id, frame, now);
      var mine := OfSensor(t.readings, id);
      && r.Ok? && r.value.NoNewReadings? && r.value.sensorId == id && r.value.timeFrame == frame
      && t'.readings == t.readings && t'.metadata == t.metadata
      && t'.aggregatorState == t.aggregatorState[id := now]
      && (mine == [] ==> r.value.message == NothingNew && t'.aggregated == t.aggregated)
      && (mine != [] ==>
            && r.value.message == DuplicateInserted
            && exists x :: IsNewestOf(x, mine) && t'.aggregated == t.aggregated + [AggregateRow(id, frame,
                 x.timestamp, x.temperature, x.humidity, x.temperature, x.humidity, now)])
  {
    var rows := CheckpointRows(t, id, lo, now);
    assert |rows| == 0;
    var mine := OfSensor(t.readings, id);
    if mine != [] {
      NewestIsLatest(mine);
      assert IsNewestOf(Newest(mine), mine);
    }
  }

  /**
   * Whatever the outcome, a run leaves readings and metadata alone and only
   * appends to sensor_aggregated_data (at most one row); a run that throws
   * changes nothing, and one that returns has set the sensor's checkpoint to
   * `now` and left the other checkpoints alone.
   */
  lemma AggregateCheckpointFrame(t: Tables, id: string, frame: string, now: int)
    ensures var (t', r) := AggregateCheckpoint(t, id, frame, now);
      && t'.readings == t.readings && t'.metadata == t.metadata
      && (r.Err? ==> t' == t)
      && (r.Ok? ==> t'.aggregatorState == t.aggregatorState[id := now])
      && |t.aggregated| <= |t'.aggregated| <= |t.aggregated| + 1
      && t'.aggregated[..|t.aggregated|] == t.aggregated
  {
    match CheckpointStart(t, id)
    case Err(_) =>
    case Ok(lo) =>
      if Between(t.readings, id, lo, now) == [] {
        CheckpointWithoutNewReadings(t, id, frame, now, lo);
      } else {
        CheckpointWithNewReadings(t, id, frame, now, lo);
      }
  }

  /** The checkpoint holds back a reading: it is at most one second after the checkpoint. */
  ghost predicate HeldBack(t: Tables, id: string, x: Reading)
  {
    id in t.aggregatorState && x.timestamp <= t.aggregatorState[id] + 1000
  }

  /**
   * A run at or after the checkpoint does not select a held-back reading,
   * and afterwards the reading is still held back.
   */
  lemma CheckpointGap(t: Tables, id: string, frame: string, now: int, x: Reading)
    requires HeldBack(t, id, x) && now >= t.aggregatorState[id]
    ensures CheckpointStart(t, id).Ok? ==> x !in CheckpointRows(t, id, CheckpointStart(t, id).value, now)
    ensures HeldBack(AggregateCheckpoint(t, id, frame, now).0, id, x)
  {
    AggregateCheckpointFrame(t, id, frame, now);
    if CheckpointStart(t, id).Ok? {
      CheckpointSelection(t, id, now, CheckpointStart(t, id).value);
    }
  }

  /** Runs of the checkpoint aggregation for one sensor, at the given times in order. */
  function CheckpointRuns(t: Tables, id: string, frame: string, nows: seq<int>): (t': Tables)
    ensures t'.readings == t.readings && t'.metadata == t.metadata
    decreases |nows|
  {
    if nows == [] then t
    else
      AggregateCheckpointFrame(t, id, frame, nows[0]);
      CheckpointRuns(AggregateCheckpoint(t, id, frame, nows[0]).0, id, frame, nows[1..])
  }

  /** No run of the sequence selects x. */
  ghost predicate NeverSelected(t: Tables, id: string, frame: string, nows: seq<int>, x: Reading)
    decreases |nows|
  {
    nows != [] ==>
      && (CheckpointStart(t, id).Ok? ==> x !in CheckpointRows(t, id, CheckpointStart(t, id).value, nows[0]))
      && NeverSelected(AggregateCheckpoint(t, id, frame, nows[0]).0, id, frame, nows[1..], x)
  }

  /** The times do not go back, and none is before `start`. */
  ghost predicate NotBefore(nows: seq<int>, start: int)
  {
    && (forall i :: 0 <= i < |nows| ==> start <= nows[i])
    && (forall i, j :: 0 <= i < j < |nows| ==> nows[i] <= nows[j])
  }

  /**
   * A reading at most one second after the checkpoint is never aggregated:
   * no run at non-decreasing times from then on selects it, however many
   * runs there are, and it stays held back after all of them.
   */
  lemma {:induction false} CheckpointGapPersists(t: Tables, id: string, frame: string, nows: seq<int>, x: Reading)
    requires HeldBack(t, id, x) && NotBefore(nows, t.aggregatorState[id])
    ensures NeverSelected(t, id, frame, nows, x)
    ensures HeldBack(CheckpointRuns(t, id, frame, nows), id, x)
    decreases |nows|
  {
    if nows != [] {
      CheckpointGap(t, id, frame, nows[0], x);
      AggregateCheckpointFrame(t, id, frame, nows[0]);
      var t1 := AggregateCheckpoint(t, id, frame, nows[0]).0;
      assert t1.aggregatorState[id] <= nows[0];
      forall i | 0 <= i < |nows[1..]| ensures t1.aggregatorState[id] <= nows[1..][i] {
        assert nows[0] <= nows[i + 1];
      }
      CheckpointGapPersists(t1, id, frame, nows[1..], x);
    }
  }
}
