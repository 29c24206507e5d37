/**
 * The database module of db/storage.js as an object whose fields are the
 * four tables. Each write operation is a method that changes the fields
 * step by step as the JavaScript does (INSERT appends, ON CONFLICT upserts)
 * and is proved to leave exactly the tables its specification function
 * describes; the read queries are the functions of module Tables applied
 * to `Contents()`.
 */
module Storage {
  import opened Wrappers
  import opened Tables
  import opened Aggregation

  /** Why an INSERT into sensor_readings is rejected. */
  datatype StorageFault =
    | NotNullViolation  // sensorId or timestamp is NULL (NOT NULL columns of db/init.js)
    | DatabaseError     // any other failure of the database, injected by the caller

  /** The argument of insertReading: any column may be missing, rawHex defaults to NULL. */
  datatype NewReading = NewReading(
    sensorId: Option<string>,
    timestamp: Option<int>,
    temperature: Option<real>,
    humidity: Option<real>,
    rawHex: Option<string>)

  /**
   * insertReading: a row with a NULL sensorId or timestamp is rejected, as
   * is any row when the database fails (`fault`); otherwise the row is
   * appended and its AUTOINCREMENT id, one more than the rows so far, is
   * returned. Nothing else changes.
   */
  function InsertReadingSpec(t: Tables, r: NewReading, fault: bool): (Tables, Result<nat, StorageFault>)
  {
    if r.sensorId.None? || r.timestamp.None? then (t, Err(NotNullViolation))
    else if fault then (t, Err(DatabaseError))
    else
      var row := Reading(r.sensorId.value, r.timestamp.value, r.temperature, r.humidity, r.rawHex);
      (t.(readings := t.readings + [row]), Ok(|t.readings| + 1))
  }

  /** An accepted insert appends exactly the given row and returns its position as id; a rejected one changes nothing. */
  lemma InsertReadingContract(t: Tables, r: NewReading, fault: bool)
    ensures var (t', res) := InsertReadingSpec(t, r, fault);
      && (res.Ok? <==> r.sensorId.Some? && r.timestamp.Some? && !fault)
      && (res.Err? ==> t' == t)
      && (res.Err? && (r.sensorId.None? || r.timestamp.None?) ==> res.error == NotNullViolation)
      && (res.Ok? ==>
            && t'.metadata == t.metadata && t'.aggregated == t.aggregated && t'.aggregatorState == t.aggregatorState
            && |t'.readings| == |t.readings| + 1 == res.value
            && t'.readings[..|t.readings|] == t.readings
            && t'.readings[res.value - 1] == Reading(r.sensorId.value, r.timestamp.value, r.temperature, r.humidity, r.rawHex))
  {
    var (t', res) := InsertReadingSpec(t, r, fault);
    if res.Ok? {
      assert t'.readings[..|t.readings|] == t.readings;
    }
  }

  /** setSensorName: the upsert of the sensor's metadata row. */
  function SetName(t: Tables, id: string, name: string): Tables
  {
    t.(metadata := t.metadata[id := name])
  }

  /**
   * After setSensorName the sensor has exactly one name, the new one; every
   * other sensor keeps its name (or its lack of one); the other tables do
   * not change; and setting the same name again changes nothing.
   */
  lemma SetNameContract(t: Tables, id: string, name: string)
    ensures var t' := SetName(t, id, name);
      && NameOf(t', id) == Some(name)
      && (forall other :: other != id ==> NameOf(t', other) == NameOf(t, other))
      && t'.readings == t.readings && t'.aggregated == t.aggregated && t'.aggregatorState == t.aggregatorState
      && SetName(t', id, name) == t'
  {
    var t' := SetName(t, id, name);
    assert t'.metadata[id := name] == t'.metadata;
  }

  /**
   * `rows.reduce((sum, r) => sum + r.x, 0)`: the running sum over one
   * column, a NULL adding nothing.
   */
  method ReduceSum(rows: seq<Reading>, m: Measure) returns (sum: real)
    ensures sum == SumPresent(Column(rows, m))
  {
    sum := 0.0;
    var i := 0;
    while i < |rows|
      invariant 0 <= i <= |rows|
      invariant sum == SumPresent(Column(rows[..i], m))
    {
      var v := Measured(rows[i], m);
      sum := sum + if v.Some? then v.value else 0.0;
      assert Column(rows[..i + 1], m) == Column(rows[..i], m) + [v];
      assert Column(rows[..i + 1], m)[..i] == Column(rows[..i], m);
      i := i + 1;
    }
    assert rows[..i] == rows;
  }

  /** The SQLite database of db/storage.js. */
  class SensorDatabase {
    var readings: seq<Reading>
    var metadata: map<string, string>
    var aggregated: seq<AggregateRow>
    var aggregatorState: map<string, int>

    /** The four tables as one value. */
    function Contents(): Tables
      reads this
    {
      Tables(readings, metadata, aggregated, aggregatorState)
    }

    /** A database with all four tables empty. */
    constructor ()
      ensures Contents() == Tables([], map[], [], map[])
    {
      readings := [];
      metadata := map[];
      aggregated := [];
      aggregatorState := map[];
    }

    /** insertReading: INSERT INTO sensor_readings, resolving to the new row's id. */
    method InsertReading(r: NewReading, fault: bool) returns (res: Result<nat, StorageFault>)
      modifies this
      ensures Contents() == InsertReadingSpec(old(Contents()), r, fault).0
      ensures res == InsertReadingSpec(old(Contents()), r, fault).1
    {
      if r.sensorId.None? || r.timestamp.None? {
        return Err(NotNullViolation);
      }
      if fault {
        return Err(DatabaseError);
      }
      readings := readings + [Reading(r.sensorId.value, r.timestamp.value, r.temperature, r.humidity, r.rawHex)];
      res := Ok(|readings|);
    }

    /** setSensorName: INSERT ... ON CONFLICT(sensorId) DO UPDATE, resolving to true. */
    method SetSensorName(id: string, name: string) returns (ok: bool)
      modifies this
      ensures Contents() == SetName(old(Contents()), id, name)
      ensures ok
    {
      metadata := metadata[id := name];
      ok := true;
    }

    /** updateLastAggregatedAt: INSERT ... ON CONFLICT(sensorId) DO UPDATE on aggregator_state. */
    method UpdateLastAggregatedAt(id: string, at: int) returns (ok: bool)
      modifies this
      ensures Contents() == SetCheckpoint(old(Contents()), id, at)
      ensures ok
    {
      aggregatorState := aggregatorState[id := at];
      ok := true;
    }

    /** INSERT INTO sensor_aggregated_data. */
    method InsertAggregate(row: AggregateRow)
      modifies this
      ensures Contents() == old(Contents()).(aggregated := old(aggregated) + [row])
    {
      aggregated := aggregated + [row];
    }

    /** aggregateSensorData(sensorId, timeFrame) with the clock reading `now`. */
    method AggregateSensorData(id: string, tf: string, now: int)
      returns (res: Result<Option<WindowAggregate>, AggregationError>)
      modifies this
      ensures Contents() == AggregateFixed(old(Contents()), id, tf, now).0
      ensures res == AggregateFixed(old(Contents()), id, tf, now).1
    {
      var start := WindowStart(tf, now);
      if start.Err? {
        return Err(start.error);
      }
      var rows := WindowRows(Contents(), id, start.value);
      if rows == [] {
        return Ok(None);
      }
      var last := SampleOf(rows[0]);
      var sumT := ReduceSum(rows, Temperature);
      var sumH := ReduceSum(rows, Humidity);
      var avgT := sumT / |rows| as real;
      var avgH := sumH / |rows| as real;
      InsertAggregate(AggregateRow(id, tf, last.timestamp, last.temperature, last.humidity, Some(avgT), Some(avgH), now));
      res := Ok(Some(WindowAggregate(id, tf, last, avgT, avgH, now)));
    }

    /** aggregateSensorDataCheckpoint(sensorId, selectedTimeFrame) with the clock reading `now`. */
    method AggregateSensorDataCheckpoint(id: string, frame: string, now: int)
      returns (res: Result<CheckpointOutcome, AggregationError>)
      modifies this
      ensures Contents() == AggregateCheckpoint(old(Contents()), id, frame, now).0
      ensures res == AggregateCheckpoint(old(Contents()), id, frame, now).1
    {
      var start := CheckpointStart(Contents(), id);
      if start.Err? {
        return Err(start.error);
      }
      var rows := CheckpointRows(Contents(), id, start.value, now);
      if rows == [] {
        var mine := OfSensor(readings, id);
        var _ := UpdateLastAggregatedAt(id, now);
        if mine == [] {
          return Ok(NoNewReadings(id, NothingNew, frame));
        }
        var last := Newest(mine);
        InsertAggregate(AggregateRow(id, frame, last.timestamp, last.temperature, last.humidity,
                                     last.temperature, last.humidity, now));
        return Ok(NoNewReadings(id, DuplicateInserted, frame));
      }
      var last := SampleOf(rows[|rows| - 1]);
      var sumT := ReduceSum(rows, Temperature);
      var sumH := ReduceSum(rows, Humidity);
      var avgT := sumT / |rows| as real;
      var avgH := sumH / |rows| as real;
      InsertAggregate(AggregateRow(id, frame, last.timestamp, last.temperature, last.humidity, Some(avgT), Some(avgH), now));
      var _ := UpdateLastAggregatedAt(id, now);
      res := Ok(Aggregated(id, last, avgT, avgH, now, frame));
    }
  }
}
