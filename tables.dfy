/**
 * The four SQLite tables of db/storage.js as one value, and the SELECT
 * queries over them. Timestamps are integer milliseconds; temperature and
 * humidity are nullable reals. Rows that ORDER BY ranks equal keep their
 * insertion order (SQLite leaves that order unspecified).
 */
module Tables {
  import opened Wrappers

  /** A row of sensor_readings. */
  datatype Reading = Reading(
    sensorId: string,
    timestamp: int,
    temperature: Option<real>,
    humidity: Option<real>,
    rawHex: Option<string>)

  /** The columns `timestamp, temperature, humidity` of a reading. */
  datatype Sample = Sample(timestamp: int, temperature: Option<real>, humidity: Option<real>)

  /** A row of sensor_aggregated_data. */
  datatype AggregateRow = AggregateRow(
    sensorId: string,
    timeFrame: string,
    lastTimestamp: int,
    lastTemperature: Option<real>,
    lastHumidity: Option<real>,
    meanTemperature: Option<real>,
    meanHumidity: Option<real>,
    aggregationTime: int)

  /**
   * The database: sensor_readings and sensor_aggregated_data are append-only
   * sequences; sensor_metadata (sensorId -> name) and aggregator_state
   * (sensorId -> lastAggregatedAt) are keyed by their primary key.
   */
  datatype Tables = Tables(
    readings: seq<Reading>,
    metadata: map<string, string>,
    aggregated: seq<AggregateRow>,
    aggregatorState: map<string, int>)

  function SampleOf(r: Reading): Sample
  {
    Sample(r.timestamp, r.temperature, r.humidity)
  }

  function Samples(rs: seq<Reading>): (ss: seq<Sample>)
    ensures |ss| == |rs|
    ensures forall i :: 0 <= i < |rs| ==> ss[i] == SampleOf(rs[i])
  {
    seq(|rs|, i requires 0 <= i < |rs| => SampleOf(rs[i]))
  }

  // ---------------------------------------------------------------------
  // ORDER BY timestamp

  datatype Direction = Ascending | Descending

  /** The sort key: ascending order sorts on the timestamp, descending on its negation. */
  function Key(r: Reading, dir: Direction): int
  {
    if dir == Ascending then r.timestamp else -r.timestamp
  }

  predicate SortedBy(s: seq<Reading>, dir: Direction)
  {
    forall i, j :: 0 <= i < j < |s| ==> Key(s[i], dir) <= Key(s[j], dir)
  }

  /** Every key in s is at least b. */
  predicate KeysAtLeast(s: seq<Reading>, b: int, dir: Direction)
  {
    forall i :: 0 <= i < |s| ==> b <= Key(s[i], dir)
  }

  /** Inserts x after every element whose key is not greater than its own. */
  function InsertSorted(x: Reading, s: seq<Reading>, dir: Direction): (r: seq<Reading>)
    ensures |r| == |s| + 1
    ensures multiset(r) == multiset(s) + multiset{x}
  {
    if s == [] then [x]
    else if Key(x, dir) < Key(s[0], dir) then [x] + s
    else
      assert s == [s[0]] + s[1..];
      [s[0]] + InsertSorted(x, s[1..], dir)
  }

  /** A lower bound on the keys of s and of x bounds the keys after the insertion. */
  lemma {:induction false} InsertSortedLowerBound(x: Reading, s: seq<Reading>, dir: Direction, b: int)
    requires KeysAtLeast(s, b, dir) && b <= Key(x, dir)
    ensures KeysAtLeast(InsertSorted(x, s, dir), b, dir)
  {
    if s != [] && Key(s[0], dir) <= Key(x, dir) {
      InsertSortedLowerBound(x, s[1..], dir, b);
      var tail := InsertSorted(x, s[1..], dir);
      assert forall i :: 1 <= i < |tail| + 1 ==> ([s[0]] + tail)[i] == tail[i - 1];
    }
  }

  lemma {:induction false} InsertSortedKeepsOrder(x: Reading, s: seq<Reading>, dir: Direction)
    requires SortedBy(s, dir)
    ensures SortedBy(InsertSorted(x, s, dir), dir)
  {
    if s != [] && Key(s[0], dir) <= Key(x, dir) {
      var tail := InsertSorted(x, s[1..], dir);
      InsertSortedKeepsOrder(x, s[1..], dir);
      assert KeysAtLeast(s[1..], Key(s[0], dir), dir);
      InsertSortedLowerBound(x, s[1..], dir, Key(s[0], dir));
      var r := [s[0]] + tail;
      forall i, j | 0 <= i < j < |r| ensures Key(r[i], dir) <= Key(r[j], dir) {
        if i > 0 {
          assert r[i] == tail[i - 1] && r[j] == tail[j - 1];
        } else {
          assert r[j] == tail[j - 1];
        }
      }
    }
  }

  /** `ORDER BY timestamp ASC|DESC`, ties kept in table order. */
  function OrderByTimestamp(s: seq<Reading>, dir: Direction): (r: seq<Reading>)
    ensures multiset(r) == multiset(s)
    ensures |r| == |s|
  {
    if s == [] then []
    else
      assert s == s[..|s| - 1] + [s[|s| - 1]];
      InsertSorted(s[|s| - 1], OrderByTimestamp(s[..|s| - 1], dir), dir)
  }

  lemma {:induction false} OrderByTimestampSorts(s: seq<Reading>, dir: Direction)
    ensures SortedBy(OrderByTimestamp(s, dir), dir)
  {
    if s != [] {
      OrderByTimestampSorts(s[..|s| - 1], dir);
      InsertSortedKeepsOrder(s[|s| - 1], OrderByTimestamp(s[..|s| - 1], dir), dir);
    }
  }

  /** `LIMIT n`; SQLite reads a negative limit as "no limit". */
  function Limit<T>(s: seq<T>, n: int): (r: seq<T>)
    ensures |r| == if 0 <= n < |s| then n else |s|
    ensures r == s[..|r|]
  {
    if 0 <= n < |s| then s[..n] else s
  }

  // ---------------------------------------------------------------------
  // WHERE sensorId = ?

  /** The readings of one sensor, in table order. */
  function OfSensor(rs: seq<Reading>, id: string): (r: seq<Reading>)
    ensures forall k :: 0 <= k < |r| ==> r[k].sensorId == id && r[k] in rs
    ensures forall x :: x in rs && x.sensorId == id ==> x in r
    ensures |r| <= |rs|
  {
    if rs == [] then []
    else
      var front := OfSensor(rs[..|rs| - 1], id);
      assert forall x :: x in rs ==> x in rs[..|rs| - 1] || x == rs[|rs| - 1];
      if rs[|rs| - 1].sensorId == id then front + [rs[|rs| - 1]] else front
  }

  /**
   * The filter keeps a row exactly when it belongs to the sensor, and it
   * distributes over concatenation, so it keeps the sensor's rows in table
   * order, each as often as it occurs.
   */
  lemma {:induction false} OfSensorAppend(a: seq<Reading>, b: seq<Reading>, id: string)
    ensures OfSensor(a + b, id) == OfSensor(a, id) + OfSensor(b, id)
    ensures forall x :: OfSensor([x], id) == if x.sensorId == id then [x] else []
    decreases |b|
  {
    forall x
      ensures OfSensor([x], id) == if x.sensorId == id then [x] else []
    {
      assert [x][..0] == [];
    }
    if b == [] {
      assert a + b == a;
    } else {
      var n := |b| - 1;
      assert (a + b)[..|a + b| - 1] == a + b[..n];
      assert (a + b)[|a + b| - 1] == b[n];
      OfSensorAppend(a, b[..n], id);
    }
  }

  // ---------------------------------------------------------------------
  // getSensorHistory

  /** The limit of a getSensorHistory call that gives none. */
  const DefaultHistoryLimit: int := 500

  /** The readings getSensorHistory returns, before projection. */
  function HistoryReadings(t: Tables, id: string, limit: int): seq<Reading>
  {
    Limit(OrderByTimestamp(OfSensor(t.readings, id), Descending), limit)
  }

  /** `SELECT timestamp, temperature, humidity ... WHERE sensorId = ? ORDER BY timestamp DESC LIMIT ?`. */
  function SensorHistory(t: Tables, id: string, limit: int): seq<Sample>
  {
    Samples(HistoryReadings(t, id, limit))
  }

  /**
   * getSensorHistory returns only readings of that sensor, newest first, at
   * most `limit` of them (all of them for a negative limit), and no reading
   * of the sensor that it leaves out is newer than one it returns.
   */
  lemma {:induction false} SensorHistoryContract(t: Tables, id: string, limit: int)
    ensures var h := HistoryReadings(t, id, limit);
      && SensorHistory(t, id, limit) == Samples(h)
      && |h| == (if 0 <= limit < |OfSensor(t.readings, id)| then limit else |OfSensor(t.readings, id)|)
      && (forall k :: 0 <= k < |h| ==> h[k] in t.readings && h[k].sensorId == id)
      && (forall i, j :: 0 <= i < j < |h| ==> h[i].timestamp >= h[j].timestamp)
      && (forall x, k :: x in t.readings && x.sensorId == id && x !in h && 0 <= k < |h| ==> x.timestamp <= h[k].timestamp)
  {
    var mine := OfSensor(t.readings, id);
    var sorted := OrderByTimestamp(mine, Descending);
    var h := Limit(sorted, limit);
    OrderByTimestampSorts(mine, Descending);
    forall k | 0 <= k < |h| ensures h[k] in t.readings && h[k].sensorId == id {
      assert h[k] == sorted[k];
      assert sorted[k] in multiset(mine);
    }
    forall x, k | x in t.readings && x.sensorId == id && x !in h && 0 <= k < |h|
      ensures x.timestamp <= h[k].timestamp
    {
      assert x in multiset(sorted);
      LeftOutIsNotNewer(sorted, |h|, x, k);
    }
  }

  /** In a newest-first order, an element past the first n is no newer than any of them. */
  lemma LeftOutIsNotNewer(sorted: seq<Reading>, n: nat, x: Reading, k: nat)
    requires SortedBy(sorted, Descending) && n <= |sorted| && k < n
    requires x in sorted && x !in sorted[..n]
    ensures x.timestamp <= sorted[k].timestamp
  {
    var j :| 0 <= j < |sorted| && sorted[j] == x;
    assert forall i :: 0 <= i < n ==> sorted[..n][i] == sorted[i];
    assert Key(sorted[k], Descending) <= Key(sorted[j], Descending);
  }

  // ---------------------------------------------------------------------
  // getRecentReadings

  /** A row of getRecentReadings: the reading with its sensor's name (NULL when unset). */
  datatype RecentRow = RecentRow(
    sensorId: string, timestamp: int, temperature: Option<real>, humidity: Option<real>, sensorName: Option<string>)

  function NameOf(t: Tables, id: string): Option<string>
  {
    if id in t.metadata then Some(t.metadata[id]) else None
  }

  /** The limit of a getRecentReadings call that gives none. */
  const DefaultRecentLimit: int := 50

  function RecentReadingsOf(t: Tables, limit: int): seq<Reading>
  {
    Limit(OrderByTimestamp(t.readings, Descending), limit)
  }

  /** `SELECT ... FROM sensor_readings LEFT JOIN sensor_metadata ... ORDER BY timestamp DESC LIMIT ?`. */
  function RecentReadings(t: Tables, limit: int): (r: seq<RecentRow>)
    ensures |r| == |RecentReadingsOf(t, limit)|
  {
    var rs := RecentReadingsOf(t, limit);
    seq(|rs|, i requires 0 <= i < |rs| =>
      RecentRow(rs[i].sensorId, rs[i].timestamp, rs[i].temperature, rs[i].humidity, NameOf(t, rs[i].sensorId)))
  }

  /**
   * getRecentReadings returns at most `limit` readings of any sensor, newest
   * first, each joined with its sensor's current name, and leaves out no
   * reading newer than one it returns.
   */
  lemma {:induction false} RecentReadingsContract(t: Tables, limit: int)
    ensures var r := RecentReadings(t, limit);
      && |r| == (if 0 <= limit < |t.readings| then limit else |t.readings|)
      && (forall i, j :: 0 <= i < j < |r| ==> r[i].timestamp >= r[j].timestamp)
      && (forall k :: 0 <= k < |r| ==>
            exists x :: x in t.readings && x.sensorId == r[k].sensorId && x.timestamp == r[k].timestamp
                        && x.temperature == r[k].temperature && x.humidity == r[k].humidity)
      && (forall k :: 0 <= k < |r| ==> r[k].sensorName == NameOf(t, r[k].sensorId))
      && (forall x, k :: x in t.readings && x !in RecentReadingsOf(t, limit) && 0 <= k < |r| ==> x.timestamp <= r[k].timestamp)
  {
    var sorted := OrderByTimestamp(t.readings, Descending);
    var rs := RecentReadingsOf(t, limit);
    var r := RecentReadings(t, limit);
    OrderByTimestampSorts(t.readings, Descending);
    forall k | 0 <= k < |r|
      ensures exists x :: x in t.readings && x.sensorId == r[k].sensorId && x.timestamp == r[k].timestamp
                          && x.temperature == r[k].temperature && x.humidity == r[k].humidity
    {
      assert rs[k] == sorted[k];
      assert sorted[k] in multiset(t.readings);
    }
    forall i, j | 0 <= i < j < |r| ensures r[i].timestamp >= r[j].timestamp {
      assert Key(sorted[i], Descending) <= Key(sorted[j], Descending);
    }
    forall x, k | x in t.readings && x !in rs && 0 <= k < |r| ensures x.timestamp <= r[k].timestamp {
      assert x in multiset(sorted);
      var j :| 0 <= j < |sorted| && sorted[j] == x;
      forall i | 0 <= i < |rs| ensures sorted[i] != x {
        assert rs[i] == sorted[i];
      }
      assert Key(sorted[k], Descending) <= Key(sorted[j], Descending);
    }
  }

  // ---------------------------------------------------------------------
  // getSummaryPerDevice

  /** Sum of the values, a NULL adding nothing (SQL SUM, and `sum + null` in JavaScript). */
  function SumPresent(vs: seq<Option<real>>): real
  {
    if vs == [] then 0.0
    else SumPresent(vs[..|vs| - 1]) + (if vs[|vs| - 1].Some? then vs[|vs| - 1].value else 0.0)
  }

  /** How many values are not NULL. */
  function CountPresent(vs: seq<Option<real>>): (n: nat)
    ensures n <= |vs|
  {
    if vs == [] then 0 else CountPresent(vs[..|vs| - 1]) + (if vs[|vs| - 1].Some? then 1 else 0)
  }

  /** SQL AVG: the mean of the non-NULL values, NULL when there are none. */
  function SqlAvg(vs: seq<Option<real>>): Option<real>
  {
    var n := CountPresent(vs);
    if n == 0 then None else Some(SumPresent(vs) / n as real)
  }

  /** The two measured columns. */
  datatype Measure = Temperature | Humidity

  function Measured(r: Reading, m: Measure): Option<real>
  {
    if m == Temperature then r.temperature else r.humidity
  }

  /** One measured column of the rows, in row order. */
  function Column(rs: seq<Reading>, m: Measure): (vs: seq<Option<real>>)
    ensures |vs| == |rs| && forall i :: 0 <= i < |rs| ==> vs[i] == Measured(rs[i], m)
  {
    seq(|rs|, i requires 0 <= i < |rs| => Measured(rs[i], m))
  }

  lemma {:induction false} SumPresentAppend(u: seq<Option<real>>, v: seq<Option<real>>)
    ensures SumPresent(u + v) == SumPresent(u) + SumPresent(v)
    decreases |v|
  {
    if v != [] {
      var w := u + v;
      assert w[..|w| - 1] == u + v[..|v| - 1];
      assert w[|w| - 1] == v[|v| - 1];
      SumPresentAppend(u, v[..|v| - 1]);
    } else {
      assert u + v == u;
    }
  }

  /** Taking row j out of a column takes its value out of the sum. */
  lemma SumPresentRemove(b: seq<Reading>, j: nat, m: Measure)
    requires j < |b|
    ensures var x := Measured(b[j], m);
      SumPresent(Column(b, m)) == SumPresent(Column(b[..j] + b[j + 1..], m)) + (if x.Some? then x.value else 0.0)
  {
    var vs := Column(b, m);
    ColumnRemove(b, j, m);
    SumPresentRemoveAt(vs, j);
  }

  lemma ColumnRemove(b: seq<Reading>, j: nat, m: Measure)
    requires j < |b|
    ensures Column(b[..j] + b[j + 1..], m) == Column(b, m)[..j] + Column(b, m)[j + 1..]
  {
    var c, vs := b[..j] + b[j + 1..], Column(b, m);
    assert forall i :: 0 <= i < j ==> c[i] == b[i];
    assert forall i :: j <= i < |c| ==> c[i] == b[i + 1];
  }

  lemma SumPresentRemoveAt(vs: seq<Option<real>>, j: nat)
    requires j < |vs|
    ensures SumPresent(vs) == SumPresent(vs[..j] + vs[j + 1..]) + (if vs[j].Some? then vs[j].value else 0.0)
  {
    var front, x, back := vs[..j], vs[j], vs[j + 1..];
    SplitAt(vs, j);
    SumPresentAppend(front + [x], back);
    SumPresentAppend(front, back);
    SumPresentSnoc(front, x);
  }

  lemma SplitAt<T>(s: seq<T>, j: nat)
    requires j < |s|
    ensures s == (s[..j] + [s[j]]) + s[j + 1..]
  {
  }

  lemma SumPresentSnoc(u: seq<Option<real>>, x: Option<real>)
    ensures SumPresent(u + [x]) == SumPresent(u) + (if x.Some? then x.value else 0.0)
  {
    assert (u + [x])[..|u|] == u;
  }

  /** Removing the same element from two permutations leaves permutations. */
  lemma RemoveMatching<T>(a: seq<T>, b: seq<T>, j: nat)
    requires multiset(a) == multiset(b) && a != [] && j < |b| && b[j] == a[|a| - 1]
    ensures multiset(a[..|a| - 1]) == multiset(b[..j] + b[j + 1..])
  {
    var x := a[|a| - 1];
    assert a == a[..|a| - 1] + [x];
    assert b == b[..j] + [x] + b[j + 1..];
    assert multiset(a[..|a| - 1]) == multiset(a) - multiset{x};
    assert multiset(b[..j] + b[j + 1..]) == multiset(b) - multiset{x};
  }

  lemma IndexOf<T>(b: seq<T>, x: T, ms: multiset<T>) returns (j: nat)
    requires ms == multiset(b) && x in ms
    ensures j < |b| && b[j] == x
  {
    j :| 0 <= j < |b| && b[j] == x;
  }

  /** The sum of a column does not depend on the order of the rows. */
  lemma {:induction false} SumPresentPermutation(a: seq<Reading>, b: seq<Reading>, m: Measure)
    requires multiset(a) == multiset(b)
    ensures SumPresent(Column(a, m)) == SumPresent(Column(b, m))
    decreases |a|
  {
    if a == [] {
      assert |b| == |multiset(b)| == 0;
    } else {
      var n := |a| - 1;
      var x := a[n];
      var j := IndexOf(b, x, multiset(a));
      RemoveMatching(a, b, j);
      SumPresentPermutation(a[..n], b[..j] + b[j + 1..], m);
      SumPresentRemove(b, j, m);
      SumPresentRemove(a, n, m);
      assert a[..n] + a[n + 1..] == a[..n];
    }
  }

  /** `ORDER BY timestamp DESC LIMIT 1`: the first of the newest readings. */
  function Newest(rs: seq<Reading>): Reading
    requires rs != []
  {
    OrderByTimestamp(rs, Descending)[0]
  }

  /** The reading Newest picks is one of the readings, and none is newer. */
  lemma {:induction false} NewestIsLatest(rs: seq<Reading>)
    requires rs != []
    ensures Newest(rs) in rs
    ensures forall x :: x in rs ==> x.timestamp <= Newest(rs).timestamp
  {
    var sorted := OrderByTimestamp(rs, Descending);
    OrderByTimestampSorts(rs, Descending);
    assert sorted[0] in multiset(rs);
    forall x | x in rs ensures x.timestamp <= sorted[0].timestamp {
      assert x in multiset(sorted);
      var j :| 0 <= j < |sorted| && sorted[j] == x;
      if j > 0 {
        assert Key(sorted[0], Descending) <= Key(sorted[j], Descending);
      }
    }
  }

  /** The distinct sensor ids of the readings, in order of first appearance. */
  function SensorIds(rs: seq<Reading>): (ids: seq<string>)
    ensures forall i, j :: 0 <= i < j < |ids| ==> ids[i] != ids[j]
    ensures forall id :: id in ids <==> exists x :: x in rs && x.sensorId == id
  {
    if rs == [] then []
    else
      var front := SensorIds(rs[..|rs| - 1]);
      var last := rs[|rs| - 1];
      assert forall x :: x in rs <==> x in rs[..|rs| - 1] || x == last;
      if last.sensorId in front then front else front + [last.sensorId]
  }

  /** A row of getSummaryPerDevice. */
  datatype SummaryRow = SummaryRow(
    sensorId: string,
    sensorName: Option<string>,
    latest: Sample,
    meanTemperature: Option<real>,
    meanHumidity: Option<real>)

  function SummaryOf(t: Tables, id: string): SummaryRow
  {
    var mine := OfSensor(t.readings, id);
    var latest := if mine == [] then Sample(0, None, None) else SampleOf(Newest(mine));
    SummaryRow(id, NameOf(t, id), latest, SqlAvg(Column(mine, Temperature)), SqlAvg(Column(mine, Humidity)))
  }

  /**
   * `... GROUP BY sensorId`: one row per sensor that has readings, with
   * MAX(timestamp) and the newest reading's values, and AVG over all of the
   * sensor's readings. Rounding to two decimals is not modelled.
   */
  function SummaryPerDevice(t: Tables): seq<SummaryRow>
  {
    var ids := SensorIds(t.readings);
    seq(|ids|, i requires 0 <= i < |ids| => SummaryOf(t, ids[i]))
  }

  /**
   * getSummaryPerDevice has exactly one row per sensor with at least one
   * reading; its `latest` is a reading of that sensor that no reading of it
   * is newer than; its means are the SQL averages over all of the sensor's
   * readings (not a window); its name is the metadata name, NULL if unset.
   */
  lemma {:induction false} SummaryPerDeviceContract(t: Tables)
    ensures var s := SummaryPerDevice(t);
      && (forall i, j :: 0 <= i < j < |s| ==> s[i].sensorId != s[j].sensorId)
      && (forall x :: x in t.readings ==> exists k :: 0 <= k < |s| && s[k].sensorId == x.sensorId)
      && (forall k :: 0 <= k < |s| ==> SummaryRowFaithful(t, s[k]))
  {
    var ids := SensorIds(t.readings);
    var s := SummaryPerDevice(t);
    forall x | x in t.readings ensures exists k :: 0 <= k < |s| && s[k].sensorId == x.sensorId {
      assert x.sensorId in ids;
      var k :| 0 <= k < |ids| && ids[k] == x.sensorId;
      assert s[k].sensorId == x.sensorId;
    }
    forall k | 0 <= k < |s| ensures SummaryRowFaithful(t, s[k]) {
      assert ids[k] in ids;
      SummaryOfSensorWithReadings(t, ids[k]);
    }
  }

  /** What one summary row says about the readings of its sensor. */
  ghost predicate SummaryRowFaithful(t: Tables, row: SummaryRow)
  {
    var mine := OfSensor(t.readings, row.sensorId);
    && mine != []
    && (exists x :: x in mine && SampleOf(x) == row.latest)
    && (forall x :: x in mine ==> x.timestamp <= row.latest.timestamp)
    && row.meanTemperature == SqlAvg(Column(mine, Temperature))
    && row.meanHumidity == SqlAvg(Column(mine, Humidity))
    && row.sensorName == NameOf(t, row.sensorId)
  }

  lemma SummaryOfSensorWithReadings(t: Tables, id: string)
    requires exists x :: x in t.readings && x.sensorId == id
    ensures SummaryRowFaithful(t, SummaryOf(t, id))
  {
    var mine := OfSensor(t.readings, id);
    var x :| x in t.readings && x.sensorId == id;
    assert x in mine;
    NewestIsLatest(mine);
  }

  /**
   * Two readings of one sensor, the second the later and all four values
   * present, summarise to one row: the later reading and the mean of each
   * pair of values.
   */
  lemma SummaryOfTwoReadings(t: Tables, a: Reading, b: Reading)
    requires t.readings == [a, b] && a.sensorId == b.sensorId && a.timestamp < b.timestamp
    requires a.temperature.Some? && b.temperature.Some? && a.humidity.Some? && b.humidity.Some?
    ensures SummaryPerDevice(t) == [SummaryRow(a.sensorId, NameOf(t, a.sensorId), SampleOf(b),
      Some((a.temperature.value + b.temperature.value) / 2.0), Some((a.humidity.value + b.humidity.value) / 2.0))]
  {
    TwoReadingsGroup(a, b);
    MeanOfTwo(a.temperature, b.temperature);
    MeanOfTwo(a.humidity, b.humidity);
  }

  lemma TwoReadingsGroup(a: Reading, b: Reading)
    requires a.sensorId == b.sensorId && a.timestamp < b.timestamp
    ensures SensorIds([a, b]) == [a.sensorId]
    ensures OfSensor([a, b], a.sensorId) == [a, b]
    ensures Newest([a, b]) == b
    ensures Column([a, b], Temperature) == [a.temperature, b.temperature]
    ensures Column([a, b], Humidity) == [a.humidity, b.humidity]
  {
    TwoReadingsIds(a, b);
    TwoReadingsNewest(a, b);
    assert [a, b][..1] == [a] && [a][..0] == [];
    assert Column([a, b], Temperature) == [a.temperature, b.temperature];
    assert Column([a, b], Humidity) == [a.humidity, b.humidity];
  }

  lemma TwoReadingsIds(a: Reading, b: Reading)
    requires a.sensorId == b.sensorId
    ensures SensorIds([a, b]) == [a.sensorId]
    ensures OfSensor([a, b], a.sensorId) == [a, b]
  {
    assert [a, b][..1] == [a] && [a][..0] == [];
    assert SensorIds([a]) == SensorIds([]) + [a.sensorId];
    assert SensorIds([a]) == [a.sensorId];
  }

  lemma TwoReadingsNewest(a: Reading, b: Reading)
    requires a.timestamp < b.timestamp
    ensures Newest([a, b]) == b
  {
    assert [a, b][..1] == [a] && [a][..0] == [];
    assert OrderByTimestamp([a], Descending) == [a];
  }

  lemma MeanOfTwo(x: Option<real>, y: Option<real>)
    requires x.Some? && y.Some?
    ensures SqlAvg([x, y]) == Some((x.value + y.value) / 2.0)
  {
    assert [x, y][..1] == [x] && [x][..0] == [];
    assert CountPresent([x]) == 1 && SumPresent([x]) == x.value;
    assert CountPresent([x, y]) == 2 && SumPresent([x, y]) == x.value + y.value;
  }
}
