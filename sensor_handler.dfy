/**
 * handleSensorPacket of services/sensorHandler.js: every MST01 item with a
 * temperature and a humidity is checked against the five-minute duplicate
 * cache under the key `${mac}-${timestamp}` and stored as it came, a failed
 * insert being logged and skipped. The clock that drives the cache's
 * expiry is the parameter `now`; the database's failures are the positions
 * in `failing` of the items whose insert it rejects.
 */
module SensorHandler {
  import opened Wrappers
  import opened Text
  import opened Items
  import opened Tables
  import opened Dedup
  import opened Storage

  /** How long a key stays in the handler's cache: 5 minutes. */
  const HandlerTtl: nat := 5 * 60 * 1000

  /** The items the loop does not skip: `type === 'MST01'`, temperature and humidity not null or undefined. */
  predicate Considered(item: RawItem)
  {
    IsMst01(item) && !IsNullish(item.temperature) && !IsNullish(item.humidity)
  }

  /** getPacketHash: `${sensorId}-${timestamp}`, a missing property written as "undefined" or "null". */
  function PacketHash(mac: Field<string>, timestamp: Field<int>): string
  {
    TemplateString(mac) + "-" + TemplateNumber(timestamp)
  }

  /** The row insertReading is given: mac and timestamp as they came, rawHex NULL. */
  function HandlerRow(item: RawItem): NewReading
  {
    NewReading(ToSql(item.mac), ToSql(item.timestamp), ToSql(item.temperature), ToSql(item.humidity), None)
  }

  /** One pass of the loop body; `fault` says whether the database rejects this item's insert. */
  function Step(cache: map<string, int>, t: Tables, item: RawItem, now: int, fault: bool): (map<string, int>, Tables)
  {
    if !Considered(item) then (cache, t)
    else
      var (c, dup) := Check(cache, PacketHash(item.mac, item.timestamp), now);
      if dup then (cache, t)
      else (c, InsertReadingSpec(t, HandlerRow(item), fault).0)
  }

  /** The loop over the first |items| items of the packet. */
  function Process(cache: map<string, int>, t: Tables, items: seq<RawItem>, now: int, failing: set<nat>)
    : (map<string, int>, Tables)
    decreases |items|
  {
    if items == [] then (cache, t)
    else
      var n := |items| - 1;
      var (c, t') := Process(cache, t, items[..n], now, failing);
      Step(c, t', items[n], now, n in failing)
  }

  /** handleSensorPacket(data): the due expiries, then the loop when `data` is an array. */
  function Handle(cache: map<string, int>, t: Tables, data: Payload, now: int, failing: set<nat>)
    : (map<string, int>, Tables)
  {
    var live := Expired(cache, HandlerTtl, now);
    match data
    case NotAnArray => (live, t)
    case Items(items) => Process(live, t, items, now, failing)
  }

  /** The key under which a stored row was recorded. */
  function RowKey(r: Reading): string
  {
    r.sensorId + "-" + DecimalString(r.timestamp)
  }

  /**
   * What the loop keeps true: only readings are appended, the cache only
   * grows and gains nothing but the keys of considered items, and every row
   * this call stores has a key that was not cached before, is cached now,
   * and belongs to no other row it stores.
   */
  ghost predicate Kept(c0: map<string, int>, t0: Tables, items: seq<RawItem>, c: map<string, int>, t: Tables)
  {
    && t.metadata == t0.metadata && t.aggregated == t0.aggregated && t.aggregatorState == t0.aggregatorState
    && |t0.readings| <= |t.readings| && t.readings[..|t0.readings|] == t0.readings
    && (forall k :: k in c0 ==> k in c && c[k] == c0[k])
    && (forall k :: k in c && k !in c0 ==> exists i :: 0 <= i < |items| && Considered(items[i]) && k == PacketHash(items[i].mac, items[i].timestamp))
    && (forall i :: |t0.readings| <= i < |t.readings| ==> RowKey(t.readings[i]) !in c0 && RowKey(t.readings[i]) in c)
    && (forall i, j :: |t0.readings| <= i < j < |t.readings| ==> RowKey(t.readings[i]) != RowKey(t.readings[j]))
  }

  /** Storing a row under a key not yet cached, and caching that key, keeps what the loop keeps. */
  lemma AppendKept(c0: map<string, int>, t0: Tables, items: seq<RawItem>, c: map<string, int>, t: Tables, row: Reading, at: int)
    requires Kept(c0, t0, items, c, t) && RowKey(row) !in c
    requires exists i :: 0 <= i < |items| && Considered(items[i]) && RowKey(row) == PacketHash(items[i].mac, items[i].timestamp)
    ensures Kept(c0, t0, items, c[RowKey(row) := at], t.(readings := t.readings + [row]))
  {
    var rs := t.readings + [row];
    var n0, n := |t0.readings|, |t.readings|;
    assert rs[..n] == t.readings;
    assert rs[..n0] == t.readings[..n0];
    forall i, j | n0 <= i < j < |rs|
      ensures RowKey(rs[i]) != RowKey(rs[j])
    {
      assert rs[i] == t.readings[i];
      if j < n {
        assert rs[j] == t.readings[j];
      }
    }
  }

  /** Kept, stated for a prefix of the items, holds for every longer prefix. */
  lemma KeptForLonger(c0: map<string, int>, t0: Tables, items: seq<RawItem>, m: nat, c: map<string, int>, t: Tables)
    requires m <= |items| && Kept(c0, t0, items[..m], c, t)
    ensures Kept(c0, t0, items, c, t)
  {
    forall k | k in c && k !in c0
      ensures exists i :: 0 <= i < |items| && Considered(items[i]) && k == PacketHash(items[i].mac, items[i].timestamp)
    {
      var i :| 0 <= i < m && Considered(items[..m][i]) && k == PacketHash(items[..m][i].mac, items[..m][i].timestamp);
      assert items[..m][i] == items[i];
    }
  }

  lemma StepKept(c0: map<string, int>, t0: Tables, items: seq<RawItem>, c: map<string, int>, t: Tables, now: int, fault: bool)
    requires items != [] && Kept(c0, t0, items[..|items| - 1], c, t)
    ensures var (c', t') := Step(c, t, items[|items| - 1], now, fault);
      Kept(c0, t0, items, c', t')
  {
    var n := |items| - 1;
    var item := items[n];
    KeptForLonger(c0, t0, items, n, c, t);
    if Considered(item) {
      var key := PacketHash(item.mac, item.timestamp);
      if key !in c {
        var nr := HandlerRow(item);
        if nr.sensorId.Some? && nr.timestamp.Some? && !fault {
          var row := Reading(item.mac.v, item.timestamp.v, nr.temperature, nr.humidity, None);
          assert RowKey(row) == key;
          assert Step(c, t, item, now, fault) == (c[key := now], t.(readings := t.readings + [row]));
          AppendKept(c0, t0, items, c, t, row, now);
        } else {
          assert Step(c, t, item, now, fault) == (c[key := now], t);
        }
      }
    }
  }

  lemma {:induction false} ProcessKeepsKeysFresh(c0: map<string, int>, t0: Tables, items: seq<RawItem>, now: int, failing: set<nat>)
    ensures var (c, t) := Process(c0, t0, items, now, failing);
      Kept(c0, t0, items, c, t)
    decreases |items|
  {
    if items != [] {
      var n := |items| - 1;
      ProcessKeepsKeysFresh(c0, t0, items[..n], now, failing);
      var (c, t) := Process(c0, t0, items[..n], now, failing);
      StepKept(c0, t0, items, c, t, now, n in failing);
    }
  }

  /** The items that can be stored: considered, with a mac and a timestamp present. */
  predicate Storable(item: RawItem)
  {
    Considered(item) && item.mac.Value? && item.timestamp.Value?
  }

  /** The reading a storable item is stored as: mac, timestamp and values exactly as received, rawHex NULL. */
  function StoredRow(item: RawItem): Reading
    requires item.mac.Value? && item.timestamp.Value?
  {
    Reading(item.mac.v, item.timestamp.v, ToSql(item.temperature), ToSql(item.humidity), None)
  }

  /** The duplicate key of an item. */
  function ItemKey(item: RawItem): string
  {
    PacketHash(item.mac, item.timestamp)
  }

  /**
   * One pass of the loop appends the item's row exactly when the item is
   * storable, its key is not cached and its insert does not fail.
   */
  lemma StepReadings(c: map<string, int>, t: Tables, item: RawItem, now: int, fault: bool)
    ensures var stores := Storable(item) && !fault && ItemKey(item) !in c;
      Step(c, t, item, now, fault).1.readings == if stores then t.readings + [StoredRow(item)] else t.readings
  {
  }

  /** The row is the stored row of a storable item of `items` whose insert did not fail. */
  predicate RowOfItem(row: Reading, items: seq<RawItem>, failing: set<nat>)
  {
    exists j: nat :: j < |items| && Storable(items[j]) && j !in failing && row == StoredRow(items[j])
  }

  /** A row of a prefix of the items is a row of the items. */
  lemma RowOfPrefix(row: Reading, items: seq<RawItem>, n: nat, failing: set<nat>)
    requires n <= |items| && RowOfItem(row, items[..n], failing)
    ensures RowOfItem(row, items, failing)
  {
    var j: nat :| j < n && Storable(items[..n][j]) && j !in failing && row == StoredRow(items[..n][j]);
    assert items[..n][j] == items[j];
  }

  /**
   * The loop only appends, and every row it appends is the row of a
   * storable item whose insert did not fail: the timestamp is stored
   * exactly as it came.
   */
  lemma {:induction false} ProcessRowsFromItems(c0: map<string, int>, t0: Tables, items: seq<RawItem>, now: int, failing: set<nat>)
    ensures var t := Process(c0, t0, items, now, failing).1;
      && |t0.readings| <= |t.readings|
      && t.readings[..|t0.readings|] == t0.readings
      && forall i :: |t0.readings| <= i < |t.readings| ==> RowOfItem(t.readings[i], items, failing)
    decreases |items|
  {
    if items != [] {
      var n := |items| - 1;
      var n0 := |t0.readings|;
      var (c, p) := Process(c0, t0, items[..n], now, failing);
      ProcessRowsFromItems(c0, t0, items[..n], now, failing);
      StepReadings(c, p, items[n], now, n in failing);
      var t := Process(c0, t0, items, now, failing).1;
      assert t == Step(c, p, items[n], now, n in failing).1;
      forall i | n0 <= i < |t.readings|
        ensures RowOfItem(t.readings[i], items, failing)
      {
        if i < |p.readings| {
          RowOfPrefix(p.readings[i], items, n, failing);
          assert t.readings[i] == p.readings[i];
        } else {
          assert t.readings[i] == StoredRow(items[n]);
        }
      }
      assert t.readings[..n0] == p.readings[..n0];
    }
  }

  /** The key is the duplicate key of a considered item of `items`. */
  predicate KeyOfItem(k: string, items: seq<RawItem>)
  {
    exists j: nat :: j < |items| && Considered(items[j]) && ItemKey(items[j]) == k
  }

  /** The row is among the rows from position `n0` on. */
  predicate StoredSince(rows: seq<Reading>, n0: nat, row: Reading)
  {
    exists i :: n0 <= i < |rows| && rows[i] == row
  }

  /** Before item j, the item's key is not cached when it was not cached at the start and no earlier considered item has it. */
  lemma FreshBeforeItem(c0: map<string, int>, t0: Tables, items: seq<RawItem>, now: int, failing: set<nat>, j: nat)
    requires j < |items|
    requires ItemKey(items[j]) !in c0 && !KeyOfItem(ItemKey(items[j]), items[..j])
    ensures ItemKey(items[j]) !in Process(c0, t0, items[..j], now, failing).0
  {
    ProcessKeepsKeysFresh(c0, t0, items[..j], now, failing);
  }

  /** A pass of the loop over a storable item with a fresh key and a sound insert stores its row. */
  lemma StepStoresFresh(c: map<string, int>, t: Tables, item: RawItem, now: int, n0: nat)
    requires n0 <= |t.readings| && Storable(item) && ItemKey(item) !in c
    ensures StoredSince(Step(c, t, item, now, false).1.readings, n0, StoredRow(item))
  {
    StepReadings(c, t, item, now, false);
    assert Step(c, t, item, now, false).1.readings[|t.readings|] == StoredRow(item);
  }

  /** A pass of the loop keeps every row already stored. */
  lemma StepKeepsRows(c: map<string, int>, t: Tables, item: RawItem, now: int, fault: bool, n0: nat, row: Reading)
    requires StoredSince(t.readings, n0, row)
    ensures StoredSince(Step(c, t, item, now, fault).1.readings, n0, row)
  {
    StepReadings(c, t, item, now, fault);
    var k :| n0 <= k < |t.readings| && t.readings[k] == row;
    assert Step(c, t, item, now, fault).1.readings[k] == row;
  }

  /** Rows stored by a prefix of the loop stay stored through the rest of it. */
  lemma {:induction false} StoredStays(c0: map<string, int>, t0: Tables, items: seq<RawItem>, now: int, failing: set<nat>, m: nat, n0: nat, row: Reading)
    requires m <= |items| && StoredSince(Process(c0, t0, items[..m], now, failing).1.readings, n0, row)
    ensures StoredSince(Process(c0, t0, items, now, failing).1.readings, n0, row)
    decreases |items| - m
  {
    if m == |items| {
      assert items[..m] == items;
    } else {
      assert items[..m + 1][..m] == items[..m];
      var (c, t) := Process(c0, t0, items[..m], now, failing);
      StepKeepsRows(c, t, items[m], now, m in failing, n0, row);
      StoredStays(c0, t0, items, now, failing, m + 1, n0, row);
    }
  }

  /**
   * A storable item is stored when its insert does not fail, its key is not
   * cached when the loop starts, and no earlier considered item has the same
   * key.
   */
  lemma FreshItemStored(c0: map<string, int>, t0: Tables, items: seq<RawItem>, now: int, failing: set<nat>, j: nat)
    requires j < |items| && Storable(items[j]) && j !in failing
    requires ItemKey(items[j]) !in c0 && !KeyOfItem(ItemKey(items[j]), items[..j])
    ensures StoredSince(Process(c0, t0, items, now, failing).1.readings, |t0.readings|, StoredRow(items[j]))
  {
    var n0 := |t0.readings|;
    var (c, t) := Process(c0, t0, items[..j], now, failing);
    FreshBeforeItem(c0, t0, items, now, failing, j);
    ProcessRowsFromItems(c0, t0, items[..j], now, failing);
    assert items[..j + 1][..j] == items[..j];
    StepStoresFresh(c, t, items[j], now, n0);
    StoredStays(c0, t0, items, now, failing, j + 1, n0, StoredRow(items[j]));
  }

  /**
   * A packet only appends readings; the cache gains only the keys of
   * considered items, so a skipped item never touches it; every reading
   * stored has a key that was not live before and is cached after; and no
   * two readings one packet stores have the same sensor and timestamp.
   */
  lemma PacketNeverStoresTwice(cache: map<string, int>, t: Tables, items: seq<RawItem>, now: int, failing: set<nat>)
    ensures var live := Expired(cache, HandlerTtl, now);
      var (c, t') := Handle(cache, t, Items(items), now, failing);
      var n := |t.readings|;
      && t'.metadata == t.metadata && t'.aggregated == t.aggregated && t'.aggregatorState == t.aggregatorState
      && n <= |t'.readings| && t'.readings[..n] == t.readings
      && (forall k :: k in c && k !in live ==>
            exists i :: 0 <= i < |items| && Considered(items[i]) && k == PacketHash(items[i].mac, items[i].timestamp))
      && (forall i :: n <= i < |t'.readings| ==> RowKey(t'.readings[i]) !in live && RowKey(t'.readings[i]) in c)
      && (forall i, j :: n <= i < j < |t'.readings| ==>
            (t'.readings[i].sensorId, t'.readings[i].timestamp) != (t'.readings[j].sensorId, t'.readings[j].timestamp))
      && (forall i :: n <= i < |t'.readings| ==> RowOfItem(t'.readings[i], items, failing))
  {
    ProcessKeepsKeysFresh(Expired(cache, HandlerTtl, now), t, items, now, failing);
    ProcessRowsFromItems(Expired(cache, HandlerTtl, now), t, items, now, failing);
  }

  /**
   * Conversely, an item with a mac and a timestamp that passes the filter is
   * stored, exactly as received, when its insert does not fail, unless its
   * key was live when the packet arrived or an earlier considered item of the
   * packet had the same key.
   */
  lemma FreshItemIsStored(cache: map<string, int>, t: Tables, items: seq<RawItem>, now: int, failing: set<nat>, j: nat)
    requires j < |items| && Storable(items[j]) && j !in failing
    requires ItemKey(items[j]) !in Expired(cache, HandlerTtl, now) && !KeyOfItem(ItemKey(items[j]), items[..j])
    ensures StoredSince(Handle(cache, t, Items(items), now, failing).1.readings, |t.readings|, StoredRow(items[j]))
  {
    FreshItemStored(Expired(cache, HandlerTtl, now), t, items, now, failing, j);
  }

  /**
   * A failed insert is logged and skipped, but its key was cached before the
   * insert, so the same item again within the packet is skipped as a
   * duplicate and never stored.
   */
  lemma FailedInsertKeepsKey(cache: map<string, int>, t: Tables, item: RawItem, now: int)
    requires Storable(item) && ItemKey(item) !in Expired(cache, HandlerTtl, now)
    ensures var live := Expired(cache, HandlerTtl, now);
      && Handle(cache, t, Items([item]), now, {0}) == (live[ItemKey(item) := now], t)
      && Handle(cache, t, Items([item, item]), now, {0}) == (live[ItemKey(item) := now], t)
  {
    var live := Expired(cache, HandlerTtl, now);
    assert [item][..0] == [];
    assert [item, item][..1] == [item];
    assert Process(live, t, [item], now, {0}) == Step(live, t, item, now, true) == (live[ItemKey(item) := now], t);
  }

  /** Anything but an array is ignored: the database and the live keys are left as they were. */
  lemma NotAnArrayIsIgnored(cache: map<string, int>, t: Tables, now: int, failing: set<nat>)
    ensures Handle(cache, t, NotAnArray, now, failing) == (Expired(cache, HandlerTtl, now), t)
    ensures Handle(cache, t, Items([]), now, failing) == (Expired(cache, HandlerTtl, now), t)
  {
  }

  /**
   * An MST01 item without a mac (or without a timestamp) is never stored:
   * the NOT NULL constraint rejects it. Its key, "undefined-..." or
   * "...-undefined", is cached all the same, so within five minutes every
   * other item whose key reads the same is skipped as a duplicate.
   */
  lemma IncompleteItemBlocksItsKey(cache: map<string, int>, t: Tables, item: RawItem, other: RawItem, now: int)
    requires Considered(item) && (IsNullish(item.mac) || IsNullish(item.timestamp))
    requires PacketHash(item.mac, item.timestamp) !in Expired(cache, HandlerTtl, now)
    requires PacketHash(other.mac, other.timestamp) == PacketHash(item.mac, item.timestamp)
    ensures var (c, t') := Handle(cache, t, Items([item]), now, {});
      && t' == t
      && c == Expired(cache, HandlerTtl, now)[PacketHash(item.mac, item.timestamp) := now]
      && Handle(cache, t, Items([item, other]), now, {}) == (c, t')
  {
    var live := Expired(cache, HandlerTtl, now);
    assert [item][..0] == [];
    assert [item, other][..1] == [item];
    assert Process(live, t, [item], now, {}) == Step(live, t, item, now, false);
    assert InsertReadingSpec(t, HandlerRow(item), false).0 == t;
  }

  /** services/sensorHandler.js: its set of recent packet keys and the database it writes to. */
  class PacketHandler {
    const cache: RecentKeys
    const db: SensorDatabase

    constructor (db: SensorDatabase)
      ensures this.db == db && fresh(cache)
      ensures cache.firstSeen == map[] && cache.ttl == HandlerTtl
    {
      this.db := db;
      cache := new RecentKeys(HandlerTtl);
    }

    /** handleSensorPacket(data) at time `now`. */
    method HandleSensorPacket(data: Payload, now: int, failing: set<nat>)
      requires cache.ttl == HandlerTtl
      modifies cache, db
      ensures (cache.firstSeen, db.Contents()) == Handle(old(cache.firstSeen), old(db.Contents()), data, now, failing)
    {
      cache.Expire(now);
      if data.NotAnArray? {
        return;
      }
      var items := data.items;
      ghost var c0, t0 := cache.firstSeen, db.Contents();
      var i := 0;
      while i < |items|
        invariant 0 <= i <= |items|
        invariant (cache.firstSeen, db.Contents()) == Process(c0, t0, items[..i], now, failing)
      {
        var item := items[i];
        assert items[..i + 1][..i] == items[..i];
        if Considered(item) {
          var dup := cache.IsDuplicate(PacketHash(item.mac, item.timestamp), now);
          if !dup {
            var _ := db.InsertReading(HandlerRow(item), i in failing);
          }
        }
        i := i + 1;
      }
      assert items[..i] == items;
    }
  }
}
