/**
 * The POST /data handler of sensorListener.js. Each admitted MST01 item is
 * stamped with its own timestamp (or the clock when it has none), checked
 * against the 30-second duplicate cache under the key `mac-ISO timestamp`,
 * and stored; a failed insert is logged and the loop goes on. The clock is
 * the parameter `now`, and the failures of the database are the positions
 * in `failing` of the items whose insert it rejects.
 */
module SensorListener {
  import opened Wrappers
  import opened Clock
  import opened Items
  import opened Tables
  import opened Dedup
  import opened Storage

  /** How long a key stays in the listener's cache: 30 seconds. */
  const ListenerTtl: nat := 30 * 1000

  /**
   * The outcome of one request: a 400 reply for a body that is not an
   * array, `{status: 'ok'}` otherwise, or no reply at all when an item's
   * timestamp is not a valid time value and toISOString throws out of the
   * handler.
   */
  datatype Reply = BadRequest | Accepted | Aborted

  /** `type === 'MST01' && mac && temperature !== undefined && humidity !== undefined`. */
  predicate Admitted(item: RawItem)
  {
    IsMst01(item) && StringTruthy(item.mac) && !item.temperature.Undefined? && !item.humidity.Undefined?
  }

  /** The item's own timestamp when it is truthy, the clock otherwise. */
  function ItemTime(item: RawItem, now: int): int
  {
    if NumberTruthy(item.timestamp) then item.timestamp.v else now
  }

  /** The cache key `${mac}-${ts}` with ts the ISO string of the reading's time. */
  function ListenerKey(mac: string, ts: int): string
  {
    mac + "-" + IsoString(ts)
  }

  /** The row an admitted item becomes: rawHex NULL, null properties NULL. */
  function ListenerRow(mac: string, ts: int, item: RawItem): NewReading
  {
    NewReading(Some(mac), Some(ts), ToSql(item.temperature), ToSql(item.humidity), None)
  }

  /** The state the loop carries: the cache, the tables, and whether the handler has thrown. */
  datatype Run = Run(cache: map<string, int>, tables: Tables, aborted: bool)

  /** One pass of the loop body over an item; `fault` says whether its insert fails. */
  function Step(s: Run, item: RawItem, now: int, fault: bool): Run
  {
    if s.aborted || !Admitted(item) then s
    else
      var ts := ItemTime(item, now);
      if !ValidTime(ts) then s.(aborted := true)
      else
        var (c, dup) := Check(s.cache, ListenerKey(item.mac.v, ts), now);
        if dup then s
        else Run(c, InsertReadingSpec(s.tables, ListenerRow(item.mac.v, ts, item), fault).0, false)
  }

  /** The loop over the first |items| items of the payload. */
  function Process(s: Run, items: seq<RawItem>, now: int, failing: set<nat>): Run
    decreases |items|
  {
    if items == [] then s
    else
      var n := |items| - 1;
      Step(Process(s, items[..n], now, failing), items[n], now, n in failing)
  }

  /** The whole request: the cache after the due expiries, then the loop. */
  function Handle(cache: map<string, int>, t: Tables, payload: Payload, now: int, failing: set<nat>)
    : (map<string, int>, Tables, Reply)
  {
    var live := Expired(cache, ListenerTtl, now);
    match payload
    case NotAnArray => (live, t, BadRequest)
    case Items(items) =>
      var r := Process(Run(live, t, false), items, now, failing);
      (r.cache, r.tables, if r.aborted then Aborted else Accepted)
  }

  /** Once the handler has thrown, no later item has any effect. */
  lemma {:induction false} AbortedStays(s: Run, items: seq<RawItem>, i: nat, now: int, failing: set<nat>)
    requires i <= |items| && Process(s, items[..i], now, failing).aborted
    ensures Process(s, items, now, failing) == Process(s, items[..i], now, failing)
    decreases |items| - i
  {
    if i < |items| {
      assert items[..i + 1][..i] == items[..i];
      AbortedStays(s, items, i + 1, now, failing);
    } else {
      assert items[..i] == items;
    }
  }

  /** The key under which a stored row was recorded. */
  function RowKey(r: Reading): string
  {
    ListenerKey(r.sensorId, r.timestamp)
  }

  /**
   * What the loop keeps true: the other tables are untouched, the old rows
   * stay in place, the cache only grows, and every row stored by this
   * request has a valid time, a key absent from the cache when the request
   * began and now present in it, and a key no other stored row shares.
   */
  ghost predicate Kept(s0: Run, s: Run)
  {
    && s.tables.metadata == s0.tables.metadata
    && s.tables.aggregated == s0.tables.aggregated
    && s.tables.aggregatorState == s0.tables.aggregatorState
    && |s0.tables.readings| <= |s.tables.readings|
    && s.tables.readings[..|s0.tables.readings|] == s0.tables.readings
    && (forall k :: k in s0.cache ==> k in s.cache)
    && (forall i :: |s0.tables.readings| <= i < |s.tables.readings| ==>
          && ValidTime(s.tables.readings[i].timestamp)
          && RowKey(s.tables.readings[i]) !in s0.cache
          && RowKey(s.tables.readings[i]) in s.cache)
    && (forall i, j :: |s0.tables.readings| <= i < j < |s.tables.readings| ==>
          RowKey(s.tables.readings[i]) != RowKey(s.tables.readings[j]))
  }

  /** Storing a row under a key not yet cached, and caching that key, keeps what the loop keeps. */
  lemma AppendKept(s0: Run, s: Run, row: Reading, at: int)
    requires Kept(s0, s)
    requires ValidTime(row.timestamp) && RowKey(row) !in s.cache
    ensures Kept(s0, Run(s.cache[RowKey(row) := at], s.tables.(readings := s.tables.readings + [row]), s.aborted))
  {
    var s' := Run(s.cache[RowKey(row) := at], s.tables.(readings := s.tables.readings + [row]), s.aborted);
    var n0, n := |s0.tables.readings|, |s.tables.readings|;
    assert s'.tables.readings[..n] == s.tables.readings;
    assert s'.tables.readings[..n0] == s.tables.readings[..n0];
    forall i | n0 <= i < |s'.tables.readings|
      ensures ValidTime(s'.tables.readings[i].timestamp)
      ensures RowKey(s'.tables.readings[i]) !in s0.cache && RowKey(s'.tables.readings[i]) in s'.cache
    {
      if i < n {
        assert s'.tables.readings[i] == s.tables.readings[i];
      }
    }
    forall i, j | n0 <= i < j < |s'.tables.readings|
      ensures RowKey(s'.tables.readings[i]) != RowKey(s'.tables.readings[j])
    {
      assert s'.tables.readings[i] == s.tables.readings[i];
      if j < n {
        assert s'.tables.readings[j] == s.tables.readings[j];
      }
    }
  }

  /** Caching one more key, storing nothing, keeps what the loop keeps. */
  lemma CacheKept(s0: Run, s: Run, key: string, at: int)
    requires Kept(s0, s)
    ensures Kept(s0, Run(s.cache[key := at], s.tables, s.aborted))
  {
  }

  lemma StepKept(s0: Run, s: Run, item: RawItem, now: int, fault: bool)
    requires Kept(s0, s)
    ensures Kept(s0, Step(s, item, now, fault))
  {
    if !s.aborted && Admitted(item) && ValidTime(ItemTime(item, now)) {
      var ts := ItemTime(item, now);
      var key := ListenerKey(item.mac.v, ts);
      if key !in s.cache {
        var row := Reading(item.mac.v, ts, ToSql(item.temperature), ToSql(item.humidity), None);
        assert RowKey(row) == key;
        if fault {
          assert Step(s, item, now, fault) == Run(s.cache[key := now], s.tables, false);
          CacheKept(s0, s, key, now);
        } else {
          assert Step(s, item, now, fault) == Run(s.cache[key := now], s.tables.(readings := s.tables.readings + [row]), false);
          AppendKept(s0, s, row, now);
        }
      }
    }
  }

  /**
   * Within one request no two stored rows share a duplicate key, no stored
   * row's key was already cached when the request began, and the cache
   * then holds every stored row's key; the request only appends readings.
   */
  lemma {:induction false} ProcessKeepsKeysFresh(s0: Run, items: seq<RawItem>, now: int, failing: set<nat>)
    ensures Kept(s0, Process(s0, items, now, failing))
    decreases |items|
  {
    if items != [] {
      var n := |items| - 1;
      ProcessKeepsKeysFresh(s0, items[..n], now, failing);
      StepKept(s0, Process(s0, items[..n], now, failing), items[n], now, n in failing);
    }
  }

  /** The reading an admitted item is stored as: its mac, its time, its two values and a NULL rawHex. */
  function StoredRow(item: RawItem, now: int): Reading
    requires item.mac.Value?
  {
    Reading(item.mac.v, ItemTime(item, now), ToSql(item.temperature), ToSql(item.humidity), None)
  }

  /** The duplicate key of an admitted item. */
  function ItemKey(item: RawItem, now: int): string
    requires item.mac.Value?
  {
    ListenerKey(item.mac.v, ItemTime(item, now))
  }

  /**
   * One pass of the loop appends the item's row exactly when the handler
   * has not thrown, the item is admitted with a valid time, its key is not
   * cached and its insert does not fail; otherwise the readings stay.
   */
  lemma StepReadings(s: Run, item: RawItem, now: int, fault: bool)
    ensures var stores := !s.aborted && Admitted(item) && ValidTime(ItemTime(item, now)) && !fault && ItemKey(item, now) !in s.cache;
      Step(s, item, now, fault).tables.readings == if stores then s.tables.readings + [StoredRow(item, now)] else s.tables.readings
  {
  }

  /** One pass of the loop caches the item's key exactly when it stores the item or its insert fails. */
  lemma StepCache(s: Run, item: RawItem, now: int, fault: bool)
    ensures var caches := !s.aborted && Admitted(item) && ValidTime(ItemTime(item, now)) && ItemKey(item, now) !in s.cache;
      Step(s, item, now, fault).cache == if caches then s.cache[ItemKey(item, now) := now] else s.cache
    ensures Step(s, item, now, fault).aborted == (s.aborted || (Admitted(item) && !ValidTime(ItemTime(item, now))))
  {
  }

  /** The loop over a one-item request is one pass. */
  lemma ProcessOne(s: Run, item: RawItem, now: int, failing: set<nat>)
    ensures Process(s, [item], now, failing) == Step(s, item, now, 0 in failing)
  {
    assert [item][..0] == [];
  }

  /** The loop over a two-item request is a pass over the second after the loop over the first. */
  lemma ProcessTwo(s: Run, a: RawItem, b: RawItem, now: int, failing: set<nat>)
    ensures Process(s, [a, b], now, failing) == Step(Process(s, [a], now, failing), b, now, 1 in failing)
  {
    assert [a, b][..1] == [a];
  }

  /** One pass over an admitted item with a valid time: a duplicate changes nothing, any other item is cached and inserted. */
  lemma StepValid(s: Run, item: RawItem, now: int, fault: bool)
    requires !s.aborted && Admitted(item) && ValidTime(ItemTime(item, now))
    ensures var ts := ItemTime(item, now);
      var (c, dup) := Check(s.cache, ListenerKey(item.mac.v, ts), now);
      Step(s, item, now, fault) ==
        if dup then s else Run(c, InsertReadingSpec(s.tables, ListenerRow(item.mac.v, ts, item), fault).0, false)
  {
  }

  /** The handler throws exactly when some admitted item's time is not a valid time value. */
  lemma {:induction false} AbortedExactlyOnInvalidTime(s0: Run, items: seq<RawItem>, now: int, failing: set<nat>)
    requires !s0.aborted
    ensures Process(s0, items, now, failing).aborted <==>
      exists j :: 0 <= j < |items| && Admitted(items[j]) && !ValidTime(ItemTime(items[j], now))
    decreases |items|
  {
    if items != [] {
      var n := |items| - 1;
      AbortedExactlyOnInvalidTime(s0, items[..n], now, failing);
      StepCache(Process(s0, items[..n], now, failing), items[n], now, n in failing);
      assert forall j :: 0 <= j < n ==> items[..n][j] == items[j];
    }
  }

  /** The key is the duplicate key of an admitted item of `items`. */
  predicate KeyOfItem(k: string, items: seq<RawItem>, now: int)
  {
    exists j: nat :: j < |items| && Admitted(items[j]) && ItemKey(items[j], now) == k
  }

  /** Caching the last item's key, or nothing, keeps every cached key a start key or an item's key. */
  lemma CacheGrowth(c0: map<string, int>, c: map<string, int>, c': map<string, int>, items: seq<RawItem>, now: int)
    requires items != []
    requires forall k :: k in c ==> k in c0 || KeyOfItem(k, items[..|items| - 1], now)
    requires c' == c || (Admitted(items[|items| - 1]) && c' == c[ItemKey(items[|items| - 1], now) := now])
    ensures forall k :: k in c' ==> k in c0 || KeyOfItem(k, items, now)
  {
    var n := |items| - 1;
    forall k | k in c'
      ensures k in c0 || KeyOfItem(k, items, now)
    {
      if k in c && k !in c0 {
        var j: nat :| j < n && Admitted(items[..n][j]) && ItemKey(items[..n][j], now) == k;
        assert items[..n][j] == items[j];
      } else if k !in c {
        assert KeyOfItem(k, items, now) by {
          assert Admitted(items[n]) && ItemKey(items[n], now) == k;
        }
      }
    }
  }

  /** The loop caches nothing but the keys of admitted items. */
  lemma {:induction false} CachedKeysFromItems(s0: Run, items: seq<RawItem>, now: int, failing: set<nat>)
    ensures forall k :: k in Process(s0, items, now, failing).cache ==> k in s0.cache || KeyOfItem(k, items, now)
    decreases |items|
  {
    if items != [] {
      var n := |items| - 1;
      var p := Process(s0, items[..n], now, failing);
      CachedKeysFromItems(s0, items[..n], now, failing);
      StepCache(p, items[n], now, n in failing);
      CacheGrowth(s0.cache, p.cache, Process(s0, items, now, failing).cache, items, now);
    }
  }

  /** The row is the stored row of an admitted item of `items`, with a valid time, whose insert did not fail. */
  predicate RowOfItem(row: Reading, items: seq<RawItem>, now: int, failing: set<nat>)
  {
    exists j: nat :: j < |items| && Admitted(items[j]) && ValidTime(ItemTime(items[j], now)) && j !in failing
                     && row == StoredRow(items[j], now)
  }

  /** A row of a prefix of the items is a row of the items. */
  lemma RowOfPrefix(row: Reading, items: seq<RawItem>, n: nat, now: int, failing: set<nat>)
    requires n <= |items| && RowOfItem(row, items[..n], now, failing)
    ensures RowOfItem(row, items, now, failing)
  {
    var j: nat :| j < n && Admitted(items[..n][j]) && ValidTime(ItemTime(items[..n][j], now)) && j !in failing
                  && row == StoredRow(items[..n][j], now);
    assert items[..n][j] == items[j];
  }

  /**
   * The loop only appends, and every row it appends is the row of an
   * admitted item with a valid time whose insert did not fail.
   */
  lemma {:induction false} ProcessRowsFromItems(s0: Run, items: seq<RawItem>, now: int, failing: set<nat>)
    ensures var s := Process(s0, items, now, failing);
      && |s0.tables.readings| <= |s.tables.readings|
      && s.tables.readings[..|s0.tables.readings|] == s0.tables.readings
      && forall i :: |s0.tables.readings| <= i < |s.tables.readings| ==> RowOfItem(s.tables.readings[i], items, now, failing)
    decreases |items|
  {
    if items != [] {
      var n := |items| - 1;
      var n0 := |s0.tables.readings|;
      var p := Process(s0, items[..n], now, failing);
      ProcessRowsFromItems(s0, items[..n], now, failing);
      StepReadings(p, items[n], now, n in failing);
      var s := Process(s0, items, now, failing);
      assert s == Step(p, items[n], now, n in failing);
      forall i | n0 <= i < |s.tables.readings|
        ensures RowOfItem(s.tables.readings[i], items, now, failing)
      {
        if i < |p.tables.readings| {
          RowOfPrefix(p.tables.readings[i], items, n, now, failing);
          assert s.tables.readings[i] == p.tables.readings[i];
        } else {
          assert s.tables.readings[i] == StoredRow(items[n], now);
        }
      }
      assert s.tables.readings[..n0] == p.tables.readings[..n0];
    }
  }

  /** The row is among the rows from position `n0` on. */
  predicate StoredSince(rows: seq<Reading>, n0: nat, row: Reading)
  {
    exists i :: n0 <= i < |rows| && rows[i] == row
  }

  /**
   * An admitted item is stored when its insert does not fail, its key is
   * not cached when the loop starts, no earlier admitted item has the same
   * key, and no admitted item up to it has an invalid time.
   */
  lemma FreshItemStored(s0: Run, items: seq<RawItem>, now: int, failing: set<nat>, j: nat)
    requires !s0.aborted && j < |items| && Admitted(items[j]) && j !in failing
    requires forall i :: 0 <= i <= j && Admitted(items[i]) ==> ValidTime(ItemTime(items[i], now))
    requires ItemKey(items[j], now) !in s0.cache && !KeyOfItem(ItemKey(items[j], now), items[..j], now)
    ensures StoredSince(Process(s0, items, now, failing).tables.readings, |s0.tables.readings|, StoredRow(items[j], now))
  {
    FreshBeforeItem(s0, items, now, failing, j);
    StoredAtItem(s0, items, now, failing, j);
    StoredStays(s0, items, now, failing, j + 1, |s0.tables.readings|, StoredRow(items[j], now));
  }

  /** The pass over item j stores its row when the loop reaches it intact with the key not cached. */
  lemma StoredAtItem(s0: Run, items: seq<RawItem>, now: int, failing: set<nat>, j: nat)
    requires j < |items| && Admitted(items[j]) && ValidTime(ItemTime(items[j], now)) && j !in failing
    requires !Process(s0, items[..j], now, failing).aborted
    requires ItemKey(items[j], now) !in Process(s0, items[..j], now, failing).cache
    ensures StoredSince(Process(s0, items[..j + 1], now, failing).tables.readings, |s0.tables.readings|, StoredRow(items[j], now))
  {
    var p := Process(s0, items[..j], now, failing);
    ProcessGrows(s0, items[..j], now, failing);
    ProcessNext(s0, items, now, failing, j);
    StepStoresFresh(p, items[j], now, |s0.tables.readings|);
  }

  /** The loop never removes a row. */
  lemma ProcessGrows(s0: Run, items: seq<RawItem>, now: int, failing: set<nat>)
    ensures |s0.tables.readings| <= |Process(s0, items, now, failing).tables.readings|
  {
    ProcessRowsFromItems(s0, items, now, failing);
  }

  /** The loop over one more item is one more pass. */
  lemma ProcessNext(s0: Run, items: seq<RawItem>, now: int, failing: set<nat>, j: nat)
    requires j < |items|
    ensures Process(s0, items[..j + 1], now, failing) == Step(Process(s0, items[..j], now, failing), items[j], now, j in failing)
  {
    assert items[..j + 1][..j] == items[..j];
  }

  /**
   * Before item j the loop has not thrown when no admitted item up to j has
   * an invalid time, and the item's key is not cached when it was not
   * cached at the start and no earlier admitted item has it.
   */
  lemma FreshBeforeItem(s0: Run, items: seq<RawItem>, now: int, failing: set<nat>, j: nat)
    requires !s0.aborted && j < |items| && Admitted(items[j])
    requires forall i :: 0 <= i <= j && Admitted(items[i]) ==> ValidTime(ItemTime(items[i], now))
    requires ItemKey(items[j], now) !in s0.cache && !KeyOfItem(ItemKey(items[j], now), items[..j], now)
    ensures !Process(s0, items[..j], now, failing).aborted
    ensures ItemKey(items[j], now) !in Process(s0, items[..j], now, failing).cache
  {
    AbortedExactlyOnInvalidTime(s0, items[..j], now, failing);
    CachedKeysFromItems(s0, items[..j], now, failing);
    assert forall i :: 0 <= i < j ==> items[..j][i] == items[i];
  }

  /** Rows stored by a prefix of the loop stay stored through the rest of it. */
  lemma {:induction false} StoredStays(s0: Run, items: seq<RawItem>, now: int, failing: set<nat>, m: nat, n0: nat, row: Reading)
    requires m <= |items| && StoredSince(Process(s0, items[..m], now, failing).tables.readings, n0, row)
    ensures StoredSince(Process(s0, items, now, failing).tables.readings, n0, row)
    decreases |items| - m
  {
    if m == |items| {
      assert items[..m] == items;
    } else {
      assert items[..m + 1][..m] == items[..m];
      StepKeepsRows(Process(s0, items[..m], now, failing), items[m], now, m in failing, n0, row);
      StoredStays(s0, items, now, failing, m + 1, n0, row);
    }
  }

  /** A pass of the loop over a fresh admitted item with a valid time and a sound insert stores its row. */
  lemma StepStoresFresh(p: Run, item: RawItem, now: int, n0: nat)
    requires n0 <= |p.tables.readings| && !p.aborted && Admitted(item) && ValidTime(ItemTime(item, now))
    requires ItemKey(item, now) !in p.cache
    ensures StoredSince(Step(p, item, now, false).tables.readings, n0, StoredRow(item, now))
  {
    StepReadings(p, item, now, false);
    var r := Step(p, item, now, false).tables.readings;
    assert r[|p.tables.readings|] == StoredRow(item, now);
  }

  /** A pass of the loop keeps every row already stored. */
  lemma StepKeepsRows(p: Run, item: RawItem, now: int, fault: bool, n0: nat, row: Reading)
    requires StoredSince(p.tables.readings, n0, row)
    ensures StoredSince(Step(p, item, now, fault).tables.readings, n0, row)
  {
    StepReadings(p, item, now, fault);
    var r := Step(p, item, now, fault).tables.readings;
    var k :| n0 <= k < |p.tables.readings| && p.tables.readings[k] == row;
    assert r[k] == row;
  }

  /**
   * One request only appends readings; each reading it stores had a key
   * that was not live in the cache when the request arrived and is cached
   * afterwards; and no two readings it stores have the same sensor and
   * timestamp, however often the payload repeats an item.
   */
  lemma RequestNeverStoresTwice(cache: map<string, int>, t: Tables, items: seq<RawItem>, now: int, failing: set<nat>)
    ensures var (c, t', _) := Handle(cache, t, Items(items), now, failing);
      var n := |t.readings|;
      && t'.metadata == t.metadata && t'.aggregated == t.aggregated && t'.aggregatorState == t.aggregatorState
      && n <= |t'.readings| && t'.readings[..n] == t.readings
      && (forall i :: n <= i < |t'.readings| ==>
            RowKey(t'.readings[i]) !in Expired(cache, ListenerTtl, now) && RowKey(t'.readings[i]) in c)
      && (forall i, j :: n <= i < j < |t'.readings| ==>
            (t'.readings[i].sensorId, t'.readings[i].timestamp) != (t'.readings[j].sensorId, t'.readings[j].timestamp))
      && (forall i :: n <= i < |t'.readings| ==> RowOfItem(t'.readings[i], items, now, failing))
  {
    ProcessKeepsKeysFresh(Run(Expired(cache, ListenerTtl, now), t, false), items, now, failing);
    ProcessRowsFromItems(Run(Expired(cache, ListenerTtl, now), t, false), items, now, failing);
  }

  /**
   * Conversely, an admitted item whose insert does not fail is stored,
   * with its own mac, time and values, unless its key was live when the
   * request arrived or an earlier admitted item of the request had the same
   * key, or the request threw at or before it.
   */
  lemma FreshItemIsStored(cache: map<string, int>, t: Tables, items: seq<RawItem>, now: int, failing: set<nat>, j: nat)
    requires j < |items| && Admitted(items[j]) && j !in failing
    requires forall i :: 0 <= i <= j && Admitted(items[i]) ==> ValidTime(ItemTime(items[i], now))
    requires ItemKey(items[j], now) !in Expired(cache, ListenerTtl, now) && !KeyOfItem(ItemKey(items[j], now), items[..j], now)
    ensures var (_, t', _) := Handle(cache, t, Items(items), now, failing);
      StoredSince(t'.readings, |t.readings|, StoredRow(items[j], now))
  {
    FreshItemStored(Run(Expired(cache, ListenerTtl, now), t, false), items, now, failing, j);
  }

  /** The reply is `{status: 'ok'}` unless some admitted item's time is invalid, in which case there is none. */
  lemma ReplyReportsInvalidTime(cache: map<string, int>, t: Tables, items: seq<RawItem>, now: int, failing: set<nat>)
    ensures Handle(cache, t, Items(items), now, failing).2 ==
      if exists j :: 0 <= j < |items| && Admitted(items[j]) && !ValidTime(ItemTime(items[j], now)) then Aborted else Accepted
  {
    AbortedExactlyOnInvalidTime(Run(Expired(cache, ListenerTtl, now), t, false), items, now, failing);
  }

  /**
   * A failed insert is logged and skipped, but the key was cached before
   * the insert, so the request stores nothing and the key stays cached.
   */
  lemma FailedInsertKeepsKey(cache: map<string, int>, t: Tables, item: RawItem, now: int)
    requires Admitted(item) && ValidTime(ItemTime(item, now))
    requires ItemKey(item, now) !in Expired(cache, ListenerTtl, now)
    ensures Handle(cache, t, Items([item]), now, {0}) ==
      (Expired(cache, ListenerTtl, now)[ItemKey(item, now) := now], t, Accepted)
  {
    var live := Expired(cache, ListenerTtl, now);
    var s0 := Run(live, t, false);
    ProcessOne(s0, item, now, {0});
    StepCache(s0, item, now, true);
    StepReadings(s0, item, now, true);
    assert Step(s0, item, now, true) == Run(live[ItemKey(item, now) := now], t, false);
  }

  /**
   * An item with its own timestamp whose insert failed is, when sent again
   * in the same request, skipped as a duplicate: it is never stored.
   */
  lemma FailedInsertRepeated(cache: map<string, int>, t: Tables, item: RawItem, now: int)
    requires Admitted(item) && NumberTruthy(item.timestamp) && ValidTime(ItemTime(item, now))
    requires ItemKey(item, now) !in Expired(cache, ListenerTtl, now)
    ensures Handle(cache, t, Items([item, item]), now, {0}) == Handle(cache, t, Items([item]), now, {0})
    ensures Handle(cache, t, Items([item, item]), now, {0}).1 == t
  {
    var live := Expired(cache, ListenerTtl, now);
    var s0 := Run(live, t, false);
    var s1 := Run(live[ItemKey(item, now) := now], t, false);
    FailedInsertKeepsKey(cache, t, item, now);
    ProcessOne(s0, item, now, {0});
    ProcessTwo(s0, item, item, now, {0});
    StepCache(s1, item, now, false);
    StepReadings(s1, item, now, false);
    assert Step(s1, item, now, false) == s1;
  }

  /** A body that is not an array gets a 400 and stores nothing. */
  lemma NotAnArrayStoresNothing(cache: map<string, int>, t: Tables, now: int, failing: set<nat>)
    ensures Handle(cache, t, NotAnArray, now, failing).1 == t
    ensures Handle(cache, t, NotAnArray, now, failing).2 == BadRequest
  {
  }

  /**
   * A single admitted item with a valid time whose key is not cached is
   * stored as one new row, and its key is recorded at the clock's time.
   */
  lemma SingleItem(cache: map<string, int>, t: Tables, item: RawItem, now: int)
    requires Admitted(item) && ValidTime(ItemTime(item, now))
    requires ListenerKey(item.mac.v, ItemTime(item, now)) !in Expired(cache, ListenerTtl, now)
    ensures var (c, t', reply) := Handle(cache, t, Items([item]), now, {});
      && reply == Accepted
      && t'.readings == t.readings + [Reading(item.mac.v, ItemTime(item, now), ToSql(item.temperature), ToSql(item.humidity), None)]
      && c == Expired(cache, ListenerTtl, now)[ListenerKey(item.mac.v, ItemTime(item, now)) := now]
  {
    var s0 := Run(Expired(cache, ListenerTtl, now), t, false);
    ProcessOne(s0, item, now, {});
    StepCache(s0, item, now, false);
    StepReadings(s0, item, now, false);
  }

  /**
   * An item with its own timestamp sent twice in one request is stored
   * once: the second copy meets the key the first one cached.
   */
  lemma SingleItemRepeated(cache: map<string, int>, t: Tables, item: RawItem, now: int)
    requires Admitted(item) && NumberTruthy(item.timestamp) && ValidTime(ItemTime(item, now))
    requires ListenerKey(item.mac.v, ItemTime(item, now)) !in Expired(cache, ListenerTtl, now)
    ensures Handle(cache, t, Items([item, item]), now, {}) == Handle(cache, t, Items([item]), now, {})
  {
    var live := Expired(cache, ListenerTtl, now);
    var s0 := Run(live, t, false);
    var s1 := Step(s0, item, now, false);
    ProcessOne(s0, item, now, {});
    ProcessTwo(s0, item, item, now, {});
    StepCache(s0, item, now, false);
    StepCache(s1, item, now, false);
    StepReadings(s1, item, now, false);
    assert Step(s1, item, now, false) == s1;
  }

  /**
   * An item without a valid time stops the request: nothing after it is
   * stored and no reply is sent.
   */
  lemma InvalidTimeAborts(cache: map<string, int>, t: Tables, item: RawItem, rest: seq<RawItem>, now: int, failing: set<nat>)
    requires Admitted(item) && !ValidTime(ItemTime(item, now))
    ensures var (c, t', reply) := Handle(cache, t, Items([item] + rest), now, failing);
      && reply == Aborted && t' == t && c == Expired(cache, ListenerTtl, now)
  {
    var items := [item] + rest;
    var s0 := Run(Expired(cache, ListenerTtl, now), t, false);
    assert items[..1][..0] == [];
    assert Process(s0, items[..1], now, failing) == s0.(aborted := true);
    AbortedStays(s0, items, 1, now, failing);
  }

  /** The Express app of sensorListener.js: its duplicate cache and the database it writes to. */
  class Listener {
    const cache: RecentKeys
    const db: SensorDatabase

    constructor (db: SensorDatabase)
      ensures this.db == db && fresh(cache)
      ensures cache.firstSeen == map[] && cache.ttl == ListenerTtl
    {
      this.db := db;
      cache := new RecentKeys(ListenerTtl);
    }

    /** One pass of the loop body of POST /data over `item`; `aborted` says whether it threw. */
    method Visit(item: RawItem, now: int, fault: bool) returns (aborted: bool)
      modifies cache, db
      ensures Run(cache.firstSeen, db.Contents(), aborted) ==
        Step(Run(old(cache.firstSeen), old(db.Contents()), false), item, now, fault)
    {
      ghost var before := Run(cache.firstSeen, db.Contents(), false);
      if !Admitted(item) {
        return false;
      }
      var ts := ItemTime(item, now);
      if !ValidTime(ts) {
        return true;
      }
      StepValid(before, item, now, fault);
      var dup := cache.IsDuplicate(ListenerKey(item.mac.v, ts), now);
      if !dup {
        var _ := db.InsertReading(ListenerRow(item.mac.v, ts, item), fault);
      }
      return false;
    }

    /** POST /data with body `payload` at time `now`. */
    method HandleData(payload: Payload, now: int, failing: set<nat>) returns (reply: Reply)
      requires cache.ttl == ListenerTtl
      modifies cache, db
      ensures (cache.firstSeen, db.Contents(), reply) == Handle(old(cache.firstSeen), old(db.Contents()), payload, now, failing)
    {
      cache.Expire(now);
      if payload.NotAnArray? {
        return BadRequest;
      }
      var items := payload.items;
      ghost var s0 := Run(cache.firstSeen, db.Contents(), false);
      var i := 0;
      while i < |items|
        invariant 0 <= i <= |items|
        invariant Run(cache.firstSeen, db.Contents(), false) == Process(s0, items[..i], now, failing)
      {
        ProcessNext(s0, items, now, failing, i);
        var aborted := Visit(items[i], now, i in failing);
        if aborted {
          AbortedStays(s0, items, i + 1, now, failing);
          return Aborted;
        }
        i := i + 1;
      }
      assert items[..i] == items;
      reply := Accepted;
    }
  }
}
