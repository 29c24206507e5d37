/**
 * old/gateway_listener.py: a Flask endpoint that keeps, per MAC address,
 * the last MST01 item whose temperature or humidity differed from the one
 * before. `item.get(k)` is None both for a missing key and for JSON null,
 * which is what `ToSql` computes; `item[k]` raises KeyError only for a
 * missing key.
 */
module GatewayListener {
  import opened Wrappers
  import opened Items

  /** The key of last_values: `item.get("mac")`, None when missing or null. */
  type MacKey = Option<string>

  /** `item.get("mac")`. */
  function MacOf(item: RawItem): MacKey
  {
    ToSql(item.mac)
  }

  /** has_changed(mac, new_data) against the stored items `last`. */
  predicate HasChanged(last: map<MacKey, RawItem>, mac: MacKey, item: RawItem)
  {
    mac !in last
    || ToSql(item.temperature) != ToSql(last[mac].temperature)
    || ToSql(item.humidity) != ToSql(last[mac].humidity)
  }

  /**
   * An unknown mac has always changed; a known one has changed exactly when
   * its temperature or its humidity differs from the stored item's, so
   * rssi or any other property plays no part.
   */
  lemma HasChangedContract(last: map<MacKey, RawItem>, mac: MacKey, item: RawItem, rssi: Field<int>)
    ensures mac !in last ==> HasChanged(last, mac, item)
    ensures mac in last ==>
      (HasChanged(last, mac, item) <==>
         !(ToSql(item.temperature) == ToSql(last[mac].temperature) && ToSql(item.humidity) == ToSql(last[mac].humidity)))
    ensures HasChanged(last, mac, item.(rssi := rssi)) == HasChanged(last, mac, item)
  {
  }

  /** The response: 200 with `{"status": "ok"}`, or 500 because the handler raised. */
  datatype GatewayReply = Ok200 | ServerError

  /** The loop's state: the stored items and whether a KeyError has ended it. */
  datatype Gateway = Gateway(last: map<MacKey, RawItem>, raised: bool)

  /** The print statement reads item['temperature'], item['humidity'] and item['rssi']. */
  predicate PrintRaises(item: RawItem)
  {
    item.temperature.Undefined? || item.humidity.Undefined? || item.rssi.Undefined?
  }

  /** One pass of the loop body over an item. */
  function Step(s: Gateway, item: RawItem): Gateway
  {
    if s.raised || !IsMst01(item) || !HasChanged(s.last, MacOf(item), item) then s
    else Gateway(s.last[MacOf(item) := item], PrintRaises(item))
  }

  /** The loop over the items of a batch, in order. */
  function Process(s: Gateway, items: seq<RawItem>): Gateway
    decreases |items|
  {
    if items == [] then s
    else Step(Process(s, items[..|items| - 1]), items[|items| - 1])
  }

  /**
   * The JSON body as receive_data sees it: a list of objects; an empty
   * object or an empty string, which len() accepts and the loop walks
   * without a single item; or any other value that is not a list: len()
   * raises on a number, a boolean or null, and the first key of a non-empty
   * object or the first character of a non-empty string has no `.get`.
   */
  datatype Body = List(items: seq<RawItem>) | EmptyNonList | OtherNonList

  /**
   * receive_data: a list is walked item by item; an empty object or string
   * is answered like an empty list; any other body raises before a single
   * entry is stored.
   */
  function Receive(last: map<MacKey, RawItem>, body: Body): (map<MacKey, RawItem>, GatewayReply)
  {
    match body
    case List(items) =>
      var s := Process(Gateway(last, false), items);
      (s.last, if s.raised then ServerError else Ok200)
    case EmptyNonList => (last, Ok200)
    case OtherNonList => (last, ServerError)
  }

  /**
   * A body with nothing to iterate over is answered 200 and changes
   * nothing, whether it is an empty list, an empty object or an empty
   * string; any other non-list body is a server error that changes nothing.
   */
  lemma NothingToIterate(last: map<MacKey, RawItem>)
    ensures Receive(last, EmptyNonList) == Receive(last, List([])) == (last, Ok200)
    ensures Receive(last, OtherNonList) == (last, ServerError)
  {
  }

  /**
   * After an MST01 item has been looked at, its mac holds an item with the
   * same temperature and humidity, and the same item again is reported
   * unchanged and leaves the map as it was.
   */
  lemma ResubmitIsUnchanged(last: map<MacKey, RawItem>, item: RawItem)
    requires IsMst01(item)
    ensures var s := Step(Gateway(last, false), item);
      && MacOf(item) in s.last
      && ToSql(s.last[MacOf(item)].temperature) == ToSql(item.temperature)
      && ToSql(s.last[MacOf(item)].humidity) == ToSql(item.humidity)
      && !HasChanged(s.last, MacOf(item), item)
      && Step(s, item) == s
  {
  }

  /**
   * A batch touches only the macs of its own MST01 items: every other entry
   * is kept, and no other entry appears.
   */
  lemma {:induction false} OtherMacsUntouched(s: Gateway, items: seq<RawItem>, mac: MacKey)
    requires forall i :: 0 <= i < |items| && IsMst01(items[i]) ==> MacOf(items[i]) != mac
    ensures var s' := Process(s, items);
      && (mac in s'.last <==> mac in s.last)
      && (mac in s.last ==> s'.last[mac] == s.last[mac])
    decreases |items|
  {
    if items != [] {
      OtherMacsUntouched(s, items[..|items| - 1], mac);
    }
  }

  /**
   * Items of one batch are compared in order: an item whose readings repeat
   * those of an earlier item of the same batch for the same mac, with none
   * between them for that mac, is not stored.
   */
  lemma {:induction false} LaterItemSeesEarlier(last: map<MacKey, RawItem>, a: RawItem, between: seq<RawItem>, b: RawItem)
    requires IsMst01(a) && !PrintRaises(a) && MacOf(b) == MacOf(a)
    requires ToSql(b.temperature) == ToSql(a.temperature) && ToSql(b.humidity) == ToSql(a.humidity)
    requires forall i :: 0 <= i < |between| && IsMst01(between[i]) ==> MacOf(between[i]) != MacOf(a)
    ensures var s := Process(Gateway(last, false), [a] + between);
      Step(s, b) == s
  {
    var items := [a] + between;
    var s1 := Step(Gateway(last, false), a);
    assert items[..1] == [a] && [a][..0] == [];
    ProcessSplit(Gateway(last, false), [a], between);
    OtherMacsUntouched(s1, between, MacOf(a));
  }

  /** Processing a batch in two parts is processing it whole. */
  lemma {:induction false} ProcessSplit(s: Gateway, a: seq<RawItem>, b: seq<RawItem>)
    ensures Process(s, a + b) == Process(Process(s, a), b)
    decreases |b|
  {
    if b == [] {
      assert a + b == a;
    } else {
      assert (a + b)[..|a + b| - 1] == a + b[..|b| - 1];
      ProcessSplit(s, a, b[..|b| - 1]);
    }
  }

  /** The Flask app of old/gateway_listener.py with its global last_values. */
  class GatewayApp {
    var lastValues: map<MacKey, RawItem>

    constructor ()
      ensures lastValues == map[]
    {
      lastValues := map[];
    }

    /** POST /data. */
    method ReceiveData(body: Body) returns (reply: GatewayReply)
      modifies this
      ensures (lastValues, reply) == Receive(old(lastValues), body)
    {
      if body.EmptyNonList? {
        return Ok200;
      } else if body.OtherNonList? {
        return ServerError;
      }
      var items := body.items;
      ghost var s0 := Gateway(lastValues, false);
      var i := 0;
      while i < |items|
        invariant 0 <= i <= |items|
        invariant Gateway(lastValues, false) == Process(s0, items[..i])
      {
        var item := items[i];
        assert items[..i + 1][..i] == items[..i];
        if IsMst01(item) {
          var mac := MacOf(item);
          if HasChanged(lastValues, mac, item) {
            lastValues := lastValues[mac := item];
            if PrintRaises(item) {
              RaisedStays(s0, items, i + 1);
              return ServerError;
            }
          }
        }
        i := i + 1;
      }
      assert items[..i] == items;
      reply := Ok200;
    }
  }

  /** Once a KeyError has been raised, no later item has any effect. */
  lemma {:induction false} RaisedStays(s: Gateway, items: seq<RawItem>, i: nat)
    requires i <= |items| && Process(s, items[..i]).raised
    ensures Process(s, items) == Process(s, items[..i])
    decreases |items| - i
  {
    if i < |items| {
      assert items[..i + 1][..i] == items[..i];
      RaisedStays(s, items, i + 1);
    } else {
      assert items[..i] == items;
    }
  }
}
