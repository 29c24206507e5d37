/**
 * parser/parser.js: the sensor id normaliser and the conversion of posted
 * items into the pipeline's parsed-reading records.
 */
module Parser {
  import opened Wrappers
  import opened Text
  import opened Items

  /** normalizeSensorId: `(id || '').toLowerCase()`. */
  function NormalizeSensorId(id: Field<string>): (r: string)
    ensures StringTruthy(id) ==> |r| == |id.v|
  {
    if StringTruthy(id) then ToLowerAscii(id.v) else ""
  }

  /**
   * A missing, null or empty id becomes "", any other id keeps its length,
   * has each upper-case ASCII letter replaced by its lower-case counterpart
   * and every other character kept, and normalising a normalised id changes
   * nothing.
   */
  lemma NormalizeSensorIdContract(id: Field<string>)
    ensures !StringTruthy(id) ==> NormalizeSensorId(id) == ""
    ensures forall i :: 0 <= i < |NormalizeSensorId(id)| ==> !('A' <= NormalizeSensorId(id)[i] <= 'Z')
    ensures StringTruthy(id) ==> forall i :: 0 <= i < |id.v| && 'A' <= id.v[i] <= 'Z' ==>
      NormalizeSensorId(id)[i] == (id.v[i] as int - 'A' as int + 'a' as int) as char
    ensures StringTruthy(id) ==> forall i :: 0 <= i < |id.v| && !('A' <= id.v[i] <= 'Z') ==> NormalizeSensorId(id)[i] == id.v[i]
    ensures NormalizeSensorId(Value(NormalizeSensorId(id))) == NormalizeSensorId(id)
  {
    var r := NormalizeSensorId(id);
    if r != "" {
      var r' := NormalizeSensorId(Value(r));
      assert forall i :: 0 <= i < |r| ==> r'[i] == ToLowerChar(r[i]) == r[i];
    }
  }

  /** The record parseIncomingItems pushes for an MST01 item. */
  datatype ParsedItem = ParsedItem(
    valid: bool,
    source: string,
    format: string,
    sensorId: string,
    timestamp: Field<int>,
    temperature: Field<real>,
    humidity: Field<real>,
    rssi: Field<int>,
    raw: RawItem)

  /** The record of one item, whatever its type. */
  function ParseItem(item: RawItem): (p: ParsedItem)
    ensures p.valid && p.source == "post-mst01" && p.format == "json" && p.raw == item
    ensures p.sensorId == NormalizeSensorId(item.mac)
  {
    ParsedItem(true, "post-mst01", "json", NormalizeSensorId(item.mac),
               item.timestamp, item.temperature, item.humidity, item.rssi, item)
  }

  /** The records of the MST01 items of `items`, in their order. */
  function ParseItems(items: seq<RawItem>): seq<ParsedItem>
    decreases |items|
  {
    if items == [] then []
    else
      var n := |items| - 1;
      ParseItems(items[..n]) + if IsMst01(items[n]) then [ParseItem(items[n])] else []
  }

  /**
   * Parsing is done item by item and keeps order: the records of two runs
   * of items concatenated are the records of the first run followed by
   * those of the second.
   */
  lemma {:induction false} ParseItemsAppend(a: seq<RawItem>, b: seq<RawItem>)
    ensures ParseItems(a + b) == ParseItems(a) + ParseItems(b)
    decreases |b|
  {
    if b != [] {
      var n := |b| - 1;
      assert (a + b)[..|a + b| - 1] == a + b[..n];
      ParseItemsAppend(a, b[..n]);
    } else {
      assert a + b == a;
    }
  }

  /** One item yields its record when it is MST01 and nothing otherwise. */
  lemma ParseItemsOne(item: RawItem)
    ensures ParseItems([item]) == if IsMst01(item) then [ParseItem(item)] else []
  {
    assert [item][..0] == [];
  }

  /**
   * Every record is that of an MST01 item of the input, and every MST01
   * item of the input has its record in the output.
   */
  lemma {:induction false} ParseItemsMembers(items: seq<RawItem>)
    ensures forall p :: p in ParseItems(items) ==> p.raw in items && IsMst01(p.raw) && p == ParseItem(p.raw)
    ensures forall x :: x in items && IsMst01(x) ==> ParseItem(x) in ParseItems(items)
    decreases |items|
  {
    if items != [] {
      var n := |items| - 1;
      ParseItemsMembers(items[..n]);
      assert items == items[..n] + [items[n]];
    }
  }

  /** Why parseIncomingItems throws: iterating over null. */
  datatype ParseError = NotIterable

  /**
   * parseIncomingItems(items = []): a missing argument is the empty array,
   * null throws a TypeError, and an array is walked item by item.
   */
  method ParseIncomingItems(arg: Field<seq<RawItem>>) returns (r: Result<seq<ParsedItem>, ParseError>)
    ensures arg.Undefined? ==> r == Ok([])
    ensures arg.Null? ==> r == Err(NotIterable)
    ensures arg.Value? ==> r == Ok(ParseItems(arg.v))
  {
    if arg.Null? {
      return Err(NotIterable);
    }
    var items := if arg.Value? then arg.v else [];
    var parsed: seq<ParsedItem> := [];
    var i := 0;
    while i < |items|
      invariant 0 <= i <= |items|
      invariant parsed == ParseItems(items[..i])
    {
      var item := items[i];
      assert items[..i + 1][..i] == items[..i];
      if IsMst01(item) {
        parsed := parsed + [ParseItem(item)];
      }
      i := i + 1;
    }
    assert items[..i] == items;
    r := Ok(parsed);
  }
}
