/**
 * The JSON items a gateway posts: `{type, mac, timestamp, temperature,
 * humidity, rssi}`. Every property may be missing (undefined in JavaScript,
 * absent from the Python dict), JSON null, or carry a value. The item's
 * timestamp is taken to be a JSON number of epoch milliseconds.
 */
module Items {
  import opened Wrappers
  import opened Text

  /** One property of a parsed JSON object. */
  datatype Field<+T> = Undefined | Null | Value(v: T)

  /** A gateway item; `kind` is the item's `type` property. */
  datatype RawItem = RawItem(
    kind: Field<string>,
    mac: Field<string>,
    timestamp: Field<int>,
    temperature: Field<real>,
    humidity: Field<real>,
    rssi: Field<int>)

  /** A request body: a JSON array of items, or anything else. */
  datatype Payload = NotAnArray | Items(items: seq<RawItem>)

  /** `x == null` in JavaScript: true of both null and undefined. */
  predicate IsNullish<T>(f: Field<T>) { f.Undefined? || f.Null? }

  /** A string property in a boolean context: falsy when missing, null or "". */
  predicate StringTruthy(f: Field<string>) { f.Value? && f.v != "" }

  /** A number property in a boolean context: falsy when missing, null or 0. */
  predicate NumberTruthy(f: Field<int>) { f.Value? && f.v != 0 }

  /** `item.type === 'MST01'`. */
  predicate IsMst01(item: RawItem) { item.kind == Value("MST01") }

  /** The SQL value a property binds to: undefined and null both become NULL. */
  function ToSql<T>(f: Field<T>): (r: Option<T>)
    ensures r.Some? <==> f.Value?
    ensures r.Some? ==> r.value == f.v
  {
    if f.Value? then Some(f.v) else None
  }

  /** A string property interpolated into a template literal: `${x}`. */
  function TemplateString(f: Field<string>): string
  {
    match f
    case Undefined => "undefined"
    case Null => "null"
    case Value(s) => s
  }

  /** A number property interpolated into a template literal: `${x}`. */
  function TemplateNumber(f: Field<int>): string
  {
    match f
    case Undefined => "undefined"
    case Null => "null"
    case Value(n) => DecimalString(n)
  }
}
