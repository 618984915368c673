/**
 * JavaScript values as the dataset bundle returned by the server holds them,
 * property reads on plain objects, the two null tests (`=== null` as the code
 * is written, `== null` as it evidently was meant), and conversion to text.
 */
module JsValues {
  import opened JsStrings

  /** `Number.MAX_VALUE`, written out exactly. */
  const MaxValue: real := 179769313486231570814527423731704356798070567525844996598917476803157260780028538760589558632766878171540458953514382464234321326889464182768467546703537516986049910576551282076245490090389328944075868508455133942304583236903222948165808559332123348274797826204144723168738177180919299881250404026184124858368.0

  /**
   * A finite JavaScript number. The model keeps numbers finite by choice:
   * `JSON.parse` can yield an infinity (an out-of-range literal such as
   * `1e400`), and such values are not represented.
   */
  type Double = x: real | -MaxValue <= x <= MaxValue

  /** A JavaScript value that can occur in a dataset cell or in a variable mapping. */
  datatype Value =
    | Undefined
    | Null
    | Num(x: Double)
    | Str(s: string)
    | Arr(items: seq<Value>)

  /**
   * A property of the dataset bundle whose value is null or an array:
   * `Absent` is a missing property, which JavaScript reads as `undefined`.
   */
  datatype Entry<+T> = Absent | NullEntry | Present(value: T)

  /** `obj[key]` on a plain object. */
  function Get<T>(obj: map<string, Entry<T>>, key: string): Entry<T> {
    if key in obj then obj[key] else Absent
  }

  /** `obj[key]` on the name-to-value mapping built for the preview. */
  function Lookup(obj: map<string, Value>, key: string): Value {
    if key in obj then obj[key] else Undefined
  }

  /**
   * The test a missing entry is put to. The code as written compares with
   * `=== null`, which `undefined` fails (`StrictNull`); `== null` also
   * accepts `undefined` (`LooseNull`).
   */
  datatype NullCheck = StrictNull | LooseNull

  predicate EntryIsNull<T>(check: NullCheck, e: Entry<T>) {
    e.NullEntry? || (check == LooseNull && e.Absent?)
  }

  predicate ValueIsNull(check: NullCheck, v: Value) {
    v.Null? || (check == LooseNull && v.Undefined?)
  }

  /** The outcome of code that may throw: the only exception raised here is a TypeError. */
  datatype Result<+T> = Ok(value: T) | TypeError

  /**
   * Number-to-text conversion, which is floating-point formatting and is not
   * modelled: `show` is `'' + x` (Number::toString) and `precision4` is
   * `x.toPrecision(4)`.
   */
  datatype NumberFormat = NumberFormat(show: Double -> string, precision4: Double -> string)

  /** ToString(v), as string concatenation and `String.prototype.replace` apply it. */
  function ValueText(v: Value, fmt: NumberFormat): string {
    match v
    case Undefined => "undefined"
    case Null => "null"
    case Num(x) => fmt.show(x)
    case Str(s) => s
    case Arr(items) =>
      // Array.prototype.toString joins with "," and shows null and undefined as "".
      Join(",", seq(|items|, i requires 0 <= i < |items| =>
        if items[i].Null? || items[i].Undefined? then "" else ValueText(items[i], fmt)))
  }
}
