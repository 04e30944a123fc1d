/** The raw values a cell can hold, the host operations the formatter calls
    but does not define, and the JavaScript conversions it relies on. */
module Values {
  import opened Text

  /** A raw cell value: absent (null), a string (large identifiers arrive as
      decimal-digit strings), a number, a boolean, or an array of values. */
  datatype RawValue =
    | Null
    | Str(s: string)
    | Num(x: real)
    | Bool(b: bool)
    | List(items: seq<RawValue>)

  /** The host operations the handlers call, taken as given:
      - toFixed: `Number.prototype.toFixed(digits)`;
      - numberText: `String(x)` for a number, as `join` and templates write it;
      - percentText: `toFixFloatVal(val * 100.0, format, ".")`, which rests on
        double-precision multiplication;
      - localeDateTime: `new Date(val).toLocaleDateString("en-US", ...)`;
      - durationText: the millisecond-duration rendering, which rests on
        double-precision division and `toFixed`. */
  datatype Runtime = Runtime(
    toFixed: (real, nat) -> string,
    numberText: real -> string,
    percentText: (RawValue, string) -> string,
    localeDateTime: RawValue -> string,
    durationText: RawValue -> string)

  /** `String(v)`: how `join`, a template string or a property lookup turns a
      value into text. An array is its elements joined with "," where a null
      element counts as the empty string. */
  function JsString(v: RawValue, rt: Runtime): (r: string)
    ensures v.Str? ==> r == v.s
    ensures v.Bool? ==> (r == "true" <==> v.b) && (r == "false" <==> !v.b)
    ensures v.List? && v.items == [] ==> r == ""
    ensures v.List? && |v.items| == 1 && !v.items[0].Null? ==> r == JsString(v.items[0], rt)
    ensures v.List? && |v.items| == 1 && v.items[0].Null? ==> r == ""
  {
    match v
    case Null => "null"
    case Str(s) => s
    case Num(x) => rt.numberText(x)
    case Bool(b) => if b then "true" else "false"
    case List(xs) =>
      Join(seq(|xs|, i requires 0 <= i < |xs| => if xs[i].Null? then "" else JsString(xs[i], rt)), ",")
  }

  /** JavaScript truthiness of a value. */
  function Truthy(v: RawValue): (b: bool)
    ensures !b <==> v in {Null, Str(""), Num(0.0), Bool(false)}
  {
    match v
    case Null => false
    case Str(s) => s != ""
    case Num(x) => x != 0.0
    case Bool(b) => b
    case List(_) => true
  }

  /** The `general` handler: null is shown as "N/A", anything else is passed
      through unchanged. It is also every other handler's fallback. */
  function General(v: RawValue): (r: RawValue)
    ensures !r.Null?
    ensures v.Null? ==> r == Str("N/A")
    ensures !v.Null? ==> r == v
  {
    if v.Null? then Str("N/A") else v
  }
}
