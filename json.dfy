/** A JSON request body after ArduinoJson has parsed it, and the value
    conversions the handlers apply to its members.  A body that did not
    parse as an object is an empty document. */
module JsonDoc {
  import opened CText
  import TextFormat
  import opened Optional

  /** A member value.  `JOther` stands for arrays and objects, carried as
      their serialised text. */
  datatype JsonValue =
    | JNull
    | JBool(b: bool)
    | JInt(i: int)
    | JStr(s: Text)
    | JOther(json: Text)

  type Doc = map<Text, JsonValue>

  const MinInt32 := -0x8000_0000
  const MaxInt32 := 0x7FFF_FFFF

  predicate IsInt32(i: int)
  {
    MinInt32 <= i <= MaxInt32
  }

  /** `doc[key]`: a missing member reads as null. */
  function Member(doc: Doc, key: Text): JsonValue
  {
    if key in doc then doc[key] else JNull
  }

  /** Conversion to `const char*`: the string, or a null pointer (`None`)
      for every other kind of value. */
  function AsCString(v: JsonValue): (r: Option<Text>)
    ensures r.Some? <==> v.JStr?
  {
    if v.JStr? then Some(v.s) else None
  }

  /** Conversion to an Arduino `String`: a string value up to its first NUL;
      any other value as its JSON text, so a missing member gives "null". */
  function AsString(v: JsonValue): (r: Text)
    ensures Nul !in r
  {
    match v
    case JStr(s) => CStr(s)
    case JNull => "null"
    case JBool(b) => if b then "true" else "false"
    case JInt(i) => CStr(FromString(TextFormat.SignedDecimal(i)))
    case JOther(json) => CStr(json)
  }

  /** Conversion to `int`: an integer that fits, 1 or 0 for a boolean,
      0 for everything else. */
  function AsInt(v: JsonValue): (r: int)
    ensures IsInt32(r)
    ensures v.JInt? && IsInt32(v.i) ==> r == v.i
  {
    match v
    case JInt(i) => if IsInt32(i) then i else 0
    case JBool(b) => if b then 1 else 0
    case _ => 0
  }

  /** Conversion to `bool`: a boolean as is, a number when non-zero, false
      for null, true for strings, arrays and objects. */
  function AsBool(v: JsonValue): (r: bool)
    ensures v.JBool? ==> r == v.b
    ensures v.JNull? ==> !r
  {
    match v
    case JBool(b) => b
    case JInt(i) => i != 0
    case JNull => false
    case _ => true
  }
}
