/** The Python values json.loads can return, the three Python operations the
    handler applies to them (truth testing, the `in` operator, the type name
    that appears in error messages), and the exceptions the handler can raise
    on its own. */
module PyJson {
  import opened Outcomes
  import opened PyStrings

  /** A value produced by json.loads: None, bool, int, float, str, list, dict. */
  datatype JsonValue =
    | JNull
    | JBool(b: bool)
    | JInt(i: int)
    | JFloat(f: real)
    | JString(s: string)
    | JArray(items: seq<JsonValue>)
    | JObject(fields: map<string, JsonValue>)

  /** The exceptions that can escape the handler's inner try block. Exceptions
      raised by a library carry the text str(e) gives for them. */
  datatype PyException =
    | IndexOutOfRange
    | NoAttribute(typeName: string, attribute: string)
    | NotIterable(typeName: string)
    | Raised(message: string)

  /** How json.loads fails: any ValueError (a JSONDecodeError among them, or
      the plain ValueError for an over-long integer literal) with its
      message, or another exception, such as the RecursionError a deeply
      nested text raises, with str(e). */
  datatype LoadFailure = ValueError(message: string) | OtherFailure(message: string)

  /** str(e), in CPython's wording. */
  function ExceptionText(e: PyException): string {
    match e
    case IndexOutOfRange => "list index out of range"
    case NoAttribute(t, a) => "'" + t + "' object has no attribute '" + a + "'"
    case NotIterable(t) => "argument of type '" + t + "' is not iterable"
    case Raised(m) => m
  }

  /** type(v).__name__ */
  function TypeName(v: JsonValue): string {
    match v
    case JNull => "NoneType"
    case JBool(_) => "bool"
    case JInt(_) => "int"
    case JFloat(_) => "float"
    case JString(_) => "str"
    case JArray(_) => "list"
    case JObject(_) => "dict"
  }

  /** bool(v): None, False, zero and the empty str, list and dict are false,
      and every other value is true. */
  predicate Truthy(v: JsonValue)
    ensures !Truthy(v) <==> v in {JNull, JBool(false), JInt(0), JFloat(0.0), JString(""), JArray([]), JObject(map[])}
  {
    match v
    case JNull => false
    case JBool(b) => b
    case JInt(i) => i != 0
    case JFloat(f) => f != 0.0
    case JString(s) => |s| > 0
    case JArray(items) => |items| > 0
    case JObject(fields) => |fields| > 0
  }

  /** The values `key in v` accepts without raising. */
  predicate IsContainer(v: JsonValue) {
    v.JObject? || v.JArray? || v.JString?
  }

  /** The Python expression `key in v` for a str key: key membership for a
      dict, element equality for a list, substring search for a str, and a
      TypeError for None, bool and numbers. */
  function Contains(v: JsonValue, key: string): (r: Result<bool, PyException>)
    ensures r.Err? <==> !IsContainer(v)
    ensures v.JObject? ==> r == Ok(key in v.fields)
    ensures r.Err? ==> r.error == NotIterable(TypeName(v))
  {
    match v
    case JObject(fields) => Ok(key in fields)
    case JArray(items) => Ok(JString(key) in items)
    case JString(s) => Ok(FindFrom(s, key, 0) != -1)
    case _ => Err(NotIterable(TypeName(v)))
  }

  /** `keys[0] in v and keys[1] in v and ...`, evaluated left to right: the
      first membership test that raises ends the evaluation with its error. */
  function AllIn(keys: seq<string>, v: JsonValue): (r: Result<bool, PyException>)
    ensures r.Err? <==> |keys| > 0 && !IsContainer(v)
    ensures r == Ok(true) <==> forall i :: 0 <= i < |keys| ==> Contains(v, keys[i]) == Ok(true)
    ensures r.Err? ==> r.error == NotIterable(TypeName(v))
    decreases |keys|
  {
    if |keys| == 0 then Ok(true)
    else
      match Contains(v, keys[0])
      case Err(e) => Err(e)
      case Ok(false) => Ok(false)
      case Ok(true) => AllIn(keys[1..], v)
  }
}
