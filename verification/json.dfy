/** The parsed JSON tree the parser walks (Gson's `JsonElement` family) and the
    accessors it calls on it. Each accessor either yields a value or fails the way
    the Java call throws: a missing key makes `get` return `null`, which the next
    call dereferences; a value of the wrong kind makes `getAsJsonObject`,
    `getAsJsonArray`, `getAsInt`, `getAsString` or `getAsBoolean` throw; an index
    outside an array makes `JsonArray.get` throw. */
module JsonTree {
  import opened Lang

  datatype Json =
    | JNull
    | JBool(b: bool)
    | JNum(n: int)
    | JStr(s: string)
    | JArr(elems: seq<Json>)
    | JObj(fields: map<string, Json>)

  datatype Kind = ObjectKind | ArrayKind | NumberKind | StringKind | BooleanKind

  /** Why an extraction stopped: the Java exception, named by its cause. */
  datatype Error =
    | MissingKey(key: string)
    | WrongKind(expected: Kind)
    | IndexOutOfBounds(index: int, size: nat)

  datatype Result<+T> = Ok(value: T) | Err(error: Error) {
    predicate IsFailure() {
      Err?
    }

    function PropagateFailure<U>(): Result<U>
      requires Err?
    {
      Err(error)
    }

    function Extract(): T
      requires Ok?
    {
      value
    }

    function ToOption(): Option<T> {
      match this
      case Ok(v) => Some(v)
      case Err(_) => None
    }
  }

  /** `JsonObject.get(key)`, followed by a dereference of the result. */
  function Get(obj: map<string, Json>, key: string): Result<Json> {
    if key in obj then Ok(obj[key]) else Err(MissingKey(key))
  }

  /** `JsonElement.getAsJsonObject()`. */
  function AsObject(j: Json): Result<map<string, Json>> {
    if j.JObj? then Ok(j.fields) else Err(WrongKind(ObjectKind))
  }

  /** `JsonElement.getAsJsonArray()`. */
  function AsArray(j: Json): Result<seq<Json>> {
    if j.JArr? then Ok(j.elems) else Err(WrongKind(ArrayKind))
  }

  /** `JsonElement.getAsInt()` on a number: the value narrowed to 32 bits. */
  function AsInt(j: Json): Result<int32> {
    if j.JNum? then Ok(ToInt32(j.n)) else Err(WrongKind(NumberKind))
  }

  /** `JsonElement.getAsString()` on a string. */
  function AsString(j: Json): Result<string> {
    if j.JStr? then Ok(j.s) else Err(WrongKind(StringKind))
  }

  /** `JsonElement.getAsBoolean()` on a boolean. */
  function AsBool(j: Json): Result<bool> {
    if j.JBool? then Ok(j.b) else Err(WrongKind(BooleanKind))
  }

  /** `JsonArray.get(i)`. */
  function At(arr: seq<Json>, i: int): Result<Json> {
    if 0 <= i < |arr| then Ok(arr[i]) else Err(IndexOutOfBounds(i, |arr|))
  }

  /** `obj.get(key).getAsJsonObject()`. */
  function ObjectField(obj: map<string, Json>, key: string): Result<map<string, Json>> {
    var j :- Get(obj, key);
    AsObject(j)
  }

  /** `obj.get(key).getAsJsonArray()`. */
  function ArrayField(obj: map<string, Json>, key: string): Result<seq<Json>> {
    var j :- Get(obj, key);
    AsArray(j)
  }

  // ---------------------------------------------------------------------------
  // Reference reading of a fixed key path, independent of the accessor chains

  /** The value reached from `j` by following the object keys of `path`, if every
      step lands on an object that has the next key. */
  function Walk(j: Json, path: seq<string>): Option<Json>
    decreases |path|
  {
    if path == [] then Some(j)
    else if j.JObj? && path[0] in j.fields then Walk(j.fields[path[0]], path[1..])
    else None
  }

  /** The string at the end of `path`, if the path exists and ends on a string. */
  function StringAt(j: Json, path: seq<string>): Option<string> {
    match Walk(j, path)
    case Some(JStr(s)) => Some(s)
    case _ => None
  }

  /** The number at the end of `path`, read as a Java `int`. */
  function IntAt(j: Json, path: seq<string>): Option<int32> {
    match Walk(j, path)
    case Some(JNum(n)) => Some(ToInt32(n))
    case _ => None
  }

  /** The array at the end of `path`. */
  function ArrayAt(j: Json, path: seq<string>): Option<seq<Json>> {
    match Walk(j, path)
    case Some(JArr(a)) => Some(a)
    case _ => None
  }
}
