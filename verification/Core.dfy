/**
 Shared vocabulary of the catalog model: optional values, the outcome of an operation
 that may throw, the exceptions the PHP code raises, clock readings, and the JSON-like
 values that PHP arrays are rendered as.
 */
module Core {

  datatype Option<+T> = None | Some(value: T)

  /** The three exception classes the code throws or lets through. Every catch in the
      code only reads the message, so the message is all a failure carries. */
  datatype Exception =
    | InvalidArgument(message: string)   // InvalidArgumentException
    | Runtime(message: string)           // RuntimeException
    | Database(message: string)          // PDOException raised by the SQLite driver

  /** Either the value an operation returns or the exception it throws. */
  datatype Result<+T> = Success(value: T) | Failure(error: Exception)

  /** A clock reading, in whole seconds. The model never looks inside one beyond its
      order; date parsing and formatting are not part of this model. */
  datatype Timestamp = Timestamp(seconds: int)

  /** A floating-point value, kept opaque: the model only copies floats around. */
  datatype Float = Float(bits: int)

  /** A value of a PHP array as it reaches JSON. Objects keep their key order, as PHP
      arrays do. `JTime` stands for a timestamp rendered by the date formatter. */
  datatype Json =
    | JNull
    | JBool(b: bool)
    | JInt(i: int)
    | JFloat(f: Float)
    | JString(s: string)
    | JTime(t: Timestamp)
    | JList(items: seq<Json>)
    | JObject(entries: seq<(string, Json)>)

  /** The keys of an object, in order. */
  function KeysOf(entries: seq<(string, Json)>): (keys: seq<string>)
    ensures |keys| == |entries|
    ensures forall i :: 0 <= i < |entries| ==> keys[i] == entries[i].0
  {
    if entries == [] then [] else [entries[0].0] + KeysOf(entries[1..])
  }

  lemma KeysOfTwo(a: string, x: Json, b: string, y: Json)
    ensures KeysOf([(a, x), (b, y)]) == [a, b]
  {
    assert [(a, x), (b, y)][1..] == [(b, y)];
  }

  /** The value stored under `key`, as PHP's `$array[$key]` reads it. */
  function Get(entries: seq<(string, Json)>, key: string): (r: Option<Json>)
    ensures r.None? <==> key !in KeysOf(entries)
    ensures r.Some? ==> (key, r.value) in entries
  {
    if entries == [] then None
    else if entries[0].0 == key then Some(entries[0].1)
    else Get(entries[1..], key)
  }

  /** An HTTP response: the status code set with `http_response_code` and the array
      that is JSON-encoded as the body. */
  datatype Response = Response(status: int, body: Json)

  /** The `{error, message}` body the controllers, router and middleware return. */
  function ErrorBody(error: string, message: string): (r: Json)
    ensures r.JObject? && KeysOf(r.entries) == ["error", "message"]
    ensures Get(r.entries, "message") == Some(JString(message))
  {
    JObject([("error", JString(error)), ("message", JString(message))])
  }
}
