/**
 * The decoded JSON request body as the controller sees it after
 * `json_decode($content, true)`: an ordered PHP array from keys to values,
 * together with PHP's `empty()` on one of its entries, and the responses
 * the actions return.
 */
module Payload {
  import opened Wrappers
  import opened Rows

  /**
   * A decoded value. A scalar is held as PHP's string form of it (what
   * `"$v"` and `str_replace` use); an array or object as its elements,
   * each element read as the row of its own values.
   */
  datatype Value = Scalar(text: string) | List(rows: seq<Row>)

  /** One key of the decoded object, in document order. */
  datatype Entry = Entry(key: string, value: Value)

  /** The decoded object: its entries in the order `foreach` visits them. */
  type Payload = seq<Entry>

  /**
   * A decoded JSON object holds each key once: `json_decode` keeps one
   * entry per key, so every array the controller receives has this shape.
   */
  ghost predicate UniqueKeys(data: Payload) {
    forall i, j :: 0 <= i < j < |data| ==> data[i].key != data[j].key
  }

  /** `$data[$key]`: the value stored under `key`, if any. */
  function Lookup(data: Payload, key: string): (r: Option<Value>)
    ensures r.None? <==> forall i :: 0 <= i < |data| ==> data[i].key != key
    ensures r.Some? ==> exists i :: 0 <= i < |data| && data[i] == Entry(key, r.value)
    decreases |data|
  {
    if data == [] then None
    else if data[0].key == key then Some(data[0].value)
    else
      var r := Lookup(data[1..], key);
      if r.Some? then
        ghost var i :| 0 <= i < |data[1..]| && data[1..][i] == Entry(key, r.value);
        assert data[i + 1] == Entry(key, r.value);
        r
      else r
  }

  /** In a decoded object, looking up an entry's key gives that entry's value. */
  lemma LookupUnique(data: Payload, i: nat)
    requires UniqueKeys(data) && i < |data|
    ensures Lookup(data, data[i].key) == Some(data[i].value)
  {
    var r := Lookup(data, data[i].key);
    var j :| 0 <= j < |data| && data[j] == Entry(data[i].key, r.value);
  }

  /**
   * `empty($data[$key])`: the key is missing, or its value is null, false,
   * `0`, `0.0`, `""`, `"0"` or the empty array. The string form of each of
   * these scalars is `""` or `"0"`; the one empty scalar this misses is the
   * float `-0.0`, whose string form is `"-0"`.
   */
  predicate IsEmpty(v: Option<Value>) {
    match v
    case None => true
    case Some(Scalar(t)) => t == "" || t == "0"
    case Some(List(rows)) => rows == []
  }

  /** What an action hands back to the framework to send as JSON. */
  datatype Response =
    | Documentation           // the static endpoint description answering a GET
    | Html(html: string)      // `{"html": ...}`
    | Error(error: string)    // `{"error": ...}`
    | Success(html: string)   // `{"status": "success", "html": ...}`
    | Failed(message: string) // `{"status": "error", "message": ...}`

  const ContentTypeError := "Invalid Content-Type. Expected application/json."
  const JsonError := "Invalid JSON payload."
  const MethodError := "Invalid request method."
  const InvalidData := "Dados inválidos ou formato de JSON incorreto."

  /** The message naming a required field that is missing or empty. */
  function FieldError(field: string): (msg: string)
    ensures |msg| == |field| + 21
    ensures msg[..7] == "Field '" && msg[7..|msg| - 14] == field && msg[|msg| - 14..] == "' is required."
  {
    "Field '" + field + "' is required."
  }

  /** Different fields give different messages, so the message tells which field failed. */
  lemma FieldErrorNames(a: string, b: string)
    requires FieldError(a) == FieldError(b)
    ensures a == b
  {
  }
}
