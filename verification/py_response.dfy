/**
 * `create_response` of the Python service: a JSON-like dictionary with
 * `status` and `message`, and `data` and `metadata` only when they are not
 * `None`. Python values are the `PyValue` datatype; `PyNone` is `None`.
 */
module PyResponse {

  /** The Python values the responses carry. */
  datatype PyValue =
    | PyNone
    | PyBool(b: bool)
    | PyInt(i: int)
    | PyStr(s: string)
    | PyList(items: seq<PyValue>)
    | PyDict(entries: map<string, PyValue>)

  /** Python truthiness: `None`, `False`, `0` and empty strings, lists and dictionaries are false. */
  predicate Truthy(v: PyValue) {
    match v
    case PyNone => false
    case PyBool(b) => b
    case PyInt(i) => i != 0
    case PyStr(s) => s != ""
    case PyList(items) => items != []
    case PyDict(entries) => entries != map[]
  }

  const DefaultStatus: PyValue := PyStr("success")
  const DefaultMessage: PyValue := PyStr("")

  /**
   * `create_response(status, message, data, metadata)`: the two fixed keys,
   * plus `data` and `metadata` for each that is not `None`.
   */
  function CreateResponse(status: PyValue, message: PyValue, data: PyValue, metadata: PyValue): (r: map<string, PyValue>)
    ensures "status" in r && r["status"] == status
    ensures "message" in r && r["message"] == message
    ensures "data" in r <==> data != PyNone
    ensures "metadata" in r <==> metadata != PyNone
    ensures r.Keys <= {"status", "message", "data", "metadata"}
  {
    var base := map["status" := status, "message" := message];
    var withData := if data != PyNone then base["data" := data] else base;
    if metadata != PyNone then withData["metadata" := metadata] else withData
  }

  /** The call with every argument left out: `create_response()`. */
  function DefaultResponse(): map<string, PyValue> {
    CreateResponse(DefaultStatus, DefaultMessage, PyNone, PyNone)
  }

  /** `dict.get(key)`: the value, or `None` when the key is absent. */
  function Get(d: map<string, PyValue>, key: string): (v: PyValue)
    ensures key !in d ==> v == PyNone
    ensures key in d ==> v == d[key]
  {
    if key in d then d[key] else PyNone
  }

  /** Reading the response back with `get` gives every argument back. */
  lemma ReadBack(status: PyValue, message: PyValue, data: PyValue, metadata: PyValue)
    ensures var r := CreateResponse(status, message, data, metadata);
      && Get(r, "status") == status && Get(r, "message") == message
      && Get(r, "data") == data && Get(r, "metadata") == metadata
  {
  }

  /** The test is `is not None`, not truthiness: an empty list, `0` or `""` as data is still included. */
  lemma FalsyDataKept(status: PyValue, message: PyValue, data: PyValue)
    requires data != PyNone && !Truthy(data)
    ensures "data" in CreateResponse(status, message, data, PyNone)
    ensures "metadata" !in CreateResponse(status, message, data, PyNone)
  {
  }

  /** With no arguments the response is `{"status": "success", "message": ""}`. */
  lemma DefaultResponseShape()
    ensures DefaultResponse() == map["status" := PyStr("success"), "message" := PyStr("")]
  {
  }

  /** Two responses are equal exactly when their arguments are. */
  lemma CreateResponseInjective(s1: PyValue, m1: PyValue, d1: PyValue, x1: PyValue,
                                s2: PyValue, m2: PyValue, d2: PyValue, x2: PyValue)
    requires CreateResponse(s1, m1, d1, x1) == CreateResponse(s2, m2, d2, x2)
    ensures s1 == s2 && m1 == m2 && d1 == d2 && x1 == x2
  {
    ReadBack(s1, m1, d1, x1);
    ReadBack(s2, m2, d2, x2);
  }
}
