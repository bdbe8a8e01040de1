/** The request and response vocabulary shared by the route handlers of
    3PL.py: a field read from the JSON body with `data.get(k)`, a body that
    should hold a list, and the status a handler answers with. */
module Api {
  import opened Tables

  /** `data.get(k)` on a JSON object: the key is absent, holds `null`, or
      holds a string. */
  datatype Field = Missing | Null | Text(text: string)

  /** `data.get(k) is not None` */
  predicate Present(f: Field)
  {
    f.Text?
  }

  /** `data.get(k)` stored in a nullable column. */
  function Stored(f: Field): (r: Option<string>)
    ensures r.Some? <==> Present(f)
    ensures r.Some? ==> r.value == f.text
  {
    if f.Text? then Some(f.text) else None
  }

  /** A request body that ought to be a JSON list: a list of items, or
      another JSON value that Python reads as true or false. */
  datatype Payload<T> = JsonList(items: seq<T>) | JsonOther(truthy: bool)

  /** `data = request.json or []` followed by `isinstance(data, list)`: the
      list to work on, or None when the body is a non-list truthy value. */
  function ListOrEmpty<T>(p: Payload<T>): (r: Option<seq<T>>)
    ensures r.None? <==> p.JsonOther? && p.truthy
    ensures p.JsonList? ==> r == Some(p.items)
    ensures p.JsonOther? && !p.truthy ==> r == Some([])
  {
    match p
    case JsonList(items) => Some(items)
    case JsonOther(truthy) => if truthy then None else Some([])
  }

  /** What a handler answers: `{"status": "ok"}` with its extra fields, an
      error status with its message, or an uncaught exception, which Flask
      turns into a 500 page. */
  datatype Response =
    | Done
    | Created(id: int)
    | SuiteCreated(id: int, key: string)
    | Removed(key: string, count: nat)
    | Failed(code: int, message: string)
    | Crashed

  const MissingFields: string := "Missing required fields"
  const MissingFieldsForUpdate: string := "Missing required fields for update"
}
