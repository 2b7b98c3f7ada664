/** What a handler reads from a request and what it hands back: JSON fields
    with Python's notion of truthiness, and a reply made of a status code, a
    body and the store after the request. */
module Http {
  import opened Models

  const OK: nat := 200
  const CREATED: nat := 201
  const BAD_REQUEST: nat := 400
  const UNAUTHORIZED: nat := 401
  const FORBIDDEN: nat := 403
  const NOT_FOUND: nat := 404

  /** One key of a JSON object body: missing, explicitly `null`, or a value.
      A JSON `null` or `{}` body reads as every key missing. */
  datatype Field<+T> = Absent | Null | Value(v: T)

  /** `data.get(key)` is truthy: present and not the empty string. */
  predicate TruthyText(f: Field<string>) {
    f.Value? && f.v != ""
  }

  /** `data.get(key)` is truthy: present and not zero. */
  predicate TruthyNumber(f: Field<Id>) {
    f.Value? && f.v != 0
  }

  /** A `{'message': ...}` body, the framework's 404 page raised by
      `get_or_404`, or an endpoint-specific payload. */
  datatype Body<+P> = Note(message: string) | NotFoundPage | Payload(data: P)

  datatype Reply<+P> = Reply(status: nat, body: Body<P>, store: Store)

  /** What `get_or_404` produces for a missing row; nothing is written. */
  function NotFound<P>(st: Store): Reply<P> {
    Reply(NOT_FOUND, NotFoundPage, st)
  }
}
