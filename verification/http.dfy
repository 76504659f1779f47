/** Replies of the HTTP handlers, reduced to what a caller can observe:
    a status code and an optional payload, or a rejection by input validation. */
module Http {

  /** The conventional Some/None datatype. */
  datatype Option<+T> = None | Some(value: T)

  const StatusOk: nat := 200
  const StatusCreated: nat := 201
  const StatusNoContent: nat := 204
  const StatusNotFound: nat := 404

  /** What a handler sends back. `Rejected` is a request whose body or route
      parameters failed schema validation; `issues` lists the offending paths
      ("" for the body itself). The status number of a rejection is decided by
      the application's error handler, which is not part of this model. */
  datatype Reply<+P> =
    | Reply(code: nat, payload: Option<P>)
    | Rejected(issues: seq<string>)

  /** The outcome of a handler that may write to a table: its reply and the
      table afterwards. */
  datatype Step<+R, +P> = Step(reply: Reply<P>, table: seq<R>)
}
