/** What every endpoint reads from a request before it calls a service: the
    claims the token middleware stored, and the outcome of its own guards. */
module Request {
  /** What the token middleware leaves for the handlers: the `username` and
      `role` claims, `""` when a claim is missing or empty. */
  datatype Token = Token(username: string, role: string)

  /** Why an endpoint answers without calling its service. */
  datatype Refusal =
    | Unauthorized          // no token username (identity endpoints)
    | Forbidden             // the caller may not use the endpoint
    | UsernameRequired      // empty path username
    | TitleRequired         // empty path title
    | InvalidTokenUsername  // no token username (blog endpoints)
    | InvalidInput          // unreadable body
    | InvalidId             // role-request id not a positive number

  /** Either a refusal or the arguments the service is called with. */
  datatype Gate<T> = Refuse(why: Refusal) | Call(arg: T)

  /** `c.Query(key, def)`: a missing or empty query value reads as `def`. */
  function QueryOr(v: string, def: string): (r: string)
    ensures r == def || r == v
    ensures r == "" ==> def == ""
    ensures v != "" ==> r == v
  {
    if v == "" then def else v
  }
}
