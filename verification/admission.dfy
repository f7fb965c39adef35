/** What the two limiter middlewares share: how the caller is identified and the
    outcomes a request can reach. */
module Admission {
  import opened Wrappers

  /** The two request fields the middleware reads: the `x-forwarded-for` header and
      the peer address; each may be absent. */
  datatype Request = Request(forwardedFor: Option<string>, ip: Option<string>)

  const BadRequest: int := 400
  const TooManyRequests: int := 429
  const ServerError: int := 500

  /** Terminal state of one request: handed on to the next handler, or answered
      with a status code. */
  datatype Outcome = Continue | Reject(status: int)

  /** The caller's identity, `x-forwarded-for ?? ip`, or `None` when that is missing
      or empty. A present but empty header does not fall back to the peer address. */
  function UserId(req: Request): (r: Option<string>)
    ensures r.Some? ==> r.value != ""
    ensures r.Some? ==> r == req.forwardedFor || (req.forwardedFor.None? && r == req.ip)
    ensures r.None? <==>
      req.forwardedFor == Some("") || (req.forwardedFor.None? && req.ip in {None, Some("")})
  {
    var id := if req.forwardedFor.Some? then req.forwardedFor else req.ip;
    if id.None? || id.value == "" then None else id
  }

  /** Whether the store call with index `k` of this request is the one that fails. */
  predicate Fails(fault: Option<nat>, k: nat) {
    fault == Some(k)
  }
}
