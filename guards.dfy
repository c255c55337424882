/**
 * The two decorators of app/auth/guards.py. Each is the check it runs before
 * the wrapped handler: `None` lets the handler run, `Some(o)` is the response
 * given instead, and then the handler is never called.
 */
module Guards {
  import opened Text
  import opened Web

  /** `login_required`: the handler runs exactly when the token verifies. */
  function LoginRequired(s: Session): (r: Option<Outcome>)
    ensures r.None? <==> s.Verified?
    ensures r.Some? ==> r.value == Unauthorized
  {
    if s.NoSession? then Some(Unauthorized) else None
  }

  /**
   * `admin_required`: the handler runs exactly when the token verifies and its
   * role claim is the literal "admin" (so "Admin", "ADMIN", " admin" and a
   * missing claim are all refused, with 403).
   */
  function AdminRequired(s: Session): (r: Option<Outcome>)
    ensures r.None? <==> s.Verified? && s.claims.role == Some("admin")
    ensures r.Some? ==> r.value == (if s.Verified? then Abort(403) else Unauthorized)
  {
    if s.NoSession? then Some(Unauthorized)
    else if s.claims.role != Some("admin") then Some(Abort(403))
    else None
  }
}
