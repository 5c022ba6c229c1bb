/**
 * The older middleware of src/middleware/auth.ts: `requireAuth` with a case-sensitive
 * `Bearer ` prefix, and the `requireRole` gate. Token verification is an oracle.
 */
module AuthMiddleware {
  import opened Wrappers
  import opened Text

  /** The payload the middleware attaches as `req.user`. */
  datatype JwtUser = JwtUser(id: string, role: string)

  /** A middleware outcome: `next()` (with the user attached by `requireAuth`), or an error
      response. */
  datatype Outcome = Attach(user: JwtUser) | Proceed | Deny(status: int, error: string)

  const Prefix: string := "Bearer "

  /** Line 11: the text after an exact `Bearer ` prefix, or nothing. An unset header reads as
      the empty string. */
  function TokenOf(header: Option<string>): (r: Option<string>)
    ensures r.Some? <==> StartsWith(header.GetOr(""), Prefix)
    ensures r.Some? ==> header.value == Prefix + r.value
  {
    var h := header.GetOr("");
    if StartsWith(h, Prefix) then
      assert h == h[..7] + h[7..];
      Some(h[7..])
    else None
  }

  /** `requireAuth` (lines 9-20). `verify` returns the payload, or `None` when it throws. */
  function RequireAuth(header: Option<string>, verify: string -> Option<JwtUser>): (o: Outcome)
    ensures o.Deny? ==> o.status == 401
    ensures o == Deny(401, "missing token") <==> TokenOf(header).None? || TokenOf(header) == Some([])
    ensures o.Attach? <==> exists t :: TokenOf(header) == Some(t) && t != [] && verify(t).Some?
    ensures o.Attach? ==> o.user == verify(TokenOf(header).value).value
    ensures !o.Proceed?
  {
    match TokenOf(header)
    case None => Deny(401, "missing token")
    case Some(token) =>
      if token == [] then Deny(401, "missing token")
      else
        match verify(token)
        case None => Deny(401, "invalid token")
        case Some(user) => Attach(user)
  }

  /** The token round trip: `Bearer ` followed by a non-empty token hands exactly that token to
      the verifier. */
  lemma TokenRoundTrip(token: string, verify: string -> Option<JwtUser>)
    requires token != []
    ensures TokenOf(Some(Prefix + token)) == Some(token)
    ensures RequireAuth(Some(Prefix + token), verify) ==
      if verify(token).Some? then Attach(verify(token).value) else Deny(401, "invalid token")
  {
    assert (Prefix + token)[..7] == Prefix;
  }

  /** The prefix is case-sensitive and needs the single space: `bearer x` and `Bearer` alone are
      both missing tokens, as is `Bearer ` with nothing after it. */
  lemma PrefixIsExact(verify: string -> Option<JwtUser>)
    ensures RequireAuth(Some("bearer x"), verify) == Deny(401, "missing token")
    ensures RequireAuth(Some("Bearer"), verify) == Deny(401, "missing token")
    ensures RequireAuth(Some("Bearer "), verify) == Deny(401, "missing token")
    ensures RequireAuth(None, verify) == Deny(401, "missing token")
  {
    assert "bearer x"[..7] != Prefix by {
      assert "bearer x"[0] != Prefix[0];
    }
    assert "Bearer "[7..] == [];
  }

  /** The two roles a route can require. */
  datatype Role = User | Admin

  /** `requireRole` (lines 24-31): no user answers 401; `USER` routes admit every authenticated
      user; `ADMIN` routes admit only a user whose role is exactly `ADMIN`. */
  function RequireRole(required: Role, user: Option<JwtUser>): (o: Outcome)
    ensures user.None? ==> o == Deny(401, "unauthorized")
    ensures user.Some? && required == User ==> o == Proceed
    ensures user.Some? && required == Admin ==> (o == Proceed <==> user.value.role == "ADMIN")
    ensures o.Deny? ==> o in {Deny(401, "unauthorized"), Deny(403, "forbidden")}
  {
    match user
    case None => Deny(401, "unauthorized")
    case Some(u) =>
      if required == User then Proceed
      else if u.role == "ADMIN" then Proceed
      else Deny(403, "forbidden")
  }

  /** Whatever `requireRole(ADMIN)` admits, `requireRole(USER)` admits too. */
  lemma AdminImpliesUser(user: Option<JwtUser>)
    ensures RequireRole(Admin, user) == Proceed ==> RequireRole(User, user) == Proceed
  {
  }

  /** The role check is case-sensitive: a lower-case `admin` is forbidden. */
  lemma AdminRoleIsExact(id: string)
    ensures RequireRole(Admin, Some(JwtUser(id, "admin"))) == Deny(403, "forbidden")
    ensures RequireRole(Admin, Some(JwtUser(id, "ADMIN"))) == Proceed
  {
  }
}
