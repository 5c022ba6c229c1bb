/**
 * The JWT middleware of src/middleware/authJwt.ts: reading a bearer token from the
 * `Authorization` header, `requireAuth`, and `requireAdmin`, which checks the role stored in the
 * database. Token verification and the role query are oracles.
 */
module AuthJwt {
  import opened Wrappers
  import opened Text

  /** A request header as Express exposes it: absent, a string, or some other value. */
  datatype Header = Absent | Str(s: string) | NonString

  /** `a || b` on header values: an absent or empty-string header falls through to `b`. */
  function EitherHeader(a: Header, b: Header): (r: Header)
    ensures (a == Absent || a == Str("")) ==> r == b
    ensures !(a == Absent || a == Str("")) ==> r == a
  {
    if a == Absent || a == Str("") then b else a
  }

  /** The scheme word, case-insensitively. */
  predicate IsBearerWord(w: string) {
    ToLower(w) == "bearer"
  }

  /** `/^Bearer\s+(.+)$/i` matching with `\s+` taking exactly `k` characters: the scheme, `k`
      whitespace characters, then a non-empty rest without line terminators up to the end. */
  predicate MatchAt(s: string, k: nat) {
    && 1 <= k && 6 + k < |s|
    && IsBearerWord(s[..6])
    && (forall j :: 6 <= j < 6 + k ==> IsSpace(s[j]))
    && (forall j :: 6 + k <= j < |s| ==> !IsLineTerminator(s[j]))
  }

  /** What `h.match(/^Bearer\s+(.+)$/i)` yields for group 1: `r` is present exactly when some split
      matches, and then it is the rest after the longest run `\s+` can take. */
  ghost predicate Captures(s: string, r: Option<string>) {
    && (r.Some? <==> exists k: nat :: MatchAt(s, k))
    && (r.Some? ==> exists k: nat :: MatchAt(s, k) && r.value == s[6 + k..] && forall k': nat :: k < k' ==> !MatchAt(s, k'))
  }

  /** Line 16: the captured group. `\s+` is greedy, so it keeps as much whitespace as it can
      while the rest still matches; when whitespace runs to the end, the last whitespace
      character is handed back to the group. */
  function BearerMatch(s: string): (r: Option<string>)
    ensures Captures(s, r)
  {
    if |s| < 6 || !IsBearerWord(s[..6]) then
      NoCapture(s);
      None
    else
      var rest := s[6..];
      var body := TrimStart(rest);
      var n := |rest| - |body|;
      BearerRun(s, n);
      if n == 0 then
        NoCapture(s);
        None
      else if body != [] then
        if forall j :: 0 <= j < |body| ==> !IsLineTerminator(body[j]) then
          CaptureRest(s, n);
          Some(body)
        else
          BearerBlocked(s, n);
          NoCapture(s);
          None
      else if n >= 2 && !IsLineTerminator(rest[n - 1]) then
        CaptureLast(s, n);
        Some([rest[n - 1]])
      else
        NoCaptureAllSpace(s, n);
        None
  }

  lemma NoCapture(s: string)
    requires forall k: nat :: !MatchAt(s, k)
    ensures Captures(s, None)
  {
  }

  lemma Capture(s: string, k: nat)
    requires MatchAt(s, k) && forall k': nat :: k < k' ==> !MatchAt(s, k')
    ensures Captures(s, Some(s[6 + k..]))
  {
  }

  /** Text after the whitespace run, free of line terminators, is the capture. */
  lemma CaptureRest(s: string, n: nat)
    requires 6 + n < |s| && 1 <= n && IsBearerWord(s[..6])
    requires forall j :: 6 <= j < 6 + n ==> IsSpace(s[j])
    requires forall k: nat :: MatchAt(s, k) ==> k <= n
    requires forall j :: 6 + n <= j < |s| ==> !IsLineTerminator(s[j])
    ensures Captures(s, Some(s[6 + n..]))
  {
    assert MatchAt(s, n);
    Capture(s, n);
  }

  /** Whitespace to the end: the last character is handed back to the group. */
  lemma CaptureLast(s: string, n: nat)
    requires 6 + n == |s| && 2 <= n && IsBearerWord(s[..6])
    requires forall j :: 6 <= j < 6 + n ==> IsSpace(s[j])
    requires !IsLineTerminator(s[|s| - 1])
    ensures Captures(s, Some([s[|s| - 1]]))
  {
    assert MatchAt(s, n - 1);
    Capture(s, n - 1);
    assert s[6 + (n - 1)..] == [s[|s| - 1]];
  }

  /** Whitespace to the end, with a single character or a line terminator last: no match. */
  lemma NoCaptureAllSpace(s: string, n: nat)
    requires 6 + n == |s| && (n < 2 || IsLineTerminator(s[|s| - 1]))
    requires forall k: nat :: MatchAt(s, k) ==> k < n
    ensures Captures(s, None)
  {
    assert forall k: nat :: MatchAt(s, k) ==> !IsLineTerminator(s[|s| - 1]);
    NoCapture(s);
  }

  /** The whitespace run after the scheme has length `n`: `\s+` can take at most `n` characters,
      and must leave at least one. */
  lemma BearerRun(s: string, n: nat)
    requires 6 <= |s| && IsBearerWord(s[..6])
    requires n == |s[6..]| - |TrimStart(s[6..])|
    ensures forall j :: 6 <= j < 6 + n ==> IsSpace(s[j])
    ensures s[6 + n..] == TrimStart(s[6..])
    ensures forall k: nat :: MatchAt(s, k) ==> k <= n
    ensures 6 + n == |s| ==> forall k: nat :: MatchAt(s, k) ==> k < n
  {
    var rest := s[6..];
    var body := TrimStart(rest);
    assert body == rest[n..];
    assert forall j :: 6 <= j < 6 + n ==> s[j] == rest[j - 6];
    assert 6 + n < |s| ==> body[0] == s[6 + n];
  }

  /** A line terminator after the whitespace run rules out every match. */
  lemma BearerBlocked(s: string, n: nat)
    requires 6 + n < |s|
    requires forall k: nat :: MatchAt(s, k) ==> k <= n
    requires exists j :: 6 + n <= j < |s| && IsLineTerminator(s[j])
    ensures forall k: nat :: !MatchAt(s, k)
  {
    var j :| 6 + n <= j < |s| && IsLineTerminator(s[j]);
  }

  /** `extractBearer` (lines 13-18). */
  function ExtractBearer(lower: Header, upper: Header): (r: Option<string>)
    ensures r.Some? ==> r.value != []
    ensures EitherHeader(lower, upper).Str? && EitherHeader(lower, upper).s != [] ==>
      r == BearerMatch(EitherHeader(lower, upper).s)
    ensures !EitherHeader(lower, upper).Str? ==> r == None
  {
    match EitherHeader(lower, upper)
    case Str(h) => if h == [] then None else BearerMatch(h)
    case _ => None
  }

  /** Round trip: the scheme in any case, a run of whitespace, and a token that starts with a
      non-space and holds no line terminator give back the token. */
  lemma BearerOfToken(scheme: string, ws: string, token: string)
    requires |scheme| == 6 && IsBearerWord(scheme)
    requires |ws| >= 1 && forall i :: 0 <= i < |ws| ==> IsSpace(ws[i])
    requires token != [] && !IsSpace(token[0])
    requires forall i :: 0 <= i < |token| ==> !IsLineTerminator(token[i])
    ensures BearerMatch(scheme + ws + token) == Some(token)
  {
    var s := scheme + ws + token;
    assert s[..6] == scheme;
    var k := |ws|;
    assert s[6 + k..] == token;
    assert MatchAt(s, k);
    var r := BearerMatch(s);
    var k0: nat :| MatchAt(s, k0) && r.value == s[6 + k0..] && forall k': nat :: k0 < k' ==> !MatchAt(s, k');
    assert k0 >= k;
    assert k0 == k;
  }

  /** The regular expression determines the capture: at most one value satisfies `Captures`. */
  lemma CapturesUnique(s: string, r1: Option<string>, r2: Option<string>)
    requires Captures(s, r1) && Captures(s, r2)
    ensures r1 == r2
  {
    if r1.Some? {
      var k1: nat :| MatchAt(s, k1) && r1.value == s[6 + k1..] && forall k': nat :: k1 < k' ==> !MatchAt(s, k');
      var k2: nat :| MatchAt(s, k2) && r2.value == s[6 + k2..] && forall k': nat :: k2 < k' ==> !MatchAt(s, k');
      assert k1 < k2 ==> !MatchAt(s, k2);
      assert k2 < k1 ==> !MatchAt(s, k1);
    }
  }

  /** A header of the scheme and whitespace only still matches when the run has two or more
      characters: `\s+` hands its last character to the group, provided it is not a line
      terminator. */
  lemma BearerOfWhitespace(scheme: string, ws: string)
    requires |scheme| == 6 && IsBearerWord(scheme)
    requires |ws| >= 1 && forall i :: 0 <= i < |ws| ==> IsSpace(ws[i])
    ensures BearerMatch(scheme + ws) ==
      if |ws| >= 2 && !IsLineTerminator(ws[|ws| - 1]) then Some([ws[|ws| - 1]]) else None
  {
    var s := scheme + ws;
    var n := |ws|;
    assert s[..6] == scheme;
    assert forall j :: 6 <= j < |s| ==> s[j] == ws[j - 6];
    assert forall k: nat :: MatchAt(s, k) ==> k < n && !IsLineTerminator(s[|s| - 1]);
    if n >= 2 && !IsLineTerminator(ws[n - 1]) {
      assert MatchAt(s, n - 1);
      Capture(s, n - 1);
      assert s[6 + (n - 1)..] == [ws[n - 1]];
      CapturesUnique(s, BearerMatch(s), Some([ws[n - 1]]));
    } else {
      NoCapture(s);
      CapturesUnique(s, BearerMatch(s), None);
    }
  }

  /** Without whitespace straight after the scheme there is no token. */
  lemma BearerNeedsSpace(s: string)
    requires |s| > 6 && !IsSpace(s[6])
    ensures BearerMatch(s) == None
  {
  }

  /** A claim of the token payload: absent, a string, or another JSON value. */
  datatype Claim = Missing | StringClaim(value: string) | OtherClaim

  /** What `jwt.verify` returns: a string payload, or an object with its `sub` and `role`
      claims (`None` for a null or absent role). */
  datatype Decoded = StringPayload | ObjectPayload(sub: Claim, role: Option<string>)

  /** The outcome of `jwt.verify` for one token: a payload, or an exception. */
  datatype Verification = Verified(payload: Decoded) | Rejected

  /** A middleware outcome: `next()` with the request fields it set, or an error response. */
  datatype Decision = Next(userId: string, userRole: string) | Deny(status: int, error: string)

  const Unauthorized: Decision := Deny(401, "unauthorized")

  /** The token payload that identifies a caller: an object whose `sub` is a non-empty string. */
  predicate Identifies(v: Verification) {
    v.Verified? && v.payload.ObjectPayload? && v.payload.sub.StringClaim? && v.payload.sub.value != []
  }

  /** `requireAuth` (lines 20-40). */
  function RequireAuth(lower: Header, upper: Header, verify: string -> Verification): (d: Decision)
    ensures d.Deny? ==> d == Unauthorized
    ensures d.Next? <==> ExtractBearer(lower, upper).Some? && Identifies(verify(ExtractBearer(lower, upper).value))
    ensures d.Next? ==>
      var p := verify(ExtractBearer(lower, upper).value).payload;
      d.userId == p.sub.value && d.userId != [] && d.userRole == p.role.GetOr("user")
  {
    match ExtractBearer(lower, upper)
    case None => Unauthorized
    case Some(token) =>
      match verify(token)
      case Rejected => Unauthorized
      case Verified(StringPayload) => Unauthorized
      case Verified(ObjectPayload(sub, role)) =>
        if sub.StringClaim? && sub.value != [] then Next(sub.value, role.GetOr("user"))
        else Unauthorized
  }

  /** The answer of `SELECT role FROM users WHERE id = ? LIMIT 1`: no row, the row's role, or a
      failed query. */
  datatype RoleLookup = NoRow | Row(role: string) | LookupFailed

  /** The callback `requireAdmin` hands to `requireAuth` (lines 45-60): the caller passes exactly
      when the stored role is `admin`; a missing row is 401, another role 403, a failed query 500. */
  function AdminCheck(uid: string, lookup: string -> RoleLookup): (d: Decision)
    ensures d.Next? <==> lookup(uid) == Row("admin")
    ensures d.Next? ==> d == Next(uid, "admin")
    ensures d == Unauthorized <==> lookup(uid) == NoRow
    ensures d == Deny(403, "forbidden") <==> lookup(uid).Row? && lookup(uid).role != "admin"
    ensures d == Deny(500, "internal_error") <==> lookup(uid) == LookupFailed
  {
    match lookup(uid)
    case NoRow => Unauthorized
    case LookupFailed => Deny(500, "internal_error")
    case Row(role) => if role != "admin" then Deny(403, "forbidden") else Next(uid, "admin")
  }

  /** `requireAdmin` (lines 42-62): authenticate, then check the role stored for the caller. A
      caller `requireAuth` refuses never reaches the database. */
  function RequireAdmin(lower: Header, upper: Header, verify: string -> Verification, lookup: string -> RoleLookup): (d: Decision)
    ensures RequireAuth(lower, upper, verify).Deny? ==> d == Unauthorized
    ensures RequireAuth(lower, upper, verify).Next? ==> d == AdminCheck(RequireAuth(lower, upper, verify).userId, lookup)
  {
    match RequireAuth(lower, upper, verify)
    case Deny(status, error) => Deny(status, error)
    case Next(uid, _) => AdminCheck(uid, lookup)
  }

  /** `requireAdmin` goes by the stored role: two verifiers that agree on every token's subject
      but not on its role claim lead to the same decision. */
  lemma AdminIgnoresTokenRole(lower: Header, upper: Header, v1: string -> Verification, v2: string -> Verification, lookup: string -> RoleLookup)
    requires forall t :: Identifies(v1(t)) <==> Identifies(v2(t))
    requires forall t :: Identifies(v1(t)) && Identifies(v2(t)) ==> v1(t).payload.sub == v2(t).payload.sub
    ensures RequireAdmin(lower, upper, v1, lookup) == RequireAdmin(lower, upper, v2, lookup)
  {
    AuthAgreesOnSubject(lower, upper, v1, v2);
  }

  /** Two verifiers that agree on whether a token identifies a caller, and on its subject, give
      the same authentication outcome up to the role. */
  lemma AuthAgreesOnSubject(lower: Header, upper: Header, v1: string -> Verification, v2: string -> Verification)
    requires forall t :: Identifies(v1(t)) <==> Identifies(v2(t))
    requires forall t :: Identifies(v1(t)) && Identifies(v2(t)) ==> v1(t).payload.sub == v2(t).payload.sub
    ensures RequireAuth(lower, upper, v1).Next? <==> RequireAuth(lower, upper, v2).Next?
    ensures RequireAuth(lower, upper, v1).Next? ==> RequireAuth(lower, upper, v1).userId == RequireAuth(lower, upper, v2).userId
    ensures RequireAuth(lower, upper, v1).Deny? ==> RequireAuth(lower, upper, v1) == RequireAuth(lower, upper, v2)
  {
    match ExtractBearer(lower, upper)
    case None =>
    case Some(t) =>
      if Identifies(v1(t)) {
        assert v1(t).payload.sub == v2(t).payload.sub;
      }
  }

  /** A caller whose token says `admin` but whose row says otherwise is refused. */
  lemma TokenAdminNotEnough(token: string, uid: string, lower: Header, upper: Header, verify: string -> Verification, lookup: string -> RoleLookup)
    requires ExtractBearer(lower, upper) == Some(token) && uid != []
    requires verify(token) == Verified(ObjectPayload(StringClaim(uid), Some("admin")))
    requires lookup(uid).Row? && lookup(uid).role != "admin"
    ensures RequireAdmin(lower, upper, verify, lookup) == Deny(403, "forbidden")
  {
    assert RequireAuth(lower, upper, verify) == Next(uid, "admin");
  }

  /** A caller whose token has no role but whose row says `admin` passes. */
  lemma StoredAdminSuffices(token: string, uid: string, lower: Header, upper: Header, verify: string -> Verification, lookup: string -> RoleLookup)
    requires ExtractBearer(lower, upper) == Some(token) && uid != []
    requires verify(token) == Verified(ObjectPayload(StringClaim(uid), None))
    requires lookup(uid) == Row("admin")
    ensures RequireAdmin(lower, upper, verify, lookup) == Next(uid, "admin")
  {
    assert RequireAuth(lower, upper, verify) == Next(uid, "user");
  }
}
