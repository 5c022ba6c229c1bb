/**
 * Account and password-recovery handlers (src/routes/auth.ts): `/register`, `/login`,
 * `/recover` and `/reset` as operations on the `users` and `password_reset_tokens` tables.
 * Password hashing, password checking and token signing are parameters, as are the random
 * values (ids, referral codes, reset tokens) and the clock.
 */
module AuthRoutes {
  import opened Wrappers
  import opened Store

  datatype AuthError =
    | EmailInUse          // 409 email_in_use
    | InvalidCredentials  // 401 invalid_credentials
    | InvalidOrExpired    // 400 invalid_or_expired
    | InsertFailed        // an INSERT violates a key or UNIQUE constraint and throws

  /** What `/register` and `/login` return: the signed token and the public user fields. */
  datatype Session = Session(token: string, id: string, email: string, role: string, referralCode: string)

  /** Lifetime of a password reset token: one hour, in milliseconds. */
  const ResetTokenLifetime: int := 1000 * 60 * 60

  /** How many times `/register` checks a generated referral code against the table. */
  const MaxReferralChecks: nat := 5

  predicate EmailTaken(users: map<string, User>, email: string) {
    exists k :: k in users && users[k].email == email
  }

  /** Lines 42-49: the referrer a supplied code resolves to. A missing or empty code, or one no
      user holds, yields no referrer; so does a holder whose id is empty (`ref[0]?.id || null`). */
  ghost predicate ResolvesReferral(users: map<string, User>, code: Option<string>, ref: Option<string>) {
    if !Truthy(code) then ref == None
    else
      && (ref.Some? ==> exists k :: k in users && users[k].referralCode == code.value && users[k].id == ref.value && ref.value != "")
      && (ref.None? ==>
            || (forall k :: k in users ==> users[k].referralCode != code.value)
            || (exists k :: k in users && users[k].referralCode == code.value && users[k].id == ""))
  }

  /** While referral codes are unique, a code resolves to one referrer only: the id of the
      single user holding it. */
  lemma ReferralResolvedUniquely(users: map<string, User>, code: Option<string>, r1: Option<string>, r2: Option<string>)
    requires ReferralCodesUnique(users)
    requires ResolvesReferral(users, code, r1) && ResolvesReferral(users, code, r2)
    ensures r1 == r2
  {
    if Truthy(code) {
      if r1.Some? {
        var k1 :| k1 in users && users[k1].referralCode == code.value && users[k1].id == r1.value && r1.value != "";
        if r2.Some? {
          var k2 :| k2 in users && users[k2].referralCode == code.value && users[k2].id == r2.value && r2.value != "";
          assert k1 == k2;
        }
      }
    }
  }

  /** The index of the first draw, from the `i`-th on, that is not in `taken`, or five when every
      draw up to the fifth clashes. */
  function FirstFree(taken: set<string>, gen: nat -> string, i: nat): (k: nat)
    requires i <= MaxReferralChecks
    decreases MaxReferralChecks - i
    ensures i <= k <= MaxReferralChecks
    ensures forall j :: i <= j < k ==> gen(j) in taken
    ensures k < MaxReferralChecks ==> gen(k) !in taken
  {
    if i == MaxReferralChecks then i
    else if gen(i) !in taken then i
    else FirstFree(taken, gen, i + 1)
  }

  /** The referral code lines 51-59 keep: the first free draw among the first five, or the sixth. */
  function KeptCode(taken: set<string>, gen: nat -> string): (r: string)
    ensures exists k :: 0 <= k <= MaxReferralChecks && r == gen(k)
    ensures (exists j :: 0 <= j < MaxReferralChecks && gen(j) !in taken) ==> r !in taken
  {
    gen(FirstFree(taken, gen, 0))
  }

  /** Lines 51-59: draw a referral code and, up to five times, check it against the codes in use,
      drawing again on a clash. `gen(i)` is the i-th code the random generator produces. The result
      is the first free draw among the first five, or the sixth draw, unchecked, when all five
      clashed. */
  method PickReferralCode(taken: set<string>, gen: nat -> string) returns (code: string, draws: nat, checks: nat)
    ensures draws <= MaxReferralChecks && code == gen(draws)
    ensures forall j :: 0 <= j < draws ==> gen(j) in taken
    ensures draws < MaxReferralChecks ==> code !in taken
    ensures checks <= MaxReferralChecks
    ensures checks == if draws < MaxReferralChecks then draws + 1 else MaxReferralChecks
    ensures draws == FirstFree(taken, gen, 0) && code == KeptCode(taken, gen)
  {
    code, draws, checks := gen(0), 0, 0;
    var i := 0;
    while i < MaxReferralChecks
      invariant 0 <= i <= MaxReferralChecks
      invariant draws == i && checks == i && code == gen(i)
      invariant forall j :: 0 <= j < i ==> gen(j) in taken
      invariant FirstFree(taken, gen, 0) == FirstFree(taken, gen, i)
    {
      checks := checks + 1;
      if code !in taken {
        break;
      }
      draws := draws + 1;
      code := gen(draws);
      i := i + 1;
    }
  }

  /** `/register`. `id` is the uuid drawn for the new row. An email already present answers
      `email_in_use` and inserts nothing; otherwise the new row has role USER, 0 points, remainder
      0, a referral code no other user holds, and the referrer the supplied code resolves to. */
  method Register(db: Database, email: string, password: string, referralCode: Option<string>,
                  hash: string -> string, sign: (string, string) -> string, gen: nat -> string, id: string)
    returns (r: Result<Session, AuthError>)
    modifies db
    ensures EmailTaken(old(db.users), email) <==> r == Err(EmailInUse)
    ensures r.Ok? <==>
      && !EmailTaken(old(db.users), email)
      && id !in old(db.users)
      && KeptCode(ReferralCodes(old(db.users)), gen) !in ReferralCodes(old(db.users))
    ensures r.Ok? ==> r.value.referralCode == KeptCode(ReferralCodes(old(db.users)), gen)
    ensures r.Err? ==> r.error in {EmailInUse, InsertFailed} && db.users == old(db.users)
    ensures r.Ok? ==>
      && id !in old(db.users)
      && r.value == Session(sign(id, "USER"), id, email, "USER", r.value.referralCode)
      && r.value.referralCode !in ReferralCodes(old(db.users))
      && (exists ref :: ResolvesReferral(old(db.users), referralCode, ref)
            && db.users == old(db.users)[id := User(id, email, hash(password), "USER", 0, 0, r.value.referralCode, ref, None)])
    ensures !EmailTaken(old(db.users), email) && id !in old(db.users) && r.Err? ==> r.error == InsertFailed
    ensures db.orders == old(db.orders) && db.tiers == old(db.tiers) && db.redemptions == old(db.redemptions)
    ensures db.resetTokens == old(db.resetTokens)
    ensures old(db.Valid()) ==> db.Valid()
  {
    var existing := SelectFirst(db.users, (u: User) => u.email == email);
    if existing.Some? {
      return Err(EmailInUse);
    }
    var passwordHash := hash(password);

    var referredById := ResolveReferral(db.users, referralCode);

    var myRef, _, _ := PickReferralCode(ReferralCodes(db.users), gen);

    // The INSERT fails on a taken primary key or a taken referral code.
    if id in db.users || myRef in ReferralCodes(db.users) {
      return Err(InsertFailed);
    }
    var user := User(id, email, passwordHash, "USER", 0, 0, myRef, referredById, None);
    NewUserKeepsValid(db.users, user);
    db.users := db.users[id := user];
    r := Ok(Session(sign(id, "USER"), id, email, "USER", myRef));
  }

  /** Lines 42-49: look the supplied code up; the referrer is the holder's id, or none. */
  method ResolveReferral(users: map<string, User>, code: Option<string>) returns (ref: Option<string>)
    ensures ResolvesReferral(users, code, ref)
    ensures ref.Some? ==> Truthy(code)
  {
    ref := None;
    if Truthy(code) {
      var found := SelectFirst(users, (u: User) => u.referralCode == code.value);
      if found.Some? && users[found.value].id != "" {
        ref := Some(users[found.value].id);
      }
    }
  }

  /** Inserting a row whose id, email and referral code are all new keeps the table's
      constraints; a new account starts with no points and no remainder. */
  lemma NewUserKeepsValid(users: map<string, User>, u: User)
    requires u.id !in users && !EmailTaken(users, u.email) && u.referralCode !in ReferralCodes(users)
    requires u.points == 0 && u.spendRemainder == 0
    ensures UsersValid(users) ==> UsersValid(users[u.id := u])
  {
    assert forall k :: k in users ==> users[k].referralCode in ReferralCodes(users);
  }

  /** `/login`: the same `invalid_credentials` answer for an unknown email and for a wrong
      password; on success a token signed over the row's id and role. Nothing is written. */
  method Login(db: Database, email: string, password: string,
               verify: (string, string) -> bool, sign: (string, string) -> string)
    returns (r: Result<Session, AuthError>)
    ensures r.Err? ==> r.error == InvalidCredentials
    ensures !EmailTaken(db.users, email) ==> r.Err?
    ensures r.Ok? ==> exists k ::
      && k in db.users && db.users[k].email == email && verify(password, db.users[k].passwordHash)
      && r.value == Session(sign(db.users[k].id, db.users[k].role), db.users[k].id, email, db.users[k].role, db.users[k].referralCode)
    ensures EmailsUnique(db.users) ==>
      (r.Ok? <==> exists k :: k in db.users && db.users[k].email == email && verify(password, db.users[k].passwordHash))
  {
    var found := SelectFirst(db.users, (u: User) => u.email == email);
    if found.None? {
      return Err(InvalidCredentials);
    }
    var user := db.users[found.value];
    if !verify(password, user.passwordHash) {
      return Err(InvalidCredentials);
    }
    r := Ok(Session(sign(user.id, user.role), user.id, user.email, user.role, user.referralCode));
  }

  predicate TokenInUse(tokens: map<string, ResetToken>, token: string) {
    exists k :: k in tokens && tokens[k].token == token
  }

  /** `/recover`. `token` and `tokenId` are the random values drawn, `now` the clock. The answer is
      `ok` whether or not the email is known; a token expiring one hour later is stored only for
      a known email. The INSERT fails on a taken id or token. */
  method Recover(db: Database, email: string, token: string, tokenId: string, now: int)
    returns (r: Result<(), AuthError>)
    modifies db
    ensures !EmailTaken(old(db.users), email) ==> r == Ok(()) && db.resetTokens == old(db.resetTokens)
    ensures r.Err? ==>
      && r.error == InsertFailed && db.resetTokens == old(db.resetTokens)
      && (tokenId in old(db.resetTokens) || TokenInUse(old(db.resetTokens), token))
    ensures r.Ok? && EmailTaken(old(db.users), email) ==>
      exists k :: k in old(db.users) && old(db.users)[k].email == email
        && db.resetTokens == old(db.resetTokens)[tokenId := ResetToken(tokenId, old(db.users)[k].id, token, now + ResetTokenLifetime, None)]
    ensures EmailTaken(old(db.users), email) && tokenId !in old(db.resetTokens) && !TokenInUse(old(db.resetTokens), token) ==> r.Ok?
    ensures db.users == old(db.users) && db.orders == old(db.orders) && db.tiers == old(db.tiers)
    ensures db.redemptions == old(db.redemptions)
    ensures old(db.Valid()) ==> db.Valid()
  {
    var found := SelectFirst(db.users, (u: User) => u.email == email);
    if found.None? {
      return Ok(());
    }
    var expires := now + ResetTokenLifetime;
    if tokenId in db.resetTokens || TokenInUse(db.resetTokens, token) {
      return Err(InsertFailed);
    }
    db.resetTokens := db.resetTokens[tokenId := ResetToken(tokenId, db.users[found.value].id, token, expires, None)];
    r := Ok(());
  }

  /** A token that can still be redeemed at time `now`: never used, and not past its expiry
      (`expires_at < now` is expired, so a token is still good at its exact expiry time). */
  predicate Usable(t: ResetToken, now: int) {
    t.usedAt.None? && !(t.expiresAt < now)
  }

  /** The `users` table after `UPDATE users SET password_hash = ? WHERE id = ?`. */
  function SetPassword(users: map<string, User>, uid: string, h: string): map<string, User> {
    if uid in users then users[uid := users[uid].(passwordHash := h)] else users
  }

  /** `/reset`: a missing, used or expired token answers `invalid_or_expired` and changes nothing;
      otherwise the owner's password hash is replaced and the token is marked used. */
  method Reset(db: Database, token: string, newPassword: string, now: int, hash: string -> string)
    returns (r: Result<(), AuthError>)
    modifies db
    ensures r.Err? ==>
      && r.error == InvalidOrExpired
      && db.users == old(db.users) && db.resetTokens == old(db.resetTokens)
    ensures (forall k :: k in old(db.resetTokens) && old(db.resetTokens)[k].token == token ==> !Usable(old(db.resetTokens)[k], now))
      ==> r.Err?
    ensures r.Ok? ==> exists k ::
      && k in old(db.resetTokens) && old(db.resetTokens)[k].token == token
      && Usable(old(db.resetTokens)[k], now)
      && db.resetTokens == old(db.resetTokens)[k := old(db.resetTokens)[k].(usedAt := Some(now))]
      && db.users == SetPassword(old(db.users), old(db.resetTokens)[k].userId, hash(newPassword))
    ensures TokensValid(old(db.resetTokens)) ==>
      (r.Ok? <==> exists k :: k in old(db.resetTokens) && old(db.resetTokens)[k].token == token && Usable(old(db.resetTokens)[k], now))
    ensures db.orders == old(db.orders) && db.tiers == old(db.tiers) && db.redemptions == old(db.redemptions)
    ensures old(db.Valid()) ==> db.Valid()
  {
    var found := SelectFirst(db.resetTokens, (t: ResetToken) => t.token == token);
    if found.None? {
      return Err(InvalidOrExpired);
    }
    var rec := db.resetTokens[found.value];
    if rec.usedAt.Some? {
      return Err(InvalidOrExpired);
    }
    if rec.expiresAt < now {
      return Err(InvalidOrExpired);
    }
    var h := hash(newPassword);
    var before := db.users;
    db.users := SetPassword(db.users, rec.userId, h);
    assert SameIdentities(before, db.users);
    if UsersValid(before) {
      IdentitiesTransfer(before, db.users);
    }
    db.resetTokens := db.resetTokens[found.value := rec.(usedAt := Some(now))];
    r := Ok(());
  }

  /** A reset token is single-use: a second reset with the same token fails, whatever the time. */
  method ResetTwice(db: Database, token: string, p1: string, p2: string, now1: int, now2: int, hash: string -> string)
    returns (first: Result<(), AuthError>, second: Result<(), AuthError>)
    requires db.Valid()
    modifies db
    ensures first.Ok? ==> second == Err(InvalidOrExpired)
  {
    first := Reset(db, token, p1, now1, hash);
    second := Reset(db, token, p2, now2, hash);
  }
}
