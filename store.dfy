/**
 * The relational store the handlers run against: one record type per table row and a
 * `Database` object whose fields are the tables. Tables keyed by their primary key are maps;
 * tables whose insertion order is observable are sequences.
 */
module Store {
  import opened Wrappers

  /** The remainder carried between purchases is kept below one block of this many pesos. */
  const BlockSize: int := 10000

  /** A row of `users`. Dates are integers (milliseconds). */
  datatype User = User(
    id: string,
    email: string,
    passwordHash: string,
    role: string,
    points: int,
    spendRemainder: int,
    referralCode: string,
    referredById: Option<string>,
    firstPurchaseAt: Option<int>)

  /** A row of `orders`. */
  datatype Order = Order(id: string, userId: string, amountArs: int, pointsAdded: int)

  /** A row of `reward_tiers`. */
  datatype Tier = Tier(id: string, code: string, name: string, description: string, costPoints: int, priority: int)

  /** A row of `redemptions`. */
  datatype Redemption = Redemption(id: string, userId: string, tierId: string, status: string, createdAt: int, notes: Option<string>)

  /** A row of `password_reset_tokens`. */
  datatype ResetToken = ResetToken(id: string, userId: string, token: string, expiresAt: int, usedAt: Option<int>)

  /** A JavaScript truthiness test on a nullable string column. */
  predicate Truthy(s: Option<string>) {
    s.Some? && s.value != ""
  }

  /** `SELECT ... WHERE <cond> ... rows[0]`: some row satisfying the condition, or none. Which row
      is returned when several qualify is left open, as SQL leaves it without ORDER BY. */
  method SelectFirst<K, V>(table: map<K, V>, cond: V -> bool) returns (r: Option<K>)
    ensures r.None? <==> forall k :: k in table ==> !cond(table[k])
    ensures r.Some? ==> r.value in table && cond(table[r.value])
  {
    if exists k :: k in table && cond(table[k]) {
      var k :| k in table && cond(table[k]);
      r := Some(k);
    } else {
      r := None;
    }
  }

  /** The table's key agrees with each row's own id column. */
  ghost predicate UsersKeyed(users: map<string, User>) {
    forall id :: id in users ==> users[id].id == id
  }

  /** `email` is UNIQUE. */
  ghost predicate EmailsUnique(users: map<string, User>) {
    forall a, b :: a in users && b in users && users[a].email == users[b].email ==> a == b
  }

  /** `referral_code` is UNIQUE. */
  ghost predicate ReferralCodesUnique(users: map<string, User>) {
    forall a, b :: a in users && b in users && users[a].referralCode == users[b].referralCode ==> a == b
  }

  /** The ledger invariant: balances are never negative and the carried remainder stays
      within one block. */
  ghost predicate LedgerInvariant(users: map<string, User>) {
    forall id :: id in users ==> users[id].points >= 0 && 0 <= users[id].spendRemainder < BlockSize
  }

  ghost predicate UsersValid(users: map<string, User>) {
    UsersKeyed(users) && EmailsUnique(users) && ReferralCodesUnique(users) && LedgerInvariant(users)
  }

  /** `password_reset_tokens`: keyed by id, and `token` is UNIQUE. */
  ghost predicate TokensValid(tokens: map<string, ResetToken>) {
    && (forall id :: id in tokens ==> tokens[id].id == id)
    && (forall a, b :: a in tokens && b in tokens && tokens[a].token == tokens[b].token ==> a == b)
  }

  /** Two versions of `users` with the same rows, differing at most in non-key columns. */
  ghost predicate SameIdentities(a: map<string, User>, b: map<string, User>) {
    && a.Keys == b.Keys
    && forall id :: id in a ==>
         a[id].id == b[id].id && a[id].email == b[id].email && a[id].referralCode == b[id].referralCode
  }

  /** Updating non-key columns keeps the keys and the UNIQUE constraints. */
  lemma IdentitiesTransfer(a: map<string, User>, b: map<string, User>)
    requires SameIdentities(a, b)
    requires UsersKeyed(a) && EmailsUnique(a) && ReferralCodesUnique(a)
    ensures UsersKeyed(b) && EmailsUnique(b) && ReferralCodesUnique(b)
  {
  }

  /** The ids already used in a sequence-shaped table. */
  function OrderIds(orders: seq<Order>): set<string> {
    set o | o in orders :: o.id
  }

  function RedemptionIds(rs: seq<Redemption>): set<string> {
    set r | r in rs :: r.id
  }

  function ReferralCodes(users: map<string, User>): set<string> {
    set id | id in users :: users[id].referralCode
  }

  class Database {
    var users: map<string, User>
    var orders: seq<Order>
    var tiers: map<string, Tier>
    var redemptions: seq<Redemption>
    var resetTokens: map<string, ResetToken>

    /** The schema's keys and UNIQUE constraints, and the ledger invariant. */
    ghost predicate Valid()
      reads this
    {
      UsersValid(users) && TokensValid(resetTokens)
    }

    constructor ()
      ensures Valid()
      ensures users == map[] && orders == [] && tiers == map[] && redemptions == [] && resetTokens == map[]
    {
      users, orders, tiers, redemptions, resetTokens := map[], [], map[], [], map[];
    }
  }
}
