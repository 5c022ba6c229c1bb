/**
 * Reward redemption (src/routes/rewards.ts): `POST /redeem` looks a tier up by code, checks the
 * caller's balance, then debits it and inserts a PENDING redemption in one transaction;
 * `GET /mine` lists the caller's redemptions joined with their tiers, newest first.
 */
module Rewards {
  import opened Wrappers
  import opened Store

  datatype RedeemError =
    | TierNotFound        // 404 tier_not_found
    | InsufficientPoints  // 400 insufficient_points
    | InsertFailed        // the INSERT throws (id already taken); the transaction rolls back

  /** The balance the handler compares against: a missing user row counts as 0 points. */
  function BalanceOf(users: map<string, User>, uid: string): int {
    if uid in users then users[uid].points else 0
  }

  /** Some tier carries the code. */
  predicate CodeExists(tiers: map<string, Tier>, code: string) {
    exists t :: t in tiers && tiers[t].code == code
  }

  /** Some tier with the code costs more than the balance. */
  predicate SomeTooDear(tiers: map<string, Tier>, code: string, balance: int) {
    exists t :: t in tiers && tiers[t].code == code && balance < tiers[t].costPoints
  }

  /** Every tier with the code costs more than the balance. */
  predicate AllTooDear(tiers: map<string, Tier>, code: string, balance: int) {
    forall t :: t in tiers && tiers[t].code == code ==> balance < tiers[t].costPoints
  }

  /** Every tier with the code is affordable. */
  predicate AllAffordable(tiers: map<string, Tier>, code: string, balance: int) {
    forall t :: t in tiers && tiers[t].code == code ==> tiers[t].costPoints <= balance
  }

  /** The `users` table after the debit: the caller's points fall by `cost`; the UPDATE of a
      missing row changes nothing. */
  function Debit(users: map<string, User>, uid: string, cost: int): map<string, User> {
    if uid in users then users[uid := users[uid].(points := users[uid].points - cost)] else users
  }

  /** The debit changes the caller's balance and nothing else. */
  lemma DebitFrame(users: map<string, User>, uid: string, cost: int)
    ensures Debit(users, uid, cost).Keys == users.Keys
    ensures forall id :: id in users && id != uid ==> Debit(users, uid, cost)[id] == users[id]
    ensures BalanceOf(Debit(users, uid, cost), uid) == if uid in users then BalanceOf(users, uid) - cost else 0
    ensures SameIdentities(users, Debit(users, uid, cost))
  {
  }

  /** A debit that passed the balance check keeps the ledger invariant: no balance goes negative. */
  lemma {:induction false} DebitKeepsLedger(users: map<string, User>, uid: string, cost: int)
    requires LedgerInvariant(users) && cost <= BalanceOf(users, uid)
    ensures LedgerInvariant(Debit(users, uid, cost))
    ensures uid in users ==> Debit(users, uid, cost)[uid].points >= 0
  {
    var after := Debit(users, uid, cost);
    forall id | id in after ensures after[id].points >= 0 && 0 <= after[id].spendRemainder < BlockSize {
      assert id in users;
    }
  }

  /** The debit keeps every constraint of the `users` table. */
  lemma DebitKeepsValid(users: map<string, User>, uid: string, cost: int)
    requires UsersValid(users) && cost <= BalanceOf(users, uid)
    ensures UsersValid(Debit(users, uid, cost))
  {
    DebitFrame(users, uid, cost);
    IdentitiesTransfer(users, Debit(users, uid, cost));
    DebitKeepsLedger(users, uid, cost);
  }

  /** `POST /redeem` for caller `uid`. `rid` is the fresh id drawn for the redemption and `now`
      the insertion time. Every failure leaves all tables as they were. */
  method Redeem(db: Database, uid: string, tierCode: string, rid: string, now: int)
    returns (r: Result<Redemption, RedeemError>)
    modifies db
    ensures r == Err(TierNotFound) <==> !CodeExists(old(db.tiers), tierCode)
    ensures r == Err(InsufficientPoints) ==> SomeTooDear(old(db.tiers), tierCode, BalanceOf(old(db.users), uid))
    ensures CodeExists(old(db.tiers), tierCode) && AllTooDear(old(db.tiers), tierCode, BalanceOf(old(db.users), uid))
      ==> r == Err(InsufficientPoints)
    ensures CodeExists(old(db.tiers), tierCode) && AllAffordable(old(db.tiers), tierCode, BalanceOf(old(db.users), uid))
      ==> (r.Ok? <==> rid !in RedemptionIds(old(db.redemptions)))
    ensures r == Err(InsertFailed) ==> rid in RedemptionIds(old(db.redemptions))
    ensures r.Err? ==> db.users == old(db.users) && db.redemptions == old(db.redemptions)
    ensures r.Ok? ==>
      && r.value.tierId in old(db.tiers)
      && old(db.tiers)[r.value.tierId].code == tierCode
      && old(db.tiers)[r.value.tierId].costPoints <= BalanceOf(old(db.users), uid)
      && r.value == Redemption(rid, uid, r.value.tierId, "PENDING", now, None)
      && db.redemptions == old(db.redemptions) + [r.value]
      && db.users == Debit(old(db.users), uid, old(db.tiers)[r.value.tierId].costPoints)
    ensures db.orders == old(db.orders) && db.tiers == old(db.tiers) && db.resetTokens == old(db.resetTokens)
    ensures old(db.Valid()) ==> db.Valid()
  {
    var found := SelectFirst(db.tiers, (t: Tier) => t.code == tierCode);
    if found.None? {
      return Err(TierNotFound);
    }
    var tier := db.tiers[found.value];
    var points := BalanceOf(db.users, uid);
    if points < tier.costPoints {
      return Err(InsufficientPoints);
    }
    // The transaction: debit, then insert; a failing insert rolls the debit back.
    var before := db.users;
    db.users := Debit(db.users, uid, tier.costPoints);
    if rid in RedemptionIds(db.redemptions) {
      db.users := before;
      return Err(InsertFailed);
    }
    var red := Redemption(rid, uid, found.value, "PENDING", now, None);
    db.redemptions := db.redemptions + [red];
    r := Ok(red);
    if UsersValid(before) {
      DebitKeepsValid(before, uid, tier.costPoints);
    }
  }

  /** The tier fields `/mine` pairs with each redemption. */
  datatype TierView = TierView(id: string, code: string, name: string, description: string, costPoints: int, priority: int)

  /** One element of the `/mine` response. */
  datatype MineEntry = MineEntry(id: string, status: string, createdAt: int, notes: Option<string>, tier: TierView)

  function Entry(r: Redemption, t: Tier): MineEntry {
    MineEntry(r.id, r.status, r.createdAt, r.notes, TierView(r.tierId, t.code, t.name, t.description, t.costPoints, t.priority))
  }

  /** Whether a redemption row is in the caller's joined result. */
  predicate Listed(r: Redemption, tiers: map<string, Tier>, uid: string) {
    r.userId == uid && r.tierId in tiers
  }

  /** `GET /mine`: the caller's redemptions that join a tier, each paired with the tier's fields,
      newest (last inserted) first. Exactly the caller's joinable rows appear. */
  function Mine(rs: seq<Redemption>, tiers: map<string, Tier>, uid: string): (out: seq<MineEntry>)
    ensures |out| <= |rs|
    ensures forall e :: e in out ==> exists r :: r in rs && Listed(r, tiers, uid) && e == Entry(r, tiers[r.tierId])
    ensures forall r :: r in rs && Listed(r, tiers, uid) ==> Entry(r, tiers[r.tierId]) in out
  {
    if rs == [] then []
    else
      var last := rs[|rs| - 1];
      var rest := Mine(rs[..|rs| - 1], tiers, uid);
      assert rs == rs[..|rs| - 1] + [last];
      if Listed(last, tiers, uid) then [Entry(last, tiers[last.tierId])] + rest else rest
  }

  /** Entries ordered by `created_at`, newest first. */
  predicate NewestFirst(out: seq<MineEntry>) {
    forall i, j :: 0 <= i < j < |out| ==> out[i].createdAt >= out[j].createdAt
  }

  /** Rows inserted in time order. */
  predicate InsertedInTimeOrder(rs: seq<Redemption>) {
    forall i, j :: 0 <= i < j < |rs| ==> rs[i].createdAt <= rs[j].createdAt
  }

  /** `/mine` creates no timestamps: every entry's time is that of some row. */
  lemma MineBounded(rs: seq<Redemption>, tiers: map<string, Tier>, uid: string, bound: int)
    requires forall r :: r in rs ==> r.createdAt <= bound
    ensures forall e :: e in Mine(rs, tiers, uid) ==> e.createdAt <= bound
  {
  }

  lemma NewestFirstCons(e: MineEntry, rest: seq<MineEntry>)
    requires NewestFirst(rest) && forall x :: x in rest ==> x.createdAt <= e.createdAt
    ensures NewestFirst([e] + rest)
  {
    var out := [e] + rest;
    forall i, j | 0 <= i < j < |out| ensures out[i].createdAt >= out[j].createdAt {
      assert out[j] == rest[j - 1] && rest[j - 1] in rest;
      if i > 0 { assert out[i] == rest[i - 1]; }
    }
  }

  /** Rows inserted in time order come out newest first, as `ORDER BY created_at DESC` asks. */
  lemma {:induction false} MineNewestFirst(rs: seq<Redemption>, tiers: map<string, Tier>, uid: string)
    requires InsertedInTimeOrder(rs)
    ensures NewestFirst(Mine(rs, tiers, uid))
  {
    if rs != [] {
      var init, last := rs[..|rs| - 1], rs[|rs| - 1];
      assert rs == init + [last];
      assert InsertedInTimeOrder(init) by {
        forall i, j | 0 <= i < j < |init| ensures init[i].createdAt <= init[j].createdAt {
          assert init[i] == rs[i] && init[j] == rs[j];
        }
      }
      MineNewestFirst(init, tiers, uid);
      var rest := Mine(init, tiers, uid);
      assert forall r :: r in init ==> r.createdAt <= last.createdAt by {
        forall r | r in init ensures r.createdAt <= last.createdAt {
          var k :| 0 <= k < |init| && init[k] == r;
          assert rs[k] == r;
        }
      }
      MineBounded(init, tiers, uid, last.createdAt);
      var out := Mine(rs, tiers, uid);
      if Listed(last, tiers, uid) {
        assert out == [Entry(last, tiers[last.tierId])] + rest;
        NewestFirstCons(Entry(last, tiers[last.tierId]), rest);
      } else {
        assert out == rest;
      }
    }
  }

  /** A new redemption heads its owner's `/mine` list and leaves every other user's list as it
      was. */
  lemma RedeemListed(rs: seq<Redemption>, tiers: map<string, Tier>, red: Redemption)
    requires red.tierId in tiers
    ensures Mine(rs + [red], tiers, red.userId) == [Entry(red, tiers[red.tierId])] + Mine(rs, tiers, red.userId)
    ensures forall uid :: uid != red.userId ==> Mine(rs + [red], tiers, uid) == Mine(rs, tiers, uid)
  {
    assert (rs + [red])[..|rs + [red]| - 1] == rs;
  }
}
