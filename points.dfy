/**
 * Points accrual (src/services/pointsService.ts): a purchase amount in pesos is added to the
 * remainder carried on the user row; every full block of 10000 earns `per10k` points and what
 * is left over is carried to the next purchase. The referred user's first purchase pays the
 * referrer a one-time bonus.
 */
module Points {
  import opened Wrappers
  import opened Store

  /** `per10k` and `referralBonus`, passed in rather than read from the environment. */
  datatype PointsConfig = PointsConfig(per10k: int, referralBonus: int)

  /** The defaults of `POINTS_PER_10K` and `REFERRAL_BONUS`. */
  const DefaultConfig: PointsConfig := PointsConfig(100, 50)

  /** JavaScript's `t % 10000`: the remainder takes the sign of the dividend. */
  function JsRem(t: int): (r: int)
    ensures t >= 0 ==> r == t % BlockSize
    ensures t < 0 ==> r == -((-t) % BlockSize) && -BlockSize < r <= 0
  {
    if t >= 0 then t % BlockSize else -((-t) % BlockSize)
  }

  /** What one purchase earns: `units` full blocks, `points` for them, and the new remainder. */
  datatype Accrual = Accrual(units: int, points: int, remainder: int)

  /** Lines 15-18: `total = remainder + amount`, `units = Math.floor(total / 10000)`,
      `points = units * per10k`, new remainder `total % 10000`. For a non-negative total the
      conversion loses nothing: the blocks and the new remainder add back up to the total. */
  function Accrue(remainder: int, amount: int, per10k: int): (a: Accrual)
    ensures remainder + amount >= 0 ==>
      remainder + amount == a.units * BlockSize + a.remainder && 0 <= a.remainder < BlockSize
    ensures remainder + amount < 0 && (remainder + amount) % BlockSize != 0 ==>
      remainder + amount == a.units * BlockSize + a.remainder + BlockSize && a.remainder < 0
    ensures a.points == a.units * per10k
    ensures 0 <= remainder + amount < BlockSize ==> a.points == 0 && a.remainder == remainder + amount
  {
    var total := remainder + amount;
    var units := total / BlockSize;
    Accrual(units, units * per10k, JsRem(total))
  }

  /** The part of a user row the ledger arithmetic touches. */
  datatype Balance = Balance(points: int, remainder: int)

  /** One purchase applied to a balance. */
  function Purchase(b: Balance, amount: int, per10k: int): Balance {
    var a := Accrue(b.remainder, amount, per10k);
    Balance(b.points + a.points, a.remainder)
  }

  /** Purchases applied one after another, in order. */
  function PurchaseAll(b: Balance, amounts: seq<int>, per10k: int): Balance
    decreases amounts
  {
    if amounts == [] then b else PurchaseAll(Purchase(b, amounts[0], per10k), amounts[1..], per10k)
  }

  function Sum(xs: seq<int>): int {
    if xs == [] then 0 else xs[0] + Sum(xs[1..])
  }

  predicate AllNonNegative(xs: seq<int>) {
    forall i :: 0 <= i < |xs| ==> xs[i] >= 0
  }

  lemma {:induction false} SumNonNegative(xs: seq<int>)
    requires AllNonNegative(xs)
    ensures Sum(xs) >= 0
  {
    if xs != [] {
      assert AllNonNegative(xs[1..]) by {
        forall i | 0 <= i < |xs| - 1 ensures xs[1..][i] >= 0 { assert xs[1..][i] == xs[i + 1]; }
      }
      SumNonNegative(xs[1..]);
    }
  }

  /** Carrying the remainder is exact: blocks counted before and after a purchase add up to the
      blocks of the combined total. */
  lemma DivSplit(r: int, x: int, s: int)
    requires r + x >= 0 && s >= 0
    ensures (r + x) / BlockSize + ((r + x) % BlockSize + s) / BlockSize == (r + x + s) / BlockSize
    ensures ((r + x) % BlockSize + s) % BlockSize == (r + x + s) % BlockSize
  {
    var q1, r1 := (r + x) / BlockSize, (r + x) % BlockSize;
    var q2, r2 := (r1 + s) / BlockSize, (r1 + s) % BlockSize;
    assert r + x + s == (q1 + q2) * BlockSize + r2;
  }

  /** Folding non-negative purchases over a balance whose remainder is within one block adds
      `floor((remainder + sum) / 10000) * per10k` points and leaves `(remainder + sum) % 10000`. */
  lemma {:induction false} PurchaseAllFrom(b: Balance, amounts: seq<int>, per10k: int)
    requires 0 <= b.remainder < BlockSize && AllNonNegative(amounts)
    decreases amounts
    ensures PurchaseAll(b, amounts, per10k) ==
      Balance(b.points + ((b.remainder + Sum(amounts)) / BlockSize) * per10k, (b.remainder + Sum(amounts)) % BlockSize)
  {
    if amounts != [] {
      var x, rest := amounts[0], amounts[1..];
      assert AllNonNegative(rest) by {
        forall i | 0 <= i < |rest| ensures rest[i] >= 0 { assert rest[i] == amounts[i + 1]; }
      }
      assert x >= 0 by { assert x == amounts[0]; }
      SumNonNegative(rest);
      var b' := Purchase(b, x, per10k);
      PurchaseAllFrom(b', rest, per10k);
      CombineSteps(b.points, b.remainder, x, Sum(rest), per10k);
    }
  }

  /** The arithmetic of one step of `PurchaseAllFrom`: crediting `x` and then `s` is crediting
      `x + s`. */
  lemma CombineSteps(p: int, r: int, x: int, s: int, k: int)
    requires r + x >= 0 && s >= 0
    ensures var q1, r1 := (r + x) / BlockSize, (r + x) % BlockSize;
      && p + q1 * k + ((r1 + s) / BlockSize) * k == p + ((r + x + s) / BlockSize) * k
      && (r1 + s) % BlockSize == (r + x + s) % BlockSize
  {
    var q1, r1 := (r + x) / BlockSize, (r + x) % BlockSize;
    DivSplit(r, x, s);
    Distribute(q1, (r1 + s) / BlockSize, k);
  }

  lemma Distribute(q1: int, q2: int, k: int)
    ensures q1 * k + q2 * k == (q1 + q2) * k
  {
  }

  /** No drift: from a fresh account, any sequence of purchases gives `floor(sum / 10000) * per10k`
      points and remainder `sum % 10000`. */
  lemma NoDrift(amounts: seq<int>, per10k: int)
    requires AllNonNegative(amounts)
    ensures PurchaseAll(Balance(0, 0), amounts, per10k) ==
      Balance((Sum(amounts) / BlockSize) * per10k, Sum(amounts) % BlockSize)
  {
    PurchaseAllFrom(Balance(0, 0), amounts, per10k);
  }

  /** Splitting purchases changes nothing: two sequences with the same total end in the same
      balance. */
  lemma SplitInvariance(xs: seq<int>, ys: seq<int>, per10k: int)
    requires AllNonNegative(xs) && AllNonNegative(ys) && Sum(xs) == Sum(ys)
    ensures PurchaseAll(Balance(0, 0), xs, per10k) == PurchaseAll(Balance(0, 0), ys, per10k)
  {
    NoDrift(xs, per10k);
    NoDrift(ys, per10k);
  }

  /** Applying two batches of purchases is applying their concatenation. */
  lemma {:induction false} PurchaseAllAppend(b: Balance, xs: seq<int>, ys: seq<int>, per10k: int)
    ensures PurchaseAll(b, xs + ys, per10k) == PurchaseAll(PurchaseAll(b, xs, per10k), ys, per10k)
    decreases xs
  {
    if xs != [] {
      assert (xs + ys)[0] == xs[0];
      assert (xs + ys)[1..] == xs[1..] + ys;
      PurchaseAllAppend(Purchase(b, xs[0], per10k), xs[1..], ys, per10k);
    } else {
      assert xs + ys == ys;
    }
  }

  /** Two purchases in a row are the second applied to the result of the first. */
  lemma PurchaseTwo(b: Balance, x: int, y: int, per10k: int)
    ensures PurchaseAll(b, [x, y], per10k) == Purchase(Purchase(b, x, per10k), y, per10k)
  {
    var b1 := Purchase(b, x, per10k);
    assert [x, y][1..] == [y];
    assert PurchaseAll(b, [x, y], per10k) == PurchaseAll(b1, [y], per10k);
    assert [y][1..] == [];
    assert PurchaseAll(b1, [y], per10k) == PurchaseAll(Purchase(b1, y, per10k), [], per10k);
  }

  /** The purchase scenarios of the end-to-end tests at 100 points per block: 15500 then 5000
      gives 200 points and remainder 500. */
  lemma PurchaseExampleCarry()
    ensures PurchaseAll(Balance(0, 0), [15500, 5000], 100) == Balance(200, 500)
  {
    PurchaseTwo(Balance(0, 0), 15500, 5000, 100);
    assert Purchase(Balance(0, 0), 15500, 100) == Balance(100, 5500);
    assert Purchase(Balance(100, 5500), 5000, 100) == Balance(200, 500);
  }

  /** 25100 gives 200 points and remainder 5100, and 5000 more gives 300 and 100. */
  lemma PurchaseExampleTwoBlocks()
    ensures PurchaseAll(Balance(0, 0), [25100], 100) == Balance(200, 5100)
    ensures PurchaseAll(Balance(0, 0), [25100, 5000], 100) == Balance(300, 100)
  {
    assert [25100][1..] == [];
    assert Purchase(Balance(0, 0), 25100, 100) == Balance(200, 5100);
    PurchaseTwo(Balance(0, 0), 25100, 5000, 100);
    assert Purchase(Balance(200, 5100), 5000, 100) == Balance(300, 100);
  }

  /** 4000 then 6000 ends like one purchase of 10000. */
  lemma PurchaseExampleSplit()
    ensures PurchaseAll(Balance(0, 0), [4000, 6000], 100) == PurchaseAll(Balance(0, 0), [10000], 100)
  {
    PurchaseTwo(Balance(0, 0), 4000, 6000, 100);
    assert Purchase(Balance(0, 0), 4000, 100) == Balance(0, 4000);
    assert Purchase(Balance(0, 4000), 6000, 100) == Balance(100, 0);
    assert [10000][1..] == [];
    assert Purchase(Balance(0, 0), 10000, 100) == Balance(100, 0);
  }

  /** The buyer's row after a purchase: balance and remainder from `Purchase`, and
      `first_purchase_at` set if it was null (`IFNULL(first_purchase_at, now)`). */
  function CreditBuyer(u: User, amount: int, now: int, per10k: int): (u': User)
    ensures Balance(u'.points, u'.spendRemainder) == Purchase(Balance(u.points, u.spendRemainder), amount, per10k)
    ensures u'.firstPurchaseAt.Some?
    ensures u.firstPurchaseAt.Some? ==> u'.firstPurchaseAt == u.firstPurchaseAt
    ensures u' == u.(points := u'.points, spendRemainder := u'.spendRemainder, firstPurchaseAt := u'.firstPurchaseAt)
  {
    var b := Purchase(Balance(u.points, u.spendRemainder), amount, per10k);
    u.(points := b.points, spendRemainder := b.remainder,
       firstPurchaseAt := if u.firstPurchaseAt.Some? then u.firstPurchaseAt else Some(now))
  }

  /** Line 30: the bonus is due when the buyer had never purchased and names a referrer. */
  predicate PaysReferralBonus(u: User) {
    u.firstPurchaseAt.None? && Truthy(u.referredById)
  }

  /** The `users` table after a purchase by `uid`: the buyer credited, then the referrer's
      points raised by the bonus when it is due (an update of a missing row changes nothing). */
  function AfterPurchase(users: map<string, User>, uid: string, amount: int, now: int, cfg: PointsConfig): map<string, User>
    requires uid in users
  {
    var u := users[uid];
    var credited := users[uid := CreditBuyer(u, amount, now, cfg.per10k)];
    if PaysReferralBonus(u) && u.referredById.value in credited then
      var ref := u.referredById.value;
      credited[ref := credited[ref].(points := credited[ref].points + cfg.referralBonus)]
    else
      credited
  }

  /** Only the buyer's row and, when the bonus is due, the referrer's row change; no row is
      added or removed. */
  lemma AfterPurchaseFrame(users: map<string, User>, uid: string, amount: int, now: int, cfg: PointsConfig)
    requires uid in users
    ensures AfterPurchase(users, uid, amount, now, cfg).Keys == users.Keys
    ensures forall id :: id in users && id != uid && !(PaysReferralBonus(users[uid]) && id == users[uid].referredById.value) ==>
      AfterPurchase(users, uid, amount, now, cfg)[id] == users[id]
  {
  }

  /** The buyer is credited exactly what `Accrue` computes, and the referrer (another user)
      gains exactly the bonus when it is due and nothing otherwise. */
  lemma AfterPurchaseCredits(users: map<string, User>, uid: string, amount: int, now: int, cfg: PointsConfig)
    requires uid in users
    ensures var after := AfterPurchase(users, uid, amount, now, cfg);
      var u := users[uid];
      var a := Accrue(u.spendRemainder, amount, cfg.per10k);
      && after[uid].spendRemainder == a.remainder
      && after[uid].firstPurchaseAt.Some?
      && (!PaysReferralBonus(u) || u.referredById.value != uid ==> after[uid].points == u.points + a.points)
      && (PaysReferralBonus(u) && u.referredById.value == uid ==> after[uid].points == u.points + a.points + cfg.referralBonus)
      && (PaysReferralBonus(u) && u.referredById.value in users && u.referredById.value != uid ==>
            after[u.referredById.value] == users[u.referredById.value].(points := users[u.referredById.value].points + cfg.referralBonus))
  {
  }

  /** With non-negative amounts and configuration, a purchase keeps every balance non-negative
      and every remainder within one block. */
  lemma AfterPurchaseKeepsLedger(users: map<string, User>, uid: string, amount: int, now: int, cfg: PointsConfig)
    requires uid in users && LedgerInvariant(users)
    requires amount >= 0 && cfg.per10k >= 0 && cfg.referralBonus >= 0
    ensures LedgerInvariant(AfterPurchase(users, uid, amount, now, cfg))
  {
    var u := users[uid];
    var a := Accrue(u.spendRemainder, amount, cfg.per10k);
    assert a.units >= 0;
    assert a.points >= 0 by { NonNegativeProduct(a.units, cfg.per10k); }
  }

  lemma NonNegativeProduct(x: int, y: int)
    requires x >= 0 && y >= 0
    ensures x * y >= 0
  {
  }

  /** The buyer's row is not keyed by anything a purchase changes. */
  lemma AfterPurchaseKeepsKeys(users: map<string, User>, uid: string, amount: int, now: int, cfg: PointsConfig)
    requires uid in users && UsersKeyed(users) && EmailsUnique(users) && ReferralCodesUnique(users)
    ensures var after := AfterPurchase(users, uid, amount, now, cfg);
      UsersKeyed(after) && EmailsUnique(after) && ReferralCodesUnique(after)
  {
    var after := AfterPurchase(users, uid, amount, now, cfg);
    assert SameIdentities(users, after);
    IdentitiesTransfer(users, after);
  }

  /** A purchase with non-negative amount and configuration keeps the `users` table valid. */
  lemma AfterPurchaseKeepsValid(users: map<string, User>, uid: string, amount: int, now: int, cfg: PointsConfig)
    requires uid in users && UsersValid(users)
    requires amount >= 0 && cfg.per10k >= 0 && cfg.referralBonus >= 0
    ensures UsersValid(AfterPurchase(users, uid, amount, now, cfg))
  {
    AfterPurchaseKeepsLedger(users, uid, amount, now, cfg);
    AfterPurchaseKeepsKeys(users, uid, amount, now, cfg);
  }

  /** How many of a buyer's successive purchases pay the referral bonus. */
  function BonusesPaid(u: User, amounts: seq<int>, now: int, per10k: int): nat
    decreases amounts
  {
    if amounts == [] then 0
    else (if PaysReferralBonus(u) then 1 else 0) + BonusesPaid(CreditBuyer(u, amounts[0], now, per10k), amounts[1..], now, per10k)
  }

  /** Once `first_purchase_at` is set no later purchase pays a bonus. */
  lemma {:induction false} NoBonusAfterFirstPurchase(u: User, amounts: seq<int>, now: int, per10k: int)
    requires u.firstPurchaseAt.Some?
    ensures BonusesPaid(u, amounts, now, per10k) == 0
    decreases amounts
  {
    if amounts != [] {
      NoBonusAfterFirstPurchase(CreditBuyer(u, amounts[0], now, per10k), amounts[1..], now, per10k);
    }
  }

  /** The referral bonus is paid at most once per referred user: exactly once over any non-empty
      run of purchases when it was due before the first one, and never otherwise. */
  lemma BonusAtMostOnce(u: User, amounts: seq<int>, now: int, per10k: int)
    ensures BonusesPaid(u, amounts, now, per10k) == if amounts != [] && PaysReferralBonus(u) then 1 else 0
  {
    if amounts != [] {
      NoBonusAfterFirstPurchase(CreditBuyer(u, amounts[0], now, per10k), amounts[1..], now, per10k);
    }
  }

  datatype AwardError = UserNotFound | OrderInsertFailed

  /** `awardPointsForOrder`: one transaction that reads the user row, appends an order carrying
      the points earned, credits the buyer, and pays the referrer on a first purchase. An unknown
      user, or an order id already taken (the INSERT fails), rolls everything back. */
  method AwardPointsForOrder(db: Database, userId: string, amountArs: int, orderId: string, now: int, cfg: PointsConfig)
    returns (r: Result<Order, AwardError>)
    modifies db
    ensures userId !in old(db.users) ==> r == Err(UserNotFound)
    ensures r.Ok? <==> userId in old(db.users) && orderId !in OrderIds(old(db.orders))
    ensures r.Err? ==> db.users == old(db.users) && db.orders == old(db.orders)
    ensures r.Ok? ==>
      && r.value == Order(orderId, userId, amountArs, Accrue(old(db.users)[userId].spendRemainder, amountArs, cfg.per10k).points)
      && db.orders == old(db.orders) + [r.value]
      && db.users == AfterPurchase(old(db.users), userId, amountArs, now, cfg)
    ensures db.tiers == old(db.tiers) && db.redemptions == old(db.redemptions) && db.resetTokens == old(db.resetTokens)
    ensures old(db.Valid()) && amountArs >= 0 && cfg.per10k >= 0 && cfg.referralBonus >= 0 ==> db.Valid()
  {
    if userId !in db.users {
      return Err(UserNotFound);
    }
    var u := db.users[userId];
    var a := Accrue(u.spendRemainder, amountArs, cfg.per10k);
    if orderId in OrderIds(db.orders) {
      return Err(OrderInsertFailed);
    }
    var order := Order(orderId, userId, amountArs, a.points);
    db.orders := db.orders + [order];

    var firstPurchaseAt := if u.firstPurchaseAt.Some? then u.firstPurchaseAt else Some(now);
    db.users := db.users[userId := u.(points := u.points + a.points, spendRemainder := a.remainder,
                                      firstPurchaseAt := if u.firstPurchaseAt.Some? then u.firstPurchaseAt else firstPurchaseAt)];

    assert db.users == old(db.users)[userId := CreditBuyer(u, amountArs, now, cfg.per10k)];

    if u.firstPurchaseAt.None? && Truthy(u.referredById) {
      var ref := u.referredById.value;
      if ref in db.users {
        db.users := db.users[ref := db.users[ref].(points := db.users[ref].points + cfg.referralBonus)];
      }
    }
    assert db.users == AfterPurchase(old(db.users), userId, amountArs, now, cfg);
    r := Ok(order);
    if old(db.Valid()) && amountArs >= 0 && cfg.per10k >= 0 && cfg.referralBonus >= 0 {
      AfterPurchaseKeepsValid(old(db.users), userId, amountArs, now, cfg);
    }
  }
}
