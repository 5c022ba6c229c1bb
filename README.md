# smoke-eat-burger loyalty backend — a Dafny model

This project models the core of the smoke-eat-burger loyalty backend, an Express and MySQL
service in TypeScript. Customers earn points for what they spend. Each 10000 pesos of spending
gives `per10k` points, and the pesos below a full block are carried over to the next purchase.
A customer's first purchase pays a one-time bonus to whoever referred them. Points buy rewards
from a tier table. Around this ledger sit small decision functions:

- e-mail syntax checks and disposable-domain checks;
- parsing of the `Authorization: Bearer` header;
- the role gates that answer 401, 403 or pass;
- the environment flags that turn mail delivery on and off.

The database tables are fields of the class `Store.Database`:

- `users`, `reward_tiers` and `password_reset_tokens` are maps keyed by primary key;
- `orders` and `redemptions` are sequences, in insertion order.

The three handlers that write to the database are methods with `modifies db`:

- `awardPointsForOrder`;
- `POST /rewards/redeem`;
- the `/auth` routes.

Each method's postcondition gives its new state in terms of pure functions (`AfterPurchase`,
`Debit`, `SetPassword`). Lemmas about those functions state the ledger's properties:

- conservation of pesos;
- no drift however purchases are split;
- the bonus is paid at most once;
- every operation keeps `Database.Valid()`. That invariant covers the keys, the UNIQUE columns, non-negative balances, and a remainder below one block.

The pure parts are functions and lemmas. These include `extractDomain`, `isValidEmail`, the
three disposable-domain checks, `extractBearer`, `requireAuth` and `requireAdmin`, `requireRole`
and `envBool`.

Everything the code takes from outside the model is a parameter:

- the bcrypt hash and its verification;
- JWT signing and verification;
- the DNS MX lookup;
- uuids, random tokens and referral codes;
- the clock;
- the contents of the `disposable-email-domains` package.

A failing SQL statement inside a transaction rolls everything back. The model shows this as an
`Err` result with every table unchanged. A primary-key or UNIQUE collision on INSERT is modelled
as that failure.

Modules, one per source file:

| module | file |
|---|---|
| `Wrappers` | `Option`, `Result` |
| `Text` | the JavaScript string built-ins the code calls: `trim`, ASCII `toLowerCase`, `split`, `indexOf`/`lastIndexOf`, `startsWith`/`endsWith`, `replace(/\.+$/, "")` |
| `Store` | row types, the table class `Database` and its invariant |
| `Points` | src/services/pointsService.ts |
| `Rewards` | src/routes/rewards.ts |
| `AuthRoutes` | src/routes/auth.ts |
| `Email` | src/utils/email.ts |
| `Dns` | the MX lookup answer shared by the two signup checks |
| `EmailValidation` | src/utils/emailValidation.ts |
| `EmailCheck` | src/utils/emailCheck.ts |
| `AuthJwt` | src/middleware/authJwt.ts |
| `AuthMiddleware` | src/middleware/auth.ts |
| `Config` | src/utils/config.ts |

## Model

| member | source | states |
|---|---|---|
| Store.SelectFirst | src/routes/auth.ts:34-38 | `rows[0]` of a `WHERE` query: none exactly when no row satisfies the condition, otherwise some row that does |
| Store.IdentitiesTransfer | src/services/pointsService.ts:26 | an UPDATE that leaves ids, e-mails and referral codes alone keeps the table keyed and both UNIQUE constraints |
| Store.Database.constructor | src/tests/setup.ts:17-52 | the empty database satisfies the schema invariant |
| Points.JsRem | src/services/pointsService.ts:18 | JavaScript `%` truncates toward zero: equal to the Euclidean remainder on a non-negative total, and in (-10000, 0] on a negative one |
| Points.Accrue | src/services/pointsService.ts:15-18 | conservation: remainder + amount = units × 10000 + new remainder; on a non-negative total the new remainder is in [0, 10000) and units = floor(total / 10000); points = units × per10k; a total under one block earns nothing |
| Points.SumNonNegative | src/services/pointsService.ts:15 | a sum of non-negative amounts is non-negative |
| Points.DivSplit | src/services/pointsService.ts:15-18 | carrying the remainder is exact: blocks before the carry plus blocks after it equal the blocks of the whole, and the final remainders agree |
| Points.CombineSteps | src/services/pointsService.ts:15-18 | crediting x and then s gives the points and remainder of crediting x + s at once |
| Points.Distribute | src/services/pointsService.ts:17 | points of two block counts add up to the points of their sum |
| Points.PurchaseAllFrom | src/services/pointsService.ts:15-18 | from any balance with remainder in [0, 10000), a sequence of non-negative purchases adds floor((remainder + sum) / 10000) × per10k points and leaves (remainder + sum) mod 10000 |
| Points.NoDrift | src/services/pointsService.ts:15-18 | from a fresh account, any purchases give floor(sum / 10000) × per10k points and remainder sum mod 10000 |
| Points.SplitInvariance | src/services/pointsService.ts:15-18 | two purchase sequences with the same total end in the same balance |
| Points.PurchaseAllAppend | src/services/pointsService.ts:15-18 | two batches of purchases in a row equal their concatenation |
| Points.PurchaseTwo | src/services/pointsService.ts:15-18 | two purchases are the second applied to the result of the first |
| Points.PurchaseExampleCarry | tests/e2e.spec.ts:78-98 | 15500 then 5000 pesos at 100 points per block give 200 points and remainder 500 |
| Points.PurchaseExampleTwoBlocks | src/tests/e2e.spec.ts:78-87 | 25100 pesos give 200 points and remainder 5100, as the end-to-end test expects; the second clause (5000 more give 300 and 100) is derived from the rule, not taken from the test |
| Points.PurchaseExampleSplit | src/services/pointsService.ts:15-18 | 4000 then 6000 pesos end exactly like one purchase of 10000 |
| Points.CreditBuyer | src/services/pointsService.ts:25-26 | the buyer's new points and remainder are one purchase applied to the old ones; `first_purchase_at` is set afterwards and an existing value is kept; no other column changes |
| Points.AfterPurchaseFrame | src/services/pointsService.ts:26-32 | the update keeps every row and changes no user except the buyer and, when a bonus is due, the referrer |
| Points.AfterPurchaseCredits | src/services/pointsService.ts:26-32 | the buyer's remainder is the accrual's and `first_purchase_at` becomes set; the buyer gains the points earned, plus the bonus only if they are their own referrer; when the bonus is due, an existing referrer other than the buyer gains exactly `referralBonus` and nothing else changes in that row |
| Points.AfterPurchaseKeepsLedger | src/services/pointsService.ts:15-32 | with a non-negative amount and configuration, balances stay non-negative and remainders stay in [0, 10000) |
| Points.NonNegativeProduct | src/services/pointsService.ts:17 | units × per10k is non-negative when both are |
| Points.AfterPurchaseKeepsKeys | src/services/pointsService.ts:26-31 | the update keeps the keys and the UNIQUE e-mail and referral-code columns |
| Points.AfterPurchaseKeepsValid | src/services/pointsService.ts:15-32 | the update keeps the whole `users` invariant |
| Points.NoBonusAfterFirstPurchase | src/services/pointsService.ts:25-30 | once `first_purchase_at` is set, no later purchase pays a bonus |
| Points.BonusAtMostOnce | src/services/pointsService.ts:25-30 | over any sequence of purchases by one user, the bonus is paid once when the first purchase finds `first_purchase_at` null and a referrer, and never otherwise |
| Points.AwardPointsForOrder | src/services/pointsService.ts:6-43 | an unknown user is `user not found`; success exactly when the user exists and the order id is new; on success one order row is appended whose `points_added` is the points credited, and `users` becomes `AfterPurchase`; on failure nothing changes; other tables are untouched; the database invariant is kept |
| Rewards.DebitFrame | src/routes/rewards.ts:45-48 | the debit changes only the caller's row, by exactly the cost, and keeps the identities |
| Rewards.DebitKeepsLedger | src/routes/rewards.ts:38-45 | a debit no larger than the balance keeps every balance non-negative |
| Rewards.DebitKeepsValid | src/routes/rewards.ts:38-48 | such a debit keeps the `users` invariant |
| Rewards.Redeem | src/routes/rewards.ts:21-64 | `tier_not_found` exactly when no tier has the code; `insufficient_points` only when the chosen tier costs more than the balance (a missing user counts 0); on success the balance falls by the tier's cost and one PENDING redemption with the new id, the caller and the tier is appended; every failure changes nothing; other tables are untouched; the invariant is kept |
| Rewards.Mine | src/routes/rewards.ts:67-94 | `/mine` lists exactly the caller's redemptions whose tier exists, each joined with its tier's fields |
| Rewards.MineBounded | src/routes/rewards.ts:70-75 | when every stored redemption is dated at most some bound, so is every listed entry |
| Rewards.NewestFirstCons | src/routes/rewards.ts:75 | an entry no older than the rest, put before a newest-first list, keeps it newest-first |
| Rewards.MineNewestFirst | src/routes/rewards.ts:75 | when redemptions are inserted in time order, `/mine` is ordered newest first |
| Rewards.RedeemListed | src/routes/rewards.ts:49-53 | a new redemption heads its owner's `/mine` list and leaves every other user's list unchanged |
| AuthRoutes.ReferralResolvedUniquely | src/routes/auth.ts:42-49 | while referral codes are unique, a supplied code resolves to at most one referrer |
| AuthRoutes.PickReferralCode | src/routes/auth.ts:51-59 | at most five clash checks; every rejected draw was taken; the code kept is free unless all five checks clashed; the code kept is `KeptCode` of the codes in use |
| AuthRoutes.FirstFree | src/routes/auth.ts:51-59 | the index of the first free draw: every earlier draw is taken, and it is free unless it is the fifth |
| AuthRoutes.KeptCode | src/routes/auth.ts:51-59 | the kept code is one of the first six draws, and is free whenever one of the first five draws is |
| AuthRoutes.ResolveReferral | src/routes/auth.ts:42-49 | the referrer is the id of a user holding the supplied code; a missing, empty or unknown code, or a holder with an empty id, gives null |
| AuthRoutes.NewUserKeepsValid | src/routes/auth.ts:61-65 | inserting a row with a new id, e-mail and referral code, 0 points and remainder 0 keeps the `users` invariant |
| AuthRoutes.Register | src/routes/auth.ts:27-72 | `email_in_use` exactly when the e-mail exists, and nothing is inserted; success exactly when the e-mail and the id are free and the kept referral code is not in use; on success the new row has role USER, 0 points, remainder 0, no purchase date, a referral code no user holds and the resolved referrer, and the answer carries the token signed over id and role; other tables untouched; invariant kept |
| AuthRoutes.Login | src/routes/auth.ts:82-111 | unknown e-mail and wrong password give the same `invalid_credentials`; success exactly when a row with the e-mail verifies the password, and the answer is that row's id, role, referral code and signed token |
| AuthRoutes.Recover | src/routes/auth.ts:120-147 | an unknown e-mail answers ok and stores nothing; for a known one a token for that user expiring 3600000 ms later is stored; the insert fails only on a taken id or token; `users` never changes |
| AuthRoutes.Reset | src/routes/auth.ts:157-189 | a missing, used or expired token gives `invalid_or_expired` and changes nothing; success replaces the owner's password hash and marks that token used at `now`; with unique tokens, success exactly when a usable token matches |
| AuthRoutes.ResetTwice | src/routes/auth.ts:173-186 | a token is single-use: after a successful reset, a second reset with it fails whatever the time |
| Email.ExtractDomain | src/utils/email.ts:51-65 | empty input gives null; a result never contains `@` and never ends with a dot |
| Email.ExtractDomainLowerCased | src/utils/email.ts:53 | the extracted domain is lower-cased |
| Email.LowerKeepsMarks | src/utils/email.ts:53 | lower-casing keeps the length and the positions of `@` and `.` |
| Email.DomainOf | src/utils/email.ts:56-64 | a text without `@` always has a domain; the domain is the text after the last `@` (or the whole text) up to a run of trailing dots, contains no `@` and does not end in a dot |
| Email.DomainOfDotted | src/utils/email.ts:56-64 | `local@d` followed by any number of dots gives exactly `d` (e.g. `a@b.com.` gives `b.com`) |
| Email.DomainOfLowerCased | src/utils/email.ts:61-63 | a slice of a lower-cased address is lower-cased |
| Email.LowerCasedSlice | src/utils/email.ts:63 | every slice of a lower-cased string is lower-cased |
| Email.ExtractDomainNull | src/utils/email.ts:52-64 | null exactly for empty input, or for a trimmed input with `@` whose text after the last `@` is only dots |
| Email.DomainOfNull | src/utils/email.ts:61-64 | null exactly when the text after the last `@` is empty or only dots |
| Email.ExtractDomainOfAddress | src/utils/email.ts:53-64 | for `local@domain` with a lower-cased domain free of `@` and trailing dots, the result is that domain |
| Email.NormalizeAddress | src/utils/email.ts:53 | trimming and lower-casing such an address lower-cases the local part and keeps the domain |
| Email.DomainOfAddress | src/utils/email.ts:61-64 | the text after the last `@` is the domain when it does not end with a dot |
| Email.ExtractDomainOfDomain | src/utils/email.ts:56-58 | input without `@` comes back with its trailing dots removed |
| Email.LocalRunHasNoAt | src/utils/email.ts:80 | the local-part character class excludes `@` |
| Email.MatchesPattern | src/utils/email.ts:79-82 | the regular expression accepts exactly the strings the pattern describes: one `@`, a run of local characters, and two or more dot-separated labels |
| Email.PatternAt | src/utils/email.ts:80 | a match splits at the first `@` into a local run and a matching domain |
| Email.PatternAtFirst | src/utils/email.ts:80 | the same split, as facts about a matching string |
| Email.FirstAt | src/utils/email.ts:80 | the first `@` of a string is unique |
| Email.DomainMatchesSound | src/utils/email.ts:80 | the executable domain check implies the domain pattern |
| Email.DomainMatchesComplete | src/utils/email.ts:80 | the domain pattern implies the executable domain check |
| Email.SplitOfJoin | src/utils/email.ts:85 | splitting labels joined by a separator they do not contain gives the labels back |
| Email.IsValidEmail | src/utils/email.ts:71-89 | accepts exactly the trimmed strings that are 6 to 254 characters long, match the pattern, and have a local part that neither starts nor ends with `.` and has no `..` |
| Email.ValidLocalPart | src/utils/email.ts:84-86 | on a matching string, validity is the length bounds and the dot rules on the part before `@` |
| Email.JoinAvoids | src/utils/email.ts:80 | joined labels contain no character that none of the labels contains, other than the separator |
| Email.ValidEmailShape | src/utils/email.ts:79-86 | an accepted e-mail, trimmed, has exactly one `@`, a well-formed local part, and a domain of two or more valid labels |
| Email.ValidAddressShape | src/utils/email.ts:79-86 | a valid address has one `@`, splits into two parts, a dot-correct local run and a matching domain |
| Email.SplitAtOnly | src/utils/email.ts:85 | a string with one `@` splits into the parts before and after it |
| Email.SingleAt | src/utils/email.ts:80 | a string with one `@` position counts one `@` |
| Email.DomainHasNoAt | src/utils/email.ts:80 | a matching domain has no `@` |
| Email.AcceptsAddress | src/utils/email.ts:71-89 | every address built from a dot-correct local run and two or more labels, within the length bounds, is accepted |
| Email.AddressOfParts | src/utils/email.ts:79-86 | such an address is a valid address |
| Email.AddressIsTrimmed | src/utils/email.ts:73 | such an address is unchanged by `trim` |
| Email.LocalCharNotSpace | src/utils/email.ts:80 | no local-part character is whitespace |
| Email.LabelsEnd | src/utils/email.ts:80 | joined labels end with a letter or digit |
| Email.AcceptsShortAddress | src/utils/email.ts:75-82 | `a@b.co` (six characters) is accepted |
| Email.JoinHasSep | src/utils/email.ts:80 | two or more joined labels contain the separator |
| Email.RejectsDotlessDomain | src/utils/email.ts:80 | a domain without a dot is rejected |
| Email.DotlessIsNoDomain | src/utils/email.ts:80 | a dotless string never matches the domain pattern |
| Email.RejectsBadDots | src/utils/email.ts:85-86 | a local part with a leading or trailing dot, or `..`, is rejected |
| Email.RejectsHostOnly | src/utils/email.ts:80 | `user@localhost` is rejected |
| Email.RejectsLeadingDot | src/utils/email.ts:86 | `.user@example.com` is rejected |
| Email.RejectsDoubledDot | src/utils/email.ts:86 | `us..er@example.com` is rejected |
| Email.MatchesAny | src/utils/email.ts:109-113 | the loop returns true exactly when some entry equals the domain or is a dot-separated suffix of it |
| Email.ExtraEntries | src/utils/email.ts:101-104 | the extra entries are exactly the non-empty trimmed, lower-cased comma pieces |
| Email.Normalized | src/utils/email.ts:103 | each piece is trimmed and lower-cased, in order |
| Email.NonEmpty | src/utils/email.ts:104 | `filter(Boolean)` keeps exactly the non-empty pieces |
| Email.BlockedDomain | src/utils/email.ts:106-113 | blocked exactly when some base or extra entry blocks the domain |
| Email.IsDisposableDomain | src/utils/email.ts:96-114 | input with no domain is never disposable; an input is disposable exactly when its domain is non-empty and some block-list entry blocks it |
| Email.SubdomainBlocked | src/utils/email.ts:110-111 | a listed entry blocks itself and every subdomain of itself |
| Email.BlocksSubdomain | src/utils/email.ts:110-111 | an entry blocks itself and `sub.` + itself |
| Email.BlocksNeedsDot | src/utils/email.ts:111 | suffix matching needs the dot: a prefix not ending in `.` does not make a blocked subdomain |
| Email.ExtraEntryBlocks | src/utils/email.ts:101-111 | an input whose domain is a non-empty piece of the extras string is disposable |
| Email.NoExtras | src/utils/email.ts:101-106 | an unset or empty extras variable leaves the base list alone |
| Email.EmptyExtra | src/utils/email.ts:101-104 | the empty extras string gives no entries |
| Email.ListedBlocked | src/utils/email.ts:106-113 | every listed entry, and every subdomain of it, is blocked |
| Email.MailinatorListed | src/utils/email.ts:1-46 | `mailinator.com` is always in the block list |
| Email.SingleDotBlockers | src/utils/email.ts:110-111 | a domain with one dot is blocked only by itself or by its part after the dot |
| Email.NoBlockerListed | src/utils/email.ts:109-113 | when neither of those is listed, the domain is not blocked |
| Email.NotMailinatorIsNotBlocked | src/utils/email.ts:109-113 | `notmailinator.com` is not blocked by the base list |
| Email.ComNotListed | src/utils/email.ts:1-46 | `com` is not a base entry |
| Email.NameNotListed | src/utils/email.ts:1-46 | `notmailinator.com` is not a base entry |
| EmailValidation.DisposableSet | src/utils/emailValidation.ts:4 | the set holds exactly the lower-cased package entries |
| EmailValidation.StripWww | src/utils/emailValidation.ts:8 | removes one leading `www.` and nothing else |
| EmailValidation.DisposableIgnoresCase | src/utils/emailValidation.ts:7-8 | two domains equal up to case get the same answer |
| EmailValidation.DisposableIgnoresUpperCase | src/utils/emailValidation.ts:7-8 | an upper-cased domain gets the same answer |
| EmailValidation.DisposableWithWww | src/utils/emailValidation.ts:8 | a listed domain is disposable with or without a leading `www.` |
| EmailValidation.OnlyOneWwwStripped | src/utils/emailValidation.ts:8 | only one `www.` is stripped |
| EmailValidation.ValidateEmailForSignup | src/utils/emailValidation.ts:20-27 | `invalid_format` exactly when the input does not have exactly one `@` |
| EmailValidation.ValidateAddress | src/utils/emailValidation.ts:11-27 | for `local@domain`: `disposable` when the lower-cased domain is disposable, else `no_mx` when the lookup finds no records or fails, else ok |
| EmailValidation.DisposableSkipsLookup | src/utils/emailValidation.ts:24-25 | a disposable or malformed verdict does not depend on the MX lookup |
| EmailValidation.SignupOkMeans | src/utils/emailValidation.ts:20-26 | ok means one `@`, a domain that is not disposable, and MX records |
| EmailCheck.CaptureDomain | src/utils/emailCheck.ts:10-11 | the group is present exactly when the input is `non-empty@non-empty` without whitespace or a second `@`, and then it is the part after `@` |
| EmailCheck.CaptureAt | src/utils/emailCheck.ts:10 | at the first `@`, the pattern holds exactly when both sides are plain runs |
| EmailCheck.CheckEmailAccept | src/utils/emailCheck.ts:8-27 | mode `off` accepts everything; otherwise a malformed input is `invalid_email`; `disposable` only in strict mode; `no_mx` only when the MX check is on |
| EmailCheck.CheckAddress | src/utils/emailCheck.ts:12-26 | for a well-formed address the verdict is, in order: strict and listed lower-cased domain → `disposable`; MX check on and no records or failure → `no_mx`; else ok |
| EmailCheck.SoftAndOffline | src/utils/emailCheck.ts:14-18 | outside strict mode nothing is `disposable`; with the MX check off the lookup is never consulted |
| EmailCheck.ListedInCapitals | src/utils/emailCheck.ts:12-15 | `x@MAILINATOR.COM` is rejected as disposable in strict mode |
| EmailCheck.RejectsMalformed | src/utils/emailCheck.ts:10-11 | an empty or whitespace-bearing side is `invalid_email` |
| AuthJwt.EitherHeader | src/middleware/authJwt.ts:14 | `authorization || Authorization`: an absent or empty first header falls through to the second |
| AuthJwt.BearerMatch | src/middleware/authJwt.ts:16 | the captured group is exactly what `/^Bearer\s+(.+)$/i` yields: present exactly when some split matches, and then the rest after the longest whitespace run that still matches |
| AuthJwt.NoCapture | src/middleware/authJwt.ts:16 | with no matching split there is no capture |
| AuthJwt.Capture | src/middleware/authJwt.ts:16 | the greatest matching split determines the capture |
| AuthJwt.CaptureRest | src/middleware/authJwt.ts:16 | a non-empty rest after the whitespace, free of line terminators, is the capture |
| AuthJwt.CaptureLast | src/middleware/authJwt.ts:16 | when whitespace runs to the end, backtracking hands its last character to the group |
| AuthJwt.NoCaptureAllSpace | src/middleware/authJwt.ts:16 | a single trailing whitespace character, or a final line terminator, gives no match |
| AuthJwt.BearerRun | src/middleware/authJwt.ts:16 | the whitespace run after the scheme bounds every matching split |
| AuthJwt.BearerBlocked | src/middleware/authJwt.ts:16 | a line terminator in the rest defeats every split |
| AuthJwt.ExtractBearer | src/middleware/authJwt.ts:13-18 | a missing or non-string header gives null; otherwise the regular-expression capture, never empty |
| AuthJwt.BearerOfToken | src/middleware/authJwt.ts:16 | the scheme in any case, whitespace, and a token without line terminators give back exactly that token |
| AuthJwt.CapturesUnique | src/middleware/authJwt.ts:16 | the capture is determined by the header |
| AuthJwt.BearerOfWhitespace | src/middleware/authJwt.ts:16 | the scheme followed only by whitespace yields the last whitespace character when there are two or more and it is not a line terminator, and nothing otherwise |
| AuthJwt.BearerNeedsSpace | src/middleware/authJwt.ts:16 | the scheme must be followed by whitespace |
| AuthJwt.RequireAuth | src/middleware/authJwt.ts:20-40 | every refusal is 401 `unauthorized`; passes exactly when a token is extracted and verifies to an object whose `sub` is a non-empty string; then `userId` is `sub` and `userRole` the role claim or `user` |
| AuthJwt.AdminCheck | src/middleware/authJwt.ts:45-60 | passes exactly when the stored role is `admin`; no row gives 401, another role 403, a failed query 500 |
| AuthJwt.RequireAdmin | src/middleware/authJwt.ts:42-62 | a caller `requireAuth` refuses gets 401 without a lookup; otherwise the stored-role check decides |
| AuthJwt.AdminIgnoresTokenRole | src/middleware/authJwt.ts:42-62 | two verifiers that agree on every subject but not on role claims give the same decision |
| AuthJwt.AuthAgreesOnSubject | src/middleware/authJwt.ts:20-40 | such verifiers make `requireAuth` agree on passing and on the user id |
| AuthJwt.TokenAdminNotEnough | src/middleware/authJwt.ts:51-54 | a token claiming `admin` for a user stored with another role is forbidden |
| AuthJwt.StoredAdminSuffices | src/middleware/authJwt.ts:51-57 | a token without a role claim for a stored admin passes as admin |
| AuthMiddleware.TokenOf | src/middleware/auth.ts:10-11 | a token exactly when the header starts with `Bearer ` (case-sensitive), and then the header is that prefix plus the token |
| AuthMiddleware.RequireAuth | src/middleware/auth.ts:9-20 | missing prefix or empty token gives 401 `missing token`; a verifier failure gives 401 `invalid token`; otherwise the verified payload is attached |
| AuthMiddleware.TokenRoundTrip | src/middleware/auth.ts:11-18 | `Bearer ` + a non-empty token hands exactly that token to the verifier |
| AuthMiddleware.PrefixIsExact | src/middleware/auth.ts:10-12 | `bearer x`, `Bearer`, `Bearer ` and an absent header are all missing tokens |
| AuthMiddleware.RequireRole | src/middleware/auth.ts:23-31 | no user gives 401; `USER` always passes; `ADMIN` passes exactly when the role is `ADMIN`, otherwise 403 |
| AuthMiddleware.AdminImpliesUser | src/middleware/auth.ts:27-28 | whatever the admin gate admits, the user gate admits |
| AuthMiddleware.AdminRoleIsExact | src/middleware/auth.ts:28 | the role comparison is case-sensitive |
| Config.EnvBool | src/utils/config.ts:3-7 | unset gives the default; a set value of more than four characters is false; `true` in any case is true |
| Config.EnvBoolIgnoresDefault | src/utils/config.ts:5-6 | a set value decides alone |
| Config.EnvBoolIgnoresCase | src/utils/config.ts:6 | a value and its upper-cased form read the same |
| Config.EnvBoolAccepts | src/utils/config.ts:6 | a set value is true exactly when lower-cased it is `1`, `true`, `yes` or `on` |
| Config.EnvBoolExamples | src/utils/config.ts:5-6 | `TRUE` and `On` are true; `""`, `0` and `no` are false even with default true |
| Config.MailDryRun | src/utils/config.ts:38 | dry run exactly when `MAILER_DRY_RUN` or `EMAIL_DRY_RUN` is true; false when neither is set |
| Config.MailDriver | src/utils/config.ts:40 | the driver is `MAILER_DRIVER` when set and non-empty, otherwise `smtp` |
| Config.SendMailAction | src/utils/config.ts:52-66 | a dry run returns without a transport; a transport is built exactly when not a dry run and the driver is not `log` |
| Config.DefaultSendsMail | src/utils/config.ts:38-40 | with nothing set, mail is sent |
| Text.StripDotsOf | src/utils/email.ts:57 | `replace(/\.+$/, "")` removes exactly the trailing dots |
| Text.SplitJoin | src/utils/emailValidation.ts:21 | `split` is undone by joining, and gives one more piece than separators |
| Text.LowerOfUpper | src/utils/emailValidation.ts:7 | lower-casing forgets the original case |

## Left out

- Concurrency: the `FOR UPDATE` lock, transaction isolation, and the unlocked read-then-debit of `/redeem` (src/routes/rewards.ts:33-45). Each handler is one atomic step.
- SQL string comparison is exact equality: the utf8mb4 collation's case-insensitive matching of e-mails, codes and tokens is not modelled.
- `toLowerCase` and `toUpperCase` are modelled on ASCII letters only; other Unicode case mappings are left out.
- Numbers are unbounded integers. JavaScript doubles, `NaN`, and amounts that are not integers are not modelled; `Number(u.spend_remainder)` is taken as the stored integer.
- Points.AwardPointsForOrder: `per10k` and `referralBonus` are parameters. The code reads `config.pointsPer10k` and `config.referralBonus` from src/config.ts, which defines neither. The defaults 100 and 50 of src/utils/config.ts:30-31 are used in the examples.
- bcrypt hashing and verification, JWT signing and verification, uuids, `crypto.randomBytes`, the clock and DNS resolution are function parameters. Their own behaviour is not modelled.
- `Array.isArray(records)` in `domainHasMX` (src/utils/emailValidation.ts:14) is subsumed by the `Dns.MxLookup` answer: a list of records or a failure.
- The contents of the `disposable-email-domains` package are a parameter of `EmailValidation`.
- AuthRoutes.Recover: mail delivery is left out. When `sendMail` throws after the insert (src/routes/auth.ts:140-144), the token stays stored and the client gets an error; the model answers ok.
- AuthRoutes.Register: the referrer is stated as one the code resolves to (an existential). While referral codes are unique it is the only one (`AuthRoutes.ReferralResolvedUniquely`).
- AuthRoutes.Register: the password hash is `hash(password)` for a deterministic `hash`; bcrypt's salt is not modelled.
- Database errors other than key collisions are not modelled. These include lost connections and failures inside `SELECT`.
- Rewards.MineNewestFirst: ordering by `created_at DESC` is proved from the assumption that redemptions are inserted in time order. Ties between equal timestamps are not ordered.
- Rewards.Redeem: the response body omits `createdAt`, but the model returns the inserted row.
- AuthJwt.RequireAuth: a role claim that is present but not a string is not modelled; `Decoded.role` is a string or nothing. So the `?? "user"` default applies only to a missing role.
- AuthJwt.RequireAuth and AuthMiddleware.RequireAuth: the assignments to `req.userId`, `req.userRole` and `req.user` are returned as the `Next` and `Attach` outcomes; an exception thrown by `next()` itself is not modelled.
- `isValidEmail` on a value that is not a string (src/utils/email.ts:72) is not modelled; inputs are strings.
- Request validation by zod schemas, `GET /rewards/tiers`, Express wiring, rate limiting, logging and src/routes/orders.ts are not part of this model.
- The SMTP transport options and the nodemailer call of src/utils/config.ts:58-65 are network I/O; only the decision to send is modelled.
- The `Authorization` header lookup models `req.headers.authorization || req.headers.Authorization`; Node's own header lower-casing is not modelled.
- Role spelling: `AuthJwt.AdminCheck` compares the role with lower-case `admin` exactly as written, although src/routes/auth.ts stores `USER` and src/middleware/auth.ts checks `ADMIN`. A row holding `ADMIN` is therefore forbidden (403). The schema in tests/setup.ts:21 stores lower-case roles, so which spelling is intended is not settled, and no corrected variant is modelled.
