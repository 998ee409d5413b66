# Earn-token lifecycle and merchant routing, modelled in Dafny

This project models the core of a merchant points console. A merchant's register
issues a single-use "earn token" worth some points, valid for two minutes and shown as
a QR code. A customer's device claims it once, which credits the points to a wallet
through the points ledger. Around that lifecycle sits the routing that maps a
request's host name to a merchant slug, and the slug to a merchant row.

Modules, one per source file plus three helpers:

- `Wrappers`: `Option` and `Result`.
- `Text`: the JavaScript string operations the routing relies on:
  `toLowerCase`, `endsWith`, `includes`, `split(".")[0]` and `trim`.
- `Db`: the `earn_tokens`, `wallets` and `points_ledger` tables as a `Store` class.
  Its fields are a map from claim code to token row, a map from user to wallet id, and
  an append-only sequence of ledger entries. Each store operation takes a `fails` flag
  that stands for a store error.
- `Middleware` (`src/middleware.ts`): host → slug resolution, and the forwarding of
  the `x-merchant-slug` header.
- `Merchants` (`src/lib/merchant.ts`): reading the forwarded slug, looking up the
  merchant, and `requireMerchant` as a `Result`.
- `RegisterSession` (`src/app/api/register/session/route.ts`): the merchant-id pattern,
  the validation order, rounding, the two-minute deadline, and the insertion of the row.
- `TokenStatus` (`src/app/api/token-status/route.ts`): the read-only status
  classification (missing > claimed > expired > open).
- `Claim` (`src/app/claim/route.ts`): the rejection cascade, the ledger credit and the
  claim stamp. The method `Claim.Get` changes a `Db.Store` step by step. It is proved
  equal to the function `Claim.Claim`, and the lifecycle lemmas are stated about that
  function.

Times are integer milliseconds, passed in as `now`. Configuration values
(`CONSOLE_BASE_APEX`, `MERCHANT_ID`, `DEMO_USER_ID`) are parameters. The claim code the
store assigns is a parameter, and the model requires that it is not already in the
table.

Where the code departs from the documented intent, the model follows the code:

- The comment on the local-development rule names `{slug}.lvh.me:3000`. But `endsWith(".lvh.me")`
  sees the port, so under the production apex (or any apex it does not end in) that host
  resolves to no slug (`LocalSuffixWithPortHasNoSlug`).
  The `.nip.io` form does work with a port (`NipHostYieldsFirstLabel`).
- A claim is meant to credit a code at most once. The route never checks the result of
  its final update. When that update fails, the award is still reported, the row stays
  open, and a later claim credits the same code again (`LostUpdateCreditsTwice`).
  With working updates, the sequential model credits each code at most once
  (`SecondClaimRejected`, `CreditsEqualNewClaims`).
- `getMerchantBySlug` keeps only the query's data and drops its error. A failed merchants
  query therefore reads as "Merchant not found", even for a merchant that exists
  (`LookupErrorReadsAsNotFound`).
- Routing lower-cases the host before cutting the slug from it, but the merchants lookup
  compares slugs exactly. A merchant whose slug holds an upper-case letter is therefore
  never resolved from its subdomain (`RoutedMerchantHasLowerSlug`).
- Tokens are meant to carry positive points. Positivity is checked before rounding, so
  a value in (0, 0.5) passes and is stored as 0 (`SubHalfStoredAsZero`).

## Model

| member | source | states |
|---|---|---|
| `Middleware.BaseApex` | src/middleware.ts:9-11 | The apex is the lower-cased override when one is set and non-empty, else the production apex. It is never empty and has no upper-case letter. |
| `Text.Lower` | src/middleware.ts:16 | `toLowerCase` keeps the length and maps each character to its lower-case form (ASCII letters only). |
| `Text.EndsWith` | src/middleware.ts:21 | Defined as: s ends with the characters of p (`endsWith`). |
| `Text.Contains` | src/middleware.ts:21 | Defined as: t is a prefix of s or of some suffix of s (`includes`). |
| `Middleware.IsLocalDevHost` | src/middleware.ts:21 | Defined as: the host ends in ".lvh.me" or contains ".nip.io". |
| `Middleware.SlugFromHost` | src/middleware.ts:14-39 | A missing or empty host has no slug. Any slug found is a prefix of the lower-cased host. |
| `Text.FirstLabel` | src/middleware.ts:22 | `split(".")[0]` is the longest dot-free prefix: a prefix with no '.', which is the whole string or is followed by a '.'. |
| `Middleware.SlugIgnoresCase` | src/middleware.ts:16 | The host is lower-cased first, so resolving a host and resolving its lower-cased form give the same result. |
| `Middleware.LocalDevRuleFirst` | src/middleware.ts:21-23 | A host that ends in ".lvh.me" or contains ".nip.io" yields its left-most label, whatever the apex. This rule comes before every apex rule. |
| `Middleware.NipHostYieldsFirstLabel` | src/middleware.ts:20-22 | "{slug}.{anything containing .nip.io}" yields the lower-cased slug, even with a port after the suffix. |
| `Middleware.LocalSuffixWithPortHasNoSlug` | src/middleware.ts:19-23 | "foo.lvh.me:3000" fails the ".lvh.me" suffix test because of the port, and resolves to no slug under the production apex. |
| `Middleware.BareApexHasNoSlug` | src/middleware.ts:26 | A host equal to the apex, in any case, has no slug, provided the apex is not itself a local-development host (the rule at line 21 comes first: apex "demo.lvh.me" gives "demo"). |
| `Middleware.ApexSubdomainReconstructs` | src/middleware.ts:27-30 | A host under "." + apex that the local-development rule does not catch yields the whole prefix, dots included. Slug + "." + apex gives the lower-cased host back. |
| `Middleware.ApexRoundTrip` | src/middleware.ts:27-30 | Any lower-case slug put in front of "." + apex resolves back to that slug, unless the local-development rule catches the host first. |
| `Middleware.PreviewHostFirstLabel` | src/middleware.ts:34-36 | A ".vercel.app" host that no earlier rule catches yields its left-most label. |
| `Middleware.OtherHostsHaveNoSlug` | src/middleware.ts:34-38 | A host that matches no rule has no slug. |
| `Middleware.Forward` | src/middleware.ts:41-51 | `x-merchant-slug` is present exactly when the resolved slug is non-empty, and then equals it. A client-sent value is overwritten or removed. Every other header is carried over unchanged. |
| `Text.Trim` | src/lib/merchant.ts:21 | Defined as: leading, then trailing, characters of JavaScript's white-space and line-terminator set removed (`trim`). |
| `Text.TrimEmptyIffBlank` | src/lib/merchant.ts:21 | `trim().length > 0` holds exactly when the string has a character outside JavaScript's white-space set. |
| `Merchants.SlugFromHeaders` | src/lib/merchant.ts:17-22 | A slug is read exactly when the header is present and not blank. It is then the header value, untrimmed. |
| `Merchants.RowsWithSlug` | src/lib/merchant.ts:26-30 | The rows the `.eq("slug", slug)` filter selects: a merchant is in the result exactly when it is a row with that slug; no matching row gives none. |
| `Merchants.RowsWithSlugCounts` | src/lib/merchant.ts:26-30 | The filter keeps each row with the slug exactly as many times as the table holds it, and no other row. |
| `Merchants.MerchantBySlug` | src/lib/merchant.ts:24-32 | A found merchant is a row of the table with exactly the requested slug. It is found exactly when the query works and exactly one row has that slug. A failed query gives nothing, because only `data` is kept. |
| `Merchants.MerchantFoundIffPresent` | src/lib/merchant.ts:24-32 | When slugs are unique and the query works, the lookup finds a merchant exactly when some row has the slug. |
| `Merchants.RequireMerchant` | src/lib/merchant.ts:35-41 | It fails with "not provided" exactly when no slug is read. It fails with "not found" (naming the slug) exactly when the lookup returns nothing: no row, several rows, or a failed query. Otherwise it returns the lookup's merchant, the one row holding the header slug. |
| `Merchants.LookupErrorReadsAsNotFound` | src/lib/merchant.ts:26-39 | A failed merchants query yields "not found" even for a merchant that exists, and the same request with a working query resolves to it when slugs are unique. |
| `Merchants.RoutedMerchantHasLowerSlug` | src/lib/merchant.ts:29-39 | Any merchant resolved from a routed request has a lower-case slug: the host is lower-cased at src/middleware.ts:16 and the lookup compares slugs exactly, so a merchant whose slug has an upper-case letter is never reached through its subdomain. |
| `Merchants.NoSlugNoLookup` | src/lib/merchant.ts:36-37 | Without a slug, the outcome depends neither on the merchants table nor on whether its query would fail. |
| `Merchants.ForwardedSlugReadBack` | src/lib/merchant.ts:17-22 | After routing, the slug read from the headers is the host's slug when it is not blank, and none otherwise. |
| `Merchants.SubdomainResolvesMerchant` | src/lib/merchant.ts:35-41 | With unique slugs and a working query, a request to "{slug}.{apex}" resolves through routing and lookup to the merchant holding that slug, when the slug is lower case and not blank, the apex is lower case, and the local-development rule does not catch the host. |
| `RegisterSession.IsUuid` | src/app/api/register/session/route.ts:9-10 | Defined as `UUID_RE.test`: 36 characters made of the pattern's five anchored groups (8, 4, version + 3, variant + 3, 12), hexadecimal in either case, joined by '-'. |
| `RegisterSession.MerchantId` | src/app/api/register/session/route.ts:14 | Defined as: the configured `MERCHANT_ID`, or the empty string when it is unset (which then fails the pattern). |
| `RegisterSession.UuidShape` | src/app/api/register/session/route.ts:9-10 | The id is accepted exactly when it has 36 characters: '-' at 8, 13, 18 and 23, 1-5 at 14, one of 8/9/a/b at 19, and hex digits elsewhere. |
| `RegisterSession.UuidIgnoresCase` | src/app/api/register/session/route.ts:9-10 | Because of the `i` flag, an id is accepted exactly when its lower-cased form is. |
| `RegisterSession.Round` | src/app/api/register/session/route.ts:43-44 | `Math.round` returns the integer within one half of x, with halves going up. |
| `RegisterSession.Validate` | src/app/api/register/session/route.ts:14-33 | The checks run in a fixed order: an invalid id fails first whatever the body; then amount ≤ 0; then points ≤ 0; the request passes only when all three hold. |
| `RegisterSession.NewRow` | src/app/api/register/session/route.ts:37-47 | The inserted row (merchant id, rounded amounts, `reason ?? null`, deadline now + 2 min, unclaimed) is open at `now` and expired one millisecond after its deadline. |
| `RegisterSession.HttpStatus` | src/app/api/register/session/route.ts:16-59 | Defined as: 200 for the issued code, 500 for a failed insert, 400 for each validation error; `RegisterSession.Post` ties these to its inputs. |
| `RegisterSession.ValidRequestRow` | src/app/api/register/session/route.ts:41-46 | The row built from a valid request is unclaimed and consistent. Its amount and points are the request's values, rounded. |
| `RegisterSession.SubHalfStoredAsZero` | src/app/api/register/session/route.ts:28-44 | An amount and points in (0, 0.5) pass validation and are stored as 0. |
| `RegisterSession.IssuedTokenLifetime` | src/app/api/register/session/route.ts:37 | A token issued at `now` is open until `now` + 120000 ms inclusive, and expired after that. |
| `RegisterSession.Post` | src/app/api/register/session/route.ts:12-60 | A rejection or a failed insert leaves the token table unchanged. Success adds exactly one row under the fresh code: the configured merchant id, rounded amounts, the reason or none, a deadline of now + 2 min, unclaimed. Only the code is returned. The status is 400 exactly when validation fails, 500 exactly when the insert fails after it, and 200 otherwise. |
| `Db.Store.InsertToken` | src/app/api/register/session/route.ts:39-49 | The row is added under the code, or the table is unchanged when the insert fails. |
| `TokenStatus.Classify` | src/app/api/token-status/route.ts:20-25 | Four cases. Missing exactly when there is no row. Claimed exactly when `claimed_at` is set. Expired exactly when unclaimed with `expires_at < now`. Open otherwise. |
| `TokenStatus.Lookup` | src/app/api/token-status/route.ts:13-17 | Defined as: the row stored under the code, or none when there is no such row. |
| `TokenStatus.HttpStatus` | src/app/api/token-status/route.ts:10-25 | Defined as: 400 for a missing code, 500 for a lookup error, 200 for any reported status; `TokenStatus.Get` ties these to its inputs. |
| `TokenStatus.Get` | src/app/api/token-status/route.ts:7-26 | A missing or empty code gives 400 before any lookup. A lookup error gives 500. Otherwise the status is that row's classification. The HTTP status is 400 and 500 in exactly those two cases. |
| `TokenStatus.ClaimedBeatsExpired` | src/app/api/token-status/route.ts:22-23 | A row that is claimed and past its deadline reports claimed. |
| `TokenStatus.DeadlineInclusive` | src/app/api/token-status/route.ts:23-25 | An unclaimed row is open at `expires_at` and expired one millisecond later. |
| `TokenStatus.StatusMonotoneInTime` | src/app/api/token-status/route.ts:20-25 | For an unchanged row, time moves the status from open to expired and never back. |
| `Claim.Claim` | src/app/claim/route.ts:16-63 | Every outcome is fixed by its cause. A missing or empty code is a 400. A failed token read or a status of missing is "Invalid link". A status of claimed or expired is "Already claimed" or "Expired". For an open token, a failed or empty wallet read is "No wallet", then a failed ledger insert is a 500, and otherwise the row's points are awarded. Anything but an award leaves all tables unchanged. An award appends one credit {wallet id, no tenant, 'issue', the row's points, 'QR earn'} and stamps only that row with now and the user. Wallets never change. |
| `Claim.Credit` | src/app/claim/route.ts:46-52 | Defined as the inserted ledger entry: the wallet id, no tenant, event 'issue', delta = the token's points, reason 'QR earn'. |
| `Db.MarkedClaimed` | src/app/claim/route.ts:56-59 | The updated row has `claimed_at` and `claimed_by` set to the time and the user, and every other field as before. |
| `Claim.HttpStatus` | src/app/claim/route.ts:20-76 | Defined as: 400 for a missing code, 500 for a failed ledger insert, 200 for every HTML page; `Claim.Claim` ties these to its inputs. |
| `Claim.Get` | src/app/claim/route.ts:16-63 | Run step by step on the store, the route gives the same outcome and final tables as `Claim.Claim`. |
| `Db.Store.InsertLedger` | src/app/claim/route.ts:46-53 | The entry is appended, or the ledger is unchanged when the insert fails. |
| `Db.Store.UpdateClaimed` | src/app/claim/route.ts:56-59 | The row under the code is stamped claimed. A failed update, or a code with no row, changes nothing. |
| `Claim.RejectionsFollowStatus` | src/app/claim/route.ts:31-33 | When a code is given and the token read works, the claim is rejected as unknown, already claimed or expired exactly when the status endpoint reports missing, claimed or expired. It goes past those checks exactly when the status is open. |
| `Claim.ExpiredNeverAwarded` | src/app/claim/route.ts:33 | An unclaimed token past its deadline is rejected as expired, and no table changes. |
| `Claim.ClaimedRowsFrozen` | src/app/claim/route.ts:56-59 | No claim adds or removes rows. A claimed row is never changed again. No claim changes a deadline or a points value. |
| `Claim.ClaimKeepsConsistent` | src/app/claim/route.ts:46-59 | A claim keeps every claimed row paired with a claimer, and keeps every ledger delta non-negative. |
| `Claim.SecondClaimRejected` | src/app/claim/route.ts:32 | After a recorded award (with a working update), a second claim of the same code whose token read works is "Already claimed" and changes nothing. |
| `Claim.LostUpdateCreditsTwice` | src/app/claim/route.ts:56-59 | When the claim update fails, the award is still reported and the row stays open. A second claim then credits the same code again. |
| `Claim.ClaimStepClaimedCodes` | src/app/claim/route.ts:46-59 | With a working update, an award adds its own, previously unclaimed code to the claimed codes and appends one ledger entry. Every other outcome adds neither. |
| `Claim.CreditsEqualNewClaims` | src/app/claim/route.ts:31-59 | Over any sequence of claims with working updates, the ledger grows by exactly the number of newly claimed codes. So no code is credited twice. |
| `Claim.IssueThenClaimTwice` | src/app/claim/route.ts:16-63 | On one fresh store, issuing 2450 cents / 245 points and claiming twice returns the code, then 245 awarded, then "Already claimed"; the ledger holds exactly one credit. |
| `Claim.IssuePollClaimScenario` | src/app/claim/route.ts:16-63 | Issue 2450 cents / 245 points, then poll (open), claim (245 awarded, one credit), poll (claimed), and claim again (already claimed, no credit). |
| `Claim.ExpiryScenario` | src/app/claim/route.ts:33 | A token left unclaimed for more than two minutes reports expired and cannot be claimed. |

## Left out

- HTML pages, confetti and scripts of the claim route (`html`): each page is reduced to a `Claim.ClaimOutcome` constructor.
- Response bodies' error messages: each error is modelled by its kind and its HTTP status only.
- The database client and network I/O. Tables are in-memory maps and a sequence. Every store error is a `fails` flag or a `Faults` field. The store-assigned claim code is a parameter that must not already be in the table.
- `RegisterSession.Post`: an insert that reports no error but returns no row is folded into `insertFails`, and no row is added in that case.
- `Claim.Claim`: a wallet query that matches several wallets (an error there) is folded into the wallet-lookup fault. Wallets are a map from user to one wallet id.
- Concurrency. Requests are modelled one at a time. The claim route reads, then updates unconditionally, so it gives no at-most-once guarantee under concurrent requests. Race-freedom is not modelled or claimed.
- ISO timestamp strings and `Date` parsing: times are integer milliseconds. One `now` per request is used for the expiry test and for `claimed_at`.
- `Number.isFinite`, NaN, Infinity and IEEE rounding: amounts are reals and `Math.round` is floor(x + 0.5).
- A body that is not valid JSON (`req.json()` throws): the framework answers that, and it is not modelled.
- `Text.Lower`: lower-cases ASCII letters only. JavaScript's `toLowerCase` also maps other letters. Host names reach the server as ASCII.
- HTTP header names are case-insensitive: the header map is keyed by lower-case names.
- Environment reads (`CONSOLE_BASE_APEX`, `MERCHANT_ID`, `DEMO_USER_ID`) are parameters.
- The middleware matcher regex and the route runtime exports.
- src/app/register/page.tsx (client state, dollars → points conversion), src/app/page.tsx and src/app/register/[code]/page.tsx: user-interface code outside the core.
