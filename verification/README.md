# Coupon management: a Dafny model

This is a model of the coupon-distribution system: an Express/Mongoose backend that hands out
coupon codes one at a time, plus a React admin dashboard and claimant page. The model is
functional. The coupon pool and the claim ledger are immutable sequences of records, every
route-level operation is a total function returning a result datatype, and times are integer milliseconds
passed in as parameters.

| module | file | what it covers |
|---|---|---|
| `Common` | common.dfy | `Option`, `Result`, `Min` |
| `Seqs` | seqs.dfy | `Filter`, `Count`, subsequences and counting lemmas |
| `Text` | text.dfy | ASCII `trim`, `toUpperCase` and `includes`, and the code normal form |
| `CouponStore` | coupon.dfy | the coupon document, its schema defaults and the pool invariants |
| `Allocator` | allocator.dfy | `POST /claim`: selecting, stamping and serving one coupon, and runs of claims |
| `Inventory` | inventory.dfy | `POST /admin/coupons` (add) and the client-side status toggle |
| `Ledger` | ledger.dfy | the claim record schema, unique-pair insertion, paged newest-first history, stats |
| `Eligibility` | eligibility.dfy | the client's 24-hour cooldown and its state after a claim |
| `Dashboard` | dashboard.dfy | system status, history search, pie chart, rolling-24h count, distinct addresses |

The pool is kept in identity order. A coupon's identity is a natural number standing for the
store's object id, and a new coupon is modelled as getting one larger than every existing
identity (see `CouponStore.NextId` under "Left out" for when the store's ids behave so). The front
end's `status: 'active'` is modelled as the stored `isActive` flag.

## Model

| member | source | states |
|---|---|---|
| CouponStore.NewCoupon | backend/models/Coupon.js:11-13 | a fresh coupon is active, has no claimant and no claim time |
| CouponStore.NextId | backend/routes/admin.js:74-79 | a new document's identity is larger than every identity already in the pool |
| CouponStore.AppendKeepsWellFormed | backend/models/Coupon.js:3-14 | appending a non-empty, normalised, unused code under a larger identity keeps ids ascending, codes unique and stamps consistent |
| Text.NormalizeYieldsNormal | backend/routes/admin.js:73 | a trimmed, upper-cased code has no whitespace at either end and no lower-case letter |
| Text.NormalIffFixed | backend/models/Coupon.js:8-9 | a code has no outer whitespace and no lower-case letter exactly when the schema's trim and uppercase setters leave it as it is |
| Text.NormalizeIdempotent | backend/routes/admin.js:73 | trimming and upper-casing an already normalised code changes nothing, so the schema's trim/uppercase setters keep the route's formatted code |
| Text.TrimSpec | backend/routes/admin.js:73 | `trim` yields a slice of the input with no whitespace at either end, and only whitespace cut away on both sides |
| Text.ContainsSpec | coupon-joyride/src/components/ClaimHistory.tsx:32-33 | `includes` holds exactly when the term occurs at some position of the string |
| Allocator.SelectIndex | backend/routes/coupon.js:11-14 | the selected coupon is active, unclaimed, and has the smallest identity among such coupons; nothing is selected exactly when no coupon is both active and unclaimed |
| Allocator.SelectedIsFirst | backend/routes/coupon.js:11-14 | in an id-ordered pool every coupon before the selected one is inactive or already claimed |
| Allocator.ClaimAsWritten | backend/routes/coupon.js:7-31 | the route as written: no stock means "No coupons left" with the pool unchanged; otherwise only the selected coupon changes, its claimant set to the request's `ip` (possibly absent) and its claim time to now, and its code is returned |
| Allocator.AsWrittenRepeatsCodeWithoutClaimant | backend/routes/coupon.js:8 | when the request carries no `ip`, two successive claims return the same code and the stock does not shrink |
| Allocator.Claim | backend/routes/coupon.js:7-31 | the corrected claim: no claimant means refusal with the pool unchanged; no stock means "No coupons left" with the pool unchanged; otherwise only the selected coupon is stamped, its code is returned, and the stock drops by exactly one |
| Allocator.ClaimAgreesWhenNamed | backend/routes/coupon.js:7-31 | the corrected claim and the route agree on every request that names a claimant |
| Allocator.RunAgreesWhenNamed | backend/routes/coupon.js:7-31 | on a run in which every request names its claimant, the route as written serves the same codes and leaves the same pool as the corrected claim, so the run properties below hold for the route on such runs |
| Allocator.AsWrittenOversells | backend/routes/coupon.js:8-22 | the route as written, given one active unclaimed coupon and two requests without `ip`, serves its code twice from a stock of one |
| Allocator.ClaimKeepsWellFormed | backend/routes/coupon.js:20-22 | a claim by the corrected claim, which serves only requests that name their claimant (the route agrees on those by `ClaimAgreesWhenNamed`), keeps ids ascending, codes unique and valid, and claimant and claim time set together |
| Allocator.ClaimTakesHead | backend/routes/coupon.js:11-22 | with stock, a claim that names its claimant (the corrected claim; the route agrees by `ClaimAgreesWhenNamed`) returns the first available code in id order and removes exactly that code from the available list |
| Allocator.StockConserved | backend/routes/coupon.js:11-22 | over any run of the corrected claim, codes served plus remaining stock equals the initial stock, so successes never exceed it |
| Allocator.OnlyMatchingCouponsChange | backend/routes/coupon.js:12-13 | over any run of the corrected claim, a coupon that was inactive or already claimed is never changed, so inactive coupons are never claimed |
| Allocator.DrainOrder | backend/routes/coupon.js:11-14 | a run of the corrected claim returns the available codes in id order: the first n of them, n being the number of requests that name a claimant, capped by the stock |
| Allocator.DistinctCodes | backend/routes/coupon.js:11-22 | in a pool with ascending identities and unique codes, the codes served over a run of the corrected claim are pairwise distinct and each belonged to a coupon that was active and unclaimed at the start |
| Inventory.AddCoupon | backend/routes/admin.js:58-98 | a non-object body, a missing/empty/non-string code, a duplicate normalised code and a code that trims to nothing are each rejected with the pool unchanged; otherwise the trimmed, upper-cased code is appended as an active, unclaimed coupon with a fresh identity |
| Inventory.AddKeepsWellFormed | backend/models/Coupon.js:3-14 | adding keeps codes unique, non-empty and normalised and ids ascending |
| Inventory.AddedCouponIsClaimable | backend/routes/admin.js:74-77 | a newly added coupon is available to the claim route and the stock grows by one |
| Inventory.AddRejectsNormalisedDuplicate | backend/routes/admin.js:91-92 | after adding a code, adding any input with the same normal form fails with a conflict and leaves the pool unchanged |
| Inventory.HandleAddCoupon | coupon-joyride/src/components/CouponManagement.tsx:25-30 | the admin form sends nothing without a token or when the input trims to nothing; otherwise it sends the input as typed |
| Inventory.GuardScreensBlankCodes | coupon-joyride/src/components/CouponManagement.tsx:26 | a request the form lets through is either added or rejected as a duplicate, never refused for its shape |
| Inventory.FindIndex | coupon-joyride/src/contexts/CouponContext.tsx:173 | the index found is the first coupon with that identity; nothing is found exactly when no coupon has it |
| Inventory.ToggleCouponStatus | coupon-joyride/src/contexts/CouponContext.tsx:169-185 | an unknown identity fails with "Coupon not found" and requests nothing; otherwise it requests the opposite of the current status of the first coupon with that identity |
| Inventory.ToggleTwiceRestores | coupon-joyride/src/contexts/CouponContext.tsx:176 | a toggle flips exactly the named coupon's status and nothing else, and two toggles restore the list |
| Inventory.DeactivateWithdrawsFromStock | coupon-joyride/src/contexts/CouponContext.tsx:176 | deactivating a coupon makes it unavailable to the claim route and never raises the stock |
| Inventory.SetStatusKeepsWellFormed | coupon-joyride/src/contexts/CouponContext.tsx:176 | a status update keeps the pool's invariants |
| Ledger.ParseStatus | backend/models/Claim.js:15-20 | exactly "pending", "approved" and "rejected" are accepted, and each reads back as its own name |
| Ledger.StatusRoundTrip | backend/models/Claim.js:15-20 | every status survives printing and parsing |
| Ledger.MakeRecord | backend/models/Claim.js:4-38 | a valid draft's status defaults to pending and its timestamp to the creation time; the optional fields are carried over |
| Ledger.Insert | backend/models/Claim.js:4-42 | a draft missing user or coupon code, or with an unknown status, fails validation; a draft whose (coupon code, user) pair is present fails as a duplicate; otherwise one record is appended |
| Ledger.InsertKeepsPairsUnique | backend/models/Claim.js:42 | the ledger never holds two records for one (coupon code, user) pair |
| Ledger.SecondInsertFails | backend/models/Claim.js:42 | inserting the same draft again fails as a duplicate |
| Ledger.NewestFirstPairwise | backend/routes/admin.js:114 | descending order, stated record by record against the next, means every record is at least as new as every later one |
| Ledger.SortNewestFirst | backend/routes/admin.js:114 | the sorted ledger is in descending timestamp order and as long as the ledger |
| Ledger.InsertNewestPermutes | backend/routes/admin.js:114 | placing a record into a newest-first ledger adds exactly that record and loses none |
| Ledger.SortIsPermutation | backend/routes/admin.js:114 | the sorted ledger holds the same records as the ledger, each as often |
| Ledger.SkipIsProduct | backend/routes/admin.js:111 | the skip is `(page - 1) * limit` for every page and limit, negative ones included |
| Ledger.Window | backend/routes/admin.js:113-117 | a window is the run of the sorted ledger at the skip; it holds min(size, records left) records when it starts within the ledger and none past the end |
| Ledger.History | backend/routes/admin.js:108-124 | a negative skip is an error; otherwise the page is newest first and is the run of the sorted ledger starting at `(page-1)*limit`; it is empty when the skip reaches the end and otherwise holds min(page size, records left), the page size being all records for a zero limit and `abs(limit)` otherwise |
| Ledger.HistoryRecordsFromLedger | backend/routes/admin.js:113-117 | a page contains only records of the ledger |
| Ledger.HistoryDefaults | backend/routes/admin.js:110 | omitting page and limit means page 1 of 50, which is the newest min(50, n) records |
| Ledger.PagesTile | backend/routes/admin.js:111-116 | for page p ≥ 1 and limit > 0, pages p and p+1 together are exactly the window of 2·limit records starting at page p's skip |
| Ledger.Stats | backend/routes/admin.js:127-137 | the total is the ledger's size and today's count never exceeds it |
| Ledger.TodayCountsFromBoundary | backend/routes/admin.js:130-132 | an empty ledger counts none today, and a record counts as today's exactly when stamped at or after the start of day |
| Ledger.TodayEqualsTotalIffAllToday | backend/routes/admin.js:129-133 | today's count equals the total exactly when every record is stamped at or after the start of day |
| Ledger.CountSinceAntitone | backend/routes/admin.js:130-132 | a later boundary never counts more records |
| Eligibility.Breakdown | coupon-joyride/src/contexts/CouponContext.tsx:77-80 | the hours and minutes shown are the largest whole amount not above the remaining time, with fewer than 60 minutes |
| Eligibility.CheckEligibility | coupon-joyride/src/contexts/CouponContext.tsx:54-93 | the claimant holds a coupon exactly when a non-empty code is stored, whatever the cooldown; without a stored time claiming is allowed with no countdown; with one it is blocked exactly before that time plus 24 hours, and then the countdown brackets the time left |
| Eligibility.CooldownBoundary | coupon-joyride/src/contexts/CouponContext.tsx:73 | one millisecond before the 24 hours are up the claimant is blocked with 0h 0m left; at exactly 24 hours they may claim |
| Eligibility.RemainingAtMostOneDay | coupon-joyride/src/contexts/CouponContext.tsx:69-80 | while the stored claim time is not after now, the countdown never exceeds 24h 0m, and it reads 24h only at the moment of the claim |
| Eligibility.ApplyClaimResponse | coupon-joyride/src/contexts/CouponContext.tsx:123-152 | a served code is held and stored with the claim time, claiming is blocked with 24h 0m left and the error cleared; a failure changes only the error message |
| Eligibility.ClaimThenCheck | coupon-joyride/src/contexts/CouponContext.tsx:54-93 | after a claim, a check at the same moment changes nothing; at any later time the code is still held and claiming reopens exactly 24 hours later |
| Dashboard.ActiveCount | coupon-joyride/src/components/CouponManagement.tsx:45-46 | the active count never exceeds the total, and equals it exactly when every coupon is active |
| Dashboard.ActiveCountSnoc | coupon-joyride/src/components/CouponManagement.tsx:45-46 | the active count is the number of active coupons: none for an empty list, and one more coupon adds one exactly when it is active |
| Dashboard.StatusOf | coupon-joyride/src/components/CouponManagement.tsx:47 | critical exactly with no active coupon, warning with one or two, healthy with three or more |
| Dashboard.CriticalMeansNoStock | coupon-joyride/src/components/CouponManagement.tsx:47 | when the status is critical, no coupon is available and a claim fails with "No coupons left" and changes nothing |
| Dashboard.StockMeansNotCritical | coupon-joyride/src/components/CouponManagement.tsx:47 | while the claim route has stock the status is not critical |
| Dashboard.FilteredHistory | coupon-joyride/src/components/ClaimHistory.tsx:30-35 | an empty term shows the whole history; otherwise the result is an order-preserving subsequence holding exactly the rows whose address contains the term or whose code contains the upper-cased term, as many as there are such rows |
| Dashboard.EmptyTermMatchesAll | coupon-joyride/src/components/ClaimHistory.tsx:30-33 | the empty term matches every row, so the shortcut agrees with filtering |
| Dashboard.ChartOf | coupon-joyride/src/components/ClaimHistory.tsx:38-45 | claimed counts coupons with a non-empty claimant, inactive counts the inactive ones, and the three slices add up to the whole list |
| Dashboard.ChartAvailableSplit | coupon-joyride/src/components/ClaimHistory.tsx:42 | "Available" is the number of active unclaimed coupons minus the number of inactive claimed ones |
| Dashboard.ChartAvailableIsStock | coupon-joyride/src/components/ClaimHistory.tsx:38-42 | with no claimed inactive coupon and no empty claimant, "Available" equals the claim route's stock |
| Dashboard.ChartAvailableCanBeNegative | coupon-joyride/src/components/ClaimHistory.tsx:42 | one inactive, claimed coupon gives "Available" = -1 |
| Dashboard.ClaimsToday | coupon-joyride/src/components/OverviewCards.tsx:12-17 | the rolling count never exceeds the history and equals it exactly when every row is at most 24 hours old |
| Dashboard.ClaimsTodaySnoc | coupon-joyride/src/components/OverviewCards.tsx:13-16 | a row counts exactly when stamped at or after now minus 24 hours, the bound included |
| Dashboard.ClaimsTodayAntitone | coupon-joyride/src/components/OverviewCards.tsx:12-17 | a later `now` never counts more rows |
| Dashboard.UniqueIPs | coupon-joyride/src/components/OverviewCards.tsx:20 | the count is the size of the set of addresses in the history; it is at most the history's length and zero exactly for an empty history |
| Dashboard.UniqueIPsOfDistinct | coupon-joyride/src/components/OverviewCards.tsx:20 | rows from pairwise different addresses are counted one each |
| Dashboard.UniqueIPsOfOneAddress | coupon-joyride/src/components/OverviewCards.tsx:20 | any number of rows from one address count once |

## Left out

- HTTP plumbing: routing, status codes, CORS, JSON parsing and server start-up. Outcomes are result variants instead, e.g. `CodeExists` for the 409 and `StoreRejected` for the 500.
- Authentication: admin login, the JWT check and the auth context. They depend on secrets and library calls. `HandleAddCoupon` takes "has a token" as a boolean.
- Network wrappers in `api.ts` and the external IP lookup.
- Delete: the backend has no delete handler, and the client only issues a request.
- The backend PATCH handler does not exist either. A toggle is modelled as the request the client sends (`ToggleCouponStatus`) plus, separately, the list as it would read once that update took effect (`SetStatus`).
- Concurrency: the read-then-save race in the claim route. One claim is one atomic step, and compare-and-set under interleaving is not verified.
- The claim route never writes a claim record and never checks a cooldown. The model keeps those as they are: `Allocator` does not touch `Ledger`, and the cooldown exists only in `Eligibility`.
- Browser state:
  - Local storage failures and `parseInt` of a malformed stored time (`NaN`) are not modelled; the stored time is an optional integer.
  - `isLoading`, `error`, toasts and rendering are not modelled.
  - `Date.now()` and `setHours(0,0,0,0)` are parameters, and time zones are not modelled.
- The `expiry: "24h"` field of the claim response is a constant the model does not carry.
- The `createdAt` sort of the coupon list: the schema defines no `createdAt`, so the list order is not modelled.
- The settings routes return constants, and the settings page is not wired to anything.
- Unicode: `trim` covers ASCII whitespace (space, tab, LF, VT, FF, CR) and `toUpperCase` covers ASCII letters only.
- The front end reads `status`, `id`, `ip` and `device`. The backend stores `isActive`, `_id`, `ipAddress` and `deviceInfo`, and no mapping between them appears in the code. The model treats each pair as one field.
- Ties in the history sort: the store leaves the order of equal timestamps open. `SortNewestFirst` fixes one order and proves only the descending order and the permutation.
- CouponStore.NextId: a new identity is larger than every existing one. The store's object ids are only roughly ordered by time: seconds since the epoch, then a random per-process value, then a counter. The property holds for ids minted by one server process whose clock never goes back, and the drain order proved in `Allocator.DrainOrder` for added coupons relies on it.
- Allocator.ClaimAsWritten: the request's `ip` is taken to be absent or a string. A body `ip` the store cannot cast to a string makes `save` fail; the route then answers 500 and the pool is unchanged (backend/routes/coupon.js:20-22, 28-30). That path, and any other store failure in the claim route, is not modelled.
- Inventory.AddCoupon and Ledger.Insert: a store failure other than the unique-index violation makes the add route answer 500 with the error message (backend/routes/admin.js:93-96). Store failures are not modelled: the add either appends or is refused for the reasons the route checks, and `Ledger.Insert` fails only on validation or a duplicate pair.
- Ledger.History and Ledger.Stats: a store failure behind `GET /claims` or `GET /claims/stats` answers 500 with the error message (backend/routes/admin.js:120-123, 134-136). Store failures are not modelled, so both always succeed apart from the negative skip.
- Eligibility.RemainingAtMostOneDay: the client does not check that the stored claim time is in the past (coupon-joyride/src/contexts/CouponContext.tsx:69-80). A stored time after now, say from a clock set back, shows more than 24h left: one hour ahead gives 25h 0m. The bound is proved only for a stored time not after now.
- Ledger.PagesTile: the tiling is proved for page ≥ 1 and limit > 0. With limit 0 every page is the whole ledger, and with a negative limit every page after the first has a negative skip and fails, so consecutive pages do not tile.
- Ledger.History: when `page` or `limit` is not a number, the query parameters are strings coerced by JavaScript, and this is not modelled. Page and limit are integers here.

## Findings

| source | as written | input that shows it | evidently intended | confidence | as-written member | corrected member |
|---|---|---|---|---|---|---|
| backend/routes/coupon.js:8 | the claim route takes the claimant from `req.body.ip`, but the client sends it in the `X-Client-IP` header with no body (coupon-joyride/src/services/api.ts:119-126), so with the body parser's empty object `ip` is undefined (an Express version that leaves `req.body` undefined would make the destructuring throw instead); assigning undefined leaves `claimedBy` unset, the coupon still matches `claimedBy: null`, and the next claim hands out the same code | a pool with one active, unclaimed coupon and two claims without a body `ip` | each served coupon is marked as claimed, so no code is served twice | medium; not executed | Allocator.ClaimAsWritten, Allocator.AsWrittenRepeatsCodeWithoutClaimant, Allocator.AsWrittenOversells | Allocator.Claim, Allocator.DistinctCodes |
