# Credit ledger of the legal-rights lookup app

The application sells "lookups" to Farcaster users. Each account holds a
balance of paid credits. A new account gets 3 credits. More credits are
bought through the payment provider's payment intents. The user service
offers a deduct operation for spending one credit per billable lookup, and
the lookup service offers an operation for recording a search. As written,
no route or component calls either of them: the search route only asks the
language model, so searches are neither charged nor recorded. The one
credit per search that the interface text announces is therefore not
enforced by the code. The model covers both operations as the services
define them.

This project models that ledger as pure state transitions over the three
tables: `users`, `payments` and `lookup_history`. It also models the
provider's intents and the provider's notification endpoint. Every operation
that writes takes the current rows and returns the response the service
would give, together with the rows it leaves behind (`Step(response, next)`).
The reads return the response alone, and the notification endpoint returns
an `Outcome`: the HTTP answer and the rows after the handlers ran. Failure
responses carry the service's own error strings.

Modules:

- `Types`: the common pieces.
  - The `{ success, data | error }` response shape.
  - The table rows.
  - Store faults.
  - The "exactly one row" lookup that `.single()` performs.
- `Sorting`: newest-first and most-frequent-first ordering, as a stable
  insertion sort by an integer key.
- `Stripe`: the catalog of three credit packages.
- `UserService`:
  - resolving or creating an account by Farcaster id;
  - reading an account;
  - adding credits;
  - the deduct gate.
- `PaymentService`:
  - starting a purchase;
  - the success and failure settlement handlers;
  - payment history;
  - lookup by payment id.
- `StripeWebhook`: the notification endpoint, which authenticates a delivery
  and routes it.
- `QueryText`: JavaScript's `toLowerCase().trim()` on query strings.
- `LookupService`:
  - recording and deleting history rows;
  - the paginated history;
  - recent lookups;
  - the popular-query ranking.
- `LedgerRuns`:
  - the ledger invariant that every ledger operation keeps;
  - runs of requests;
  - a settlement story with a replayed notification.

## Settlement as written

The code is followed where it differs from what a settlement design would
promise. Neither settlement handler reads the payment's prior status before
writing.

- A success notification grants the credits every time it is delivered.
  This is shown by `PaymentService.DuplicateSuccessGrantsTwice`,
  `StripeWebhook.ReplayedSuccessGrantsTwice` and
  `LedgerRuns.ReplayedNotificationStory`. In the story, 3 + 15 + 15 − 4 = 29
  credits remain instead of 14.
- A `failed` payment can become `completed` (`FailedPaymentCanBeCompleted`).
- A `completed` payment can become `failed` while its credits stay
  (`CompletedPaymentCanBeFailed`).
- Settlement is therefore neither idempotent nor monotone in status. The
  model states this as proved behaviour and does not correct it.

Other behaviours that follow the code:

- A payment is marked `completed` before its credits are added. If adding
  the credits fails, the payment stays `completed` and no credits are
  granted.
- The provider intent is created before the payment row is inserted. A
  failed insert leaves an orphaned intent.
- The package guard tests only that the catalog lookup is truthy. A name inherited from `Object.prototype`, such as `constructor` or `__proto__`, passes it. Reading that value's credits then throws, so the request fails as "Failed to create payment intent" before the provider is called.
- The notification endpoint answers `{ received: true }` to every
  authenticated delivery, whatever its handler reported.
- The failure handler updates by reference without reading first. An unknown
  reference is therefore a successful no-op.

Nondeterminism and the world outside the service are parameters of the
operations:

- Store errors are boolean `StoreFaults`.
- `generateId()` is a fresh id passed in. The account id, the payment row id and the lookup row id are each required to be absent from their table.
- `new Date()` is a `now` timestamp.
- The provider's intent creation is a `ProviderReply`.
- The provider's signature check (`constructEvent`) is a function from body
  and signature to an optional event.

## Model

| member | source | states |
|---|---|---|
| Types.SingleMatch | lib/services/user.service.ts:12-16 | a `.single()` lookup yields a key exactly when exactly one row satisfies the filter; that key's row satisfies it and is the only one that does |
| Stripe.Package | lib/stripe.ts:15-37 | every catalog package grants a positive number of credits for a positive price |
| Stripe.CatalogValues | lib/stripe.ts:15-37 | basic is 5 credits for 100 cents, standard 15 for 250, premium 50 for 700 |
| Stripe.ResolvePackageId | lib/services/payment.service.ts:16-19 | a request's package string resolves exactly when it is one of the keys BASIC, STANDARD, PREMIUM, and to the package filed under that key |
| Stripe.InheritedName | lib/services/payment.service.ts:16-28 | a name every object inherits is never one of the catalog's own keys, so it does not resolve to a package although it passes the guard |
| Stripe.KeyNameResolves | lib/stripe.ts:15-39 | each catalog key resolves back to its own package, and the three keys are distinct |
| Stripe.PackageIdIsNotAKey | lib/stripe.ts:17 | a package's lower-case `id` field does not name a package in a purchase request |
| UserService.WithFarcasterId | lib/services/user.service.ts:12-15 | the accounts found are exactly those carrying the Farcaster id |
| UserService.FindByFarcasterId | lib/services/user.service.ts:12-18 | an existing account is recognised only when the read succeeds and exactly one row carries the Farcaster id |
| UserService.GetOrCreateUser | lib/services/user.service.ts:9-72 | an unknown Farcaster id gets one new row with 3 credits and the address or null; a known one is returned as stored unless a different non-empty address is given, which then is the only field written; each write failure has its own error and writes nothing; no existing balance changes |
| UserService.GetUserById | lib/services/user.service.ts:82-98 | succeeds exactly when the id exists and the read succeeds, returning that row, else "User not found" |
| UserService.UpdateUserCredits | lib/services/user.service.ts:108-136 | succeeds exactly when the account exists and neither read nor write fails; then only that balance changes, by the signed amount; a missing account or failed read gives "User not found", a failed write "Failed to update credits"; on failure nothing changes |
| UserService.ReadAfterUpdate | lib/services/user.service.ts:82-136 | after a successful credit update, reading the account back returns the written row with the balance moved by the amount, and other accounts read as before |
| UserService.DeductCredits | lib/services/user.service.ts:146-178 | "Insufficient credits" exactly when the balance is below the cost; succeeds exactly when the account exists, the balance covers the cost and the store works; then only that balance drops by the cost and stays at least zero; a missing account or failed read gives "User not found", a failed write after the balance check "Failed to deduct credits"; on failure nothing changes |
| UserService.DefaultDeductionTakesOne | lib/services/user.service.ts:146 | without an explicit cost a deduction takes exactly one credit |
| UserService.DeductThenRefundRestoresBalance | lib/services/user.service.ts:108-178 | deducting a cost then adding it back restores the balance and leaves every other account as it was |
| UserService.DeductKeepsBalancesNonNegative | lib/services/user.service.ts:154-158 | if no balance is negative before a deduction, none is after it |
| UserService.GetOrCreateIsIdempotent | lib/services/user.service.ts:11-72 | resolving a new Farcaster id twice creates one account; the second call returns the first call's row and writes nothing |
| Sorting.SortDesc | lib/services/payment.service.ts:151 | the result is a permutation of the input ordered by non-increasing key |
| PaymentService.CreatePaymentIntent | lib/services/payment.service.ts:11-65 | an unknown package is rejected with nothing created; a name inherited from `Object.prototype` passes the guard and fails as "Failed to create payment intent" with nothing created, because reading its credits throws; a provider error creates nothing; otherwise the provider holds an intent for the package's price in usd, and the payment row is `pending` with that price, credits, owner and reference unless the insert fails or the owner does not exist, in which case no row is written and the intent is orphaned; balances never change |
| PaymentService.HandleSuccessfulPayment | lib/services/payment.service.ts:71-110 | an unknown reference or failed read gives "Payment not found" and a failed status write gives its error, both changing nothing; otherwise the payment alone becomes `completed`, and the owner's balance alone grows by the payment's credits, or on a credit failure stays while the status stays written |
| PaymentService.HandleFailedPayment | lib/services/payment.service.ts:120-135 | marks the referenced payment alone `failed` and never touches a balance; an unknown reference is a successful no-op; a write failure changes nothing |
| PaymentService.GetUserPaymentHistory | lib/services/payment.service.ts:145-163 | the history holds each of the user's payments exactly once, newest first |
| PaymentService.GetPaymentById | lib/services/payment.service.ts:173-189 | found exactly when the read succeeds and exactly one payment has that id, which is then the row returned |
| PaymentService.CreatedPaymentIsFound | lib/services/payment.service.ts:173-189 | a recorded purchase is found again by its row id, and the row found is the one filed under its intent reference |
| PaymentService.DuplicateSuccessGrantsTwice | lib/services/payment.service.ts:71-110 | two success settlements of one payment grant its credits twice |
| PaymentService.FailedPaymentCanBeCompleted | lib/services/payment.service.ts:71-110 | a `failed` payment is flipped to `completed` and its credits are granted |
| PaymentService.CompletedPaymentCanBeFailed | lib/services/payment.service.ts:120-135 | a `completed` payment is flipped to `failed` and no balance is taken back |
| StripeWebhook.Post | app/api/webhooks/stripe/route.ts:6-66 | a missing or empty signature gives 400 "No signature found" and one that does not verify gives 400 "Invalid signature", both changing nothing; a delivery is acknowledged exactly when it authenticates; success and failure events run their handler on the event's intent id, any other type changes nothing |
| StripeWebhook.Authenticate | app/api/webhooks/stripe/route.ts:11-32 | a delivery with a missing or empty signature never authenticates; otherwise it carries exactly the event the provider's signature check yields |
| StripeWebhook.FailedEventKeepsBalances | app/api/webhooks/stripe/route.ts:49-64 | an authenticated delivery that is not a success event never changes a balance |
| StripeWebhook.ReplayedSuccessGrantsTwice | app/api/webhooks/stripe/route.ts:36-47 | replaying an authenticated success delivery is acknowledged again and grants the credits a second time |
| QueryText.Lower | lib/services/lookup.service.ts:147 | lower-casing keeps the length and maps each character on its own |
| QueryText.Trim | lib/services/lookup.service.ts:147 | the trimmed text is the slice of the input between its leading and trailing white space, and it neither starts nor ends with white space |
| QueryText.Normalize | lib/services/lookup.service.ts:147 | a key is no longer than its query, has no surrounding white space and no upper-case ASCII letter |
| QueryText.NormalizeIsTrimmedLower | lib/services/lookup.service.ts:147 | a key is exactly its query lower-cased with the white space at both ends removed: everything removed is white space, and the key is the slice between |
| QueryText.TrimStart | lib/services/lookup.service.ts:147 | the result is a suffix of the input, everything dropped is white space, and it does not start with white space |
| QueryText.TrimEnd | lib/services/lookup.service.ts:147 | the result is a prefix of the input, everything dropped is white space, and it does not end with white space |
| QueryText.TrimIgnoresPadding | lib/services/lookup.service.ts:147 | white space around a query does not change its trimmed form |
| QueryText.SameKeyUpToCaseAndPadding | lib/services/lookup.service.ts:147 | queries differing only in letter case and surrounding white space are counted under one key |
| QueryText.TrimIdempotent | lib/services/lookup.service.ts:147 | trimming a trimmed string changes nothing |
| QueryText.KeyIsLowerCase | lib/services/lookup.service.ts:147 | a key is already lower-case |
| QueryText.NormalizeIdempotent | lib/services/lookup.service.ts:147 | normalising a key again gives the same key |
| LookupService.RecordLookup | lib/services/lookup.service.ts:9-39 | a successful record appends exactly one row with the given user, query, result and time, storing an absent or empty right id as null; a failed insert changes nothing |
| LookupService.RecordThenDeleteRestores | lib/services/lookup.service.ts:9-39 | recording a lookup and then deleting it by its id, as the same user, gives back the table as it was |
| LookupService.Without | lib/services/lookup.service.ts:172-176 | every row not matching both the lookup id and the user id is kept as often as it occurs, and every matching row is dropped |
| LookupService.RowsOfUser | lib/services/lookup.service.ts:69-72 | every row of the user is selected as often as it occurs in the table, and no other row is |
| LookupService.DeleteLookupHistory | lib/services/lookup.service.ts:170-183 | removes exactly the rows with that id owned by that user and keeps every other row as often as it occurred; every other user's history is unchanged, in order; a failure changes nothing |
| LookupService.OtherUsersUntouched | lib/services/lookup.service.ts:175-176 | a delete scoped to one user leaves every other user's rows, in order, as they were |
| LookupService.Offset | lib/services/lookup.service.ts:55 | the first page starts at row 0 and a valid page never starts before row 0 |
| LookupService.NextPageOffset | lib/services/lookup.service.ts:55 | each page starts exactly `limit` rows after the previous one |
| LookupService.CeilDiv | lib/services/lookup.service.ts:82 | the page count is the least number of pages of the given size that hold all rows |
| LookupService.Paginate | lib/services/lookup.service.ts:82-92 | the pagination echoes page and limit, reports the count or 0 when absent, and the least number of pages holding that count |
| LookupService.Range | lib/services/lookup.service.ts:74 | an inclusive range yields the rows from its start, at most as many as the range spans, and all of them when the rows reach that far |
| LookupService.Newest | lib/services/lookup.service.ts:69-73 | a user's rows are all present exactly once, newest first |
| LookupService.UserPage | lib/services/lookup.service.ts:55-74 | the page is the window of the user's newest-first rows starting at (page − 1) × limit: consecutive rows from there, at most `limit`, exactly `limit` when that many remain, all of them the user's rows |
| LookupService.PageStartsInside | lib/services/lookup.service.ts:55-82 | with the page count rounded up, a page's first offset lies inside the rows exactly when its number is at most the page count |
| LookupService.GetUserLookupHistory | lib/services/lookup.service.ts:49-93 | either failed query gives "Failed to get lookup history"; otherwise the page holds the user's rows from offset (page − 1) × limit of their newest-first list, full when enough rows remain, and the pagination block counts all the user's rows; page and limit default to 1 and 10 |
| LookupService.DefaultHistoryIsNewestTen | lib/services/lookup.service.ts:49-93 | without page arguments the history is page 1 of size 10: the user's ten newest rows, or all of them when there are fewer |
| LookupService.AnnouncedPagesAreNonEmpty | lib/services/lookup.service.ts:55-92 | a page holds rows exactly when its number is at most the announced total of pages |
| LookupService.GetRecentLookups | lib/services/lookup.service.ts:103-121 | returns min(limit, all) rows of the table (limit 50 when not given), newest first, and no row left out is newer than a returned one |
| LookupService.Recent | lib/services/lookup.service.ts:133-137 | the popularity count reads the query of each row the recent-lookups fetch returns for a limit of 1000: the newest 1000 rows in newest-first order, or all rows when there are fewer |
| LookupService.Bump | lib/services/lookup.service.ts:148 | counting one more query raises exactly its key's count by one, adding the key when new |
| LookupService.Tally | lib/services/lookup.service.ts:145-149 | each fetched key appears once with the exact number of fetched queries normalising to it, and no other key appears |
| LookupService.SliceEnd | lib/services/lookup.service.ts:154 | `slice(0, limit)` keeps min(limit, n) entries for a non-negative limit; a negative limit drops that many entries from the end, or all of them when there are fewer |
| LookupService.RankingFacts | lib/services/lookup.service.ts:151-155 | every prefix of the ranking holds distinct keys with exact counts, and any key left out occurs no more often than any key kept |
| LookupService.GetPopularQueries | lib/services/lookup.service.ts:131-160 | the entries are distinct keys of the recent queries with their exact counts, most frequent first, min(limit, distinct keys) of them for a non-negative limit (10 when not given) and all but the last −limit for a negative one, and any key left out occurs no more often than any key returned |
| LookupService.DefaultPopularIsTopTen | lib/services/lookup.service.ts:131 | without a limit, ten keys are returned, or every key when there are fewer, each with its exact count, and no key left out occurs more often than one returned |
| LookupService.PopularKeysAreNormalized | lib/services/lookup.service.ts:145-155 | every returned query is already in key form, so searching it again is counted under the same key |
| LookupService.CountsSumToFetchedRows | lib/services/lookup.service.ts:133-149 | the counts add up to the number of rows fetched, at most 1000 |
| LedgerRuns.SpendKeepsWf | lib/services/user.service.ts:146-178 | a deduction, successful or not, keeps the ledger invariant |
| LedgerRuns.PurchaseKeepsWf | lib/services/payment.service.ts:11-65 | starting a purchase with a fresh intent id keeps the ledger invariant, including when the insert fails after the intent exists |
| LedgerRuns.NotifyKeepsWf | app/api/webhooks/stripe/route.ts:6-66 | handling any notification delivery keeps the ledger invariant |
| LedgerRuns.SignInKeepsWf | lib/services/user.service.ts:9-72 | resolving or creating an account with a fresh id keeps the ledger invariant |
| LedgerRuns.SuccessKeepsWf | lib/services/payment.service.ts:71-110 | the success settlement keeps the ledger invariant on every path, including a failed credit step |
| LedgerRuns.FailureKeepsWf | lib/services/payment.service.ts:120-135 | the failure settlement keeps the ledger invariant |
| LedgerRuns.ApplyKeepsWf | lib/services/payment.service.ts:11-135 | each of the four ledger operations (sign-in, spend, purchase, notification; one row per operation above cites its source) keeps the ledger invariant: rows filed under their keys, no negative balance, every payment owned by an existing account with positive credits and a provider intent |
| LedgerRuns.RunKeepsWf | lib/services/payment.service.ts:11-135 | every run of requests (sign-ins, spends, purchases and provider notifications) from a ledger meeting the invariant ends in one meeting it |
| LedgerRuns.BalancesNeverNegative | lib/services/user.service.ts:154-158 | after any run from an empty ledger no balance is negative |
| LedgerRuns.ReplayedNotificationStory | lib/services/payment.service.ts:71-110 | new account, two purchases, a replayed success, four spends and a failure on the other purchase leave 29 credits, the first payment `completed` and the second `failed` |

## Left out

- The `catch` paths that answer "Internal server error" (status 500 at the notification endpoint) are not modelled. They only fire on thrown exceptions such as network failures. The one throw the model does cover is the inherited package name in `createPaymentIntent`, whose `catch` answers "Failed to create payment intent".
- Concurrency is not modelled. Each operation runs atomically, so the read-then-write races of the balance updates are not modelled.
- Amounts and balances are unbounded integers. JavaScript numbers are floating point, but every value here is a small integer.
- `generateId` (lib/utils is not part of this model) is replaced by a fresh id parameter. The clock is replaced by a timestamp parameter.
- The provider's API (intent creation, signature verification) is replaced by parameters. So are the store's error reporting and the OpenAI search that produces a `SearchResult`.
- Charging a search is not modelled, because the source's search route neither deducts a credit nor records the lookup. The ledger runs include spending credits as a request of its own, since the user service offers `deductCredits`, but no request ties a spend to a search. The one-credit-per-search gate that the interface text describes is therefore absent from the model, as it is from the code.
- The HTTP routes other than the notification endpoint are not modelled. They are thin wrappers that parse a request and call a service.
- The `lookup_history` foreign keys (to `users` and `rights`) are not modelled, so a lookup row may name any user. The `payments.user_id` foreign key is modelled: the insert fails for an unknown account.
- QueryText.Lower: only ASCII letters are lower-cased. `toLowerCase` also folds other scripts.
- LookupService.GetUserLookupHistory: requires `page >= 1` and `limit >= 1`. The service accepts any numbers, and a non-positive page or limit builds a reversed or negative range whose result depends on the store.
- LookupService.GetRecentLookups: the limit is a natural number. The store's treatment of a negative limit is not modelled.
- LookupService.Tally: the source counts into a plain object. A query normalising to `constructor` starts from the inherited `Object` function, so its count becomes a string. A query normalising to `__proto__` is never stored. The model counts both like any other key.
- LookupService.GetPopularQueries: it inherits the plain-object differences of Tally. A `constructor` count compares as NaN in the sort, and a `__proto__` key is missing from the source's result. `Object.entries` lists integer-like keys such as `42` first, in numeric order. That changes which of several equally frequent keys survive the cut. The contract does not say which tied keys survive, so it holds under either order.
- LookupService.Range: a range starting past the end yields an empty page, as the store answers an out-of-range request without rows.
- Sorting.SortDesc: rows with equal timestamps keep their table order, but the store's `ORDER BY timestamp` promises no order among them. Entries with equal counts keep first-seen order, while the source's stable sort starts from `Object.entries` order, which lists integer-like keys first.
- LedgerRuns.Apply drops a request whose fresh ids are already taken. The id generator is assumed never to repeat an id.
- The mapping functions from database rows to API objects are identities on the row records here (`snake_case` to `camelCase` renaming only).
