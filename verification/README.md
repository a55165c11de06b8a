# sistema-gestao-lme in Dafny

A model of the deterministic logic inside *sistema-gestao-lme*, a web
application for an aluminium-products company. It has two halves:

- **The LME price proxy.** An Express server and a service layer fetch LME
  and PTAX quotes from an upstream JSON endpoint. They retry failed calls a
  bounded number of times, keep the last answer in a single-slot cache with
  a five-minute lifetime, and fall back to stale data when the upstream is
  down. The browser page that shows the quotes has its own retry, a PTAX
  cache, business-day and week arithmetic, and a sortable table.
- **The purchase-request application.**
  - Users enter products (supplier, alloy, description, purchase type,
    quantity, delivery date) and bundle them into pending requests.
  - A request is approved, rejected or sent to review, with an append-only
    history.
  - Around this sit:
    - a delivery calendar;
    - form validation;
    - sortable and paginated tables;
    - a modal stack and toast notifications;
    - local storage with sync flags;
    - a consumption-analysis spreadsheet import;
    - a price dashboard;
    - printed and e-mailed request documents.

The model is functional. Every piece of state is an immutable datatype, and
every operation is a pure function from the old state to a result and a new
state. Whatever the program reads from outside becomes an explicit
parameter:

- the clock, as a natural number of milliseconds or as a civil date;
- the upstream responses, as an oracle sequence of outcomes;
- `parseFloat`, `Intl` formatting and `toLocaleDateString`, as functions.

JavaScript semantics that matter are written out:

- truthiness (`0`, `""` and `NaN` are falsy);
- `Date` roll-over of out-of-range days and months;
- `parseInt` reading a digit prefix;
- the order `sort()` puts strings in, taken as code-point order (see "## Left out").

Shared pieces:

| module | what it holds |
|---|---|
| `Wrappers` | `Option` / `Result` |
| `Decimal` | digits, `parseInt`, number to text |
| `Text` | lower-casing, trimming, splitting, white-space collapsing, string order |
| `Gregorian` | day numbers and the JavaScript `Date` constructor |
| `Retry` | the bounded fixed-delay retry shared by the three retry loops |
| `Records` | products and requests |
| `Documents` | text built from appended pieces, and the total weight of a request |

## Model

| member | source | states |
|---|---|---|
| Retry.FetchWithRetry | server.js:23-47 | one refresh makes at most retries + 1 upstream calls and waits the fixed delay before each retry. It succeeds with the parsed body of the first 2xx answer whose body parses, and every earlier attempt failed. A 2xx answer whose body is not JSON makes `response.json()` (line 29) throw inside the same `try`, so the oracle gives it as a transport error. After the last failure it rethrows that attempt's error; a non-2xx status fails like a transport error |
| Retry.SucceedsIffSomeAttemptOk | server.js:23-47 | a refresh succeeds exactly when one of its retries + 1 attempts gets a 2xx answer |
| Retry.FailuresInterchangeable | backup/server.js:23-47 | only which attempts succeed, and the bodies of the successful ones, decide the calls, the waiting and the result: a non-ok status and a network error are handled alike |
| Retry.Rest | script.js:418-433 | the oracle seen by the next recursive attempt is the current one shifted by one call |
| CacheService.New | src/server/services/cacheService.js:2-8 | a new cache holds neither data nor timestamp and keeps the given lifetime |
| CacheService.Set | src/server/services/cacheService.js:10-16 | `set(d)` stores d stamped with the current time and keeps the configured lifetime |
| CacheService.Get | src/server/services/cacheService.js:18-23 | whatever `get()` answers is the stored data |
| CacheService.Clear | src/server/services/cacheService.js:31-37 | `clear()` empties data and timestamp and keeps the lifetime |
| CacheService.IsValid | src/server/services/cacheService.js:25-29 | a valid entry has data and a non-zero timestamp and is younger than the lifetime; with a lifetime of zero or less no entry stamped at or before now is valid |
| CacheService.GetHitIff | src/server/services/cacheService.js:18-29 | `get()` answers iff data and a truthy timestamp are set and now minus timestamp is strictly below the lifetime |
| CacheService.GetOfNew | src/server/services/cacheService.js:2-8 | `get()` is null before the first `set` |
| CacheService.GetAfterClear | src/server/services/cacheService.js:31-37 | after `clear()`, `get()` is null at any time |
| CacheService.GetAfterSet | src/server/services/cacheService.js:10-29 | reading back `set(d)` made at t at a later time gives d iff t is truthy and the elapsed time is below the lifetime |
| CacheService.GetRightAfterSet | src/server/services/cacheService.js:10-29 | right after `set(d)`, with a positive lifetime and a non-zero clock, `get()` returns d |
| CacheService.ExpiredStaysExpired | src/server/services/cacheService.js:25-29 | an entry that is not valid now is not valid at any later time |
| PriceProxy.Start | server.js:16-20 | the server starts with an empty cache whose lifetime is five minutes |
| PriceProxy.HandleLme | server.js:81-106 | a valid cache is served with no upstream call. Otherwise a successful refresh is served and replaces the whole entry (data, timestamp, five-minute lifetime). A failed refresh leaves the cache alone, then serves stale data with `X-Data-Source: cache` or the 500 error object |
| PriceProxy.Handle | server.js:76-78 | `/health` answers "healthy" with the time; `/api/lme` goes to the price handler |
| PriceProxy.AnsweredFromCacheIff | server.js:84-87 | a request makes no upstream call iff cached data and a truthy timestamp exist and now minus timestamp is strictly below 300000 ms; the Vercel variant in backup/server.js (lines 77-80) applies the same strict test |
| PriceProxy.RefreshBounded | server.js:12-13 | one refresh makes between one and four upstream calls and waits 1000 ms before each retry |
| PriceProxy.ExpirationInvariant | server.js:32-36 | every route keeps the cache lifetime at five minutes |
| PriceProxy.ServerErrorIff | server.js:100-104 | the 500 error object is sent iff the cache is not valid, the refresh failed and no data is cached. With data cached, some JSON is always served |
| PriceProxy.CacheHeaderIff | server.js:95-98 | the stale-cache header is set iff the refresh failed and cached data of any age exists |
| PriceProxy.HealthIsIndependent | backup/server.js:69-71 | `/health` answers "healthy" and leaves the cache and the upstream untouched |
| PriceProxy.RefreshedDataServedUntilExpiry | backup/server.js:74-99 | data fetched by a refresh is served, with no further call, to every request made before its lifetime runs out |
| LmeService.FetchDataWithRetry | src/server/services/lmeService.js:12-35 | at most four calls. On success the PTAX-enriched payload is cached, stamped after the retry waits, and returned. On failure the cache is unchanged and the last error is rethrown |
| LmeService.GetData | src/server/services/lmeService.js:37-56 | `getData` answers from `get()` whenever `get()` answers, without an upstream call. On a miss it makes one to four calls. A successful refresh caches and returns the enriched payload. A failed one leaves the cache alone and returns what `get()` still holds when the failure is known, or else rethrows the last error |
| LmeService.GetDataAfterMiss | src/server/services/lmeService.js:44-56 | the refresh after a miss: one to four calls; on success the enriched payload is cached, stamped after the waits, and returned; on failure the cache is unchanged and the TTL-checked fallback answers when it can, else the last error is rethrown |
| LmeService.CachedAnswerMakesNoCall | src/server/services/lmeService.js:40-43 | whenever `get()` is non-null, `getData` returns it with no upstream call |
| LmeService.SuccessCachesEnriched | src/server/services/lmeService.js:21-26 | what a successful refresh returns and caches is the enriched payload, not the raw body |
| LmeService.FallbackNeverServes | src/server/services/lmeService.js:51-56 | as written, after a cache miss a failed refresh always rethrows: the fallback re-reads through the TTL-checked `get()` |
| LmeService.StaleDataNotServed | src/server/services/lmeService.js:49-56 | concrete witness: data stored at time 1 and read at 400000 ms is not served when the upstream is down |
| LmeService.GetDataWithStaleFallback | src/server/services/lmeService.js:49-56 | the fallback the comment describes: a cache hit is answered with no call, as before |
| LmeService.StaleFallbackServes | src/server/services/lmeService.js:49-56 | with the corrected fallback, a failed refresh rethrows iff nothing is stored, and otherwise serves the stored data of any age |
| Metals.GetAllMetals | src/shared/constants/metals.js:1-52 | seven entries with distinct keys. Only `dolar_ptax` is in BRL/USD with four places; every other entry is in USD/ton with two |
| Metals.KeysOfTable | src/shared/constants/metals.js:1-44 | the table's keys are pairwise distinct, and the six metals differ from the PTAX key |
| Metals.Find | src/shared/constants/metals.js:47 | `find` gives null iff no entry has the key; otherwise the first entry that has it |
| Metals.GetMetalByKey | src/shared/constants/metals.js:46-48 | `getMetalByKey` answers a listed entry with that key, and null iff no listed entry has it |
| Metals.FindOwnKey | src/shared/constants/metals.js:46-48 | in a list with distinct keys, looking an entry up by its own key finds that entry |
| Metals.GetMetalByOwnKey | src/shared/constants/metals.js:1-48 | every listed metal is what `getMetalByKey` gives for its own key |
| ClientPrices.FetchWithRetry | script.js:418-433 | the page's `fetchWithRetry` makes one to four calls and waits 1000 ms before each retry. It fails only after four failed attempts, and a success is a 2xx answer |
| ClientPrices.CacheWarningIffStale | script.js:470-472 | against the proxy, the page shows the cache warning iff the proxy's refresh failed and it fell back to older data |
| ClientPrices.FormatDateForBcb | script.js:161-164 | `MM-DD-YYYY`: two zero-padded digits reading the month, a dash, two reading the day, a dash, then the year |
| ClientPrices.BcbDateRoundTrip | script.js:161-164 | from year 0 on, reading the BCB string back at its dashes gives the date it was made from |
| ClientPrices.BusinessDaysSpec | script.js:58-64 | the business days between two day numbers are Monday-to-Friday dates in range, strictly ascending, and every such date is listed |
| ClientPrices.GenerateDateRange | script.js:77-89 | the day-by-day walk from start to end collects exactly the business days between them, inclusive |
| ClientPrices.DateRangeSpec | script.js:77-89 | the generated range holds only business days between start and end, in ascending order, and misses none |
| ClientPrices.WeekNumber | script.js:48-55 | the page's week number, `ceil((days since 1 January + weekday of 1 January) / 7)`, lies in 0..53 and is at least 1 on a business day; in the years 0..99, which `new Date(year, 0, 1)` moves to 1900..1999, it is negative |
| ClientPrices.WeekNumberStep | script.js:48-55 | within a year, in every year, the week number grows by one exactly on Mondays |
| ClientPrices.FindPrice | script.js:67-74 | `findPrice` finds the first quote of that date, and nothing iff no quote has it |
| ClientPrices.RowFor | script.js:118-136 | the row for a date carries that date |
| ClientPrices.MissingRowIff | script.js:118-136 | a date gets the missing row iff no quote has it, and then every quote field reads `-` |
| ClientPrices.InWeekMembers | script.js:116-121 | the dates placed in week k are exactly the listed dates whose week number is k |
| ClientPrices.GroupContents | script.js:116-136 | a week is a group key iff some date falls in it, and its rows are the rows of those dates in order |
| ClientPrices.Earliest | script.js:95-97 | the first date after sorting is a quote date no later than any other |
| ClientPrices.Latest | script.js:95-98 | the last date after sorting is a quote date no earlier than any other |
| ClientPrices.GroupByWeek | script.js:92-140 | grouping fails iff there are no quotes: the source reads `sortedPrices[0]` |
| ClientPrices.GroupPlacesDate | script.js:116-136 | every listed date has its row in its own week's group, and in no other group |
| ClientPrices.GroupByWeekCovers | script.js:92-140 | every business day between the earliest and latest quote is in exactly one week group, as its quote or as a missing row |
| ClientPrices.FetchPtaxRate | script.js:167-191 | a cached date is answered with no call. Otherwise one call is made; the first value is returned and cached iff the reply has at least one value, and otherwise nothing is cached |
| ClientPrices.PtaxCachedAfterSuccess | script.js:172-186 | after a successful lookup the same date is answered from the cache with no call, and earlier entries are kept |
| ClientPrices.CalculateVariation | script.js:226-230 | the variation is null iff either operand is falsy; otherwise it is the percentage change, `v * previous = (current - previous) * 100` |
| ClientPrices.CreateVariationCell | script.js:232-237 | null renders as `-`; otherwise the cell shows the formatted magnitude |
| ClientPrices.VariationCellMeaning | script.js:226-237 | falsy operands give `-`. A positive previous value gives the positive class iff the price did not fall. Opposite variations show the same text |
| PriceTable.CellsInOrderPreorder | script.js:561-573 | the cell comparator is total and transitive |
| PriceTable.SortRows | script.js:560-574 | the rows of a week come out sorted by the column and are a permutation of the input |
| PriceTable.DashPlacement | script.js:565-567 | ascending, a `-` cell is followed only by `-` cells; descending, a `-` cell is preceded only by `-` cells |
| PriceTable.WeekOrder | script.js:578-579 | the week groups come in strictly descending week order, one per week that has a row |
| PriceTable.DayRows | script.js:544-557 | a week's day rows are exactly the non-average rows of that week |
| PriceTable.AverageOf | script.js:544-557 | a week's average row is a row of the table, and there is none iff the week has no average row |
| PriceTable.LayoutShaped | script.js:578-586 | every laid-out block holds rows of its own week with the average last, taken from the table |
| PriceTable.FlattenLayout | script.js:577-586 | concatenating the blocks in descending week order keeps weeks non-increasing, with each average closing its week |
| PriceTable.SortTableByColumn | script.js:539-587 | `sortTableByColumn` refills the table with rows taken from it only (what order they come in: PriceTable.SortTableLayout and PriceTable.WeekSorted) |
| PriceTable.SortTableLayout | script.js:539-587 | after sorting, weeks are non-increasing and each week's average row is last. Every output row comes from the table, and every day row is kept |
| PriceTable.WeekSorted | script.js:539-587 | within each week the day rows are a permutation sorted by the column, with `-` cells last when ascending and first when descending |
| Records.RequestType | js/modules/core/request-service.js:175-176 | the purchase type of a request is 'Vendas' iff some product is 'Vendas', and 'Transformação' otherwise |
| Records.NumericWeight | js/modules/core/request-service.js:178-179 | the total of numeric quantities is NaN iff some quantity is NaN; text quantities add nothing |
| Records.WeightSum | backup/purchase_request.js:583 | the plain `sum + quantity` total is a number iff every quantity is a number |
| Records.WeightSumNumeric | backup/purchase_request.js:583 | when every quantity is a number, the plain sum and the numbers-only sum agree |
| Records.TruthyWeightIsNumber | js/modules/core/request-service.js:61-65 | products that passed the truthiness check have a numeric total |
| Records.Without | js/modules/core/data-manager.js:171-183 | `filter(p => p.id !== id)` keeps exactly the products with another id. It shortens the list iff some product has the id |
| Records.WithoutAppend | backup/backup/js/modules/purchase-request/events.js:143-147 | filtering a concatenation filters each part |
| Records.IndexOf | js/modules/core/data-manager.js:192 | the position of the first occurrence of an id, and nothing iff the id does not occur |
| Records.FindProduct | js/modules/core/data-manager.js:192 | `findIndex` gives the first product with the id, and nothing iff none has it |
| Records.FindRequest | js/modules/core/data-manager.js:243 | `findIndex` gives the first request with the id, and nothing iff none has it |
| Records.Distinct | backup/purchase_request.js:465-466 | the distinct purchase types are the listed ones without repeats |
| Records.DistinctAfter | backup/js/modules/purchase-request/ui.js:61-67 | adding values to a repeat-free prefix keeps the prefix, adds every new value once, and adds nothing else |
| Records.DistinctSnoc | backup/js/modules/purchase-request/ui.js:61-67 | one more value is appended iff it is new: first-appearance order |
| Records.MaxId | backup/purchase_request.js:208-211 | `Math.max(...ids)` is a listed id no smaller than any other |
| Records.Appended | js/modules/core/request-service.js:271-281 | the history after one entry is the old history (absent counts as empty) followed by exactly that entry |
| Lists.IndexOf | js/modules/core/data-manager.js:309 | `indexOf` is the first position of the value, and -1 iff it is absent |
| Lists.RemoveFirst | js/modules/core/data-manager.js:306-313 | `splice(indexOf(x), 1)` removes only the first occurrence, and does nothing when x is absent |
| Lists.RemoveFirstCount | js/modules/core/data-manager.js:306-313 | removing a present value lowers its count by exactly one and changes no other count |
| Lists.RemoveAppended | js/modules/ui/notifications.js:147-150 | removing the value just appended, when it was not there before, restores the list |
| DataManager.Initial | js/modules/core/data-manager.js:22-28 | the store starts with no products, requests or form state, and both counters at 1 |
| DataManager.InitialListeners | js/modules/core/data-manager.js:34-38 | listeners start as empty lists for products, pendingRequests and formState |
| DataManager.MergeProduct | js/modules/core/data-manager.js:199-203 | `{...product, ...update, id}`: every given field replaces the old one, the rest are kept, and the id never changes |
| DataManager.MergeRequest | js/modules/core/data-manager.js:250-254 | the same merge for requests: given fields win, the id is kept |
| DataManager.AddProduct | js/modules/core/data-manager.js:153-164 | the product gets id nextId, which overrides any id it had; it is appended; nextId grows by one |
| DataManager.RemoveProduct | js/modules/core/data-manager.js:171-183 | answers true iff some product had the id. All such products go, the others stay in order, and none with that id is left |
| DataManager.UpdateProduct | js/modules/core/data-manager.js:191-208 | an absent id gives null and changes nothing. Otherwise only the first match is replaced by its merge, and the merge is returned |
| DataManager.AddPendingRequest | js/modules/core/data-manager.js:223-234 | a truthy id is kept and the counter is untouched; id 0 consumes nextPendingId. Either way the request is appended |
| DataManager.UpdatePendingRequest | js/modules/core/data-manager.js:242-259 | an absent id gives null; otherwise only the first match is merged, keeping its id |
| DataManager.GetPendingRequestById | js/modules/core/data-manager.js:266-268 | the first request with the id, or null iff none has it |
| DataManager.SaveFormState | js/modules/core/data-manager.js:274-278 | only the form state changes |
| DataManager.KeysNamed | js/modules/core/data-manager.js:113-118 | the storage keys removed are those of the listed names that are known keys |
| DataManager.ClearLocalStorage | js/modules/core/data-manager.js:110-138 | with a key list, only those storage entries go and memory is untouched. Without one, every app key goes, and products and form state are reset. Requests and both counters always stay |
| DataManager.AddChangeListener | js/modules/core/data-manager.js:293-299 | the callback is appended to its type's list, created if missing; other types are untouched |
| DataManager.RemoveChangeListener | js/modules/core/data-manager.js:306-313 | removes only the first registration of the callback, and does nothing for an unknown type |
| DataManager.AddProductFresh | js/modules/core/data-manager.js:153-164 | with ids below the counters, adding keeps them below and the new id is not used by any earlier product |
| DataManager.AddPendingRequestFresh | js/modules/core/data-manager.js:223-234 | adding a request whose id is 0 or below the counter keeps every request id below the counter |
| DataManager.RemoveAddedProduct | js/modules/core/data-manager.js:153-183 | removing the product just added answers true and restores the product list |
| DataManager.UpdateProductKeepsIds | js/modules/core/data-manager.js:191-208 | an update keeps the number of products, their ids in order, and the counter |
| DataManager.UpdateWithEmptyPatch | js/modules/core/data-manager.js:199-203 | an update that gives no field changes nothing |
| DataManager.RemoveAddedListener | js/modules/core/data-manager.js:293-313 | removing a callback just added, which was not registered before, restores the listeners |
| RequestService.Init | js/modules/core/request-service.js:37-46 | initialising only switches the service on; the store is kept |
| RequestService.AddProduct | js/modules/core/request-service.js:53-86 | a product is added iff the service is on and all six fields are truthy. It gets id nextId and is appended, and nextId grows by one. The requests, nextPendingId, the current request and the initialised flag stay as they were, and no storage key is lost; a refusal changes nothing |
| RequestService.RemoveProduct | js/modules/core/request-service.js:88-119 | off: false and nothing changes. On: true iff a product had the id, and every product with it goes. Nothing but the product list changes in memory, and no storage key is lost |
| RequestService.UpdateDeliveryDate | js/modules/core/request-service.js:121-158 | succeeds iff the service is on, the date is non-empty and the product exists. Then only that product's delivery date changes in memory, and no storage key is lost; otherwise nothing changes |
| RequestService.CreatePendingRequest | js/modules/core/request-service.js:160-224 | null iff the service is off or there are no products. The request gets the next pending id, status 'Pendente', a snapshot of the products and their count, the numbers-only weight, the 'Vendas' rule, and one 'Criação' history entry. It is appended and the counter grows. The products are removed one id at a time and nextId stays. Afterwards the product and form-state keys are not in storage, and every other stored key still is |
| RequestService.RemoveEachCovering | js/modules/core/request-service.js:199-201 | removing each product by its id empties the list |
| RequestService.CreateEmptiesProducts | js/modules/core/request-service.js:199-204 | after a request is created the product list is empty |
| RequestService.GetRequestDetails | js/modules/core/request-service.js:226-253 | the request found by id, if the service is on. The current request id is set only when it was found |
| RequestService.Transition | js/modules/core/request-service.js:255-300 | a status change fails iff the service is off or the id is unknown, and then nothing changes. Otherwise it sets the status with no check of the current one, appends one history entry, and replaces only that request |
| RequestService.ApproveRequest | js/modules/core/request-service.js:271-281 | approving is the status change to 'Aprovado' with an 'Aprovação' entry |
| RequestService.RejectRequest | js/modules/core/request-service.js:318-328 | rejecting is the status change to 'Recusado' with a 'Recusa' entry |
| RequestService.SendToReview | js/modules/core/request-service.js:350-382 | empty notes give null before any lookup. Otherwise it is the change to 'Em Revisão', with the notes verbatim in the new entry |
| RequestService.GetAllRequests | js/modules/core/request-service.js:489-506 | the stored requests, or none while the service is off |
| RequestService.GetAllProducts | js/modules/core/request-service.js:508-520 | the stored products, or none while the service is off |
| RequestService.UninitializedIsInert | js/modules/core/request-service.js:37-57 | before initialisation every operation answers null, false or an empty list and changes nothing |
| RequestService.ZeroQuantityRefused | js/modules/core/request-service.js:61-65 | a quantity of 0, NaN or empty text makes the product be refused |
| RequestService.TransitionAppendsOne | js/modules/core/request-service.js:271-281 | the new history is the old one (absent counts as empty) followed by exactly one entry |
| RequestService.ApproveTwice | js/modules/core/request-service.js:255-300 | approving an approved request is accepted again and adds another entry: there is no status check |
| RequestService.CreateKeepsIdsFresh | js/modules/core/request-service.js:196-197 | with fresh counters, the created request's id is new and every id stays below the counter |
| RequestService.QuantitiesStayTruthy | js/modules/core/request-service.js:53-202 | adding, removing and re-dating products keep every quantity truthy, so a created request has a numeric total weight |
| LegacyWorkflow.Initial | backup/purchase_request.js:166-198 | the monolithic page starts with no products or requests and both counters at 1 |
| LegacyWorkflow.Load | backup/purchase_request.js:201-225 | a stored list replaces the one in memory, and when it is non-empty its counter becomes the largest stored id plus one |
| LegacyWorkflow.LoadIsFresh | backup/backup/purchase_request.js:190-214 | after loading, every stored id is below its counter, so later ids are fresh |
| LegacyWorkflow.IntQuantity | backup/purchase_request.js:1237 | `parseInt` of the quantity field is NaN iff the text has no leading integer, and otherwise that integer |
| LegacyWorkflow.Submit | backup/purchase_request.js:1229-1254 | the form adds a product iff every field, the parsed quantity included, is truthy. The product gets id nextId and is appended, and nextId grows; otherwise nothing changes |
| LegacyWorkflow.SubmitUnchecked | Backup/purchase_request.js:633-659 | this variant appends a product with id nextId and the `parseFloat` quantity whatever the field values are |
| LegacyWorkflow.SubmitKeepsFresh | backup/backup/purchase_request.js:835-860 | both submit forms keep every product id below nextId |
| LegacyWorkflow.SubmitRefusesZeroAndNaN | backup/purchase_request.js:1238-1241 | a quantity reading as 0 or NaN is refused and nothing changes |
| LegacyWorkflow.CreatePendingRequest | backup/purchase_request.js:560-591 | refused iff there are no products. The request gets id nextPendingId, status 'Pendente', the product snapshot and count, the plain quantity sum, the 'Vendas' rule and no history. It is appended, the products are emptied and the counter grows |
| LegacyWorkflow.CreateWithHistory | Backup/purchase_request.js:310-334 | nothing happens iff the pending table is missing. Otherwise the same request is created, with one 'Criação' history entry |
| LegacyWorkflow.Finalize | Backup/purchase_request.js:717-725 | finalising creates a request only when there are products and the user confirmed |
| LegacyWorkflow.FinalizedRequestNotEmpty | Backup/purchase_request.js:717-725 | a finalised request always has products |
| LegacyWorkflow.ViewRequestDetails | backup/purchase_request.js:491-498 | one variant sets the current request id before looking the request up; the older ones set it only when the request exists |
| LegacyWorkflow.Selected | backup/purchase_request.js:595-596 | the request the actions act on carries the current request id |
| LegacyWorkflow.SetStatus | backup/purchase_request.js:594-660 | a status action sets the status of that one request and leaves the others alone. It throws iff the request has no history and the action does not create one; a thrown action has set the status already. Otherwise exactly one entry is appended |
| LegacyWorkflow.Approve | backup/purchase_request.js:594-612 | approving the selected request creates its history when absent (except where every request already has one) and appends the 'Aprovação' entry |
| LegacyWorkflow.Reject | backup/purchase_request.js:614-630 | after confirmation, rejecting pushes the 'Recusa' entry onto the history without creating it |
| LegacyWorkflow.SubmitReview | backup/purchase_request.js:643-660 | blank trimmed notes change nothing. Otherwise the 'Revisão Solicitada' entry with the trimmed notes is pushed without creating the history |
| LegacyWorkflow.RejectCorrected | backup/purchase_request.js:614-630 | corrected: rejecting creates the history when absent, so it never throws |
| LegacyWorkflow.SubmitReviewCorrected | backup/purchase_request.js:643-660 | corrected: sending to review creates the history when absent, so it never throws |
| LegacyWorkflow.CreatedIsSelected | backup/purchase_request.js:560-578 | a request just created and viewed is the selected one, and it has no history |
| LegacyWorkflow.RejectOfNewRequestThrows | backup/backup/purchase_request.js:559-605 | in the two variants without a creation entry, rejecting or reviewing a new request throws after its status was already changed |
| LegacyWorkflow.CorrectedRecordsEntry | backup/purchase_request.js:614-660 | with the corrected actions a new request ends with exactly the one rejection or review entry |
| LegacyWorkflow.WithHistoryNeverThrows | Backup/purchase_request.js:310-410 | the variant that records creation keeps a history on every request, so its unguarded pushes never throw |
| LegacyWorkflow.UpdateDeliveryDate | backup/purchase_request.js:1101-1150 | a save writes the date of the selected product only and then forgets the selection, as `closeEditDateModal` does. In this variant an empty date or a missing product returns early and changes nothing. The older variants (backup/backup/purchase_request.js, lines 804-832; Backup/purchase_request.js, lines 602-630) write even an empty date and forget the selection whether or not the product was found |
| LegacyWorkflow.SecondSaveIsIdle | backup/purchase_request.js:1101-1150 | once a date was written the selection is gone, so a second save without reopening the modal changes no product |
| LegacyWorkflow.ParseDeliveryDate | backup/purchase_request.js:1065-1067 | a 'YYYY-MM-DD' delivery date read through `new Date(y, m - 1, d)` is a valid date |
| LegacyWorkflow.ProductsForDate | backup/purchase_request.js:1061-1074 | the products of a day are exactly those whose delivery date reads as that day |
| LegacyWorkflow.ParseIsoDate | backup/purchase_request.js:1065-1067 | from year 100 on, the ISO text of a date reads back as that date |
| LegacyWorkflow.ProductsForDateIff | backup/purchase_request.js:1070-1072 | a product with an ISO delivery date is listed for a day iff year, month and day agree |
| Gregorian.DaysInMonth | js/modules/utils/date-utils.js:56-58 | a month has 28 to 31 days; February has 29 iff the year is a Gregorian leap year |
| Gregorian.Weekday | js/modules/utils/date-utils.js:107-110 | `getDay()` is a weekday index in 0..6, Sunday first |
| Gregorian.NextDayNumber | script.js:86 | `setDate(getDate() + 1)` moves to the valid date whose day number is one more |
| Gregorian.FromDayNumber | js/modules/utils/date-utils.js:66-70 | every day number names exactly one valid date |
| Gregorian.DayNumberInjective | js/modules/utils/date-utils.js:78-82 | two valid dates with the same day number are the same date |
| Gregorian.DayNumberOrder | script.js:82 | the `<=` on dates is the calendar order: a date is earlier iff its day number is smaller |
| Gregorian.AddDays | js/modules/utils/date-utils.js:66-70 | adding n days gives the valid date n day numbers later, rolling over months and years |
| Gregorian.JsFullYear | js/modules/utils/date-utils.js:99 | `new Date(y, …)` reads years 0..99 as 1900..1999 and keeps every other year |
| Gregorian.JsDate | js/modules/utils/date-utils.js:99 | the calendar day `new Date(y, m, d)` names: day d counted from the first of month m, with the month index rolling over into years and the years 0..99 read as 1900..1999 |
| Gregorian.YearsInTimeRange | js/modules/utils/date-utils.js:99 | every day of the years −271820 to 275759 is within the 100 000 000 days either side of 1970 that a `Date` holds (section 21.4.1.31 of ECMA-262) |
| Gregorian.FarYearsOutOfTimeRange | js/modules/utils/date-utils.js:99 | no day after the year 275760 or before −271821 is within that range, so `new Date` gives an invalid date there |
| Gregorian.TwoDigitYearFarAhead | js/modules/utils/date-utils.js:99 | a year 0..99 ends more than 1899 years of days before the year `new Date` reads for it begins |
| Gregorian.YearStartFarAhead | script.js:50 | a date in the years 0..99 comes long before 1 January of the year `new Date(year, 0, 1)` builds for it |
| Gregorian.JsDateNormal | js/modules/utils/date-utils.js:48 | in-range arguments give that very date (after the two-digit-year shift) |
| Gregorian.JsDateDayZero | js/modules/utils/date-utils.js:57 | day 0 of the next month is the last day of this month |
| Gregorian.JsFirstOfMonth | js/modules/ui/calendar.js:92-118 | the first of a month index that may run past 0..11 is the first of the month it rolls over to |
| Gregorian.JsDateFirst | js/modules/ui/calendar.js:92-118 | `new Date(y, m, 1)` is that first of the month |
| Gregorian.JsDateInRange | js/modules/utils/date-utils.js:99 | from year 100 on, in-range arguments give exactly the date they name |
| DateUtils.FirstDayOfMonth | js/modules/utils/date-utils.js:47-49 | the first day of a date's month keeps its month and has day 1 |
| DateUtils.FirstDayOfMonthIsNewDate | js/modules/utils/date-utils.js:47-49 | it is what `new Date(year, month, 1)` gives |
| DateUtils.LastDayOfMonth | js/modules/utils/date-utils.js:56-58 | the last day of a date's month is a real date in the same month and year |
| DateUtils.LastDayOfMonthIsNewDate | js/modules/utils/date-utils.js:56-58 | it is what `new Date(year, month + 1, 0)` gives |
| DateUtils.MonthBounds | js/modules/utils/date-utils.js:47-58 | a date is day − 1 days after its month's first and ends the month after the remaining days. The last day is 28..31, and in February it is 29 iff the year is a leap year |
| DateUtils.AddDaysZero | js/modules/utils/date-utils.js:66-70 | adding 0 days gives the same date |
| DateUtils.AddDaysCompose | js/modules/utils/date-utils.js:66-70 | adding a days then b days is adding a + b days |
| DateUtils.AddDaysWeekday | js/modules/utils/date-utils.js:66-70 | adding n days moves the weekday by n mod 7 |
| DateUtils.IsSameDay | js/modules/utils/date-utils.js:78-82 | on real dates, two dates are the same day iff they have the same day number |
| DateUtils.SameDayIffSameNumber | js/modules/utils/date-utils.js:78-82 | on real dates, `isSameDay` holds iff the day numbers agree; it is reflexive and symmetric |
| DateUtils.ParseBrazilianDate | js/modules/utils/date-utils.js:89-100 | throws iff the text does not split on '/' into exactly three parts. It gives a date iff all three parts read as integers and the day they name is within the range of a `Date`; otherwise it is an invalid date |
| DateUtils.NewDate | js/modules/utils/date-utils.js:99 | the calendar day `new Date(year, month − 1, day)` names, a valid day for every argument; whether a `Date` can hold it is Gregorian.InTimeRange |
| DateUtils.ParseDigitParts | js/modules/utils/date-utils.js:89-100 | 'D/M/Y' in digits parses to `new Date(Y, M − 1, D)`, or to an invalid date when that day is out of range |
| DateUtils.ParseBrazilianRoundTrip | js/modules/utils/date-utils.js:89-100 | from year 100 on, the DD/MM/YYYY text of a date parses back to that date when a `Date` can hold it, and to an invalid date otherwise |
| DateUtils.ParseBrazilianRoundTripInRange | js/modules/utils/date-utils.js:89-100 | from year 100 to 275759 the DD/MM/YYYY text of a date parses back to that date |
| DateUtils.ParseBrazilianBeyondRange | js/modules/utils/date-utils.js:99 | a date past the year 275760 parses to an invalid date |
| DateUtils.ParseBrazilianRollsOver | js/modules/utils/date-utils.js:95-99 | out-of-range days roll over instead of failing: '31/02/Y' in a common year is 3 March, up to the year 275759; later it is an invalid date |
| DateUtils.RolledOverRange | js/modules/utils/date-utils.js:99 | 3 March of a year from 100 on is within the range of a `Date` iff the year is at most 275759 |
| DateUtils.DayName | js/modules/utils/date-utils.js:107-110 | the day name is one of the seven Sunday-first names |
| DateUtils.DayShortName | js/modules/utils/date-utils.js:117-120 | the short name is one of the seven Sunday-first abbreviations |
| DateUtils.DayNamesAgree | js/modules/utils/date-utils.js:107-120 | the short name is the first three letters of the name, and a week later the name is the same |
| DateUtils.TablesAgree | js/modules/utils/date-utils.js:108-118 | every abbreviation in the short table is the start of the full name at the same index |
| DateUtils.TablesStartOnSunday | js/modules/utils/date-utils.js:108-118 | index 0 of both tables is Sunday: 5 January 2025 is 'Domingo' and 'Dom' |
| CalendarView.Header | js/modules/ui/calendar.js:168-181 | seven header cells; cell i names weekday (i + firstDayOfWeek) mod 7 and is marked weekend iff that weekday is one |
| CalendarView.HeaderIsPermutation | js/modules/ui/calendar.js:168-181 | the header row is the seven day names rotated to start at the configured first day, so it is a permutation of the names |
| CalendarView.Offset | js/modules/ui/calendar.js:189-190 | the number of leading cells from the previous month is below 7 |
| CalendarView.GridStart | js/modules/ui/calendar.js:188-191 | the first cell is a real date lying exactly that many days before the first of the month |
| CalendarView.Grid | js/modules/ui/calendar.js:148-230 | nothing is drawn iff the grid elements are missing. Otherwise there are exactly 42 cells on consecutive days from the start. A cell is other-month iff its month differs from the displayed one, selected iff it is the selected date, and shows the number of products delivered that day |
| CalendarView.CellsUnderTheirHeader | js/modules/ui/calendar.js:168-196 | cell i falls on weekday (i + firstDayOfWeek) mod 7, the weekday of the header above it |
| CalendarView.MonthInGrid | js/modules/ui/calendar.js:184-196 | every day of the displayed month is in the grid, at position offset + day − 1 |
| CalendarView.SameMonthIffInside | js/modules/ui/calendar.js:198 | near a month, a day is in the month iff it lies between its first and last day |
| CalendarView.OtherMonthIffOutside | js/modules/ui/calendar.js:198-212 | a cell is marked other-month iff its position lies outside the month's run of days |
| CalendarView.PrevMonth | js/modules/ui/calendar.js:92-95 | 'previous' shows day 1 of the month before and keeps the selection and products |
| CalendarView.NextMonth | js/modules/ui/calendar.js:107-110 | 'next' shows day 1 of the month after and keeps the selection and products |
| CalendarView.PrevMonthIsNewDate | js/modules/ui/calendar.js:94 | it is what `new Date(year, month − 1, 1)` gives |
| CalendarView.NextMonthIsNewDate | js/modules/ui/calendar.js:109 | it is what `new Date(year, month + 1, 1)` gives |
| CalendarView.NavigationIsMonthStep | js/modules/ui/calendar.js:92-118 | previous and next move exactly one month, never skipping one |
| CalendarView.NavigationRoundTrip | js/modules/ui/calendar.js:92-118 | 'next' after 'previous', or 'previous' after 'next', comes back to day 1 of the month shown |
| CalendarView.SelectDate | js/modules/ui/calendar.js:379-382 | selecting a date records it and shows day 1 of its month |
| CalendarView.SelectDateIsNewDate | js/modules/ui/calendar.js:381 | the displayed date is `new Date(year, month, 1)` of the selected date |
| CalendarView.SelectedDateShown | js/modules/ui/calendar.js:184-212 | after selecting a date, the grid has a cell for it that is marked selected and not other-month |
| CalendarView.UpdateProducts | js/modules/ui/calendar.js:351-354 | only the product list is replaced |
| MonthGrid.CreateCalendarGrid | backup/backup/js/modules/purchase-request/calendar.js:110-155 | the loop lays out numbered weeks from 1, with full seven-cell rows but the last. The startingDay empty cells come first, then days 1..totalDays in order |
| MonthGrid.EachDayOnce | backup/backup/js/modules/purchase-request/calendar.js:116-136 | every day of the month is in exactly one cell, at position startingDay + day − 1, and the cells before the first day are empty |
| MonthGrid.RowStartsAtSplit | backup/backup/js/modules/purchase-request/calendar.js:124-128 | every row after the first starts with a day d where (d + startingDay − 1) mod 7 = 0 and d ≠ 1 |
| MonthGrid.WeekCount | backup/purchase_request.js:956-974 | the number of week rows is (startingDay + totalDays − 1) div 7 + 1 |
| MonthGrid.MonthShape | backup/backup/js/modules/purchase-request/calendar.js:65-68 | the weekday of the first lies in 0..6 and the month has 28 to 31 days |
| MonthGrid.ColumnIsWeekday | backup/backup/js/modules/purchase-request/calendar.js:65-68 | the column of a day, (startingDay + day − 1) mod 7, is its weekday |
| MonthGrid.ProductsOn | backup/backup/js/modules/purchase-request/calendar.js:289-294 | the products of a day are exactly those whose delivery date reads as that day |
| MonthGrid.ProductsOnAppend | backup/backup/js/modules/purchase-request/calendar.js:289-294 | filtering a concatenation filters each part, so the order is kept |
| MonthGrid.LoadLabel | backup/backup/js/modules/purchase-request/calendar.js:173-177 | no label iff there are no loads, and '1 carga' for one load |
| MonthGrid.LoadLabelReadsBack | backup/backup/js/modules/purchase-request/calendar.js:173-177 | the label starts with the count, and it ends in 's' iff there is more than one load |
| MonthGrid.TotalKg | backup/backup/js/modules/purchase-request/calendar.js:228-233 | the day total is a number iff every quantity reads as one |
| MonthGrid.DayDetails | backup/backup/js/modules/purchase-request/calendar.js:212-239 | a day shows the no-loads message iff no product is delivered then. Otherwise it lists exactly that day's products, at least one |
| MonthGrid.TotalOfNumbers | backup/backup/js/modules/purchase-request/calendar.js:228-233 | with numeric quantities the day total is their sum |
| MonthGrid.SetMonthBy | Backup/purchase_request.js:681-689 | `setMonth(getMonth() ± 1)` keeps the day of the month, so a day the target month lacks rolls into the next month |
| MonthGrid.SetMonthSkips | Backup/purchase_request.js:681-689 | as written, 'next' from 31 January shows March, and 'previous' from 31 March stays on March |
| MonthGrid.MonthStep | js/modules/ui/calendar.js:94 | the first of the month delta months away is a real first of month, delta months on |
| MonthGrid.MonthStepNeverSkips | js/modules/ui/calendar.js:92-118 | corrected navigation: 'next' shows the following month, 'previous' the one before, and each undoes the other |
| ProductCatalog.SupplierIndex | js/modules/ui/forms.js:147-176 | `productData[supplier]` finds the supplier's entry, and nothing iff no entry has that supplier |
| ProductCatalog.AlloyIndex | js/modules/ui/forms.js:181-214 | `productData[supplier][alloy]` finds the alloy's entry, and nothing iff no entry has that alloy |
| ProductCatalog.DescriptionsIff | backup/js/modules/purchase-request/ui.js:136-180 | in a well-formed catalogue the nested lookup finds exactly the descriptions stored under the pair, and nothing iff the pair is not stored |
| ProductCatalog.ListedIffKnown | backup/js/modules/purchase-request/ui.js:98-127 | an alloy is offered for a known supplier iff the pair has descriptions |
| ProductCatalog.UpdateAlloyOptions | backup/js/modules/purchase-request/ui.js:98-127 | the description select is always cleared and disabled. The alloy select is disabled iff there is no supplier, offers only alloys the supplier has, and for a known supplier lists its alloys in catalogue order, which is the order `Object.keys` gives (see ProductCatalog.FormsAlloyOptions). The `updateAlloyOptions` of js/modules/ui/forms.js (lines 147-176) behaves the same way |
| ProductCatalog.ModuleDescriptions | backup/js/modules/purchase-request/ui.js:136-180 | disabled iff the supplier or alloy is missing or the pair is unknown. Otherwise the pair's descriptions are listed and the first one is selected, which is the only one when there is one |
| ProductCatalog.FormDescriptions | js/modules/ui/forms.js:181-214 | disabled iff the supplier or alloy is empty, so it stays enabled, and empty, for an unknown pair. A value is selected iff there is exactly one description, and then it is that one |
| ProductCatalog.LegacyDescriptions | Backup/purchase_request.js:47-70 | every description of a known pair is listed with nothing selected; the select is disabled iff the pair is missing or unknown |
| ProductCatalog.DescriptionVariantsAgree | backup/js/modules/purchase-request/ui.js:136-180 | the three variants list the same descriptions. The module and the monolith disable alike, and a form-disabled select is disabled everywhere |
| ProductCatalog.CascadeOffersOnlyKnownPairs | backup/js/modules/purchase-request/ui.js:98-180 | after choosing an offered alloy, the description select is enabled and lists that pair's descriptions |
| ProductCatalog.ProductList | backup/backup/src/js/purchase_request.js:32-59 | a placeholder followed by the pair's descriptions in order, or only the placeholder for an unknown pair, with nothing selected |
| ProductCatalog.FormsCatalog | js/modules/ui/forms.js:13-36 | CBA and ALCOA offer the same nine 6xxx alloys, each with exactly one description, and the catalogue is well formed. The alloys are stored in the order `Object.keys` lists them, 6005 first and 6463 last, not in the order the literal writes them, and each keeps the profile written under it |
| ProductCatalog.SeriesEntries | js/modules/ui/forms.js:14-34 | one supplier's alloys: the nine keys in listed order, distinct, each paired with the profile written under the same key |
| ProductCatalog.SeriesListedInKeyOrder | js/modules/ui/forms.js:13-36 | the listed order of the nine alloy keys is the `Object.keys` order of the written one: the same nine keys, all array indices, in ascending numeric order; and each listed key sits at its recorded written position |
| ProductCatalog.NamedKeys | js/modules/ui/forms.js:13-36 | the keys that are not array indices are exactly those of the input that are not, in their order (the part of `Object.keys` order that follows creation order) |
| ProductCatalog.FormsAlloyOptions | js/modules/ui/forms.js:147-176 | for CBA and for ALCOA, `updateAlloyOptions` over the forms catalogue offers 6005, 6060, 6061, 6063, 6082, 6101, 6351, 6460, 6463, which is the `Object.keys` order of the written keys |
| ProductCatalog.OneProfileEach | js/modules/ui/forms.js:13-36 | each alloy of the forms catalogue is paired with its single profile |
| ProductCatalog.ModuleCatalog | backup/js/modules/purchase-request/data.js:7-22 | three suppliers, a well-formed catalogue, and one description per alloy |
| ProductCatalog.ItemCatalog | backup/backup/src/js/purchase_request.js:4-25 | two suppliers with the alloys 6060 and 6063: three descriptions each for the first, one for the second |
| PurchaseModules.RequestStatuses | backup/js/modules/purchase-request/data.js:32-37 | four distinct statuses, exactly Pendente, Aprovado, Recusado and Em Revisão, Pendente first |
| PurchaseModules.InitialState | backup/js/modules/purchase-request/data.js:47-53 | empty lists, both counters at 1, no request selected |
| PurchaseModules.IsValidQuantity | backup/js/modules/purchase-request/data.js:105-107 | true iff the value is a number (or numeric text) greater than 0; NaN never passes, and a valid quantity is truthy |
| PurchaseModules.FormatDate | backup/js/modules/purchase-request/data.js:72-76 | a falsy date gives ''. A Date is formatted; a date text is formatted if it parses, and throws otherwise |
| PurchaseModules.ClearForm | backup/backup/js/modules/purchase-request/events.js:120-131 | all six fields are emptied and the alloy and description selects disabled, so the cleared form can no longer add |
| PurchaseModules.AddProduct | backup/backup/js/modules/purchase-request/events.js:48-79 | nothing changes unless all six fields are non-empty. Then the product gets id nextId and is appended, nextId grows, and the form is cleared. Requests are untouched |
| PurchaseModules.SubmitRequest | backup/backup/js/modules/purchase-request/events.js:88-116 | with no products nothing changes. Otherwise a 'Pendente' request with id nextPendingId and a copy of the products is appended, the products are emptied, and the counter grows |
| PurchaseModules.RemoveProduct | backup/backup/js/modules/purchase-request/events.js:143-147 | every product with the id goes, the others stay, and nothing else changes |
| PurchaseModules.ViewRequestDetails | backup/backup/js/modules/purchase-request/events.js:154-155 | the listed request with that id, or nothing iff none has it |
| PurchaseModules.RemoveUndoesAdd | backup/backup/js/modules/purchase-request/events.js:48-147 | removing the product just added restores the product list |
| PurchaseModules.SubmitKeepsEveryProduct | backup/backup/js/modules/purchase-request/events.js:97-111 | submitting moves the products into the request: the products held in lists and requests stay the same |
| PurchaseModules.AddKeepsSound | backup/backup/js/modules/purchase-request/events.js:59-70 | adding keeps every product id, in lists or requests, distinct and below nextId |
| PurchaseModules.SubmitKeepsSound | backup/backup/js/modules/purchase-request/events.js:97-111 | submitting keeps ids distinct and below their counters |
| PurchaseModules.RemoveKeepsSound | backup/backup/js/modules/purchase-request/events.js:143-147 | removing keeps ids distinct and below their counters |
| PurchaseModules.RunKeepsIdsUnique | backup/backup/js/modules/purchase-request/events.js:48-147 | any sequence of add, submit, clear and remove events keeps every id unique and fresh |
| PurchaseModules.ProductsTotals | backup/js/modules/purchase-request/ui.js:20-46 | the count shown is the list length, and the total weight is a number iff every quantity is |
| PurchaseModules.AddProductAddsToTotals | backup/js/modules/purchase-request/ui.js:20-46 | one more product adds one to the count and its quantity to the total |
| PurchaseModules.PendingRowOf | backup/js/modules/purchase-request/ui.js:61-75 | a pending row shows the item count and the sum (a number iff every quantity is). The purchase types appear once each in first-appearance order, joined by ', ', and the badge class is 'status-' plus the lower-cased status |
| ItemForm.Initial | backup/backup/src/js/purchase_request.js:93 | the page starts without item blocks, in a sound numbering state, with the header inputs as the markup sets them |
| ItemForm.SelectId | backup/backup/src/js/purchase_request.js:35-37 | the main select's id iff no (or a zero) item number is given; otherwise the id carries the number |
| ItemForm.SelectIdsDistinct | backup/backup/src/js/purchase_request.js:35-37 | different item numbers name different description selects |
| ItemForm.AddItem | backup/backup/src/js/purchase_request.js:94-141 | a click appends one block numbered with the incremented counter and keeps the earlier blocks; numbering stays sound |
| ItemForm.RemoveItem | backup/backup/src/js/purchase_request.js:168-171 | removing a block drops exactly that block and leaves the counter, so numbers are never reused |
| ItemForm.Numbered | backup/backup/src/js/purchase_request.js:191-196 | the block whose inputs are named `items[n]`: the first with number n, and nothing iff no block has it |
| ItemForm.NumberedFindsItself | backup/backup/src/js/purchase_request.js:94-141 | in a sound page each block is the one its own number names |
| ItemForm.WithItem | backup/backup/src/js/purchase_request.js:150-164 | replaces exactly one block and leaves the others alone |
| ItemForm.ChangeItemAsWritten | backup/backup/src/js/purchase_request.js:150-164 | as written: the changed block gets the new supplier and alloy, and with either empty nothing else happens |
| ItemForm.ChangeItem | backup/backup/src/js/purchase_request.js:150-164 | as intended: only block k changes. Once supplier and alloy are both set, its own description select gets that pair's descriptions |
| ItemForm.ChangeItemTargetsOwnBlock | backup/backup/src/js/purchase_request.js:150-164 | the corrected change keeps numbering sound and leaves the block findable by its own number |
| ItemForm.ChangeOnFirstOfTwoFillsTheSecond | backup/backup/src/js/purchase_request.js:154 | with two blocks, choosing CBA/6060 in the first fills the second block's descriptions and leaves the first empty |
| ItemForm.ChangeOnFirstOfTwoFillsTheFirst | backup/backup/src/js/purchase_request.js:150-164 | the corrected handler fills the first block with the three CBA/6060 descriptions and leaves the second alone |
| ItemForm.ChangeMain | backup/backup/src/js/purchase_request.js:76-90 | the main selects refresh the main description list only when both are set; the item blocks are untouched |
| ItemForm.CollectAsWritten | backup/backup/src/js/purchase_request.js:188-198 | as written: one entry per block, and entry i is the record of null fields iff no block is numbered i |
| ItemForm.Collect | backup/backup/src/js/purchase_request.js:188-198 | as intended: one entry per block, each read from that block's own fields |
| ItemForm.CollectAsWrittenLosesItems | backup/backup/src/js/purchase_request.js:95-102 | as written, the first entry is always empty. On a page never edited, entry i reads block i-1, and the last block is never read |
| ItemForm.NumbersAreOneToN | backup/backup/src/js/purchase_request.js:94-102 | without removals the blocks are numbered 1 to n |
| ItemForm.TwoItemsSubmittedAsWritten | backup/backup/src/js/purchase_request.js:188-198 | with two blocks the submit sends an empty item and then the first block's data |
| ItemForm.RequestAsWritten | backup/backup/src/js/purchase_request.js:179-198 | the request carries the client name, the total weight through `parseFloat`, the loads through `parseInt` (a number only when the text holds a digit) and one entry per block |
| ItemForm.ResetSelect | backup/backup/src/js/purchase_request.js:204 | `form.reset()` selects the placeholder option again and keeps the options and state of the select |
| ItemForm.Submit | backup/backup/src/js/purchase_request.js:201-211 | success clears the blocks, resets the counter to 0, puts the header inputs back to their defaults and the description select back on its placeholder with its options kept; a failure changes nothing |
| ItemForm.SubmitRestoresFreshPage | backup/backup/src/js/purchase_request.js:201-206 | after a successful submit the page equals a fresh one, apart from the description options last filled in |
| ItemForm.Loads | backup/backup/src/js/purchase_request.js:233-236 | `Math.ceil(total / 25000)`: the smallest number of 25 000 kg loads that holds the total |
| ItemForm.UpdateTotals | backup/backup/src/js/purchase_request.js:215-237 | the total weight of the blocks with a quantity, and the loads that hold it |
| ItemForm.TotalSkipsEmpty | backup/backup/src/js/purchase_request.js:221-224 | blocks whose quantity is empty add nothing |
| ItemForm.AddItemKeepsTotals | backup/backup/src/js/purchase_request.js:94-141 | adding an empty block leaves the totals as they were |
| ItemForm.ShowTotals | backup/backup/src/js/purchase_request.js:226-236 | `updateTotals` writes the total weight of the blocks with two decimals and the number of loads into the header, and nothing else: blocks, counter, select and client name stay |
| ItemForm.SubmittedLoadsAreShown | backup/backup/src/js/purchase_request.js:183 | the loads the submit sends are the loads `updateTotals` last wrote: the fewest 25 000 kg loads holding the blocks' total weight |
| SyncStorage.Get | backup/utils/storage.js:23-31 | the parsed value iff the key holds text that parses; nothing for an absent key or corrupt text |
| SyncStorage.Save | backup/utils/storage.js:12-20 | reports success iff the write is possible, after which the key reads back the value; a failed write changes nothing |
| SyncStorage.Stamped | backup/utils/storage.js:58-64 | the record keeps every other property, gains the local id and is flagged pending |
| SyncStorage.SaveRecord | backup/utils/storage.js:58-122 | a successful save, of a request or of consumption data, appends the stamped record after the stored ones; a failed one changes nothing |
| SyncStorage.SaveMany | backup/utils/storage.js:124-133 | the stored list grows by the batch, each record stamped with its own id and pending, the earlier ones untouched |
| SyncStorage.IndexOfId | backup/utils/storage.js:74 | `findIndex`: the first record with the local id, and nothing iff none has it |
| SyncStorage.Merged | backup/utils/storage.js:76-80 | every property comes from the changes if they have it and from the old record otherwise, except the pending flag, which is set |
| SyncStorage.UpdateRecord | backup/utils/storage.js:72-84 | an unknown id returns false and changes nothing. Otherwise only the found record is merged, and the result reports the write |
| SyncStorage.UpdateRequest | backup/utils/storage.js:72-84 | an update that succeeds leaves the record pending |
| SyncStorage.MarkAsSynced | backup/utils/storage.js:97-156 | in both stores, a mark that succeeds merges the server's data and leaves the record no longer pending |
| SyncStorage.RemoveRecord | backup/utils/storage.js:86-90 | a successful write keeps exactly the records with other ids |
| SyncStorage.WithoutId | backup/utils/storage.js:88 | the filter keeps exactly the records without the id |
| SyncStorage.PendingSyncs | backup/utils/storage.js:92-95 | exactly the stored records flagged pending |
| SyncStorage.SavedRecordIsPending | backup/utils/storage.js:58-95 | a saved record joins the end of the pending list |
| SyncStorage.SyncingOneLeavesOneFewer | backup/utils/storage.js:97-109 | replacing a pending record with a settled one shortens the pending list by one |
| SyncStorage.MarkAsSyncedShortensPending | backup/utils/storage.js:97-109 | marking a pending record as synced shortens the pending list by exactly one |
| SyncStorage.SaveThenMark | backup/utils/storage.js:58-109 | a record saved under a fresh id is found at the end by that id, and marking it leaves it settled and the earlier records untouched |
| SyncStorage.Preferences | backup/utils/storage.js:173-175 | the stored object, or `{}` when the key is absent or corrupt |
| SyncStorage.UpdatePreference | backup/utils/storage.js:177-181 | a successful write changes that one key and keeps every other preference |
| SyncStorage.UpdateLastSync | backup/utils/storage.js:158-160 | a successful write makes the last-sync key read back the current ISO time; a failed one changes nothing |
| Validation.IsRequired | js/modules/utils/validation.js:11-13 | false for null and undefined. A string passes iff it has a non-space character; numbers and booleans always pass |
| Validation.RemoveAll | js/modules/utils/validation.js:25 | `replace(/\./g, '')`: every occurrence of the character goes and every other character stays |
| Validation.ReplaceFirst | js/modules/utils/validation.js:25 | a text without the character is unchanged |
| Validation.ReplaceFirstAt | js/modules/utils/validation.js:25 | `replace(',', '.')` replaces exactly the first comma |
| Validation.Normalize | js/modules/utils/validation.js:25 | the normalised text has one decimal point iff the input has a comma, and none otherwise |
| Validation.NormalizeBrazilian | js/modules/utils/validation.js:24-25 | '1.000,50'-shaped input becomes '1000.50' |
| Validation.IsNumber | js/modules/utils/validation.js:20-27 | true for every non-NaN number and false for any other non-string. A string passes iff its normalised text parses and is finite |
| Validation.IsPositive | js/modules/utils/validation.js:34-44 | a positive value is a number. A number passes iff it is > 0; a string iff it is a number whose normalised reading is > 0 |
| Validation.IsValidDate | js/modules/utils/validation.js:51-69 | a falsy value is no date. A truthy non-string throws, because `match` is missing |
| Validation.IsValidDateIff | js/modules/utils/validation.js:51-69 | a string is a valid date iff it is DD/MM/YYYY with a year of at least 100 naming a real calendar day |
| Validation.TwoDigitYearMoves | js/modules/utils/validation.js:63-68 | years 0-99 come back from `new Date` as 19xx, so they never pass the component check |
| Validation.SameComponentsIff | js/modules/utils/validation.js:63-68 | the round trip through `new Date` keeps day, month and year iff the year is at least 100 and the day exists |
| Validation.AcceptsWrittenDates | js/modules/utils/validation.js:51-69 | every real date with a four-digit year, written DD/MM/YYYY, is accepted |
| Validation.IsFutureDate | js/modules/utils/validation.js:76-91 | throws exactly when `isValidDate` throws, and a future date is a valid one |
| Validation.ParseValidDate | js/modules/utils/validation.js:79-84 | a valid date string splits back into the same day, month and year |
| Validation.IsFutureDateIff | js/modules/utils/validation.js:76-91 | a string is a future date iff it is a valid date strictly after today |
| Validation.MessageOf | js/modules/utils/validation.js:110-140 | every known rule kind yields a non-empty message: its own or the default |
| Validation.Fires | js/modules/utils/validation.js:107-143 | the number, positive, date and futureDate rules never flag an empty value, and an unknown type flags nothing. Only the date rules can throw, on a truthy non-string |
| Validation.FieldError | js/modules/utils/validation.js:106-147 | no error iff no rule of the field flags it. Otherwise the message is that of the first rule that flags, and the loop stops there |
| Validation.FirstFiringShifts | js/modules/utils/validation.js:106-147 | skipping a rule that does not flag leaves the first flagging rule's message |
| Validation.ValidateForm | js/modules/utils/validation.js:99-151 | throws iff some field's rules throw |
| Validation.ValidateFormKeys | js/modules/utils/validation.js:99-151 | the error object has exactly the fields some rule flags |
| Validation.ValidateFormStep | js/modules/utils/validation.js:102-148 | the fields are checked one after the other: a field's error is added to the errors of the rest |
| Validation.ErrorOfTail | js/modules/utils/validation.js:102-104 | dropping the first field shifts the remaining fields' errors by one |
| Validation.ValidateFormMessages | js/modules/utils/validation.js:99-151 | with distinct field names, each flagged field carries its own first message |
| Validation.ValidateFormThrowsOnDates | js/modules/utils/validation.js:126-136 | when only one field has date rules, a throw means that field holds a truthy non-string |
| Validation.ErrorKeysAreFields | js/modules/utils/validation.js:99-151 | every error key is a field that has rules |
| Validation.IsFormValid | js/modules/utils/validation.js:158-160 | `isFormValid` holds iff the errors object has no key |
| Validation.FormValidIff | js/modules/utils/validation.js:158-160 | `isFormValid` of the errors holds iff no rule of any field flags |
| Validation.OptionalFieldMayBeEmpty | js/modules/utils/validation.js:114-136 | a field without required or custom rules accepts an empty value |
| FormatUtils.StatusColor | js/modules/utils/format-utils.js:37-46 | the four statuses get their own classes, each exactly for its status, and every other value except inherited keys falls back to 'status-pendente' |
| FormatUtils.PriorityColor | js/modules/utils/format-utils.js:53-61 | 'Alta' gets the high class and 'Baixa' the low class, each exactly for its value; every other value except inherited keys is medium |
| FormatUtils.TruncateText | js/modules/utils/format-utils.js:69-75 | an empty or short-enough text comes back unchanged. A longer one keeps its first maxLength characters (none for a negative length) and gains '...' |
| FormatUtils.TruncateIdempotent | js/modules/utils/format-utils.js:69-75 | truncating twice to the same length is truncating once |
| FormatUtils.FormatTableCell | js/modules/utils/format-utils.js:107-109 | a non-empty text is shown as is; a missing or empty one shows the placeholder, which is never empty by default |
| FormatUtils.Decompose | js/modules/utils/format-utils.js:85 | NFD leaves ASCII text alone |
| FormatUtils.StripMarks | js/modules/utils/format-utils.js:86 | no combining mark (U+0300 to U+036F) is left, and a text without marks is unchanged |
| FormatUtils.Hyphenate | js/modules/utils/format-utils.js:87 | same length; each character that is not [a-z0-9] becomes '-' and the others stay |
| FormatUtils.CollapseDashes | js/modules/utils/format-utils.js:88 | no two dashes in a row remain. The first and last characters and the id alphabet are kept |
| FormatUtils.TrimDashes | js/modules/utils/format-utils.js:89 | a text that neither starts nor ends with '-' is unchanged |
| FormatUtils.TextToId | js/modules/utils/format-utils.js:82-90 | the id has only [a-z0-9-], no doubled dash, and no dash at either end |
| FormatUtils.TextToIdIdempotent | js/modules/utils/format-utils.js:82-90 | an id is its own id |
| FormatUtils.AlnumTextIsItsOwnId | js/modules/utils/format-utils.js:82-90 | a non-empty text of [a-z0-9] is its own id |
| FormatUtils.HyphenateKeepsAlnums | js/modules/utils/format-utils.js:87 | hyphenation keeps the letters and digits in order |
| FormatUtils.CollapseKeepsAlnums | js/modules/utils/format-utils.js:88 | collapsing dashes keeps the letters and digits in order |
| FormatUtils.TrimKeepsAlnums | js/modules/utils/format-utils.js:89 | trimming dashes keeps the letters and digits in order |
| FormatUtils.TextToIdKeepsAlnums | js/modules/utils/format-utils.js:82-90 | the id keeps exactly the letters and digits of the lower-cased, unaccented text, in order |
| Forms.InitForms | js/modules/ui/forms.js:66-78 | the alloy and description selects start disabled; nothing else changes |
| Forms.ChangeSupplier | js/modules/ui/forms.js:91-99 | the new supplier is kept, the alloy and description selects are rebuilt as `updateAlloyOptions` does, and the other fields are untouched |
| Forms.ChangeAlloy | js/modules/ui/forms.js:101-108 | the new alloy is kept, the description select is rebuilt for the pair, and the other fields are untouched |
| Forms.CascadeReachesDescriptions | js/modules/ui/forms.js:147-214 | choosing a supplier and then one of the offered alloys enables the description select with exactly that pair's descriptions |
| Forms.QuantityValue | js/modules/ui/forms.js:269 | `parseInt(value, 10)`: 0 without an input, NaN iff the text has no leading integer, and otherwise that integer |
| Forms.GetFormData | js/modules/ui/forms.js:263-272 | the six fields, each read from its control; a missing purchase type or date reads as '' |
| Forms.QuantityOfDigits | js/modules/ui/forms.js:269 | a quantity typed as digits reads back as its number |
| Forms.PurchaseRules | js/modules/ui/forms.js:336-360 | six distinct fields in order, each with the rules and messages of the form |
| Forms.ValidatePurchaseForm | js/modules/ui/forms.js:336-363 | the errors name only the form's fields, and the validation throws only on a truthy non-string date |
| Forms.OnlyTheDateThrows | js/modules/ui/forms.js:355-359 | only the delivery date can make the validation throw |
| Forms.FormDataNeverThrows | js/modules/ui/forms.js:263-272 | data read from the form (the date is always text) never makes the validation throw |
| Forms.QuantityRequiredNeverFires | js/modules/ui/forms.js:351 | as written, the quantity's 'required' rule never fires on the data `getFormData` builds |
| Forms.EmptyQuantityAsWritten | js/modules/ui/forms.js:269 | as written, a blank quantity is reported as 'not a valid number' instead of 'required' |
| Forms.ParseIntOfBlank | js/modules/ui/forms.js:269 | `parseInt` finds no number in a blank string, so a blank quantity box reads as NaN |
| Forms.GetFormDataCorrected | js/modules/ui/forms.js:263-272 | as intended: the same data, except that a blank quantity is passed as its text, so 'required' can see it |
| Forms.EmptyQuantityCorrected | js/modules/ui/forms.js:350-354 | with the corrected reading, a blank quantity gets the 'Informe a quantidade' message |
| Forms.Submit | js/modules/ui/forms.js:111-129 | the corrected listener (it reads the form through Forms.GetFormDataCorrected): errors are shown only when there are some, and a submitted form carries the corrected data, which validates clean |
| Forms.SubmitAsWritten | js/modules/ui/forms.js:111-129 | the listener as written, reading the form with `getFormData`: errors are shown only when there are some, and a submitted form carries the data read, which validates clean |
| Forms.SubmitVersionsAgree | js/modules/ui/forms.js:111-129 | the written and the corrected listener give the same outcome unless the quantity box is blank; then both show errors, the written one 'A quantidade deve ser um número válido' for the quantity and the corrected one 'Informe a quantidade' |
| Forms.BlankQuantityErrors | js/modules/ui/forms.js:111-129 | on a blank quantity box neither listener submits: the written one shows the not-a-number message for the quantity and the corrected one the required message |
| Forms.SubmittedOnlyWhenEveryRulePasses | js/modules/ui/forms.js:111-129 | nothing is submitted while any rule of any field flags the data |
| Forms.ResetForm | js/modules/ui/forms.js:316-329 | supplier and alloy are emptied unless kept. When kept, the description select is rebuilt for the kept pair; every other field is cleared |
| Forms.Cleared | js/modules/ui/forms.js:321 | `form.reset()` empties an input that exists |
| Forms.ResetIdempotent | js/modules/ui/forms.js:316-329 | a second plain reset changes nothing |
| Forms.ResetKeepingPair | js/modules/ui/forms.js:316-329 | a reset that keeps a chosen pair leaves its descriptions offered and the quantity and date cleared |
| Forms.CharCounter | js/modules/ui/forms.js:232-243 | the counter shows the text length and warns iff 50 or fewer characters are left |
| Forms.CounterWarningPersists | js/modules/ui/forms.js:232-243 | typing more never clears the warning; at the default 500 it starts at 450 characters |
| Notifications.Merge | js/modules/ui/notifications.js:38 | `{...defaults, ...custom}`: each setting comes from the overrides when given there, otherwise from the base |
| Notifications.MergeNothing | js/modules/ui/notifications.js:79 | merging no overrides keeps the configuration |
| Notifications.Corner | js/modules/ui/notifications.js:47-65 | top iff the position is top-right or top-left, left iff top-left or bottom-left; anything else sits bottom-right |
| Notifications.InitNotifications | js/modules/ui/notifications.js:37-69 | the configuration is the defaults merged with the custom settings, and its container exists afterwards; the toasts are untouched |
| Notifications.InitIdempotent | js/modules/ui/notifications.js:37-69 | initialising twice with the defaults is initialising once |
| Notifications.Enqueue | js/modules/ui/notifications.js:88-110 | the new toast is last. With room it is appended; at the limit the oldest goes first |
| Notifications.EnqueueBounded | js/modules/ui/notifications.js:88-110 | queueing never makes the list longer than the limit (or than it already was) |
| Notifications.Place | js/modules/ui/notifications.js:96-127 | the toast gets the next number, the message, the classes `toast toast-<type>`, a close button iff configured and an auto-close timer iff configured, and it is queued |
| Notifications.ShowToast | js/modules/ui/notifications.js:78-130 | a shown toast is queued under the merged limit and takes the next number. The call recurses forever iff neither the current configuration nor a reset to the defaults yields the requested container |
| Notifications.RepeatSeesSameState | js/modules/ui/notifications.js:83-86 | the repeated call sees the state the first repetition left, so it repeats again |
| Notifications.CustomContainerRecurses | js/modules/ui/notifications.js:83-86 | asking for a container class the page lacks (e.g. 'avisos') on a fresh page never returns |
| Notifications.ShowToastCorrected | js/modules/ui/notifications.js:78-130 | as intended: the call always shows the toast with the next number, and it agrees with the original whenever the original returns |
| Notifications.RemoveToast | js/modules/ui/notifications.js:136-152 | the list shrinks by one iff a toast with that number is active; the settings are untouched |
| Notifications.RemoveFirst | js/modules/ui/notifications.js:147-150 | `indexOf` and `splice` drop one toast iff it is present |
| Notifications.Without | js/modules/ui/notifications.js:147-150 | exactly the toasts with other numbers |
| Notifications.RemoveFirstIsWithout | js/modules/ui/notifications.js:147-150 | with numbers in creation order, removing one toast is the same as filtering its number out |
| Notifications.WithoutAbsent | js/modules/ui/notifications.js:147-150 | removing a toast that is not there changes nothing |
| Notifications.ClearAllToasts | js/modules/ui/notifications.js:157-163 | with the container present every toast goes; without it nothing changes |
| Notifications.InitialSound | js/modules/ui/notifications.js:10-31 | the module starts with no toasts, within every bound |
| Notifications.ShowToastSound | js/modules/ui/notifications.js:78-130 | showing a toast with the current settings returns, keeps the list in creation order with numbers below the next one, and stays within the limit |
| Notifications.EnqueueAscending | js/modules/ui/notifications.js:88-110 | queueing a newer toast keeps creation order |
| Notifications.RemoveAndClearSound | js/modules/ui/notifications.js:136-163 | removing and clearing keep the same invariant |
| Notifications.WithoutKeepsOrder | js/modules/ui/notifications.js:147-150 | filtering keeps creation order and never lengthens the list |
| Modals.IndexOf | js/modules/ui/modals.js:135 | `registeredModals[id]`: the entry with the id, and nothing iff none is registered |
| Modals.RegisterModal | js/modules/ui/modals.js:76-118 | without an element nothing is registered. Otherwise the id maps to a closed modal at z-index 1000, ids stay unique, and other entries are kept |
| Modals.Highest | js/modules/ui/modals.js:143-145 | the reduce from 999: at least every open modal's z-index, and either 999 or one of them |
| Modals.OpenModal | js/modules/ui/modals.js:134-158 | an unknown id changes nothing. Otherwise the modal opens above every other open modal, and no other entry changes |
| Modals.CloseModal | js/modules/ui/modals.js:164-180 | only the entry with the id is closed; the others are untouched |
| Modals.TopOpen | js/modules/ui/modals.js:57-59 | the open modal the stable descending sort puts first: highest z-index, earliest among equals, and nothing iff none is open |
| Modals.HandleEscapeKey | js/modules/ui/modals.js:54-66 | Escape, when listened for, closes the top open modal; any other key, or no open modal, changes nothing |
| Modals.RegisterKeepsStacked | js/modules/ui/modals.js:76-118 | registering keeps ids unique, z-indexes at least 1000, and open modals on distinct layers |
| Modals.OpenKeepsStacked | js/modules/ui/modals.js:134-158 | opening keeps that invariant |
| Modals.EscapeKeepsStacked | js/modules/ui/modals.js:54-66 | the Escape key keeps that invariant |
| Modals.CloseKeepsStacked | js/modules/ui/modals.js:164-180 | closing keeps that invariant |
| Modals.EscapeClosesLastOpened | js/modules/ui/modals.js:54-66 | right after a modal is opened, Escape closes exactly that modal |
| Modals.GetStatusClass | js/modules/ui/modals.js:532-541 | always one of the four status classes |
| Modals.StatusClassAgrees | js/modules/ui/modals.js:532-541 | the modal's status class is the one the format utilities give, 'status-pendente' when there is no status |
| Modals.StatusButtonsShown | js/modules/ui/modals.js:391-404 | the approve, review and reject buttons show iff the request is 'Pendente' |
| Modals.OnOpen | js/modules/ui/modals.js:326-414 | the request becomes current. The review form is hidden, the action bar shown, and the status buttons shown iff pending |
| Modals.OnClose | js/modules/ui/modals.js:415-428 | the current request is forgotten, the notes cleared and the review form hidden |
| Modals.ClickReview | js/modules/ui/modals.js:455-467 | the review form shows and the action bar hides |
| Modals.CancelReview | js/modules/ui/modals.js:486-502 | the review form hides, the action bar returns and the notes are cleared |
| Modals.ClickApprove | js/modules/ui/modals.js:435-442 | with a current request it is approved and the modal closes; otherwise nothing happens |
| Modals.ClickReject | js/modules/ui/modals.js:444-453 | the current request is rejected and the modal closed only when the user confirms |
| Modals.SubmitReview | js/modules/ui/modals.js:470-485 | a review is sent for the current request with the trimmed, non-empty notes, and the modal closes. Blank notes only raise the error toast |
| Modals.ReviewSentIff | js/modules/ui/modals.js:470-485 | a review is sent iff a request is current and its notes are not blank |
| Modals.ConfirmEditDate | js/modules/ui/modals.js:265-288 | the date update is sent iff a product is being edited, the input exists and the date is not empty. A missing date only raises the error toast |
| Tables.SortRows | js/modules/ui/tables.js:319-333 | the sorted view is a permutation of the rows |
| Tables.InsertOrdered | js/modules/ui/tables.js:320-332 | inserting a row into an ordered column of numbers, or of strings, keeps it ordered |
| Tables.NotBeforeTransitive | js/modules/ui/tables.js:320-332 | on numbers, and on strings, the comparator's "not before" is transitive, so the sort has one consistent order |
| Tables.AppendOrdered | js/modules/ui/tables.js:320-332 | a row that does not sort before the last one can be appended in order |
| Tables.LastAfterInserted | js/modules/ui/tables.js:320-332 | an insertion that passes the last row keeps the order |
| Tables.BeforeAsymmetric | js/modules/ui/tables.js:320-332 | on numbers, and on strings, a row the comparator puts before another is not also put after it |
| Tables.SortRowsOrdered | js/modules/ui/tables.js:319-333 | on a column of numbers, or a column of strings, the sorted view is ordered by the comparator, ascending or descending |
| Tables.SortRowsOrderedOn | js/modules/ui/tables.js:319-333 | the same, for the kind of column given |
| Tables.CreateDynamicTable | js/modules/ui/tables.js:193-229 | no table without a container or without columns. Otherwise it starts on page 1, unsorted, with all data shown |
| Tables.ClickHeaderTwice | js/modules/ui/tables.js:262-275 | two clicks on the sorted column restore the sort state |
| Tables.Sort | js/modules/ui/tables.js:541-545 | `sort(column, dir)` records the column and the direction and keeps the data and page |
| Tables.SortedView | js/modules/ui/tables.js:316-334 | the rows shown before paging are a permutation of the filtered rows, left in order when no column is chosen |
| Tables.Window | js/modules/ui/tables.js:336-339 | `slice(start, start + size)`: the rows from start on, at most size of them, empty past the end |
| Tables.Displayed | js/modules/ui/tables.js:311-339 | without paging every sorted row shows; with paging, the current page's slice. Only filtered rows ever show |
| Tables.VisiblePage | js/modules/ui/tables.js:336-339 | an unsorted page is the slice of the filtered rows the page number names |
| Tables.TotalPages | js/modules/ui/tables.js:453 | `Math.ceil(n / size)`: the fewest pages that hold the filtered rows |
| Tables.PrevPage | js/modules/ui/tables.js:463-470 | goes back one page unless on the first; the data stay, and an in-range page stays in range |
| Tables.NextPage | js/modules/ui/tables.js:474-481 | goes forward one page unless on the last; the data stay, and an in-range page stays in range |
| Tables.GoToPage | js/modules/ui/tables.js:546-551 | moves iff the page is between 1 and the page count, and changes nothing otherwise |
| Tables.PageInRangeShowsRows | js/modules/ui/tables.js:336-339 | on an in-range page, nothing shows iff nothing passes the filter |
| Tables.StartOfPageInRange | js/modules/ui/tables.js:337 | an in-range page starts before the last row |
| Tables.RowOnItsPage | js/modules/ui/tables.js:336-339 | every filtered row shows on page i / size + 1, at position i mod size |
| Tables.PageOfRow | js/modules/ui/tables.js:337-338 | that page exists and its start plus the offset is the row's index |
| Tables.Keep | js/modules/ui/tables.js:537 | `filter`: exactly the rows that pass, in order, as a sub-multiset |
| Tables.KeepIdempotent | js/modules/ui/tables.js:537 | filtering twice with the same test is filtering once |
| Tables.FilterText | js/modules/ui/tables.js:494-513 | an empty query shows every row. Otherwise a row shows iff some column has a value whose lower-cased text contains the lower-cased query; the page goes back to 1 |
| Tables.Filter | js/modules/ui/tables.js:536-540 | exactly the data rows that pass the test, back on page 1 |
| Tables.FilterTextTwice | js/modules/ui/tables.js:494-513 | typing the same query twice shows the same rows |
| Tables.Refresh | js/modules/ui/tables.js:529-535 | as written: new data replace both lists but the page number is kept; without data nothing changes |
| Tables.RefreshStrandsPage | js/modules/ui/tables.js:529-535 | on page 3 of 25 rows, refreshing to 5 rows shows an empty page, and the pager is hidden so there is no way back |
| Tables.RefreshCorrected | js/modules/ui/tables.js:529-535 | as intended: new data keep the page only while it is in range, so the page stays valid; it agrees with the original otherwise |
| Tables.RefreshCorrectedShowsRows | js/modules/ui/tables.js:529-535 | after the corrected refresh the table is empty iff the new data are |
| Tables.ProductsTable | js/modules/ui/tables.js:49-127 | the empty message iff there are no products. Otherwise one row per product, in order, then the total row with the sum |
| Tables.ProductsTableCounts | js/modules/ui/tables.js:79-82 | only the product rows precede the total, and the total is a number iff no quantity is NaN |
| Tables.ClickHeader | js/modules/ui/tables.js:262-275 | a non-sortable header changes nothing. A click on the sorted column flips the direction; another column becomes the sort column, ascending. Data and page stay |
| Dashboard.Present | backup/dashboard.js:52 | exactly the values that are neither null nor undefined |
| Dashboard.CalculateAverage | backup/dashboard.js:50-56 | 0 when no value is present |
| Dashboard.AverageBetween | backup/dashboard.js:50-56 | when some value is present, the average lies between any lower and upper bound of the present values |
| Dashboard.SumBetween | backup/dashboard.js:54 | n values between lo and hi sum to between n·lo and n·hi |
| Dashboard.MeanBetween | backup/dashboard.js:54-55 | the mean of a non-empty list lies within any bounds of its elements |
| Dashboard.IsoWeekday | backup/dashboard.js:76 | `getUTCDay() \|\| 7`: Monday 1 to Sunday 7, the same weekday |
| Dashboard.ThursdayOf | backup/dashboard.js:77 | the Thursday of the date's Monday-to-Sunday week |
| Dashboard.WeekOfThursday | backup/dashboard.js:78-79 | counted from 1 January of the Thursday's own year, a week number between 1 and 53 |
| Dashboard.IsoWeek | backup/dashboard.js:74-80 | the ISO week number, between 1 and 53: the week of the Thursday of the date's week |
| Dashboard.UtcDay | backup/dashboard.js:75 | `Date.UTC(year, month, day)` is the same day, except that the years 0..99 become 1900..1999 |
| Dashboard.GetWeekNumber | backup/dashboard.js:74-80 | the ISO week number whenever the Thursday of the week, after the year shift of `Date.UTC`, is outside the years 0..99; when it is inside them, `yearStart` is read in 1900..1999 and the number is negative |
| Dashboard.GetWeekNumberIsIso | backup/dashboard.js:74-80 | for a date and its Thursday outside the years 0..99 the week number is the ISO week |
| Dashboard.WeekdayNext | backup/dashboard.js:74-80 | the next day is the next weekday |
| Dashboard.SameWeekMondayToSunday | backup/dashboard.js:74-80 | the day after any day but Sunday has the same week number |
| Dashboard.NewWeekOnMonday | backup/dashboard.js:74-80 | after a Sunday the week number goes up by one or restarts at 1 |
| Dashboard.WeekAfter | backup/dashboard.js:78-79 | a Thursday seven days later is in the next week, or in week 1 of a new year |
| Dashboard.YearsOneWeekApart | backup/dashboard.js:78-79 | seven days later is seven more days into the year, or in the first seven days of the next one |
| Dashboard.WeekOneHoldsFirstThursday | backup/dashboard.js:74-80 | week 1 is exactly the week whose Thursday falls on 1-7 January |
| Dashboard.WeekOneIff | backup/dashboard.js:78-79 | a Thursday is in week 1 iff it falls on 1-7 January |
| Dashboard.FirstThursdayIsWeekOne | backup/dashboard.js:74-80 | the first Thursday of January is in week 1 |
| Dashboard.WeekOneByThursday | backup/dashboard.js:74-80 | a day whose Thursday falls on 1-7 January is in week 1 |
| Dashboard.Select | backup/dashboard.js:65-68 | exactly the quotes with the key, in order |
| Dashboard.GroupBy | backup/dashboard.js:59-71 | the keys are exactly those the quotes produce, and each group is the quotes with that key, in order and never empty |
| Dashboard.GroupByWeek | backup/dashboard.js:59-71 | every quote sits in the group of its week number, and every key is an ISO week 1..53 or, for a Thursday in the years 0..99, a negative number |
| Dashboard.WeekKeyRange | backup/dashboard.js:62-63 | a quote's week key is between 1 and 53 or negative |
| Dashboard.SameKeyGroup | backup/dashboard.js:59-71 | two quotes with the same key make a single group holding both, in order |
| Dashboard.SameWeekGroup | backup/dashboard.js:59-71 | two quotes with the same week number make a single group holding both, in order |
| Dashboard.WeekKeyOne | backup/dashboard.js:62-63 | a quote dated 3 January 2024 or 1 January 2025 has the week key 1 |
| Dashboard.WeekGroupsMixYears | backup/dashboard.js:59-71 | 3 January 2024 and 1 January 2025 share the group of week 1: the key has no year |
| Dashboard.WeekOneOf2024 | backup/dashboard.js:74-80 | 3 January 2024 is in week 1 |
| Dashboard.WeekOneOf2025 | backup/dashboard.js:74-80 | 1 January 2025 is in week 1 |
| Dashboard.SelectAll | backup/dashboard.js:65-68 | when every quote has the key, the group is all of them |
| Dashboard.GroupByMonth | backup/dashboard.js:83-94 | every quote sits in the group of its YYYY-MM key |
| Dashboard.MonthKeyOrder | backup/dashboard.js:254 | for four-digit years, YYYY-MM keys sort as their months do, and are equal iff the months are |
| Dashboard.LatestIndex | backup/dashboard.js:217-220 | the first quote with the latest date, as the stable descending sort puts first |
| Dashboard.Variation | backup/dashboard.js:223 | undefined (a division by zero) iff the previous price is 0. Against a positive previous price it is non-negative iff the price did not fall |
| Dashboard.VariationSign | backup/dashboard.js:223 | against a positive previous price, the percentage is non-negative iff the price did not fall |
| Dashboard.Trend | backup/dashboard.js:230-231 | the up arrow and the 'positive' class iff the variation is non-negative |
| Dashboard.MaxInt | backup/dashboard.js:236 | the largest week number, which is one of them |
| Dashboard.LastKey | backup/dashboard.js:254 | the key the descending sort puts first, which is one of them |
| Dashboard.Except | backup/dashboard.js:236-237 | every key but the given one |
| Dashboard.KeysOf | backup/dashboard.js:236 | `Object.keys(groups)`: exactly the keys of the quotes |
| Dashboard.Values | backup/dashboard.js:238 | `map(p => p[metal])`: the price of each quote, in order |
| Dashboard.Without | backup/dashboard.js:221 | the list without one entry, one shorter |
| Dashboard.SecondIndex | backup/dashboard.js:217-221 | the quote a stable newest-first sort puts second: no other quote but the first is newer, and none of the same date stands before it |
| Dashboard.SecondFromRest | backup/dashboard.js:217-221 | the newest quote once the first is taken out, told as a position of the whole list, is no older than any other |
| Dashboard.SecondIsFirstOfNewest | backup/dashboard.js:217-221 | and every other quote before it is strictly older |
| Dashboard.DailyCard | backup/dashboard.js:217-232 | shown iff there are two quotes; it compares the first and the second quote of the stable newest-first order, the second no later than the first |
| Dashboard.DailyCardTakesSortedFirstTwo | backup/dashboard.js:217-221 | for any listing of the quotes sorted newest first, stably, the daily card compares its first two entries |
| Dashboard.SortedFirstIsLatest | backup/dashboard.js:217-220 | the first entry of the stable newest-first sort is the first of the newest quotes |
| Dashboard.SortedSecondIsSecond | backup/dashboard.js:217-221 | its second entry is the first of the newest among the others |
| Dashboard.LatestUnique | backup/dashboard.js:217-220 | a quote sorted before every other is the first of the newest |
| Dashboard.SecondUnique | backup/dashboard.js:217-221 | a quote sorted before every other except the first is the second |
| Dashboard.TopTwoWeeks | backup/dashboard.js:236-237 | present iff there are two distinct weeks: the largest week and the largest of the others |
| Dashboard.TopTwoMonths | backup/dashboard.js:254-255 | present iff there are two distinct months: the last key and the last of the others |
| Dashboard.WeeklyCard | backup/dashboard.js:235-250 | shown iff the quotes span two week numbers |
| Dashboard.WeeklyCardShownIff | backup/dashboard.js:235-250 | the weekly card shows iff two quotes have different week numbers |
| Dashboard.WeeklyCardPicksTopWeeks | backup/dashboard.js:235-250 | it compares the highest week number with the highest of the other weeks, both of which occur |
| Dashboard.TopTwoWeeksOfQuotes | backup/dashboard.js:235-239 | the two weeks exist iff two quotes differ in week, and they are the top two |
| Dashboard.MonthlyCard | backup/dashboard.js:253-268 | shown iff the quotes span two months |
| Dashboard.MonthlyCardShownIff | backup/dashboard.js:253-268 | the monthly card shows iff two quotes fall in different months |
| Dashboard.MonthlyCardPicksTopMonths | backup/dashboard.js:253-268 | it compares the last month key with the last of the other months, both of which occur |
| Dashboard.TopTwoMonthsOfQuotes | backup/dashboard.js:253-257 | the two months exist iff two quotes differ in month, and they are the top two |
| Dashboard.UpdateVariationCards | backup/dashboard.js:213-269 | no quotes leave every card untouched; otherwise each card is filled as above |
| Dashboard.WeeklyCardNeedsTwoGroups | backup/dashboard.js:235-237 | the weekly card needs two week groups |
| Dashboard.TwoGroupsIff | backup/dashboard.js:236-237 | there are two groups iff two quotes have different keys |
| Dashboard.MonthlyCardIsLatestMonth | backup/dashboard.js:253-256 | with four-digit years, the current month is that of the newest quote |
| Analysis.FormatPlaces | backup/backup/analysis.js:12-27 | '-' for the dash, null or anything not a number; otherwise the number to the given places |
| Analysis.FormatNumber | backup/backup/analysis.js:12-18 | numbers are shown with two decimals |
| Analysis.FormatDollarNumber | backup/backup/analysis.js:21-27 | dollar rates are shown with four decimals |
| Analysis.NumberOf | backup/backup/analysis.js:101 | `Number(c)`: defined iff the cell is a number or null (which reads 0) |
| Analysis.Numbers | backup/backup/analysis.js:51 | exactly the numbers among the cells, dashes, NaN and null dropped |
| Analysis.NumbersAppend | backup/backup/analysis.js:51 | the filter distributes over concatenation |
| Analysis.CalculateAverage | backup/backup/analysis.js:50-54 | '-' iff no cell is a number; otherwise a number |
| Analysis.AverageBetween | backup/backup/analysis.js:50-54 | a numeric average lies within any bounds of the numeric cells |
| Analysis.AverageIgnoresNonNumbers | backup/backup/analysis.js:51 | appending a dash, null or NaN leaves the average unchanged |
| Analysis.CalculatePrecoTon | backup/backup/analysis.js:99-102 | '-' iff either input is '-'. A number iff both read as numbers, and then it is their product |
| Analysis.GetDayOfWeek | backup/backup/analysis.js:36-40 | one of DOM to SAB |
| Analysis.GetWeekOfMonth | backup/backup/analysis.js:43-47 | a week of the month between 1 and 6 |
| Analysis.FirstOfMonthIsWeekOne | backup/backup/analysis.js:43-47 | the first of the month is in week 1 |
| Analysis.WeekOfMonthTurnsOnSunday | backup/backup/analysis.js:43-47 | the week of the month goes up by one exactly on Sundays |
| Analysis.WeekStart | backup/backup/analysis.js:59-60 | the Sunday on or before the date |
| Analysis.WeekEnd | backup/backup/analysis.js:61-62 | six days after that Sunday |
| Analysis.SundayWithinSix | backup/backup/analysis.js:59-62 | every day of a Sunday-to-Saturday week has that Sunday as its start |
| Analysis.MonthWindowIsCalendarMonth | backup/backup/analysis.js:70-76 | for years outside 0-99, a day is between `new Date(y, m, 1)` and `new Date(y, m + 1, 0)` iff it is in that month |
| Analysis.Window | backup/backup/analysis.js:64-67 | the quotes whose day lies in the window, in order |
| Analysis.Dollars | backup/backup/analysis.js:80 | the dollar rate of each quote, in order |
| Analysis.MetalCells | backup/backup/analysis.js:81 | the chosen metal's price of each quote, in order |
| Analysis.PrecoTons | backup/backup/analysis.js:82-85 | the price per ton of each quote, in order |
| Analysis.AveragesOf | backup/backup/analysis.js:78-94 | the dollar and metal averages are '-' iff no quote has a number there |
| Analysis.CalculatePeriodAverages | backup/backup/analysis.js:57-94 | the weekly and the monthly figures are the averages of the week's and of the month's quotes (which quotes those are: Analysis.PeriodItems) |
| Analysis.PeriodItems | backup/backup/analysis.js:57-76 | the weekly averages use the quotes sharing the day's Sunday; the monthly ones use the quotes of its calendar month |
| Analysis.PeriodAveragesShared | backup/backup/analysis.js:57-95 | days in the same week share the weekly averages, and days in the same month the monthly ones |
| Analysis.Insert | backup/backup/analysis.js:111 | inserting keeps the list newest first and adds exactly the one quote |
| Analysis.PrependNewest | backup/backup/analysis.js:111 | a quote at least as new as the first can go in front |
| Analysis.BoundedAfterInsert | backup/backup/analysis.js:111 | inserting a quote no newer than a bound keeps the head under the bound |
| Analysis.SortNewestFirst | backup/backup/analysis.js:111 | newest first, and a permutation of the quotes |
| Analysis.UpdateDataTable | backup/backup/analysis.js:105-134 | rows are produced iff the table body exists |
| Analysis.TableRowsAreQuotes | backup/backup/analysis.js:105-134 | one row per quote, newest first, every quote described by a row and every row describing a quote |
| Analysis.RowsOfPermutation | backup/backup/analysis.js:113-133 | the rows of any reordering of the quotes describe exactly the quotes |
| Analysis.RowsCoverQuotes | backup/backup/analysis.js:113-133 | every quote has its row |
| Analysis.RowsDescribeQuotes | backup/backup/analysis.js:113-133 | every row describes a quote |
| Analysis.RowsOrdered | backup/backup/analysis.js:113-133 | the rows keep the newest-first order |
| Spreadsheet.NormalizeKey | Backup/consumption_analysis.js:462 | a normalised header has only plain single spaces and no space at either end |
| Spreadsheet.NormalizeKeyIdempotent | Backup/consumption_analysis.js:462 | normalising a header twice is normalising it once |
| Spreadsheet.CollapseOfCollapsed | Backup/consumption_analysis.js:462 | collapsing a collapsed text changes nothing |
| Spreadsheet.TrimOfTrimmed | Backup/consumption_analysis.js:462-463 | trimming a trimmed text changes nothing |
| Spreadsheet.NormalizeRow | Backup/consumption_analysis.js:458-466 | every header of the normalised row holds the trimmed text of a cell whose header normalises to it |
| Spreadsheet.RowByValues | Backup/consumption_analysis.js:458-466 | the same for the row built with any renaming of the headers |
| Spreadsheet.NormalizeRowKeys | Backup/consumption_analysis.js:458-466 | the normalised row has exactly the normalised headers as keys |
| Spreadsheet.RowByKeys | Backup/consumption_analysis.js:458-466 | rebuilding a row under any key function has exactly the rebuilt keys |
| Spreadsheet.NormalizeRowLastWins | Backup/consumption_analysis.js:460-464 | when two headers normalise alike, the later cell, trimmed, is the one kept |
| Spreadsheet.RowByLastWins | Backup/consumption_analysis.js:460-464 | the same holds for any key function |
| Spreadsheet.Missing | Backup/consumption_analysis.js:486-494 | exactly the required columns the first row lacks, in the required order |
| Spreadsheet.NormalizeRows | Backup/consumption_analysis.js:458-469 | one normalised row per sheet row, in order |
| Spreadsheet.ValidateExcelData | Backup/consumption_analysis.js:451-502 | a toast is shown iff the sheet is refused. An empty or missing sheet is refused with the 'planilha está vazia' message |
| Spreadsheet.MissingNoneIff | Backup/consumption_analysis.js:496-501 | no column is missing iff the first row has every required column |
| Spreadsheet.ValidateIffColumns | Backup/consumption_analysis.js:451-502 | the sheet is accepted iff it has rows and its first normalised row has all six required columns |
| Spreadsheet.MessageNamesLine | Backup/consumption_analysis.js:520-561 | every row error names the sheet line of the row that failed |
| Spreadsheet.FirstEmpty | Backup/consumption_analysis.js:518-522 | the first required column, in order, whose cell is missing or empty, and nothing iff none is |
| Spreadsheet.ParseProductionDate | Backup/consumption_analysis.js:527-541 | a date whose trimmed text does not split into three parts is refused, and an accepted date is within the range of a `Date` (`isNaN(getTime())` refuses the rest) |
| Spreadsheet.ProductionDateRoundTrip | Backup/consumption_analysis.js:524-545 | every date from year 100 on, written DD/MM/AAAA, reads back as itself when a `Date` can hold it, and is refused otherwise |
| Spreadsheet.ProductionDateRoundTripInRange | Backup/consumption_analysis.js:524-545 | every date of the years 100 to 275759, written DD/MM/AAAA, reads back as itself |
| Spreadsheet.ProductionDateBeyondRange | Backup/consumption_analysis.js:534-541 | a date past the year 275760 is refused as an invalid date |
| Spreadsheet.ReadDate | Backup/consumption_analysis.js:527-541 | parts that read as the day, month and year of a date of the years 100 to 275759 give that date |
| Spreadsheet.ProductionDateTwoDigitYear | Backup/consumption_analysis.js:530-533 | a two-digit year is read as 20YY |
| Spreadsheet.TwoDigitsRead | Backup/consumption_analysis.js:530-534 | a two-digit field reads back as its number |
| Spreadsheet.TwoDigitYearRead | Backup/consumption_analysis.js:531-533 | the '20' prefix gives the year 2000 + YY |
| Spreadsheet.ProductionDateRollsOver | Backup/consumption_analysis.js:534-541 | 31/02 of a common year is taken as 3 March, because `new Date` rolls over, up to the year 275759; later it is refused |
| Spreadsheet.ReadParts | Backup/consumption_analysis.js:527-541 | three numeric parts give `new Date(year, month - 1, day)`, or a refusal when that day is out of range |
| Spreadsheet.NewDateOfValid | Backup/consumption_analysis.js:534 | `new Date` of a real date from year 100 on is that date |
| Spreadsheet.WrittenDate | Backup/consumption_analysis.js:527-528 | a date written with digits and slashes trims to itself and splits into its three parts |
| Decimal.ParseInt | js/modules/ui/forms.js:269 | `parseInt(s, 10)` gives a number only when the string holds a digit |
| Decimal.ParseIntOfDigits | js/modules/ui/forms.js:269 | a non-empty run of digits, leading zeros included, reads as the number it spells |
| Decimal.ParseIntStopsAtNonDigit | js/modules/ui/forms.js:269 | a run of digits followed by a non-digit reads as the run alone |
| Decimal.ParseIntOfIntToString | js/modules/ui/forms.js:269 | `parseInt` reads back the decimal spelling of every integer |
| Spreadsheet.NumberTextOfDecimal | Backup/consumption_analysis.js:548 | '12,5' is read as '12.5' |
| Spreadsheet.NumberTextOfSpacedThousands | Backup/consumption_analysis.js:548 | '1 250,5' is read as '1250.5' |
| Spreadsheet.SpacesKept | Backup/consumption_analysis.js:548 | a text without spaces loses nothing to the space removal |
| Spreadsheet.RemoveFirst | Backup/consumption_analysis.js:558 | `replace('%', '')` removes the first percent sign only |
| Spreadsheet.EfficiencyTextOfPercent | Backup/consumption_analysis.js:558-559 | '87,5%' is read as '87.5' before the division by 100 |
| Spreadsheet.ProcessRow | Backup/consumption_analysis.js:506-577 | a failing row reports its sheet line, the row index + 2 |
| Spreadsheet.ReadCells | Backup/consumption_analysis.js:524-571 | a row with every cell present fails only on the date or a number, never on an empty cell, and reports its line |
| Spreadsheet.ProcessRowSucceedsIff | Backup/consumption_analysis.js:506-571 | a row is read iff every required cell holds text, the date parses and the three numbers read |
| Spreadsheet.ProcessRowOfComplete | Backup/consumption_analysis.js:518-522 | an incomplete row fails; a complete one goes on to the date and the numbers |
| Spreadsheet.ProcessRowReportsFirstEmpty | Backup/consumption_analysis.js:518-522 | the error names an empty field iff the row is incomplete, and then it names the first empty column |
| Spreadsheet.ReadCellsRecord | Backup/consumption_analysis.js:564-571 | the record holds the trimmed client and alloy, the parsed date, the two quantities as read, and the efficiency divided by 100 |
| Spreadsheet.MapRowsSucceeds | Backup/consumption_analysis.js:505-578 | the map succeeds iff every row does, keeping one record per row in order |
| Spreadsheet.MapRowsFailsAtFirst | Backup/consumption_analysis.js:505-578 | a failing map throws the error of the first failing row |
| Spreadsheet.ProcessExcelData | Backup/consumption_analysis.js:505-578 | `processExcelData` succeeds iff the row reader reads every row, and then gives one record per row |
| Spreadsheet.ProcessExcelDataSucceeds | Backup/consumption_analysis.js:505-578 | the sheet is read iff every row is, into one record per row in sheet order |
| Spreadsheet.ProcessExcelDataFailsAtFirst | Backup/consumption_analysis.js:505-578 | a failing sheet reports the first failing row and its line k + 2 |
| Spreadsheet.SplitLast | Backup/consumption_analysis.js:589 | `pop()` after a split gives what follows the last separator |
| Spreadsheet.ExtensionOfName | Backup/consumption_analysis.js:589 | the extension of 'base.ext' is 'ext' lower-cased |
| Spreadsheet.AcceptedFileIff | Backup/consumption_analysis.js:589-593 | a file is accepted iff its extension is xls or xlsx, in any case |
| Spreadsheet.NameWithoutDot | Backup/consumption_analysis.js:589-593 | a name without a dot is its own extension, so a file named 'XLSX' is accepted |
| Spreadsheet.ConfirmImport | Backup/consumption_analysis.js:581-638 | every import attempt shows at least one toast |
| Spreadsheet.ImportSheet | Backup/consumption_analysis.js:599-628 | the first sheet is imported iff it passes the column check and every row is read; then the records are the rows read, with one success toast, and otherwise every toast is an error |
| Spreadsheet.ConfirmImportIff | Backup/consumption_analysis.js:581-638 | data are imported iff the file is chosen and accepted, the book has a sheet, the sheet validates and every row reads. Then the records are exactly the rows read and the only toast is the success one; otherwise every toast is an error |
| Spreadsheet.RowErrorShownTwice | Backup/consumption_analysis.js:572-576 | a failing row's message is shown twice, once by the row handler and once by the import handler |
| Consumption.EndOfLocalDay | Backup/consumption_analysis.js:685 | `setHours(23, 59, 59, 999)` stays on the instant's local day |
| Consumption.LocalMidnightDay | Backup/consumption_analysis.js:534 | a production date, local midnight, falls on its own local day |
| Consumption.AfterStartByDay | Backup/consumption_analysis.js:679-682 | the start filter, against a date read as UTC midnight, keeps the records from the chosen day on; east of UTC it keeps them only from the next day |
| Consumption.BeforeEndByDay | Backup/consumption_analysis.js:683-687 | the end filter keeps the records up to the chosen day in UTC and east of it, but west of UTC only those before it |
| Consumption.FinalDayDroppedInBrasilia | Backup/consumption_analysis.js:683-687 | in Brasília a production on the chosen last day is filtered out, although the comment at line 685 says the whole last day is meant to be included |
| Consumption.LocalRangeByDay | Backup/consumption_analysis.js:679-687 | with the chosen days read as local dates, the range is the chosen days, both ends included, in every time zone |
| Consumption.Filter | Backup/consumption_analysis.js:676-696 | a record is kept iff it was imported and passes the filter; nothing is added |
| Consumption.ApplyFiltersAsWritten | Backup/consumption_analysis.js:673-705 | nothing happens without imported data |
| Consumption.ApplyFilters | Backup/consumption_analysis.js:673-705 | nothing happens without imported data |
| Consumption.ApplyFiltersKeeps | Backup/consumption_analysis.js:673-705 | the shown records are exactly the imported ones the four filters keep, by day, each at most as often as imported, oldest first |
| Consumption.AsWrittenAgreesInUtc | Backup/consumption_analysis.js:673-705 | in UTC the written filters and the by-day filters show the same records |
| Consumption.InsertBy | Backup/consumption_analysis.js:700 | inserting into a list sorted by date keeps it sorted and adds exactly the new record |
| Consumption.SortBy | Backup/consumption_analysis.js:700 | the sort returns a permutation of its input, ordered by the key |
| Consumption.VariationAt | Backup/consumption_analysis.js:356-377 | '-' exactly on the last row, and 'NaN%' exactly when the row's or the next row's net quantity is zero |
| Consumption.VariationAtMeaning | Backup/consumption_analysis.js:368-376 | the percentage is the change of the net quantity from the next row, shown as a gain iff the quantity did not fall |
| Consumption.TableRows | Backup/consumption_analysis.js:894-915 | one table row per record |
| Consumption.TableRowsMeaning | Backup/consumption_analysis.js:894-915 | the table lists every record as often as it occurs, newest day first, each row with the variation against the row after it |
| Consumption.InsertDistinct | Backup/consumption_analysis.js:660-663 | adding a client to the sorted options keeps them strictly sorted and adds that client only |
| Consumption.ClientOptions | Backup/consumption_analysis.js:658-669 | the client options are strictly sorted and are exactly the clients of the data |
| Consumption.ClientOptionsDistinct | Backup/consumption_analysis.js:660-663 | no client is offered twice |
| Consumption.StrictlySortedDistinct | Backup/consumption_analysis.js:660-663 | a strictly sorted list has no repeats and is sorted between any two of its entries |
| Documents.ConcatAppend | js/modules/core/email-service.js:387-406 | appending two runs of `+=` pieces appends their texts |
| Documents.PieceOccurs | js/modules/core/email-service.js:387-406 | every appended piece appears in the finished text at its offset |
| Documents.PiecesInOrder | js/modules/core/email-service.js:387-406 | a piece appended later starts after an earlier one ends |
| Documents.PiecesAppearInOrder | js/modules/core/email-service.js:387-406 | two pieces appear in the text in the order they were appended |
| Documents.QuantityText | js/modules/core/email-service.js:397 | a number quantity is formatted and followed by the unit; a typed quantity is shown as typed |
| Documents.RunLength | js/modules/core/email-service.js:302 | the length of the longest prefix of digits, dots and commas |
| Documents.FirstRun | js/modules/core/email-service.js:302 | `/([0-9.,]+)/` finds nothing iff the text has no digit, dot or comma; otherwise a non-empty run of them |
| Documents.FirstRunOf | js/modules/core/email-service.js:302 | the run found is the first one, taken as far as it goes |
| Documents.RunLengthOf | js/modules/core/email-service.js:302 | the run stops at the first character that is no digit, dot or comma |
| Documents.QuantityWeight | js/modules/core/email-service.js:297-307 | a number quantity adds itself and NaN poisons the sum |
| Documents.TotalWeight | js/modules/core/email-service.js:296-308 | the total is NaN iff some quantity is NaN or a typed quantity whose run `parseFloat` cannot read |
| Documents.TotalOfNumbers | js/modules/core/email-service.js:296-300 | when every quantity is a number, the total is the plain sum of the quantities |
| Documents.TypedQuantityWeight | js/modules/core/email-service.js:302-305 | a typed '1.250,5 kg' adds what `parseFloat` reads from '1250.5' |
| EmailService.StatusKey | js/modules/core/email-service.js:152 | the lookup key has no white space left in it |
| EmailService.StatusColors | js/modules/core/email-service.js:151-162 | every status, unknown ones included, gets one of the four colour pairs |
| EmailService.StatusColorsByKey | js/modules/core/email-service.js:152-160 | each colour pair is chosen exactly by its key; any other key gets the pending colours |
| EmailService.StatusColorsIgnoreCaseAndSpaces | js/modules/core/email-service.js:152 | the colours do not depend on case or white space |
| EmailService.LowerRemoveSpaces | js/modules/core/email-service.js:152 | lower-casing and removing white space can be done in either order |
| EmailService.KeyOfWord | js/modules/core/email-service.js:152 | a status that lower-cases to a key without spaces has that key |
| EmailService.StatusColorsOfStatuses | js/modules/core/email-service.js:153-158 | the four statuses get their own colours: 'Em Revisão' gets the review colours through the key 'emrevisão' |
| EmailService.RevisaoKey | js/modules/core/email-service.js:152 | the key of 'Em Revisão' is 'emrevisão' |
| EmailService.BreakLines | js/modules/core/email-service.js:235 | the notes HTML has no line break left |
| EmailService.BreakLinesJoinsLines | js/modules/core/email-service.js:235 | the notes HTML is the notes' lines joined with '<br>' |
| EmailService.ItemBlock | js/modules/core/email-service.js:252-256 | each item adds five lines to the text |
| EmailService.ItemBlocks | js/modules/core/email-service.js:251-257 | five lines per item, the k-th item's block opening with its number k + 1, supplier and alloy |
| EmailService.ItemBlocksHaveNoTotal | js/modules/core/email-service.js:251-257 | no line of the item list starts a 'Total:' line |
| EmailService.ReviewItemsFallback | js/modules/core/email-service.js:176 | the items win whenever they are there, even empty; the products are read only without them; otherwise there are none |
| EmailService.ReviewPlainText | js/modules/core/email-service.js:245-265 | the review text has a header of four lines, five lines per item or the 'Nenhum item' line, then the notes, the plea, the footer and the company line; the status line always reads 'Em Revisão' |
| EmailService.ReviewEmail | js/modules/core/email-service.js:170-280 | the review mail goes to the reviewer, its badge reads 'Em Revisão', and its notes HTML is the notes' lines joined with '<br>' |
| EmailService.ReviewIgnoresStatus | js/modules/core/email-service.js:227 | the review mail does not depend on the request's own status, and its badge has the review colours |
| EmailService.ReviewTextListsItems | js/modules/core/email-service.js:250-257 | every item of the request appears, numbered, in the review text |
| EmailService.RequestHeader | js/modules/core/email-service.js:387-392 | the header lists the id, date and status, one line each, and has no total line |
| EmailService.ItemsSection | js/modules/core/email-service.js:393-404 | the items, five lines each, then the total line; or the 'Nenhum item' line |
| EmailService.RequestPlainText | js/modules/core/email-service.js:387-406 | the body lists the id, date and status, then every item numbered in order, then the total or the 'Nenhum item' line, then the closing line |
| EmailService.RequestTextTotalIff | js/modules/core/email-service.js:393-404 | the body has a total line iff the request has items |
| EmailService.RequestTextListsItem | js/modules/core/email-service.js:394-400 | item k appears in the text, numbered k + 1, where its block starts |
| EmailService.RequestTextListsItemsInOrder | js/modules/core/email-service.js:394-400 | the items appear in the text in list order |
| EmailService.EmailRequest | js/modules/core/email-service.js:287-420 | nothing is sent unless the id, date, status and items are truthy; the mail has no recipient, and its badge shows the status with the status colours |
| EmailService.EmailSubjectNamesRequest | js/modules/core/email-service.js:314 | after the prefix, the subject reads back as the request's id |
| PrintService.StatusClassAsWritten | js/modules/core/print-service.js:195 | the written badge class starts with 'status-' and has no white space |
| PrintService.RevisaoClassUnstyled | js/modules/core/print-service.js:79-82 | as written, 'Em Revisão' gets 'status-emrevisão', a class the stylesheet at lines 79-82 does not colour |
| PrintService.StatusClass | js/modules/core/print-service.js:195 | the corrected class differs from the written one only for the review status |
| PrintService.StatusClassStyled | js/modules/core/print-service.js:79-82 | with the correction each of the four statuses gets a class the stylesheet colours, the same class the request list uses |
| PrintService.ItemCells | js/modules/core/print-service.js:148-155 | one cell per column: supplier, alloy, description, type, quantity without unit, delivery date |
| PrintService.ItemsTable | js/modules/core/print-service.js:145-175 | one row per item in order, then the total row in kg; or the single 'Nenhum item' row across the six columns |
| PrintService.ItemsTableTotalIff | js/modules/core/print-service.js:146-173 | the table has a total row iff the request has items |
| PrintService.PrintRequest | js/modules/core/print-service.js:100-217 | the corrected operation, with the badge class of PrintService.StatusClass: nothing is printed unless the id, date, status and items are truthy; the printout is titled with the id, shows the status with its class, and lists the items |
| PrintService.PrintRequestAsWritten | js/modules/core/print-service.js:100-217 | `printRequest` as written: the same conditions, title and items, with the badge class as written at line 195 |
| PrintService.PrintRequestVersionsAgree | js/modules/core/print-service.js:100-217 | the written and the corrected printout exist together and differ in the badge class alone, and only for a status whose key is the review one |
| PrintService.PrintTitleNamesRequest | js/modules/core/print-service.js:186 | after the prefix, the title reads back as the request's id |
| PrintService.DropActions | js/modules/core/print-service.js:234-236 | every row of the clone loses exactly its last cell; the other cells stay |
| PrintService.DropActionsKeepsOthers | js/modules/core/print-service.js:234-236 | every cell but the last stays in its column |
| PrintService.PrintRequestsTable | js/modules/core/print-service.js:224-238 | nothing is printed without a table; the printout has the given title or 'Solicitações de Compra' and every row one cell shorter, the actions cell dropped and the other cells kept in place |
| PrintService.PrintReport | js/modules/core/print-service.js:296-404 | nothing is printed without headers and rows; the rows in order, or one 'Nenhum dado' row spanning all the headers; the summary only when it has entries |
| Export.StatusClassAsWritten | js/modules/purchase-request/export.js:69 | the written class is 'status-' followed by the status lower-cased, white space kept |
| Export.RevisaoBadgeUnstyled | js/modules/purchase-request/export.js:56-69 | as written, a request in review gets the classes 'status-em' and 'revisão', neither of which the stylesheet at lines 56-59 colours |
| Export.OneWordStatusesAgree | js/modules/purchase-request/export.js:56-69 | for the three one-word statuses the written class is already the styled one |
| Export.ProductCells | js/modules/purchase-request/export.js:84-91 | the row shows the product's supplier, alloy and description first, six cells in all |
| Export.ProductRows | js/modules/purchase-request/export.js:83-92 | one row per product, in order |
| Export.ProductRowsAppend | js/modules/purchase-request/export.js:83-92 | the rows of two runs of products are the rows of the first followed by those of the second |
| Export.PrintRequest | js/modules/purchase-request/export.js:17-103 | the corrected operation, with the badge class of PrintService.StatusClass: the sheet is titled with the request's id, shows its status with that class and has one row per product |
| Export.PrintRequestAsWritten | js/modules/purchase-request/export.js:17-103 | the sheet as written: the same title and rows, with the badge class as written at line 69 |
| Export.PrintRequestVersionsAgree | js/modules/purchase-request/export.js:17-103 | the corrected sheet is the written one with the badge class replaced, and for 'Pendente', 'Aprovado' and 'Recusado' the two are equal |
| Export.EmailRequest | js/modules/purchase-request/export.js:112-122 | the body lists the id, date and status, one line each, and ends with the closing line |
| Export.EmailSubjectNamesRequest | js/modules/purchase-request/export.js:113 | after the prefix, the subject reads back as the request's id |
| Export.EmailBodyInOrder | js/modules/purchase-request/export.js:114-118 | the id line comes before the date line, which comes before the status line |
| Export.EmailBodyEndsWithClosing | js/modules/purchase-request/export.js:114-118 | the body text ends with 'Para mais detalhes, acesse o sistema.' |

## Left out

- Rendering: HTML templates, `innerHTML`, CSS, Chart.js charts, event-listener wiring and the bootstrapping modules are outside the model. What a page shows is kept as rows of cells, lists of text pieces or small view records.
- Browser side effects: `window.open`, `print`, `mailto:` navigation, `confirm` and `alert` are left out. A confirmation is a boolean parameter, and the `try`/`catch` around `window.open` in the e-mail service is not modelled.
- Persistence: `localStorage` and JSON serialisation are left out. Stores are in-memory sequences and maps, and storage keys map to values already parsed.
- Network clients: the PTAX enrichment service, the Supabase sync and the connection test are left out. Every upstream call is an oracle of outcomes, and the enriched payload is a parameter.
- Express plumbing: routing, CORS, static files and the controller layer are left out. The `/api/lme` and `/health` handlers are modelled as functions from cache, clock and oracle to a response.
- Retry.FetchWithRetry: overlapping requests each start their own refresh. Nothing de-duplicates an in-flight upstream call, and the interleaving of concurrent refreshes is not modelled.
- Tables.SortRowsOrdered: a column that mixes numbers, strings, `null` and `undefined` is not covered. There `<` turns one side into a number, NaN compares false both ways, and the comparator is no consistent order; Tables.SortRows still states that the rows are only permuted.
- Tables.CreateDynamicTable: a page size of 0 is excluded. It defaults to 10, no code in the repository passes another, and 0 would make the page count infinite.
- Timers: `setTimeout`, `setInterval`, toast auto-dismiss, print delays and the retry waits are left out as time. Each retry wait is a counted step that advances the clock by the fixed delay.
- Floating point: averages, percentages and efficiencies are exact `real`s, and product quantities are integers. `NaN` is an explicit case. `parseFloat` and `Intl` number formatting are parameters, and `toFixed` is kept as a value with its number of places. Rounding is not modelled.
- Records.Quantity: a quantity is a whole number of kilograms. The quantity inputs accept hundredths (`step="0.01"` at backup/backup/src/js/purchase_request.js:134, 195 and 222, Backup/purchase_request.js:655 and backup/js/modules/purchase-request/events.js:65), so a fractional quantity is not modelled.
- ItemForm.UpdateTotals: the `parseFloat` parameter returns an integer, so the fractional kilograms of a total weight are dropped.
- ItemForm.Submit: the header inputs' default values come from the page markup, which is not part of this model, so they are a parameter; the form's supplier and alloy selects are not part of the page model, so their reset is not stated.
- ItemForm.ShowTotals: the total is a whole number of kilograms, so `toFixed(2)` is written as its digits followed by `.00`.
- ItemForm.RequestAsWritten: `parseInt` without a radix is read as decimal; a `0x` prefix would make the source read hexadecimal.
- Text.JsNumber: only `Number` on whole numbers is modelled. A string with a decimal point, an exponent, a `0x`, `0o` or `0b` prefix, or `Infinity` reads as NaN here, where `Number` reads a number.
- PurchaseModules.IsValidQuantity: a quantity given as text goes through Text.JsNumber, so a text such as "2.5", which backup/js/modules/purchase-request/data.js:106 accepts, is refused.
- Decimal.ParseInt: the digits are read in base 10. `parseInt` without a radix at backup/purchase_request.js:1236 would read a `0x` prefix as hexadecimal; the value read there comes from the quantity select (line 44), whose options are plain numbers.
- Text.Less: JavaScript compares strings by UTF-16 code units, and Dafny characters are code points. The two orders differ only when a character above U+FFFF meets one in U+E000..U+FFFF.
- Gregorian.JsDate: it gives the calendar day `new Date` names, whether or not a `Date` can hold it. The range check (`InTimeRange`) sits in the parsers that can see an invalid date: DateUtils.ParseBrazilianDate and Spreadsheet.ParseProductionDate. The other members that take a date assume it lies within that range.
- DateUtils.NewDate: the same holds; it no longer promises a real `Date` for every argument, only a valid calendar day.
- Gregorian.InTimeRange: the range is counted from UTC midnight. A local date is read at UTC offset zero, so away from Greenwich the first and last day of the range shift by the local offset.
- Locale and time zones: `Intl.DateTimeFormat`, `toLocaleString` and `toLocaleDateString` are parameters. Unicode NFD decomposition in `textToId` is a parameter. Text.Lower lowers ASCII and the Latin-1 capitals À..Þ (except ×) only. Dates are proleptic Gregorian civil dates. As for time zones, `new Date('YYYY-MM-DD')` is UTC midnight, and the local getters that follow see the previous day west of Greenwich. The consumption-analysis filters model this with a time-zone offset (Consumption.AfterStartByDay for the start date, Consumption.BeforeEndByDay for the end date). Elsewhere an ISO date is read as the civil date it spells, which is exact only at UTC offset zero. That covers the dashboard's week and month grouping (backup/dashboard.js:62-63 and 86-87) and the weekday and period filters of backup/backup/analysis.js:30-40 and 59-76.
- Spreadsheet reading: `FileReader` and the XLSX library are left out. A workbook is unreadable, unparsable with the library's message, or a list of sheets, each a list of rows of (header, cell text) pairs.
- Payloads are assumed to be objects: a cached upstream body is never falsy.
- Delivery dates are strings. The `formatDate(item.deliveryDate)` branch for a non-string date in the print and e-mail services is not modelled.
- `getStatusStyle` looks its key up in a plain object. A key such as 'constructor', inherited from `Object.prototype`, is not modelled; it is treated as an unknown status.
- Modals.GetStatusClass: the same holds for `statusMap[status] || 'status-pendente'` (js/modules/ui/modals.js:533-540). For 'constructor' the source returns the inherited function, and the model returns 'status-pendente'.
- FormatUtils.StatusColor: the same holds for `statusMap[status] || 'status-pendente'` (js/modules/utils/format-utils.js:38-45). For 'constructor' or '__proto__' the source returns the inherited `Object.prototype` member, and the model returns 'status-pendente'.
- FormatUtils.PriorityColor: the same holds for `priorityMap[priority] || 'priority-medium'` (js/modules/utils/format-utils.js:54-60). For 'constructor' or '__proto__' the source returns the inherited `Object.prototype` member, and the model returns 'priority-medium'.
- `calcularVariacao(valorAtual, valorAnterior)` at Backup/consumption_analysis.js:39-43 is shadowed by the later declaration of the same name. Only the later one is modelled.
- `setFormData` in js/modules/ui/forms.js:278-310 fills the form from a record, and `displayFormErrors` and the modal content updates only write to the DOM. None of them is modelled.
- `calculatePeriodAverages` in backup/backup/analysis.js reads the page's current metal. The page always passes the same metal to `updateDataTable` (line 146), so the model takes one metal parameter for both.
- The Express handler's and the client's console logging, and `console.error` on a refused call, are left out. A refused call is a `None` or an unchanged state.
- Dashboard.CalculateAverage: the ensures state only the empty case; the mean itself is stated by the partner lemma Dashboard.AverageBetween, because real division in a rich context is too costly for the solver.
- Analysis.CalculateAverage: the ensures state only when '-' is returned; the mean is stated by Analysis.AverageBetween and Analysis.AverageIgnoresNonNumbers.
- Consumption.ApplyFiltersAsWritten: the ensures state only the no-data case; what the written filters keep is stated by Consumption.BeforeEndByDay, Consumption.AfterStartByDay and Consumption.AsWrittenAgreesInUtc.
- Consumption.TableRows: the ensures state only the row count; the content and order are stated by Consumption.TableRowsMeaning.
- Spreadsheet.ProcessRow: the ensures state only the reported line; when a row is read is stated by Spreadsheet.ProcessRowSucceedsIff and Spreadsheet.ProcessRowReportsFirstEmpty.
- Spreadsheet.ConfirmImport: the ensures state only that some toast is shown; the outcome is stated by Spreadsheet.ConfirmImportIff.
- RequestService.AddProduct: the `saveToLocalStorage` call after the change (js/modules/core/data-manager.js:160) writes JSON text, which is not modelled. The ensures promise only that no storage key is lost, not what the stored values become.
- RequestService.RemoveProduct: the same holds for the save after a removal (js/modules/core/data-manager.js:178).
- RequestService.UpdateDeliveryDate: the same holds for the save after an update (js/modules/core/data-manager.js:204).
- RequestService.CreatePendingRequest: the saves of `addPendingRequest` and of each `removeProduct` are not modelled either. The ensures say which keys are present afterwards, not their values.

## Findings

| source | as written | input that shows it | evidently intended | confidence | as-written member | corrected member |
|---|---|---|---|---|---|---|
| backup/purchase_request.js:614-660 | reject and review push onto `request.history`, but requests created on this page have no history | create a request, view it, reject it: the status is already 'Recusado' when the push throws, and no entry is recorded | create the history when absent, as approve does | high, not executed | LegacyWorkflow.RejectOfNewRequestThrows | LegacyWorkflow.RejectCorrected, LegacyWorkflow.SubmitReviewCorrected |
| backup/backup/src/js/purchase_request.js:95-102, 188-198 | added item blocks are named from 1, but submit reads `items[0]`..`items[n-1]` by DOM position | two item blocks: the submit sends an empty item and then the first block's data; the second block is lost | read each block's own fields | high, not executed | ItemForm.CollectAsWritten, ItemForm.CollectAsWrittenLosesItems, ItemForm.TwoItemsSubmittedAsWritten | ItemForm.Collect |
| backup/backup/src/js/purchase_request.js:150-164 | the change handler fills the description select of the latest block, whichever block changed | two blocks, choose CBA and 6060 in the first: the second block's descriptions are filled | fill the block that changed | high, not executed | ItemForm.ChangeItemAsWritten, ItemForm.ChangeOnFirstOfTwoFillsTheSecond | ItemForm.ChangeItem, ItemForm.ChangeOnFirstOfTwoFillsTheFirst |
| js/modules/core/print-service.js:195 | the badge class removes white space, giving 'status-emrevisão' | a request in 'Em Revisão': its badge has no colour | 'status-revisao', the class the stylesheet at lines 79-82 defines | high, not executed | PrintService.StatusClassAsWritten, PrintService.RevisaoClassUnstyled, PrintService.PrintRequestAsWritten | PrintService.StatusClass, PrintService.StatusClassStyled, PrintService.PrintRequest |
| js/modules/purchase-request/export.js:69 | the badge class keeps the space, giving the classes 'status-em' and 'revisão' | a request in 'Em Revisão': its printed badge has no colour | 'status-revisao', defined at line 59 | high, not executed | Export.StatusClassAsWritten, Export.RevisaoBadgeUnstyled, Export.PrintRequestAsWritten | PrintService.StatusClass, used by Export.PrintRequest |
| src/server/services/lmeService.js:49-56 | the failure fallback re-reads through the TTL-checked `get()` | data stored at 1 ms, read at 400000 ms while the upstream is down: the error is rethrown | serve the stored data of any age, as the comment and the Express handler do | high, not executed | LmeService.FallbackNeverServes, LmeService.StaleDataNotServed | LmeService.GetDataWithStaleFallback, LmeService.StaleFallbackServes |
| Backup/purchase_request.js:681-689 | month navigation calls `setMonth` on the displayed date, keeping its day | 'next' from 31 January shows March | step to the first of the next month | high, not executed | MonthGrid.SetMonthSkips | MonthGrid.MonthStep, MonthGrid.MonthStepNeverSkips |
| js/modules/ui/forms.js:269 | an empty quantity is read with `parseInt`, giving NaN, which the 'required' rule accepts | submit with the quantity blank: the message is 'not a valid number' | 'Informe a quantidade' | medium, not executed | Forms.QuantityRequiredNeverFires, Forms.EmptyQuantityAsWritten, Forms.SubmitAsWritten | Forms.GetFormDataCorrected, Forms.EmptyQuantityCorrected, Forms.Submit |
| js/modules/ui/notifications.js:83-86 | a toast for a container the page lacks creates it and calls itself with unchanged state | a container class the page lacks, such as 'avisos', on a fresh page: the call never returns | create the container once and show the toast | medium, not executed | Notifications.CustomContainerRecurses, Notifications.RepeatSeesSameState | Notifications.ShowToastCorrected |
| js/modules/ui/tables.js:529-535 | `refresh` keeps the current page whatever the new data | on page 3 of 25 rows, refresh to 5 rows: an empty page with the pager hidden | keep the page only while it is in range, else go to page 1 | medium, not executed | Tables.Refresh, Tables.RefreshStrandsPage | Tables.RefreshCorrected, Tables.RefreshCorrectedShowsRows |
| Backup/consumption_analysis.js:683-686 | the end date is read as UTC midnight and then moved to the end of its local day | in Brasília, a production on the chosen last day is filtered out | include the whole last day, as the comment at line 685 says | high, not executed | Consumption.BeforeEndByDay, Consumption.FinalDayDroppedInBrasilia | Consumption.ApplyFilters, Consumption.LocalRangeByDay, Consumption.ApplyFiltersKeeps |
