# Verification model of the jewellery management backend

A Dafny model of the parts of the backend whose behaviour is decided by their own code: the rate limiter,
the input sanitizer, the log masker, two database seeds with the access check that reads one of them, the
paging arithmetic, and the buffer bound of the bundled compression header. `dafny verify dfyconfig.toml`
checks everything.

- **Rate limiter** (`LimiterSpec`, `LimiterIsolation`, `LimiterWindows`, `LimiterBounds`, `LimiterWaiting`,
  `LimiterClients`, `RateLimiter`). A state machine over one store; its events are requests, sweeps and resets with
  a clock reading each. `RateLimiter` is the running form, a map of mutable records, proved to take exactly the
  machine's steps. The other modules prove what holds of whole runs: the sweep cannot be noticed, keys and
  limiters do not influence each other, the counters mean greedily opened windows, the exact maximum that can
  get through per key in any span of time, what Retry-After guarantees, and who shares a key.
- **Sanitizer** (`Regex`, `Markup`, `JsonValue`, `Sanitizer`). `Regex` gives the backtracking semantics of
  ECMA-262, section 22.2.2, as the list of all match ends in the order the search tries them. The two patterns
  are written out as data, proved equal to plain scanners, and the results about nested values follow.
- **Masker** (`Masker`). The sensitive-key pattern uses the same matcher. Masking is characterised by what can
  be seen in a value along paths that pass no sensitive key.
- **Seeds** (`EmployeeSeed`, `PermissionSeed`). Tables are sequences of rows. The loops are methods of a class
  with the tables as fields, proved against step functions; the results are about the step functions.
- **Arithmetic** (`Pagination`, `CompressBound`).

## Where the code differs from what is said about it

- The comments in `src/config/security.ts` speak of 10 log-ins and of 1000 general requests per IP in 15 minutes.
  The limiter counts per key, and windows start with a key's first request, so 19 and 1999 requests on one key can
  fall within some 15 minutes (`LimiterBounds.ConfiguredPeaks`). For max >= 1 the maximum in a span of L ms is
  (1+q)*max when windowMs+1 divides L and (2+q)*max - 1 otherwise, with q = L div (windowMs+1); this is proved both
  as a bound and as reached. So 2*max within one window's length is never reached, but for windowMs > 0
  2*max - 1 is.
- A key is the forwarded address where a request claims one. One socket address that claims many gets any number of
  requests through; without such claims the bound per key holds per socket address (`LimiterClients`).
- A client that waits exactly Retry-After seconds is rejected again, with Retry-After 0, when the time remaining
  was a whole number of seconds. Every limiter with max >= 1 has runs in which this happens.
- The sanitizer trims before it removes markup, so one pass is not idempotent: exactly the strings whose text
  outside markup starts or ends with white space change in a second pass.
- The sensitive-key pattern is not anchored: `pan` also occurs in every key starting with `company`.
- The employee seed leaves a listed employee without an open primary post if the employee had none.
- The remark beside `ZSTD_COMPRESSBOUND` holds exactly while the total is below the input limit, or when no part is.

## Model

| member | source | states |
|---|---|---|
| `RateLimiter.RateLimitStore.Handle` | jms-backend-main/src/middleware/rate-limit.middleware.ts:31-75 | one request on the mutable map of shared record objects: new store, answer and Retry-After are those of the state machine, whichever way the request goes; distinct keys keep distinct records |
| `RateLimiter.RateLimitStore.Tally` | jms-backend-main/src/middleware/rate-limit.middleware.ts:43-53 | the in-place count or the fresh record, with every other key's record unchanged |
| `RateLimiter.RateLimitStore.Sweep` | jms-backend-main/src/middleware/rate-limit.middleware.ts:17-24 | deleting while walking over the map, in any order, leaves exactly the unexpired entries |
| `LimiterIsolation.Simulation` | jms-backend-main/src/middleware/rate-limit.middleware.ts:17-75 | a store that lacks nothing but outdated records of some keys answers all requests on those keys as the other does, although it also sees every sweep and every other request |
| `LimiterIsolation.SweepsAreInvisible` | jms-backend-main/src/middleware/rate-limit.middleware.ts:17-24 | two runs that differ only in where sweeps happen give the same answers, Retry-After included, if no sweep reads a later time than a later request |
| `LimiterIsolation.SweepsHarmlessExactlyWhen` | jms-backend-main/src/middleware/rate-limit.middleware.ts:17-24 | that condition is exact: without resets, the sweeps of a timing are invisible in all its runs if and only if none reads a later time than a later request |
| `LimiterIsolation.KeysDoNotInterfere` | jms-backend-main/src/middleware/rate-limit.middleware.ts:40-53 | a key's answers in any run are those of that key's requests alone on a private store |
| `LimiterIsolation.KeysCollideExactlyWhen` | jms-backend-main/src/middleware/rate-limit.middleware.ts:40 | two prefixes can produce equal keys if and only if one with its colon starts the other; colon-free prefixes make prefix and address recoverable from the key |
| `LimiterIsolation.LimitersDoNotInterfere` | jms-backend-main/src/middleware/rate-limit.middleware.ts:12-53 | limiters on the one shared map answer as if each had its own |
| `LimiterIsolation.BypassedRequestsLeaveNoTrace` | jms-backend-main/src/middleware/rate-limit.middleware.ts:32-38 | bypassing requests always pass, and no other answer nor the final store depends on them |
| `LimiterIsolation.ResetForgets` | jms-backend-main/src/middleware/rate-limit.middleware.ts:26-28 | after a reset the answers are those of an empty store, whatever came before |
| `LimiterClients.WhoIsCountedTogether` | jms-backend-main/src/middleware/rate-limit.middleware.ts:39-40 | two requests to one limiter share a record if and only if their addresses agree, where a forwarded address counts like a socket address and the default is 127.0.0.1 |
| `LimiterClients.WhoBypasses` | jms-backend-main/src/middleware/rate-limit.middleware.ts:32-39 | exactly two kinds of requests bypass a limiter: in the test environment those without a nonempty test header, and on the api prefix those with a bearer token; which address counts, empty headers taken as absent |
| `LimiterClients.WhoIsCounted` | jms-backend-main/src/config/security.ts:7-16 | outside the test environment the log-in limiter counts every request and the general one all but those with a bearer token; 10 log-ins, 1000 in development, and 1000 requests per window of 15 minutes |
| `LimiterWindows.WindowsExist` | jms-backend-main/src/middleware/rate-limit.middleware.ts:45-53 | every history of request times splits into greedily opened windows [start, start + windowMs] |
| `LimiterWindows.WindowsUnique` | jms-backend-main/src/middleware/rate-limit.middleware.ts:45-53 | in one way only |
| `LimiterWindows.CounterRefinesWindows` | jms-backend-main/src/middleware/rate-limit.middleware.ts:43-72 | per window the first max requests are admitted and all later ones rejected until its end; the record counts the last window |
| `LimiterWindows.HistoryRefinement` | jms-backend-main/src/middleware/rate-limit.middleware.ts:43-75 | the same in every run of the shared store, with other clients, limiters and sweeps in between; a live record counts the open window |
| `LimiterBounds.SpanBound` | jms-backend-main/src/middleware/rate-limit.middleware.ts:43-55 | in every run and every span of L ms a key gets at most Peak requests through |
| `LimiterBounds.SpanBoundReached` | jms-backend-main/src/middleware/rate-limit.middleware.ts:43-55 | Peak is attained: for every limiter and span some run reaches it |
| `LimiterBounds.PromiseKeptExactlyWhen` | jms-backend-main/src/middleware/rate-limit.middleware.ts:43-55 | at most max requests per key in any window's length: kept in all runs if and only if max <= 1 or the window is empty |
| `LimiterBounds.ConfiguredPeaks` | jms-backend-main/src/config/security.ts:7-16 | per key, 19 log-ins and 1999 general requests are possible within some 15 minutes |
| `LimiterClients.SocketBound` | jms-backend-main/src/middleware/rate-limit.middleware.ts:39-55 | Peak also bounds what one socket address gets through, if its requests claim no forwarded address |
| `LimiterClients.ForwardedAddressesLiftTheLimit` | jms-backend-main/src/middleware/rate-limit.middleware.ts:39-55 | with claimed forwarded addresses one socket address gets any number of requests through at one instant |
| `LimiterClients.SocketPromiseKeptExactlyWhen` | jms-backend-main/src/config/security.ts:13-14 | the comment's limit on each IP, read as each socket address, is kept in all runs if and only if max is 0 |
| `LimiterClients.UnforwardedPromiseKeptExactlyWhen` | jms-backend-main/src/config/security.ts:13-14 | without forwarded addresses it is kept if and only if max <= 1 or the window is empty |
| `LimiterWaiting.RejectedUntilReset` | jms-backend-main/src/middleware/rate-limit.middleware.ts:45-71 | after a rejection every further request up to resetTime is rejected, resetTime stays, and a request is admitted exactly when it comes later |
| `LimiterWaiting.RetryAfterGuarantee` | jms-backend-main/src/middleware/rate-limit.middleware.ts:69 | Retry-After is the remaining time rounded up, less than a second above it: waiting it plus 1 ms is always enough, a second less than it never; waiting exactly it is enough if and only if the remaining time was no whole number of seconds, and otherwise answered with Retry-After 0 |
| `LimiterWaiting.ExactWaitRejected` | jms-backend-main/src/middleware/rate-limit.middleware.ts:69 | every limiter with max >= 1 has a run from the empty store in which the exact wait is rejected with Retry-After 0 |
| `LimiterWaiting.ConfiguredExactWaits` | jms-backend-main/src/middleware/rate-limit.middleware.ts:69-90 | with the two exported limiters: a wait of 900 seconds, obeyed exactly, is rejected again |
| `LimiterWaiting.StoreHoldsRecentKeysOnly` | jms-backend-main/src/middleware/rate-limit.middleware.ts:17-24 | with a sweep at most `age` ms ago the stored keys, and so the store's size, are bounded by the keys with a counted request within windowMs + age |
| `Markup.TagMatch` | jms-backend-main/src/middleware/sanitize.middleware.ts:3 | at a `<` the tag pattern matches up to and including the next `>`, or to the end; nowhere else |
| `Markup.TagsRemoved` | jms-backend-main/src/middleware/sanitize.middleware.ts:17 | replacing all tag matches equals the two-state inside/outside scan |
| `Markup.ScriptMatchIsUnique` | jms-backend-main/src/middleware/sanitize.middleware.ts:4 | all ways the script pattern can match at a start end at the first closing tag, and there is one exactly when `<script` and a word boundary are followed by a closing tag somewhere |
| `Markup.ScriptsRemoved` | jms-backend-main/src/middleware/sanitize.middleware.ts:16 | replacing all script matches equals the left-to-right first-close scan |
| `Markup.NoOverlap` | jms-backend-main/src/middleware/sanitize.middleware.ts:4 | a closing tag cannot overlap itself |
| `Markup.ScriptsVanish` | jms-backend-main/src/middleware/sanitize.middleware.ts:16 | script elements between pieces of text free of `<` vanish, the text stays |
| `Markup.ScriptElementGoes` | jms-backend-main/src/middleware/sanitize.middleware.ts:4 | `<script` and `</script>` in any case of their letters: the element goes with its body if the body holds no closing tag and does not start with a letter, a digit or an underscore |
| `Markup.LongerNameIsNoScript` | jms-backend-main/src/middleware/sanitize.middleware.ts:4 | a tag whose name goes on after `<script` opens no script |
| `Markup.ScriptEndInAnyCase` | jms-backend-main/src/middleware/sanitize.middleware.ts:4 | texts that differ in case only have their scripts at the same places |
| `Regex.LiteralEnds` | jms-backend-main/src/middleware/sanitize.middleware.ts:4 | a literal part matches exactly where it occurs, and then ends after it |
| `Regex.OccursExactlyWhen` | jms-backend-main/src/middleware/sanitize.middleware.ts:4 | under the i flag it occurs exactly where the text is the same up to the two cases of the letters A to Z |
| `Regex.RunEnds` | jms-backend-main/src/middleware/sanitize.middleware.ts:3-4 | a negated class under a star prefers the longest run and can give back all of it |
| `Sanitizer.SanitizeValue` | jms-backend-main/src/middleware/sanitize.middleware.ts:9-34 | the recursive walk that fills a record key by key computes the sanitized tree |
| `Sanitizer.StringScanned` | jms-backend-main/src/middleware/sanitize.middleware.ts:14-19 | trim and the two replacements are trim and the two scans; what trim does is the next two rows |
| `Sanitizer.TrimSplits` | jms-backend-main/src/middleware/sanitize.middleware.ts:15 | a string is white space, its trimmed form and white space, and the trimmed form neither starts nor ends with any |
| `Sanitizer.PaddingIsIgnored` | jms-backend-main/src/middleware/sanitize.middleware.ts:14-19 | any white space around a text changes nothing, and the result is that of the two scans on the text itself |
| `Sanitizer.ScriptElementsAreCutOut` | jms-backend-main/src/middleware/sanitize.middleware.ts:14-19 | of a trimmed string made of text and script elements exactly the text remains |
| `Sanitizer.SanitizedLeaves` | jms-backend-main/src/middleware/sanitize.middleware.ts:9-34 | each string leaf is replaced by its sanitized form, which holds no `<` and is a subsequence of the trimmed original; keys, lengths and other leaves are unchanged |
| `Sanitizer.SecondPassTrims` | jms-backend-main/src/middleware/sanitize.middleware.ts:14-19 | a second pass equals trimming each leaf of the first, and a third changes nothing |
| `Sanitizer.KeptIsWhatRemains` | jms-backend-main/src/middleware/sanitize.middleware.ts:14-19 | what the two scans leave are exactly the characters at the input positions outside scripts and tags |
| `Sanitizer.OnePassSufficesExactlyWhen` | jms-backend-main/src/middleware/sanitize.middleware.ts:14-19 | one pass is enough if and only if in no string the input text outside scripts and tags starts or ends with white space |
| `Sanitizer.LeadingTagShieldsWhiteSpace` | jms-backend-main/src/middleware/sanitize.middleware.ts:14-19 | one pass is not always enough: after a leading tag a second pass differs if and only if white space follows the tag |
| `Sanitizer.RemovingOnlyDeletes` | jms-backend-main/src/middleware/sanitize.middleware.ts:16-17 | replacing by nothing only deletes, for every pattern of the modelled kind |
| `Masker.TestKey` | jms-backend-main/src/logger/logger.ts:9 | the key test by regular expression decides sensitivity |
| `Masker.PatternFoundExactlyWhen` | jms-backend-main/src/logger/logger.ts:9 | the pattern is found exactly in the keys in which one of the eight words occurs, up to the two cases of the letters A to Z |
| `Masker.SensitiveInAnyCase` | jms-backend-main/src/logger/logger.ts:9 | keys that differ in case only are both masked or both not |
| `Masker.WordMakesSensitive` | jms-backend-main/src/logger/logger.ts:9 | a listed word in any case, with anything around it, makes a key sensitive |
| `Masker.CompanyFieldsAreMasked` | jms-backend-main/src/logger/logger.ts:9 | unrelated keys are caught too: every key that starts with company, because of pan |
| `Masker.MaskSensitiveData` | jms-backend-main/src/logger/logger.ts:14-42 | the recursive walk that fills a record key by key computes the masked tree |
| `Masker.ValuesUnderKeys` | jms-backend-main/src/logger/logger.ts:27-38 | each entry keeps its key; its value becomes `***MASKED***` if the key is sensitive and is masked in turn otherwise |
| `Masker.AccessTokenIsMasked` | jms-backend-main/src/logger/logger.ts:9 | the value under accessToken is masked |
| `Masker.MaskingHidesExactlyTheSensitive` | jms-backend-main/src/logger/logger.ts:14-42 | two values mask alike if and only if they agree at every path that does not pass a sensitive key |
| `Masker.MaskingTwiceIsMaskingOnce` | jms-backend-main/src/logger/logger.ts:14-42 | masking is idempotent |
| `Masker.MaskingCommutesWithSanitizing` | jms-backend-main/src/logger/logger.ts:27-38 | masking and sanitizing commute on every value |
| `EmployeeSeed.Database.SeedStaff` | jms-backend-main/prisma/seed/master_data.ts:175-242 | the loop over the tables computes the specified run |
| `EmployeeSeed.Database.SeedOne` | jms-backend-main/prisma/seed/master_data.ts:176-241 | one iteration, row by row, is the specified step |
| `EmployeeSeed.Moved` | jms-backend-main/prisma/seed/master_data.ts:191-207 | if there is an open post and it differs, its row keeps id, employee, branch and designation, stops being primary and ends at the clock reading, and one row at the new post is added; otherwise no row changes; other employees keep rows and posts |
| `EmployeeSeed.StepKeepsInv` | jms-backend-main/prisma/seed/master_data.ts:175-242 | every iteration keeps ids distinct and at most one open primary post per employee; a row changes only by being closed as above, at the clock reading of the iteration |
| `EmployeeSeed.RunKeepsInv` | jms-backend-main/prisma/seed/master_data.ts:175-242 | so does every run, each closed row ending at one of its clock readings; rows already closed are never altered |
| `EmployeeSeed.SeedPlacesExactly` | jms-backend-main/prisma/seed/master_data.ts:190-233 | a listed employee ends with exactly one open primary post, the listed one, if and only if newly created or holding an open primary post before |
| `EmployeeSeed.SeedLeavesOneCurrentRow` | jms-backend-main/prisma/seed/master_data.ts:190-233 | seen in the rows: a listed employee ends with exactly one current row, at the listed post, unless the employee existed without any; then there is still none |
| `EmployeeSeed.UnplacedStaysUnplaced` | jms-backend-main/prisma/seed/master_data.ts:190-207 | tables that keep the invariant in which a listed employee holds no open post before the seed and none after it |
| `EmployeeSeed.RunEnrolsTheListed` | jms-backend-main/prisma/seed/master_data.ts:177-233 | listed employees are renamed or created as listed; all others keep their rows |
| `EmployeeSeed.UserIdsExactly` | jms-backend-main/prisma/seed/master_data.ts:88-89 | an e-mail address is known if and only if some user has it, and stands for the last such user |
| `EmployeeSeed.ListedUserIsLinked` | jms-backend-main/prisma/seed/master_data.ts:209-240 | with distinct ids and listings, the user with a listed e-mail address ends linked to the employee with the listed code, and nothing else on the row changes |
| `EmployeeSeed.UnlistedUserUntouched` | jms-backend-main/prisma/seed/master_data.ts:209-240 | users whose e-mail address is not listed keep their link |
| `EmployeeSeed.SeedSettlesEveryone` | jms-backend-main/prisma/seed/master_data.ts:175-242 | after one run each listed employee has the listed name and post, and the listed user is linked |
| `EmployeeSeed.SecondRunAddsNothing` | jms-backend-main/prisma/seed/master_data.ts:175-242 | a second run adds no row; with distinct e-mail addresses it changes nothing |
| `PermissionSeed.Database.UpsertAll` | jms-backend-main/prisma/seed/master_permissions.ts:110-119 | the upsert loop leaves the specified rows and key-to-id map |
| `PermissionSeed.Database.AssignPermissionsToRole` | jms-backend-main/prisma/seed/master_permissions.ts:125-142 | the grant loop for one role computes the specified grants, nothing for an unknown role |
| `PermissionSeed.Database.SeedAll` | jms-backend-main/prisma/seed/master_permissions.ts:110-155 | the whole seed computes the specified tables |
| `PermissionSeed.AssignedRows` | jms-backend-main/prisma/seed/master_permissions.ts:125-149 | the matrix adds exactly the grants it names for roles and permissions that exist, each once |
| `PermissionSeed.AssignmentOrderIrrelevant` | jms-backend-main/prisma/seed/master_permissions.ts:146-155 | any order of the assignment calls leaves the same grants |
| `PermissionSeed.CatalogueExtends` | jms-backend-main/prisma/seed/master_permissions.ts:110-119 | the catalogue keeps the ids and keys of old rows, gives new rows fresh ids, and the map knows the row of each catalogued key |
| `PermissionSeed.UnlistedPermissionUntouched` | jms-backend-main/prisma/seed/master_permissions.ts:112-119 | permissions outside the catalogue stay as they are |
| `PermissionSeed.SeedBringsCatalogueUpToDate` | jms-backend-main/prisma/seed/master_permissions.ts:112-119 | catalogued ones end with the listed texts |
| `PermissionSeed.SeedGrantsExactly` | jms-backend-main/prisma/seed/master_permissions.ts:110-149 | after the seed the grants are the old ones and the wanted ones, without duplicates |
| `PermissionSeed.KeysAfterSeed` | jms-backend-main/src/middleware/authorize.middleware.ts:23-35 | the keys a role is checked against are those it held and those the matrix gives it |
| `PermissionSeed.AccessDecision` | jms-backend-main/src/middleware/authorize.middleware.ts:10-48 | for every user and all tables: unauthorized if and only if there is no user id; OWNER always passes; anyone else passes if and only if for each required key some grant of the role points at a permission with that key, and is forbidden otherwise |
| `PermissionSeed.AccessAfterSeed` | jms-backend-main/src/middleware/authorize.middleware.ts:10-48 | who passes after seeding: whoever holds each required key from before or from the matrix; an accepted request is never refused afterwards |
| `PermissionSeed.SecondRunChangesNothing` | jms-backend-main/prisma/seed/master_permissions.ts:110-149 | the seed is idempotent |
| `PermissionSeed.ManagerAfterSeed` | jms-backend-main/prisma/seed/master_permissions.ts:151-155 | a branch manager gets every catalogued key but those on roles, on permissions and on deleting companies |
| `PermissionSeed.ManagerGainsNoAdministration` | jms-backend-main/prisma/seed/master_permissions.ts:151-155 | no key that starts with `role.`, `permission.` or `company.delete` is added for the manager |
| `PermissionSeed.ManagerGainsTheRest` | jms-backend-main/prisma/seed/master_permissions.ts:151-155 | every other catalogued key is held by the manager afterwards |
| `PermissionSeed.AdministratorsHoldEverything` | jms-backend-main/prisma/seed/master_permissions.ts:144-149 | OWNER, SUPER_ADMIN and ADMIN, where they exist, hold every catalogued key afterwards |
| `PermissionSeed.RoleIdsExactly` | jms-backend-main/prisma/seed/master_permissions.ts:121-123 | a role name is known if and only if some role has it, and stands for the last such role |
| `Pagination.PagesMakeTheResult` | jms-backend-main/src/repositories/company.repository.ts:42-82 | pages 1 to totalPages concatenated are the whole result in order |
| `Pagination.RowIsOnOnePage` | jms-backend-main/src/repositories/company.repository.ts:42-82 | each row is on exactly one page and at its place there |
| `Pagination.PageSizes` | jms-backend-main/src/repositories/company.repository.ts:42-82 | pages before the last are full, the last is nonempty, later ones are empty |
| `Pagination.CompanyListPagesWell` | jms-backend-main/src/repositories/company.repository.ts:42-82 | all of this holds of the company list whatever page and limit are sent |
| `Pagination.SentOrDefault` | jms-backend-main/src/repositories/company.repository.ts:42-43 | a positive page or limit sent is the one used; otherwise page 1 and limit 10, where the approval list takes 20 for absent and zero and keeps negative values |
| `Pagination.ApprovalListPagesExactlyWhen` | jms-backend-main/src/repositories/approval.repository.ts:131-168 | the approval list asks for a page and limit from one up if and only if neither value sent is negative; with a positive limit all of this holds of it |
| `CompressBound.LimitAndOrder` | pgsql/include/zstd.h:231-232 | no accepted size wraps in either width, the limit is the largest size that does not, and the bound is monotone over accepted sizes |
| `CompressBound.WhatTheBoundAdds` | pgsql/include/zstd.h:231-232 | one byte per full 256 and, below 128 KB, one per full 2048 missing: 64 at size 0 and none above 126 KB; 0 in all for sizes not accepted |
| `CompressBound.SplittingExactlyWhen` | pgsql/include/zstd.h:232 | bound(A) + bound(B) <= bound(A+B) for A, B of 128 KB and more, if and only if A + B is accepted or neither A nor B is |
| `CompressBound.ChunksFitExactlyWhen` | pgsql/include/zstd.h:232 | the same for any number of chunks |

## Left out

- The web framework, the database client, headers other than those the limiter reads, logging and error payloads:
  libraries and effects; clock readings and table contents are inputs.
- `sanitizeInput`, which assigns the sanitized copies to the request: property semantics of request objects.
- A clock that runs backwards, for the bounds, the refinement of one key's history and the waiting guarantees; the
  isolation results need only that no sweep overtakes a later request. Resets, for the bounds, the refinement and
  the exactness of that condition.
- A negative `windowMs` or `max`, which no configuration has.
- Values other than JSON values and `undefined`, special keys such as `__proto__`, the ordering of integer-like
  keys, and lone surrogates: a string is a sequence of Unicode scalar values. A character outside the basic
  plane is one character here and two units there; no pattern part tells the two apart.
- Regular-expression features the three patterns do not use, such as captures, lazy quantifiers and anchors.
- The m flag of the tag pattern: without anchors it has no effect.
- Constraint violations and other failures during seeding, concurrent writers, creation and update timestamps,
  and joining dates. `findFirst` without an order is taken to return the first row in table order; the employee
  code is unique per company only, so with codes shared between companies a database could return another row.
- The written-out catalogue, staff list and role key lists: the results hold for every list, the role matrix is a
  parameter except for its first four rows.
- The filters and sort orders of the two lists: paging is over the filtered rows in a fixed total order. What the
  database does with a negative offset or count is not part of this model.
- `requireAdminRole` and the other seeds, routes, controllers and the web client: single branches, constants or
  plumbing.
- The compression algorithms behind the header, and macro arguments of a type narrower than `size_t`.
