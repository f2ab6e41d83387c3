# URL shortener: a verified model of the redirect, link, click, address and credential logic

This project models the core of a FastAPI/PostgreSQL URL shortener in Dafny:

- the redirect decision chain: 404, proxy 403, 401, 410, then the time-of-day window 403s. It appears three times in the program: the redirect service, the URL service and the older inline router.
- link creation and its ordered checks, in the service and in the older function-style table access.
- the link table with its uniqueness constraints, the allow-listed row projections and the two deletes.
- click recording: device classification, the `day`/`week`/`month` period filter, and the SQL aggregations. The aggregations are GROUP BY, COUNT, COUNT DISTINCT, ORDER BY total DESC, the LEFT JOIN on the address table, and the proxy count.
- the conversion of statistics rows into response dictionaries, and the owner check before any statistics are read.
- the address-enrichment cache: look an address up once, store "proxy or hosting", never refresh.
- API keys (one per user; a new key replaces the old one) and user registration and login.

Tables are immutable values: `map`s or `seq`s of row datatypes, with the database's uniqueness constraints kept as `Valid` invariants. Operations are pure functions returning `Result` or `Option`. An uncaught exception becomes `Err(500)`. Everything the code cannot compute is a function-typed parameter:

- password hashing and checking
- the user-agent parser
- the enrichment provider and `float()`
- `urlparse` (which may raise a `ValueError` with a message), `ip_address` and `is_loopback`
- key generation

The clock is a `now` parameter, counted in microseconds. The time of day is `now % 86_400_000_000`, as `datetime.time()` gives for a naive UTC timestamp.

Files: `core.dfy` (shared vocabulary), `text.dfy` (strip, split, digit parsing), `schemas.dfy`, `url_repository.dfy`, `access.dfy` (the decision chain), `url_service.dfy`, `url_database.dfy`, `url_router.dfy`, `ip_table.dfy`, `ip_service.dfy`, `ip_database.dfy`, `click_repository.dfy`, `click_service.dfy`, `statistic_service.dfy`, `redirect_service.dfy`, `api_keys.dfy`, `users.dfy`.

Two details of the code that the model keeps:

- Expiry is strict `expires_at < now`, so a link still resolves at its expiry instant.
- The click insert is awaited in line with the redirect, not run in the background. Its failure is not modelled (see "Left out").

## Model

| member | source | states |
|---|---|---|
| Access.Decide | services/redirect_service.py:49-71 | 404 exactly for a missing row; success exactly when the link admits the caller, and then the answer is the stored URL; proxy blocking wins over every later check; a failing password step gives its own 401; 410 exactly when nothing earlier fails and the expiry has passed; every error is one of the seven chain errors |
| Access.DecideFollowsChecklist | services/url_service.py:31-58 | the chain equals "404 for a missing row, else the first failing check among proxy, password required, password invalid, expired, too early, too late, else the URL", so the precedence is exactly that order |
| Access.ExpiryBoundary | services/redirect_service.py:64-65 | at `now == expires_at` the answer is never 410; one microsecond later it is 410 once the proxy and password steps pass |
| Access.WindowBoundsInclusive | services/redirect_service.py:67-71 | at exactly `valid_from` the answer is not "not yet allowed" and at exactly `valid_until` it is not "closed"; with earlier steps passing, "not yet allowed" iff the time is before the start and "closed" iff after the end; an unset bound imposes nothing |
| Access.PasswordOutcomes | services/redirect_service.py:58-62 | on a protected, non-blocking link: a missing or empty password is 401 "Password required", a rejected one 401 "Invalid password", an accepted one is never a 401 |
| Access.UnflaggedCallerNeverProxyDenied | services/url_service.py:34-35 | with a proxy flag that is `None` or false the proxy 403 never occurs |
| Access.OpenLinkResolves | services/url_service.py:43-58 | a link without password or window, allowing proxies and not past expiry, resolves to its URL for any caller and password |
| RedirectService.Enrich | services/redirect_service.py:30-34 | a loopback caller gets no flag, no id, no lookup and an unchanged address table; otherwise the flag and table are those of `is_proxy` and the id is that of the caller's stored record; it fails (500) exactly for a new remote address the provider cannot answer for |
| RedirectService.ResolveRedirect | services/redirect_service.py:23-75 | enrichment first, and its failure is a 500 with nothing else done; then the answer is the decision chain on the code's row; the link table is never written; on success exactly one click is appended, carrying the link's id, the caller's record id and `now`, and on any failure the click log is unchanged |
| RedirectService.UnknownCodeNotFound | services/redirect_service.py:32-50 | an unknown code is 404 whatever the password when enrichment succeeds and 500 when it fails; a non-loopback caller's address is stored by the time of the 404 |
| RedirectService.LoopbackSkipsEnrichment | services/redirect_service.py:30-34 | a loopback caller causes no lookup, leaves the address table unchanged, is never proxy-denied, and a click it causes has no address id |
| RedirectService.ClickCountMatchesSuccess | services/redirect_service.py:73-75 | the click log grows by one when the answer is the URL and by none otherwise |
| RedirectService.OpenLinkAlwaysResolves | services/redirect_service.py:30-75 | an open, unexpired link resolves for every caller whose enrichment succeeds (loopback, already stored, or answered by the provider) and is 500 for every other caller |
| RedirectService.ClickJoinsCaller | services/redirect_service.py:32-34 | a remote caller's click carries an address id under which the address table holds that caller's own record, so the statistics join counts the click under it |
| RedirectService.ResolveRedirectAsWritten | services/redirect_service.py:30-34 | the as-written half of the `get_ip_id` Findings row: a loopback caller is served as by the corrected service |
| RedirectService.RemoteCallerFailsAsWritten | services/redirect_service.py:30-34 | as written, every non-loopback caller gets 500 with no click, after `is_proxy` has stored the address; for an open link and a stored address the corrected service resolves where the as-written one fails |
| IpService.GetIpId | services/redirect_service.py:34 | the corrected `get_ip_id`: an id exactly when the address is stored, and looking that id up gives back the address's own record |
| UrlService.FetchLink | repositories/url_repository.py:54-64 | with a non-empty list of real columns, the row is absent exactly when the code is, and otherwise it is the stored link |
| UrlService.ResolveRedirect | services/url_service.py:13-58 | the answer is exactly the decision chain on the stored link (404 when none), so a refused caller gets the chain's own 401, 410 or window 403; success iff the link admits the caller, answering its URL; the proxy 403 iff flagged and disallowed |
| UrlService.CreateShortUrl | services/url_service.py:60-89 | 409 "Short code already in use" first, then 409 for a (user, URL) pair the user already has, then 422 for an inverted window; success exactly when none applies, and then the repository insert happens with the arguments unchanged and every earlier link is kept |
| UrlService.CreateKeepsWindowsWellFormed | services/url_service.py:76-79 | creation never stores a window whose start is not before its end |
| UrlService.CreateTwiceRefused | services/url_service.py:70-75 | repeating a successful creation is refused with 409 for the taken code |
| UrlService.CreateThenResolveOpen | services/url_service.py:60-89 | an open link just created resolves to its URL throughout its 30-day lifetime |
| UrlService.StoredPassword | routers/url.py:22 | a password is stored as its hash when given and as `None` otherwise |
| UrlService.CreateShortUrlHashed | services/url_service.py:60-89 | the corrected half of the Findings row: the service's own checks in its own order (code 409, duplicate 409, window 422), errors identical to `create_short_url`, and on success the new link stores the hash of the password as routers/url.py:22 does, with the given URL, window, proxy setting and 30-day expiry |
| UrlService.HashedPasswordRoundTrip | routers/url.py:22 | with hashing, the owner's non-empty password opens the link at any instant of its lifetime inside its window, for any caller it does not block |
| UrlService.PlainPasswordRefused | services/url_service.py:81-89 | as written, whenever the checker does not accept a password against itself, the owner's own password is refused with 401 "Invalid password" |
| UrlService.PlainPasswordCounterexample | services/url_service.py:81-89 | the concrete case: hash `"h:" + p`, password "pw"; the as-written path refuses "pw" and the hashed path accepts it |
| UrlRepository.EmptyValid | database/tables.py:30-41 | the empty table satisfies the unique short code and unique (user, URL) constraints |
| UrlRepository.ShortcodeExists | repositories/url_repository.py:11-15 | true iff some stored link has that code |
| UrlRepository.FetchByUserId | repositories/url_repository.py:66-74 | exactly the user's links: each returned link is stored and owned by the user, and every link the user owns is returned |
| UrlRepository.ExistsByUserAndUrl | repositories/url_repository.py:17-23 | true iff one of the user's links has exactly that URL |
| UrlRepository.Add | repositories/url_repository.py:25-52 | the insert succeeds iff the code and the (user, URL) pair are both new; then exactly one link is added under a fresh id, with the given fields and the 30-day default expiry, `shortcode_exists` holds for it and every other link is kept; otherwise a 500 with nothing changed |
| UrlRepository.InsertValid | database/tables.py:30-41 | inserting a link with a fresh code, fresh id and new (user, URL) pair keeps the table's constraints |
| UrlRepository.FetchrowByShortcode | repositories/url_repository.py:54-64 | `None` for an empty field list; a 500 when a requested name is not a column; otherwise `None` iff the code is absent, else exactly the requested columns of that link |
| UrlRepository.DeleteByUserId | repositories/url_repository.py:76-79 | removes exactly the user's links, keeps every other link unchanged, and returns their number as read back from the `DELETE n` tag |
| UrlRepository.DeleteByShortcode | repositories/url_repository.py:81-83 | the code is gone afterwards and every other link is kept unchanged |
| UrlRepository.DeleteByUserIdKeepsOthers | repositories/url_repository.py:76-79 | another user's links are exactly as before |
| Text.Strip | database/urls.py:40 | `str.strip()`: the result is a slice of the input, only whitespace was cut from each end, and the result neither starts nor ends with whitespace |
| Text.StripIdempotent | database/urls.py:40 | stripping twice is stripping once |
| Text.JoinSplit | repositories/url_repository.py:79 | splitting on a separator and joining back gives the input |
| Text.ParseNatToString | repositories/url_repository.py:79 | `int()` of the decimal digits of `n` is `n` |
| Text.ParseRowCount | repositories/url_repository.py:79 | a parsed count is the integer whose digits form the second space-separated word |
| Text.DeleteTagRoundTrip | repositories/url_repository.py:79 | the count read back from the tag `DELETE n` is `n` |
| Schemas.ValidateShortCode | dto/schemas.py:20-22 | accepted iff the length is 3 to 16 and every character is in `[a-zA-Z0-9_-]`; an accepted code is returned unchanged, and a rejected one is 422 |
| Schemas.ParseUrlAddReq | dto/schemas.py:18-27 | valid iff a URL passing the URL check and a valid short code are present; password, window and expiry keep what was sent (`None` when missing); `allow_proxy` defaults to true |
| Schemas.ParseUrlUpdateReq | dto/schemas.py:30-40 | nothing is required; a present URL must pass the URL check and a present short code the creation constraint; a valid body is kept as sent |
| UrlDatabase.ValidateUrl | database/urls.py:36-40 | accepted iff the URL parses with scheme `http` or `https` and a non-empty host part; otherwise 400 with the parser's `ValueError` message when it cannot parse, else "Invalid URL format"; the accepted value is the stripped URL, already in stripped form |
| UrlDatabase.UrlAdd | database/urls.py:43-96 | 409 for a taken code, then 400 for an invalid URL with the validator's or the parser's message, then 422 for an inverted window, then 409 when the user already has the stripped URL, else 201 with one link added, holding the stripped URL and the given fields; the table changes only on 201 |
| UrlDatabase.WhitespaceVariantIsDuplicate | database/urls.py:56-70 | once a URL is stored, any variant differing only in surrounding whitespace is refused for that user as a duplicate |
| UrlDatabase.UrlFetchrow | database/urls.py:18-33 | present iff some requested name is a column and the code exists; names that are not columns are dropped silently; the row holds exactly the surviving columns of the link |
| UrlRouter.Add | routers/url.py:16-29 | the result is `url_add`'s with the password hashed when given; a non-201 status becomes an error with that status and message and leaves the table unchanged; 201 gives "URL added successfully" |
| UrlRouter.ProxyFlag | routers/url.py:42-46 | a loopback caller is not looked at; otherwise `ip_add` followed by `ip_fetchrow(ip, "is_proxy")` yields the same flag, table and request count as the service's `is_proxy` |
| UrlRouter.Redirect | routers/url.py:32-81 | 400 "Missing client IP" for an absent or empty host and 400 "Invalid IP address" for one that does not parse, both before any lookup; then the caller's flag, and the answer is the decision chain on the code's row; no click is recorded |
| UrlRouter.RouterAgreesWithService | routers/url.py:32-81 | for a host that parses, the inline redirect and the redirect service give the same answer, the same address table and the same number of lookups |
| UrlRouter.AddedLink | routers/url.py:16-29 | a successful `add` stores the link under its code with the hashed password, the given window and proxy setting, and the default expiry |
| UrlRouter.AddedPasswordOpensLink | routers/url.py:16-81 | on this path the owner's non-empty password opens the link they have just created, within its lifetime |
| IpTable.Find | database/tables.py:7-18 | the record of an address exists iff the address is stored, and it is that stored record |
| IpTable.FindById | repositories/click_repository.py:51 | the LEFT JOIN partner: a stored record with that id, found whenever one exists; none for a click without an address id |
| IpTable.ParseCoordinates | services/ip_service.py:41-45 | both coordinates are present iff both parse, and then they are the parsed values; otherwise both are absent |
| IpTable.Enrich | services/ip_service.py:47-57 | the stored proxy flag is "proxy or hosting", the place and provider fields are copied from the reply, and the coordinates are both present or both absent |
| IpTable.Add | database/tables.py:7-18 | succeeds iff the address is new (a 500 otherwise); the record is appended under a fresh id |
| IpTable.Remove | database/ips.py:38-41 | the address is gone afterwards and every other address keeps its record |
| IpService.EnsureIp | services/ip_service.py:12-28 | a stored address means nothing changes and nothing is fetched; otherwise one fetch, a 500 if it fails, else exactly one record appended, built from the reply |
| IpService.IsProxy | services/ip_service.py:30-33 | after `ensure_ip`, the stored flag of the address: the old flag, with no lookup, for a known address; "proxy or hosting" from the single lookup for a new one |
| IpService.EnsureIpIdempotent | services/ip_service.py:12-14 | a second `ensure_ip` changes nothing and fetches nothing, whatever the provider would answer |
| IpService.ProxyFlagNeverRefreshed | services/ip_service.py:30-33 | after one successful `is_proxy`, later calls answer the same flag without a lookup, whatever the provider would answer now |
| IpDatabase.IpExists | database/ips.py:12-18 | true iff a record with that address is stored |
| IpDatabase.IpAdd | database/ips.py:44-87 | nothing happens, with no lookup, for a stored address; otherwise one lookup, and on success one new record whose flag is "proxy or hosting" |
| IpDatabase.IpFetchrow | database/ips.py:21-35 | `None` with nothing fetched for an empty field list; otherwise the address is added first, the call fails exactly when that does, and the row holds exactly the surviving columns of the address's record |
| IpDatabase.UnknownFieldsGiveEmptyRow | database/ips.py:27-35 | when no requested name is a column, the select list is empty and the answer is the empty row, with the address stored |
| IpDatabase.IpDelete | database/ips.py:38-41 | only that address's record is removed |
| ClickRepository.Add | repositories/click_repository.py:11-27 | exactly one click is appended, with the given fields, and the earlier clicks are unchanged |
| ClickRepository.Select | repositories/click_repository.py:37 | a click is kept iff it belongs to the link and, when `since` is set, is at or after `since` |
| ClickRepository.SelectNarrower | repositories/click_repository.py:37 | a later `since`, or any `since` compared with none, keeps no more clicks |
| ClickRepository.IpSet | repositories/click_repository.py:35 | COUNT(DISTINCT ip): exactly the non-null addresses present, never more of them than rows |
| ClickRepository.Keys | repositories/click_repository.py:38 | the GROUP BY keys: each value present exactly once |
| ClickRepository.SortByTotal | repositories/click_repository.py:39 | ORDER BY total DESC: the result is sorted by total, largest first, and is a permutation of its input |
| ClickRepository.GroupStats | repositories/click_repository.py:35-39 | one row per distinct key present, sorted by total descending; each row's total is the count of its key and its unique count the number of distinct addresses among them, never more than the total; the totals sum to the number of rows grouped |
| ClickRepository.TotalsSumToCount | repositories/click_repository.py:35-38 | the per-group totals add up to the number of clicks grouped |
| ClickRepository.GetFieldStats | repositories/click_repository.py:29-43 | over the link's clicks in the period: sorted, distinct keys, totals summing to the filtered count, per-row total and unique as COUNT and COUNT DISTINCT, and the keys are exactly the column values present, null included |
| ClickRepository.GetCountriesStats | repositories/click_repository.py:45-58 | as above, grouped by the joined record's country: sorted, distinct keys, totals summing to the filtered count, per-row COUNT and COUNT DISTINCT, and the keys are exactly the countries the period's clicks join to (null for a click without a record or country) |
| ClickRepository.GetGuestsStats | repositories/click_repository.py:60-76 | always exactly one row: total is the filtered count, unique the distinct addresses, proxy the distinct addresses whose record is flagged, and `proxy <= unique <= total` |
| ClickRepository.AddClickGuestEffect | repositories/click_repository.py:11-27 | appending a click of the link raises the guest total by one and the unique count by one iff its address was not yet counted |
| ClickService.DeviceClass | services/click_service.py:18-26 | mobile, then tablet, then pc, then bot, giving "phone", "tablet", "computer", "bot", and `None` exactly when none applies |
| ClickService.FamilyOrNull | services/click_service.py:16-17 | an empty family is stored as `None`; any other is kept |
| ClickService.InsertClick | services/click_service.py:13-34 | one click appended, with the link id, the address id, the parsed browser and OS (or `None`), the device class and `now` |
| ClickService.InsertedClickColumns | services/click_service.py:16-26 | an inserted click never holds an empty browser or OS, and its device is absent or one of the four classes |
| ClickService.ResolveSince | services/click_service.py:36-44 | "day", "week" and "month" give now minus 1, 7 and 30 days; anything else gives no bound; a bound is always in the past |
| ClickService.PeriodsNested | services/click_service.py:36-44 | day counts at most as many clicks as week, week at most as month, month at most as no period |
| ClickService.Label | services/click_service.py:55 | `value or "unknown"`: a non-empty value is its own label, and null or empty becomes "unknown" |
| ClickService.LabelsApart | services/click_service.py:55 | distinct non-null keys that are not empty and not literally "unknown" get distinct labels |
| ClickService.ToDict | services/click_service.py:54-57 | every row's label is a key; every key comes from some row and maps to that row's totals; every row that no later row shares a label with has its own totals under its label, so the later row always wins |
| ClickService.ToDictKeepsEveryRow | services/click_service.py:54-57 | with distinct keys that cannot collide under labelling, every row keeps its own entry and the dictionary has one entry per row |
| ClickService.DictOfGroups | services/click_service.py:54-57 | the comprehension over the grouping query's rows (one row per occurring key, holding COUNT and COUNT DISTINCT) is the grouped dictionary `GroupedDict`: every observed label present, each entry a group's counts, an unshared label its own group's counts |
| ClickService.UnknownGroupsCollide | services/click_service.py:54-57 | the null group and the empty-string group both become "unknown", and the later row overwrites the earlier |
| ClickService.FieldStatsDict | services/click_service.py:46-57 | `GroupedDict` over the period's clicks and the column: the label of every clicked value is present; every entry holds the COUNT and COUNT DISTINCT of a group with its label; a label other than "unknown" holds exactly its own value's counts; unique never exceeds total |
| ClickService.CountriesStatsDict | services/click_service.py:59-66 | `GroupedDict` over the period's clicks by joined country (labels exactly those of the countries present, each country's own counts, "unknown" holding one of the groups that share it); a click without an address record makes "unknown" appear |
| ClickService.GuestsDict | services/click_service.py:71 | no row gives the empty dictionary; a row gives its three counts |
| ClickService.GuestsStatsDict | services/click_service.py:68-71 | exactly the keys total, unique and proxy: total the period's clicks, unique their distinct callers, proxy their distinct callers whose record is flagged, so `0 <= proxy <= unique <= total` |
| StatisticService.ResolveUrlId | services/statistic_service.py:13-24 | 404 "Short code not found" for an unknown code, 403 for another user's link, and the link's id exactly for its owner |
| StatisticService.FieldStatistics | services/statistic_service.py:26-42 | answered exactly for the owner (404 or 403 otherwise), and the answer is the `GroupedDict` of that link's clicks in the period by the column: labels exactly those of the values present, values their COUNT and COUNT DISTINCT |
| StatisticService.CountriesStatistics | services/statistic_service.py:44-48 | answered exactly for the owner (404 or 403 otherwise), and the answer is the `GroupedDict` of that link's clicks in the period by joined country |
| StatisticService.GuestsStatistics | services/statistic_service.py:50-54 | answered exactly for the owner (404 or 403 otherwise); total is that link's clicks in the period, unique their distinct callers, proxy the distinct flagged callers, and `proxy <= unique <= total` |
| StatisticService.OthersSeeNoStatistics | services/statistic_service.py:19-23 | every statistics call on another user's link is 403 |
| ApiKeyRepository.ExistsById | repositories/apikey_repository.py:10-14 | true iff the user has a key row, active or not |
| ApiKeyRepository.Validate | repositories/apikey_repository.py:16-21 | an owner is answered iff an active row holds the hashed key, and it is that row's owner |
| ApiKeyRepository.ValidateNamesHolder | repositories/apikey_repository.py:16-21 | since keys are unique, the answer for an active row's key is exactly that row's owner |
| ApiKeyRepository.Upsert | repositories/apikey_repository.py:23-39 | fails, changing nothing, iff another user holds the key; otherwise the user has exactly one row, holding the new key and active, and every other user's row is kept |
| ApiKeyRepository.UpsertThenValidate | repositories/apikey_repository.py:16-39 | after `upsert(u, k)`, `validate(k)` answers `u` |
| ApiKeyRepository.ReplacedKeyRevoked | repositories/apikey_repository.py:31-35 | after a second upsert with a different key, the old key validates for nobody |
| ApiKeyService.GenerateAkey | services/apikey_service.py:10-13 | hands out the plain half of the generated pair, and the stored hashed half validates for the user |
| ApiKeyService.ValidateAkey | services/apikey_service.py:15-19 | the owner of the active row holding the key's hash; 401 "Invalid or expired api-key" when there is none or the owner id is 0 |
| ApiKeyService.HasAkey | services/apikey_service.py:21-22 | true iff the user has a key row |
| ApiKeyService.GeneratedKeyValidates | services/apikey_service.py:10-19 | the plain key handed out validates as the user, and after regeneration the earlier key fails with 401 |
| UserService.ExistsByEmail | repositories/user_repository.py:10-14 | the row scan answers true iff some stored user has that address |
| UserService.GetPasswordByEmail | repositories/user_repository.py:16-20 | none iff no user has the address; otherwise that user's id and stored hash |
| UserService.Register | services/user_service.py:11-15 | 409 with nothing added for a known address; otherwise exactly one user appended with a fresh id and the hashed password, and that id is returned |
| UserService.Login | services/user_service.py:17-23 | 404 iff the address is unknown, 401 iff the password does not match the stored hash, and otherwise the id of the user with that address |
| UserService.RegisterThenLogin | services/user_service.py:11-23 | the password just registered logs in as the new user, and registering the address again is 409 |

## Left out

- HTTP wiring is not modelled: routers/url_router.py, routers/statistic_router.py, routers/redirect_router.py, routers/auth_router.py and main.py. They only route requests and turn service errors into responses.
- The older authentication helpers are not modelled: database/users.py, database/api_keys.py, routers/auth.py and utils/security.py. They repeat the service logic and call functions defined nowhere in the repository.
- Table creation and connection pooling (database/tables.py, database/base.py) are left out. The model keeps only the uniqueness constraints, as the `Valid` invariants.
- UrlDatabase.UrlFetchrow, UrlDatabase.UrlAdd, IpDatabase.IpFetchrow, IpDatabase.IpAdd and the UrlRouter members: database/tables.py defines no `get_fields`, so database/ips.py and database/urls.py, and routers/url.py which imports them, fail at import. The model describes these modules as if `get_fields` returned the table's column list.
- The clicks table as created has no browser, device or OS column, although the click repository writes them. The model takes the repository's view of the table.
- The enrichment provider, coordinate parsing (`float()`), `user_agents.parse`, `urlparse`, `ip_address`, `is_loopback`, password hashing and checking, and API-key generation are function parameters. Nothing is assumed about them.
- UrlRepository.FetchrowByShortcode: the requested names are spliced into the SQL text unquoted, so PostgreSQL would also accept `*`, upper-case spellings such as `ID`, and several columns in one string such as `id, user_id`. The model takes each name to be an exact lower-case column identifier, as every caller passes, and treats any other name as a failed query.
- Coordinates are `real`s. Floating-point rounding and the column's `NUMERIC(10,7)` precision are not modelled.
- Column widths (`VARCHAR(n)`) are not enforced.
- Concurrent requests and the races between an existence check and an insert are not modelled: the model is sequential.
- The debug prints in the URL service are not modelled.
- `str()` of a validated `HttpUrl` may normalise the URL (for example by adding a trailing slash). `UrlRouter.Add` takes the URL string as given.
- UrlRouter.Redirect: `ip_fetchrow` returning a row whose `is_proxy` is not a boolean is not modelled, because the column is declared `BOOLEAN` and always written from a boolean.
- The `expires_at` field of a creation request is never passed to the table by the code, so every link gets the 30-day column default and the field has no effect in the model.
- UrlRepository.Add, ClickRepository.Add, ClickService.InsertClick, UrlDatabase.UrlAdd, UrlRouter.AddedLink and UrlService.CreateThenResolveOpen: the database fills `expires_at` (database/tables.py:36) and `clicked_at` (database/tables.py:47) from `CURRENT_TIMESTAMP`, in the session's time zone and at the start of the transaction, while every check compares against `datetime.utcnow()`. The model uses one clock `now` for both, so `expiresAt == now + 30 days` and `clickedAt == now` assume a UTC session and a statement that runs at the instant of the check.
- RedirectService.ResolveRedirect: `clicks.ip` is `INTEGER NOT NULL REFERENCES ip_addresses(id)` (database/tables.py:49), so the click insert for a loopback caller, whose address id is `None`, fails in the database and the redirect ends in a 500. The model's insert cannot fail, and the loopback caller is redirected with a click whose address id is `None`. RedirectService.LoopbackSkipsEnrichment and RedirectService.OpenLinkAlwaysResolves inherit this.
- UrlRepository.DeleteByUserId and UrlRepository.DeleteByShortcode: deleting a link that has clicks violates `clicks.url_id REFERENCES urls(id)` (database/tables.py:46) and fails in the database. The model keeps only the uniqueness constraints, so these deletes always succeed.
- IpDatabase.IpDelete and IpTable.Remove: deleting an address that clicks refer to violates `clicks.ip REFERENCES ip_addresses(id)` and fails in the database. The model's delete always succeeds.
- Behaviour that the model reproduces, not a defect claimed here: the statistics dictionaries label null and empty groups "unknown", so those two groups (and a real value "unknown") share one entry and the later row wins (`ClickService.UnknownGroupsCollide`). Likewise `validate_akey` treats an owner id of 0 as invalid, although database ids start at 1.

## Findings

| source | as written | input that shows it | evidently intended | confidence | as-written member | corrected member |
|---|---|---|---|---|---|---|
| services/url_service.py:81-89 | `create_short_url` stores the password exactly as received. Every resolver checks a password with `verify_hash(password, stored)`, and the other creation path (routers/url.py:22) and user registration (services/user_service.py:15) both store `get_hash(password)`. | Create a link with password "pw", then resolve it with "pw". With the hash `"h:" + p` and a checker that compares against that hash, the stored "pw" is not the hash of "pw", so the owner gets 401 "Invalid password". | store `get_hash(password)` when a password is given, so the owner's password opens the link | medium, not executed (config's hash functions are not part of this model) | UrlService.PlainPasswordCounterexample | UrlService.HashedPasswordRoundTrip |
| services/redirect_service.py:32-34 | `resolve_redirect` calls `self.ip_service.get_ip_id(ip_address)`, but the address service (services/ip_service.py:8-57) has no such method, so the attribute lookup raises after `is_proxy` has run. | Any non-loopback caller, for example a stored address resolving an open, unexpired link: the answer is 500 and no click is recorded. | look up the `id` of the caller's stored address record, so the click is recorded against it | high, not executed | RedirectService.RemoteCallerFailsAsWritten | RedirectService.ClickJoinsCaller |
