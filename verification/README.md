# Sitemap Monitor — a Dafny model of its crawl core

Sitemap Monitor watches a list of web sites for newly indexed pages. Each
site (a name, a normalised domain and a crawl interval code) is crawled by asking the Google Custom Search API for
`site:<domain> after:<date>`. The API answers in pages of ten results, and the
client pages through them. Result links not yet on file become unread pages.
The site's status then records the attempt: `active` with `lastCrawledAt` set
on success, or `error` with a message.

A background scheduler checks every minute which active sites are due. Its
interval table knows `12h`, `1d` and `1w`, and any other code is meant to
fall back to one day. A
manual crawl endpoint crawls one site with a chosen date range. As written
it records only successes: on a failed crawl its error handler throws before
writing the error status (see "## Findings"). The model's main version of
the endpoint is the corrected one, which records failures as the scheduler
does.
The HTTP handlers list pages (filter, newest first, offset/limit window,
total and unread counts), mark pages read, create sites and store the API
credentials as settings. A small UI filter selects generated media items by
tab and two toggles.

The model keeps the database as an immutable `Store` (sequences of sites,
pages and setting rows). Every handler is a pure function from the store and
the request to a new store and a response. The search provider is a function
argument, and so are the clock (`now`, milliseconds) and the date formatter.

Modules, one per source component:

- `Common`: `Option`, JavaScript truthiness of optional strings, and `||` on them.
- `Text`: ASCII lower-casing, prefixes and substring search.
- `Seqs`: `Array.prototype.filter` and the subsequence relation.
- `Records`: the sites, pages and settings tables, plus the store invariant `Valid`:
  - unique site ids and domains;
  - unique (site, URL) pages;
  - unique setting keys;
  - every page belongs to a site.
- `Settings`: the settings handlers and the `findUnique` lookup the crawlers use.
- `GoogleSearch`: the date cutoff, the query string and the pagination loop. The loop is written twice: as the recursive function `Collect` and as the imperative method `SearchForSite`, which is proved equal to it.
- `Dedup`: filtering out known links and inserting the new pages; both crawl paths share it.
- `Crawl`: credential resolution and one crawl attempt with its status write.
- `Scheduler`: the interval table, the due test, one tick over all sites, and the start guard.
- `CrawlRoute`, `SitesRoute`, `PagesRoute`, `ReadAllRoute`: the HTTP handlers.
- `ResultsPanel`: the media-item filter.

Two facts about the code that a reader might not expect:

- Domain normalisation is not idempotent. The code strips the scheme before lower-casing, and its pattern is case-sensitive. So `HTTPS://Example.com/` is stored as `https://example.com`, and normalising that again gives `example.com` (`SitesRoute.UpperCaseSchemeNotIdempotent`, on a shorter input of the same shape).
- The create handler stores any non-empty interval string it is given, not only the three codes of the scheduler's table.

Three defects are listed under "## Findings". For each, the model keeps a member that behaves as the code is written and shows the defect. The rest of the model uses the corrected member:

- `Scheduler.Tick` and `Scheduler.IsDue` use the corrected interval lookup `Scheduler.IntervalToMs`.
- The settings GET map is `Settings.AsMap`.
- The crawl endpoint is `CrawlRoute.Post`, which writes the error status on a failed crawl.

## Model

| member | source | states |
|---|---|---|
| Common.Or | src/lib/scheduler.ts:25-26 | `a \|\| b` on optional strings: truthy iff either side is; it is `a` when `a` is truthy and falls back to `b`, as it is, otherwise |
| Text.Contains | src/app/api/pages/route.ts:27-28 | definition: a recursive substring test; pinned by ContainsIffOccurs |
| Text.ContainsIffOccurs | src/app/api/pages/route.ts:25-30 | substring test: true iff the needle occurs at some position of the haystack |
| Seqs.Filter | src/components/reelmate/GenerationResultsPanel.tsx:32-37 | `filter`: an order-preserving subsequence holding exactly the elements that pass the test |
| Seqs.FilterSnoc | src/lib/scheduler.ts:104-115 | filtering distributes over appending one element, which is how a loop over sites builds the list of those it visits |
| Seqs.FilterMultiset | src/app/api/pages/route.ts:48 | each passing element is kept as often as it occurs, and a failing one not at all |
| Seqs.FilterMonotone | src/app/api/pages/route.ts:52-54 | a weaker test keeps at least as many elements |
| Records.FindSite | src/app/api/crawl/route.ts:19-25 | `findUnique` by id: found iff the id is in the table, and the row found has that id |
| Settings.Lookup | src/lib/scheduler.ts:18-23 | a setting is found iff its key is stored, and the row `(key, value)` is in the table |
| Settings.AsMap | src/app/api/settings/route.ts:7-14 | the map GET is meant to return (corrected, see Findings) has exactly the stored keys |
| Settings.AsMapHoldsRows | src/app/api/settings/route.ts:7-14 | with unique keys, every row's value is what that map holds for its key |
| Settings.LookupAgreesWithGet | src/app/api/settings/route.ts:7-12 | the crawlers' per-key lookup and that map agree on every key |
| Settings.GetReplyAsWritten | src/app/api/settings/route.ts:8-14 | the reply the handler actually builds has every stored key except `__proto__`, each with the map's value |
| Settings.ProtoSettingHidden | src/app/api/settings/route.ts:8-12 | a setting PUT under `__proto__` is stored and found by key lookup, but is missing from the reply as written |
| Settings.StringEntries | src/app/api/settings/route.ts:30-31 | the keys written by PUT are exactly the keys of the body entries with string values |
| Settings.StringEntriesHoldEntries | src/app/api/settings/route.ts:30-31 | with distinct body keys, every string entry's value is the one written for its key |
| Settings.Upsert | src/app/api/settings/route.ts:32-36 | upsert keeps keys unique, adds the key, and changes the map at that key only |
| Settings.Put | src/app/api/settings/route.ts:27-38 | the stored map after PUT is the old map overridden by the body's string entries |
| Settings.PutIgnoresNonStrings | src/app/api/settings/route.ts:30-31 | entries with non-string values have no effect at all |
| Settings.PutStoresStrings | src/app/api/settings/route.ts:30-38 | every string entry is stored, and every key outside the body keeps its value |
| Settings.PutTwice | src/app/api/settings/route.ts:30-38 | repeating the same PUT changes nothing further |
| GoogleSearch.DaysAgo | src/lib/google-search.ts:20-37 | the range table: 1d→1, 1w→7, 2w→14, 1m→30, anything else→7 days |
| GoogleSearch.CutoffBounds | src/lib/google-search.ts:39 | the cutoff lies 1 to 30 days before now, and an unknown code behaves like "1w" |
| GoogleSearch.QueryDeterminesParts | src/lib/google-search.ts:56-57 | for space-free domains the query string determines both the domain and the date |
| GoogleSearch.CutoffMs | src/lib/google-search.ts:39 | definition: `now` minus the range's days; pinned by CutoffBounds |
| GoogleSearch.Query | src/lib/google-search.ts:56-57 | definition: `site:<domain> after:<date>`; pinned by QueryDeterminesParts |
| GoogleSearch.Collect | src/lib/google-search.ts:59-100 | definition: the pagination loop as a recursion on the start offset; pinned by CollectOffsets, CollectContinuesOnFullPages, CollectFailsOnProviderError and CollectFoundConcatenates |
| GoogleSearch.CollectOffsets | src/lib/google-search.ts:59-100 | the requested offsets are 1, 11, 21, … (from the start offset), never above 100, and at least one request is made |
| GoogleSearch.CollectContinuesOnFullPages | src/lib/google-search.ts:79-95 | the loop only moves on after a full page: every page requested before the last one held 10 items |
| GoogleSearch.CollectFailsOnProviderError | src/lib/google-search.ts:75-98 | a failure is the provider error of the last page requested, passed on verbatim; the items gathered before it are dropped |
| GoogleSearch.CollectFoundConcatenates | src/lib/google-search.ts:79-95 | the results are the concatenation of every requested page's items, in order, without deduplication; the loop stopped on a short or empty last page or at the cap |
| GoogleSearch.AtMostHundredResults | src/lib/google-search.ts:60-63 | with pages of at most 10 items, at most 100 results come back |
| GoogleSearch.FullPagesStopAtCap | src/lib/google-search.ts:60-95 | a provider that always serves full pages is asked ten times (offsets 1 … 91) and yields 100 results |
| GoogleSearch.Search | src/lib/google-search.ts:43-103 | missing credentials fail before any request. Otherwise the query `site:<domain> after:<cutoff>` is sent with the resolved key and engine, 1 to 10 times at offsets 1 + 10k, and every page before the last held 10 items, so it stops at the first short page; a success is every requested page's items in order, ending on a short page or at the cap; a failure is the last page's provider error |
| GoogleSearch.SearchForSite | src/lib/google-search.ts:43-103 | the imperative client returns the same outcome and offsets as the recursive definition |
| GoogleSearch.Paginate | src/lib/google-search.ts:63-100 | the imperative loop stops exactly where the recursive pagination stops, with the same results and offsets |
| Dedup.NewResults | src/lib/scheduler.ts:37-47 | the kept results are, in order, exactly those whose link is not already on file for the site |
| Dedup.InsertOne | src/lib/scheduler.ts:52-64 | definition: one create, skipped when the (site, URL) pair exists; pinned by InsertOneUnique and InsertAllAppendsFresh |
| Dedup.InsertAll | src/lib/scheduler.ts:49-66 | existing pages are kept as a prefix; each added page is unread, belongs to the site and is discovered now |
| Dedup.InsertAllUrls | src/lib/scheduler.ts:49-66 | afterwards the site's URLs are the old ones plus the inserted links |
| Dedup.InsertAllUnique | src/lib/scheduler.ts:51-65 | a create that would duplicate a (site, URL) pair is skipped, so pages stay unique |
| Dedup.Ingest | src/lib/scheduler.ts:37-66 | the new-page count is at most the result count; existing pages are untouched; the URL set becomes old ∪ fetched links |
| Dedup.Fresh | src/lib/scheduler.ts:46-66 | the results that a run of inserts actually adds are results whose link is not known |
| Dedup.FreshLinks | src/lib/scheduler.ts:49-66 | those results carry every new link of the batch, each exactly once |
| Dedup.InsertAllAppendsFresh | src/lib/scheduler.ts:49-66 | inserting the results in order appends one page per first occurrence of a new link, in result order; repeats and known links are skipped |
| Dedup.FreshSkipsKnown | src/lib/scheduler.ts:47-65 | removing already-known links first does not change which pages get added |
| Dedup.FreshOfDistinct | src/lib/scheduler.ts:47-65 | when the batch has no repeated link, the pages added are exactly the unseen results |
| Dedup.IngestInsertsExactlyFresh | src/lib/scheduler.ts:37-66 | ingest appends one page per first occurrence of each unseen link, in result order, and reports the number of unseen results; with distinct links these are the same list |
| Dedup.IngestTwice | src/lib/scheduler.ts:37-66 | ingesting the same results again inserts nothing and counts zero |
| Crawl.ResolveCredentials | src/lib/scheduler.ts:18-31 | credentials resolve iff each of key and engine id is a non-empty stored setting or environment value; the stored one wins |
| Crawl.Apply | src/lib/scheduler.ts:69-91 | success sets active, now and no message; failure sets error and the message and keeps `lastCrawledAt`; nothing else changes |
| Crawl.WriteStatus | src/lib/scheduler.ts:69-91 | rows with another id are unchanged, ids and domains are kept, and looking the id up afterwards finds the found row with the status written (or nothing, when the id is absent) |
| Crawl.WriteStatusKeepsKeys | src/lib/scheduler.ts:69-91 | a status write keeps the id set and the uniqueness of ids and domains |
| Crawl.RunCrawl | src/lib/scheduler.ts:33-91 | a crawl succeeds iff the search does. Success reports the result count and, as the new-page count, the number of results whose link was not on file; it appends exactly one page per first occurrence of a link not yet on file, in result order, each unread, discovered now and carrying that result's link and title; it adds the found links to the site's URLs and writes an active status. Failure leaves pages alone and records the search's error. Settings never change; the store stays valid |
| Crawl.StatusAfter | src/lib/scheduler.ts:69-91 | the status write that follows a search: success at now exactly when it found results, else a failure carrying the search's error message |
| Crawl.PagesAfter | src/lib/scheduler.ts:47-65 | the pages a crawl appends: each belongs to the site, is unread, is discovered now, has a link not yet on file and is the page made from one of the results; links are distinct, and a failed search appends none |
| Crawl.RunCrawlEffect | src/lib/scheduler.ts:33-91 | both outcomes at once: the site gets the status write that follows its search, exactly the pages created for its new links are appended, and its URLs grow by exactly the links found |
| Crawl.WriteStatusAt | src/lib/scheduler.ts:69-76 | with unique ids, the update by id rewrites exactly the row that carries the id |
| Records.FindSiteAt | src/lib/scheduler.ts:69-70 | with unique ids, looking up a row's own id finds that row |
| Records.UrlsOfOthers | src/lib/scheduler.ts:53-61 | pages created for one site leave every other site's URL set unchanged |
| Scheduler.IntervalToMs | src/lib/scheduler.ts:6-10 | 12h→43 200 000 ms, 1d→86 400 000, 1w→604 800 000, and any other code→one day |
| Scheduler.NeverCrawledDue | src/lib/scheduler.ts:108-114 | a never-crawled site is due exactly once `now` reaches its interval |
| Scheduler.DueAgainAfterInterval | src/lib/scheduler.ts:108-114 | after a success at t the site is due exactly from t + interval, and stays due as time passes |
| Scheduler.FailedSiteNotCandidate | src/lib/scheduler.ts:102-104 | a site whose crawl failed is in error and no tick selects it |
| Scheduler.IsDue | src/lib/scheduler.ts:107-113 | definition: the interval (corrected lookup) has elapsed since the last crawl, a never-crawled site counting from the epoch; pinned by NeverCrawledDue and DueAgainAfterInterval |
| Scheduler.IsCandidate | src/lib/scheduler.ts:102-115 | definition: active and due; pinned by FailedSiteNotCandidate and Tick |
| Scheduler.CrawlSite | src/lib/scheduler.ts:13-92 | without credentials nothing changes. Otherwise the site gets the status write that follows its one-week search, exactly the pages that crawl creates are appended (unread, discovered now, titled from their results), its URLs grow by the links found, and the store stays valid |
| Scheduler.Tick | src/lib/scheduler.ts:95-120 | one tick crawls exactly the active, due sites, in order. Each of them ends with the status its own search decides, and its URL set grows by the links that search found. Every page the tick adds is unread, discovered now, and built from one of the results of its own site's search, with that result's link and title. Every other site, the settings and the existing pages are left alone |
| Scheduler.TickedAsCrawlSite | src/lib/scheduler.ts:106-115 | what the tick does to a candidate is what the crawl of that site alone does to the store the tick started from |
| Scheduler.StartScheduler | src/lib/scheduler.ts:125-139 | starting registers a timer only when none was registered before |
| Scheduler.AtMostOneTimer | src/lib/scheduler.ts:125-139 | however many times start is called, at most one timer exists |
| Scheduler.IntervalAsWritten | src/lib/scheduler.ts:107 | definition: the lookup as written, falling back to one day only on a missing or zero entry; pinned by PrototypeKeyNeverDue and AsWrittenAgreesElsewhere |
| Scheduler.IsDueAsWritten | src/lib/scheduler.ts:107-113 | definition: the due test as written, false whenever the interval is not a number; pinned by PrototypeKeyNeverDue and ToStringSiteSkipped |
| Scheduler.IntervalLookupAsWritten | src/lib/scheduler.ts:6-10 | indexing the object literal yields a number for the three codes and an inherited member for every Object.prototype key |
| Scheduler.PrototypeKeyNeverDue | src/lib/scheduler.ts:107-114 | as written, a site whose interval names an inherited property is never due, though it is under the intended rule |
| Scheduler.ToStringSiteSkipped | src/lib/scheduler.ts:107-114 | the concrete case: a never-crawled "toString" site one day in is a candidate but is skipped as written |
| Scheduler.AsWrittenAgreesElsewhere | src/lib/scheduler.ts:107-114 | for every other interval code the as-written and corrected due tests agree |
| CrawlRoute.Post | src/app/api/crawl/route.ts:6-115 | the corrected handler (see Findings). The checks run in order: 400 without siteId, 404 for an unknown site, 400 without credentials, each leaving the store alone. A success reports the search's result count and, as new pages, the number of results whose link was not on file, appends exactly the pages the crawl creates, and marks the site active; a failed crawl gives a 500 with the site marked in error as the catch block intends |
| CrawlRoute.PostAsWritten | src/app/api/crawl/route.ts:6-115 | the handler as written: the same checks and success path, but a failed crawl leaves the store unchanged and escapes as a bare 500 |
| CrawlRoute.AsWrittenPartsOnFailure | src/app/api/crawl/route.ts:95-113 | the two handlers differ exactly when the corrected one answers 500, and give the same reply everywhere else |
| CrawlRoute.FailedCrawlStatusLost | src/app/api/crawl/route.ts:95-113 | on a failing search the corrected handler marks the site `error` with the message, as the scheduler's crawl does, while the handler as written changes nothing |
| CrawlRoute.RangeOf | src/app/api/crawl/route.ts:9 | definition: the body's dateRange, "1w" when absent; pinned by DefaultRangeMatchesScheduler |
| CrawlRoute.OkReportsSearch | src/app/api/crawl/route.ts:46-94 | for the corrected handler, the reply is OK iff the search found results. Then totalFound is the result count, newPagesCount is the number of results whose link was not on file, the pages appended are exactly those created for the new links, and the site's URLs gain every link; otherwise the reply is a 500 carrying the search's message |
| CrawlRoute.DefaultRangeMatchesScheduler | src/app/api/crawl/route.ts:9-94 | without a dateRange, a manual crawl by the corrected handler changes the store exactly as the scheduler's crawl of that site does |
| SitesRoute.StripScheme | src/app/api/sites/route.ts:39-40 | removes one leading `http://` or `https://` (case-sensitive) and nothing else |
| SitesRoute.TrimSlashes | src/app/api/sites/route.ts:41 | removes the whole trailing run of slashes and nothing else |
| SitesRoute.NormalizeDomain | src/app/api/sites/route.ts:39-42 | the cleaned domain has no upper-case letter and no trailing slash, and is no longer than the input |
| SitesRoute.NormalFormUnchanged | src/app/api/sites/route.ts:39-42 | a domain already in clean form is stored unchanged |
| SitesRoute.NormalizeIdempotentWithoutScheme | src/app/api/sites/route.ts:39-42 | cleaning twice equals cleaning once unless the first pass leaves a lower-case scheme |
| SitesRoute.UpperCaseSchemeNotIdempotent | src/app/api/sites/route.ts:39-42 | `HTTP://X/` cleans to `http://x`, which cleans further to `x` |
| SitesRoute.NewSite | src/app/api/sites/route.ts:56-62 | a new site is active, never crawled, has no message, and gets interval "1d" unless a non-empty one is given |
| SitesRoute.Post | src/app/api/sites/route.ts:26-64 | 400 without name or domain, 400 for a clean domain already stored, otherwise 201 with the site appended. The site's domain is cleaned, and the store stays valid for a fresh id |
| SitesRoute.SecondSpellingRefused | src/app/api/sites/route.ts:44-54 | two spellings of one domain cannot both create a site |
| SitesRoute.BareSchemeStoredEmpty | src/app/api/sites/route.ts:31-62 | a domain of just `https://` passes the checks and is stored as the empty domain |
| PagesRoute.InScope | src/app/api/pages/route.ts:17-30 | definition: the site condition for a non-empty siteId and the title-or-URL substring condition for a non-empty search; pinned by Get and UnreadWithinTotal |
| PagesRoute.Matches | src/app/api/pages/route.ts:17-30 | definition: InScope plus the read condition for a non-empty isRead, read exactly when it is "true"; pinned by UnreadFilterCountsUnread and ReadFilterExcludesUnread |
| PagesRoute.SortNewestFirst | src/app/api/pages/route.ts:35 | the ordering is a permutation of its input with `discoveredAt` non-increasing |
| PagesRoute.Window | src/app/api/pages/route.ts:45-46 | skip/take: the result has length min(limit, what remains after offset) |
| PagesRoute.WindowElements | src/app/api/pages/route.ts:45-46 | the window holds the elements from offset on, in their order |
| PagesRoute.Get | src/app/api/pages/route.ts:6-62 | the reply lists at most `limit` matching stored pages, newest first. `total` counts all matches and `unreadCount` the unread pages in scope. From offset 0 with a limit ≥ total, the list holds every match |
| PagesRoute.TotalCountsMatches | src/app/api/pages/route.ts:32-48 | a page is counted in `total` once per stored copy when it matches the filters, and not at all otherwise |
| PagesRoute.ConsecutiveWindows | src/app/api/pages/route.ts:32-47 | for one filter, the list at (offset o, limit a) followed by the list at (o + a, limit b) is the list at (o, limit a + b), whether the values are given or defaulted |
| PagesRoute.UnreadWithinTotal | src/app/api/pages/route.ts:51-54 | without a read filter, unreadCount ≤ total |
| PagesRoute.UnreadFilterCountsUnread | src/app/api/pages/route.ts:21-54 | any non-empty read filter other than "true" selects unread pages, so unreadCount = total |
| PagesRoute.ReadFilterExcludesUnread | src/app/api/pages/route.ts:21-23 | with `isRead=true` every listed page is read |
| ReadAllRoute.InScope | src/app/api/pages/read-all/route.ts:10 | definition: one site for a non-empty siteId, every page otherwise; pinned by EmptySiteIdMarksAll |
| ReadAllRoute.MarkAllRead | src/app/api/pages/read-all/route.ts:8-15 | pages in scope end up read; pages out of scope are unchanged; only `isRead` changes; nothing goes from read to unread |
| ReadAllRoute.MarkAllReadIdempotent | src/app/api/pages/read-all/route.ts:12-15 | marking twice equals marking once |
| ReadAllRoute.EmptySiteIdMarksAll | src/app/api/pages/read-all/route.ts:8-10 | an empty siteId scopes every page, like no siteId |
| ReadAllRoute.Put | src/app/api/pages/read-all/route.ts:5-17 | sites and settings are untouched, no page changes site or URL, and the store stays valid |
| ReadAllRoute.NoUnreadAfterwards | src/app/api/pages/read-all/route.ts:12-15 | afterwards the page list for the same site scope reports zero unread |
| ResultsPanel.Keep | src/components/reelmate/GenerationResultsPanel.tsx:33-36 | definition: the tab's kind, then favourites, then in-progress, each only when enabled; pinned by ShownItemsMeetConditions |
| ResultsPanel.FilteredItems | src/components/reelmate/GenerationResultsPanel.tsx:32-37 | the shown items are an ordered subsequence, each passing every enabled condition, and every passing item is shown |
| ResultsPanel.DefaultViewShowsAll | src/components/reelmate/GenerationResultsPanel.tsx:32-37 | tab "all" with both toggles off shows the items unchanged |
| ResultsPanel.ShownItemsMeetConditions | src/components/reelmate/GenerationResultsPanel.tsx:33-36 | shown items match the tab and every enabled toggle, and an item meeting all enabled conditions is shown |
| ResultsPanel.ToggleNarrows | src/components/reelmate/GenerationResultsPanel.tsx:34-35 | turning a toggle on never shows more items |

## Left out

- Database, HTTP and JSON. Prisma queries are operations on in-memory sequences, with no transactions. Request bodies arrive already decoded as string fields; a non-string `domain` that would make `.replace` throw is not modelled.
- Uniqueness constraints. Unique setting keys and unique (site, URL) pages are part of the store invariant. They stand for the database constraints that `upsert` by key and the ignored duplicate-insert error rely on. `Settings.Upsert` and `Settings.Put` therefore require unique keys.
- Time. Every `new Date()` within one request or tick is the same `now`, so all pages of one crawl share one discovery time, and `lastCrawledAt` is that same instant. Formatting the cutoff as `YYYY-MM-DD` is a function parameter.
- The search provider. It is a function from (key, engine id, query, start offset) to a page of items or an error message. URL building, `fetch` and JSON decoding are not modelled. A network or decoding failure is a provider error.
- Error messages. A thrown value that is not an `Error` (message "Unknown error" / "Failed to crawl") cannot arise in the model. Every failure carries the provider's message or the not-configured message.
- Site ids. The database's id generator is an argument of `SitesRoute.Post`, whose validity guarantee assumes it is fresh. Page ids are not modelled; a page is identified by (site, URL).
- Text. `toLowerCase` is modelled on ASCII letters only. Substring search is case-sensitive; database collation rules are not modelled.
- Number parsing. The pages handler's `parseInt` of `limit`/`offset` is taken as already done; NaN and negative values are not modelled.
- Ordering ties. Pages with equal `discoveredAt` are listed in store order. The database leaves that order unspecified.
- PagesRoute.ConsecutiveWindows: consecutive windows fit together only because ties are broken by store order on every request. The database may order tied pages differently on each query, so the source does not promise this when two pages share a `discoveredAt`.
- The joined `site` fields of each listed page and the `updatedAt` timestamps.
- Concurrency. Overlapping ticks and the cron timer itself are not modelled; `StartScheduler` counts registered timers instead. Logging is left out too.
- Other handlers. GET /api/sites, PUT/DELETE /api/sites/[id], /api/pages/[id] and the rest of the UI are not part of this model.
- Dedup.Ingest: its own contract bounds `newPagesCount` by the number of results. `Dedup.IngestInsertsExactlyFresh` gives the exact count: every unseen result, including a link repeated within one batch whose second insert is skipped.
- GoogleSearch.FullPagesStopAtCap: states the number of requests and the first and last offsets. Every other offset follows from the `1 + 10k` clause of `GoogleSearch.Search`.

## Findings

| source | as written | input that shows it | evidently intended | confidence | as-written member | corrected member |
|---|---|---|---|---|---|---|
| src/lib/scheduler.ts:6-10 | the table at lines 6-10 is a plain object literal, and line 107, `intervalToMs[site.crawlInterval] \|\| intervalToMs["1d"]`, indexes a plain object literal. For a code that names an inherited property (`toString`, `constructor`, `__proto__`, …) it yields a truthy function or object, so the one-day fallback is skipped, and `now - last >= fn` compares with NaN and is always false | a site created with crawlInterval `"toString"` (the create handler stores any non-empty string), never crawled, at now = one day | every code outside the table falls back to the one-day interval | not executed | Scheduler.PrototypeKeyNeverDue | Scheduler.IntervalToMs |
| src/app/api/settings/route.ts:8-12 | `settingsMap[setting.key] = setting.value` assigns into an object literal. For the key `__proto__` the assignment calls the inherited prototype setter, which ignores a string, so that row is missing from the reply. PUT does store it, because `JSON.parse` makes `__proto__` an own key that `Object.entries` lists | PUT `{"__proto__": "x"}` on an empty table, then GET | GET returns every stored setting | not executed | Settings.ProtoSettingHidden | Settings.AsMap |
| src/app/api/crawl/route.ts:95-108 | the catch block calls `request.clone().json()` to learn the site id, but the body was already read by `request.json()` on line 8. Cloning a consumed request throws, so the error status is never written and the handler's JSON 500 is replaced by the framework's bare 500 | POST `{"siteId": <an existing site>}` with credentials configured, while the provider answers with an error | the site is marked `error` with the provider's message, and the reply is a 500 carrying that message | not executed | CrawlRoute.FailedCrawlStatusLost | CrawlRoute.Post |
