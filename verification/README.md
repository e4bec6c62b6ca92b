# Incremental listing crawl: a Dafny model

This project models the logic of a small real-estate listing scraper,
`main.js`. The scraper visits a fixed number of listing pages in order. On
each page it takes the id out of every `/ingatlan/<digits>` link. It
compares those ids with the list of ids stored under the key `ids` of a
key-value store, and it pushes one dataset row `{ id, url }` for every id
that is not stored yet. It then writes back the union of the stored list
and the page's ids. The browser, the store and the dataset become plain
values:

- a page is the list of its links' `href` strings;
- the stored value is an `Option<seq<string>>`, where `None` means the key
  was never written;
- the dataset is a `seq<Record>` that pages only append to;
- a page with no listing link makes the wait at the top of the handler
  throw, so the handler changes nothing;
- a run is a left fold of the request handler over the pages, in request
  order.

Modules:

- `Wrappers` (`wrappers.dfy`): `Option`.
- `Digits` (`digits.dfy`): the `\d` class, the greedy digit run, and
  decimal rendering with its parser.
- `ListingIds` (`listing_ids.dfy`): the regular expression
  `/\/ingatlan\/(\d+)/`, modelled as a leftmost-match search, and the
  `map`/`filter(Boolean)` over a page's links.
- `Dedup` (`dedup.dfy`): the diff `currentIds.filter(id => !prevIds.includes(id))`,
  and the union `Array.from(new Set([...prevIds, ...currentIds]))` as
  first-occurrence deduplication of the concatenation.
- `Crawl` (`crawl.dfy`): the constants, the start requests, the row for an
  id, the request handler, the run, and the properties of a run.

The diff at main.js:31 does not remove repeats, so a new id that appears
twice on a page is pushed twice; `RepeatedNewIdEmittedTwice` shows this on a
concrete page. Membership is a mathematical `in`, so the cost of the linear
`includes` scan is not modelled.

## Model

| member | source | states |
|---|---|---|
| Digits.DigitRun | main.js:21 | The capture `(\d+)` taken from a start position is the longest prefix made only of ASCII digits. The next character, if any, is not a digit. |
| Digits.DigitRunOfDigits | main.js:21 | If a digit string is followed by a non-digit or by nothing, the greedy run is exactly that digit string. |
| Digits.Decimal | main.js:50 | `${i}` renders a number as a non-empty digit string. It has no leading zero unless the number is 0. |
| Digits.ParseDecimalOfDecimal | main.js:50 | Reading back a rendered page number gives the same number. |
| ListingIds.FindMatch | main.js:21 | The regex search gives the first position, from the left, where `/ingatlan/` is followed by a digit. It finds nothing only when no such position exists. |
| ListingIds.MatchId | main.js:21-22 | A link gives `null` exactly when no position matches. Otherwise it gives a non-empty digit string: the digit run after the leftmost match. |
| ListingIds.IdsOf | main.js:22-23 | After `filter(Boolean)`, a link contributes one id if it matches and none otherwise. The capture is never falsy, so no match is dropped. |
| ListingIds.ExtractIds | main.js:19-23 | A page gives at most one id per link. |
| ListingIds.ExtractedIdsWellFormed | main.js:19-23 | Every extracted id is a non-empty string of decimal digits. |
| ListingIds.ExtractIdsAppend | main.js:19-23 | Extraction goes link by link and keeps link order. The ids of two consecutive groups of links are the ids of the first group, then those of the second. |
| ListingIds.ExtractIdsMembers | main.js:19-23 | An id is extracted if and only if some link's href yields it. |
| Dedup.Diff | main.js:31 | An element is in `newIds` if and only if it is in `currentIds` and not in `prevIds`. |
| Dedup.DiffMultiplicity | main.js:31 | `newIds` has every kept id exactly as often as `currentIds` has it, and has no excluded id. Repeats are not removed. |
| Dedup.DiffIsSubsequence | main.js:31 | `newIds` keeps the order of `currentIds`: it is a subsequence of it. |
| Dedup.DiffOfEmpty | main.js:28-31 | Against an empty stored list, `newIds` is `currentIds` unchanged. |
| Dedup.DiffOfCovered | main.js:31 | When every current id is already stored, `newIds` is empty. |
| Dedup.Distinct | main.js:41 | Iterating the `Set` yields exactly the input's elements, each once. |
| Dedup.DistinctFirstOccurrenceOrder | main.js:41 | The `Set` yields its elements in the order of their first occurrence in the input. |
| Dedup.DistinctOfNoDup | main.js:41 | A list without repeats passes through the `Set` unchanged. |
| Dedup.DistinctAppend | main.js:41 | Deduplicating `a + b` gives the deduplicated `a`, then the deduplicated elements of `b` that are not in `a`. |
| Dedup.Union | main.js:41 | `updatedIds` has no repeats. An id is in it if and only if it is in `prevIds` or in `currentIds`. |
| Dedup.UnionExtendsPrev | main.js:41 | If `prevIds` has no repeats, `updatedIds` is `prevIds` unchanged, followed by the page's new ids, each once, in first-occurrence order. |
| Dedup.UnionIdempotent | main.js:41-42 | Storing the union again with the same page leaves the stored list unchanged. |
| Crawl.LoadIds | main.js:28 | A missing stored value reads as the empty list. A stored list, even an empty one, is used as it is. |
| Crawl.StartRequests | main.js:47-53 | There is one request per page, in ascending order. Request `k` has `userData.page == k + 1` and the URL `BASE_URL + (k + 1) + "&result_per_page=" + RESULTS_PER_PAGE`. |
| Crawl.RequestUrlCarriesPage | main.js:50 | The page number after `BASE_URL` can be read back from a request URL. |
| Crawl.StartRequestsComplete | main.js:47-53 | With `MAX_PAGES` = 5 there are exactly five requests, for pages 1 to 5 in ascending order. Their URLs are pairwise distinct. |
| Crawl.RecordsFor | main.js:34-36 | There is one row per new id, in `newIds` order. Each row is `{ id, url: "https://www.richlife.hu/ingatlan/" + id }`. |
| Crawl.ListingUrlRoundTrip | main.js:35 | Applying the page's id pattern to a row's URL gives back the row's id. |
| Crawl.ProcessPage | main.js:31-41 | For one page: an id is new if and only if it is on the page and not stored. The list written back is the duplicate-free union. A stored list without repeats is kept as it is and extended by the new ids, each once. |
| Crawl.ReprocessingFindsNothing | main.js:31-41 | Diffing the same page against the list it just stored gives no new ids. |
| Crawl.HandlePage | main.js:19-42 | Past the wait, a handled page always leaves a stored list. The dataset is only appended to. No previously stored id is lost. |
| Crawl.HandleRequest | main.js:12-43 | A page with no listing link makes the wait at line 16 throw before the store is read, so nothing is pushed or stored. Any other page leaves a stored list. Either way the dataset is only appended to and no stored id is lost. |
| Crawl.FirstPageEmitsAll | main.js:28-42 | With nothing stored, a page pushes a row for every extracted id, repeats included. It stores those ids without repeats. |
| Crawl.HandleRequestIdempotent | main.js:16-42 | Handling the same page twice in a row pushes nothing the second time and stores the same list. |
| Crawl.HandlePageEmits | main.js:31-36 | The rows a page appends are for exactly its extracted ids that are not stored. |
| Crawl.Run | main.js:16-56 | A run leaves a stored list once any of its pages has a listing link, and it never loses one. It never removes dataset rows. |
| Crawl.Crawl | main.js:47-56 | The configured crawl leaves a stored list once any of the five start pages has a listing link. It only appends to the dataset. |
| Crawl.RunStoreMembers | main.js:41-42 | After a run, an id is stored if and only if it was stored at the start or was extracted from one of the run's pages. |
| Crawl.RunEmitted | main.js:31-36 | A run appends rows for exactly the ids it saw that were not stored when it started. Each such id gets a row, and no other id does. |
| Crawl.SeenOnPagesContains | main.js:19-23 | Every id extracted from a page of the run is among the ids the run saw. |
| Crawl.RunAddsPageRows | main.js:34-36 | Page `k` appends one row per id it finds new against the store that pages `0..k-1` left. |
| Crawl.NoReemission | main.js:31 | An id extracted on an earlier page is never among the new ids of a later page. |
| Crawl.StoreAfterPage | main.js:16-42 | The stored list after `m` pages is the union stored by page `m`. If page `m` has no listing link, the state is what page `m - 1` left. |
| Crawl.StoreOnlyGrows | main.js:41-42 | Starting from a store without repeats, the stored list never gets repeats. Each later page only appends to it, so an earlier stored list is a prefix of a later one. |
| Crawl.CrawlStoresEveryPage | main.js:47-56 | Every id shown on any of the five start pages ends up in the stored list. |
| Crawl.RepeatedNewIdEmittedTwice | main.js:31 | With nothing stored, the page `["10","20","10","30"]` gives `newIds` `["10","20","10","30"]`, so `"10"` is pushed twice. |
| Crawl.RepeatedNewIdStoredOnce | main.js:41 | With nothing stored, a page `[a, b, a, c]` of three distinct ids stores `[a, b, c]`: the repeat is stored once, where it first occurs. |
| Crawl.DistinctOfRepeat | main.js:41 | A `Set` built from `[a, b, a, c]`, with three distinct ids, yields `[a, b, c]`. |
| Crawl.KnownIdsSkipped | main.js:31-41 | With `["10","20","30"]` stored, the page `["20","40"]` gives the new ids `["40"]` and stores `["10","20","30","40"]`. |

## Left out

- Browser automation is left out: the Playwright crawler, the headless launch, and the CSS selector `a[href^="/ingatlan/"]` evaluated by `page.$$eval`. A page is given as the list of its matching links' hrefs.
- Crawl.HandleRequest: the wait `page.waitForSelector` is modelled only as "the page has a matching link". Its 15-second timeout is not modelled, and neither is its wait for the link to become visible. A page whose matching links are all hidden is modelled as handled.
- ListingIds.ExtractIds: it takes each href as an opaque string. The browser's resolution of relative hrefs into absolute URLs is not modelled.
- The key-value store and dataset I/O are modelled as values passed in and returned. The store name `RICH_LIFE_IDS`, the awaits and the `log` calls are left out.
- Concurrency is left out. The crawler may handle pages concurrently, which would race on the store's read-modify-write. The model handles pages one at a time, in request order.
- Crawl.Run: the crawler's retries of a request whose handler threw are not modelled. A retry serves the same page again, so it would throw again. Other failures, such as a page that does not load or a failed store write, are not modelled either. A page that loads is assumed to be handled completely.
- Crawl.Crawl: the page content is a function `fetch` from request URL to hrefs. That the request queue visits each distinct URL once is framework behaviour; the model only proves that the five URLs are distinct. When no start page has a listing link, every request throws at the wait and the store is left as it was, missing if it was missing; so the crawl does not promise a stored list in that case.
