/** The crawl: start requests for pages 1..MaxPages (main.js lines 47-53)
    and the per-page request handler (lines 12-43), run one page at a time
    with the key-value store's `ids` entry and the dataset as explicit state. */
module Crawl {
  import opened Wrappers
  import opened Digits
  import opened ListingIds
  import opened Dedup

  const BaseUrl: string := "https://www.richlife.hu/lista/ingatlan?currency=ft&order=date&page="
  const ResultsPerPage: nat := 100
  const MaxPages: nat := 5
  const ListingUrlPrefix: string := "https://www.richlife.hu/ingatlan/"

  /** The part of a request URL between the page number and the page size. */
  const PageSizeParam: string := "&result_per_page="

  /** One dataset row, `{ id, url }`. */
  datatype Record = Record(id: string, url: string)

  /** One start request: its URL and `userData.page`. */
  datatype Request = Request(url: string, page: nat)

  /** What the crawl carries from page to page: the stored value under the
      `ids` key (`None` until something is written) and the dataset so far. */
  datatype CrawlState = CrawlState(store: Option<seq<string>>, dataset: seq<Record>)

  /** The outcome of one page: the ids to emit and the list to store. */
  datatype PageOutcome = PageOutcome(newIds: seq<string>, stored: seq<string>)

  function ListingUrl(id: string): string {
    ListingUrlPrefix + id
  }

  function RequestUrl(page: nat): string {
    BaseUrl + Decimal(page) + PageSizeParam + Decimal(ResultsPerPage)
  }

  /** The page number a request URL carries: the digits right after
      `BaseUrl`, if the URL starts with it. */
  function PageOfUrl(url: string): Option<nat> {
    if |url| < |BaseUrl| || url[..|BaseUrl|] != BaseUrl then None
    else
      var d := DigitRun(url[|BaseUrl|..]);
      if |d| == 0 then None else Some(ParseDecimal(d))
  }

  /** The start requests, one per page, in ascending page order. */
  function StartRequests(maxPages: nat): (rs: seq<Request>)
    ensures |rs| == maxPages
    ensures forall k :: 0 <= k < |rs| ==> rs[k].page == k + 1 && rs[k].url == RequestUrl(k + 1)
  {
    if maxPages == 0 then []
    else
      StartRequests(maxPages - 1) + [Request(RequestUrl(maxPages), maxPages)]
  }

  /** `(await store.getValue('ids')) || []`: a missing value reads as the
      empty list; a stored list (even an empty one, which is truthy) is used
      as it is. */
  function LoadIds(stored: Option<seq<string>>): (ids: seq<string>)
    ensures stored.None? ==> ids == []
    ensures stored.Some? ==> ids == stored.value
  {
    match stored
    case None => []
    case Some(ids) => ids
  }

  /** The rows pushed for the new ids, one per id, in order. */
  function RecordsFor(newIds: seq<string>): (rs: seq<Record>)
    ensures |rs| == |newIds|
    ensures forall k :: 0 <= k < |rs| ==> rs[k].id == newIds[k] && rs[k].url == ListingUrl(newIds[k])
  {
    seq(|newIds|, k requires 0 <= k < |newIds| => Record(newIds[k], ListingUrl(newIds[k])))
  }

  /** The ids of a list of rows. */
  function IdsOfRecords(rs: seq<Record>): (ids: seq<string>)
    ensures |ids| == |rs|
    ensures forall k :: 0 <= k < |rs| ==> ids[k] == rs[k].id
  {
    seq(|rs|, k requires 0 <= k < |rs| => rs[k].id)
  }

  /** The diff and the union of one page, given the stored and the page's ids. */
  function ProcessPage(prevIds: seq<string>, currentIds: seq<string>): (o: PageOutcome)
    ensures forall x {:trigger x in o.newIds} :: x in o.newIds <==> x in currentIds && x !in prevIds
    ensures forall x {:trigger x in o.stored} :: x in o.stored <==> x in prevIds || x in currentIds
    ensures NoDup(o.stored)
    ensures NoDup(prevIds) ==> o.stored == prevIds + Distinct(o.newIds)
  {
    var o := PageOutcome(Diff(currentIds, prevIds), Union(prevIds, currentIds));
    assert NoDup(prevIds) ==> o.stored == prevIds + Distinct(o.newIds) by {
      if NoDup(prevIds) { UnionExtendsPrev(prevIds, currentIds); }
    }
    o
  }

  /** The request handler past the wait, for a page whose listing links
      have the given hrefs: load, diff, push the new rows, store the union.
      Only a page with at least one listing link gets past the wait; see
      `HandleRequest`. */
  function HandlePage(s: CrawlState, hrefs: seq<string>): (s': CrawlState)
    ensures s'.store.Some?
    ensures s.dataset <= s'.dataset
    ensures forall x :: x in LoadIds(s.store) ==> x in LoadIds(s'.store)
  {
    var o := ProcessPage(LoadIds(s.store), ExtractIds(hrefs));
    CrawlState(Some(o.stored), s.dataset + RecordsFor(o.newIds))
  }

  /** The whole request handler. The wait for a listing link throws when
      the page has none, before the store is read: nothing is pushed or
      stored, and the crawler goes on with the next request. */
  function HandleRequest(s: CrawlState, hrefs: seq<string>): (s': CrawlState)
    ensures |hrefs| == 0 ==> s' == s
    ensures |hrefs| > 0 ==> s'.store.Some?
    ensures s.dataset <= s'.dataset
    ensures forall x :: x in LoadIds(s.store) ==> x in LoadIds(s'.store)
  {
    if |hrefs| == 0 then s else HandlePage(s, hrefs)
  }

  /** Pages handled one at a time, in order: a left fold of `HandleRequest`. */
  function Run(s: CrawlState, pages: seq<seq<string>>): (s': CrawlState)
    ensures s.store.Some? ==> s'.store.Some?
    ensures (exists k :: 0 <= k < |pages| && |pages[k]| > 0) ==> s'.store.Some?
    ensures s.dataset <= s'.dataset
  {
    if |pages| == 0 then s
    else
      var init := pages[..|pages| - 1];
      assert (exists k :: 0 <= k < |pages| && |pages[k]| > 0) && |pages[|pages| - 1]| == 0
          ==> exists k :: 0 <= k < |init| && |init[k]| > 0 by {
        if exists k :: 0 <= k < |pages| && |pages[k]| > 0 {
          var k :| 0 <= k < |pages| && |pages[k]| > 0;
          if k < |init| { assert init[k] == pages[k]; }
        }
      }
      HandleRequest(Run(s, init), pages[|pages| - 1])
  }

  /** The hrefs each start request's page shows, in request order. */
  function PagesOf(rs: seq<Request>, fetch: string -> seq<string>): (pages: seq<seq<string>>)
    ensures |pages| == |rs|
  {
    seq(|rs|, k requires 0 <= k < |rs| => fetch(rs[k].url))
  }

  /** `crawler.run(startRequests)` with the pages served by `fetch`. */
  function Crawl(s: CrawlState, fetch: string -> seq<string>): (c: CrawlState)
    ensures s.store.Some? ==> c.store.Some?
    ensures (exists page :: 1 <= page <= MaxPages && |fetch(RequestUrl(page))| > 0) ==> c.store.Some?
    ensures s.dataset <= c.dataset
  {
    var pages := PagesOf(StartRequests(MaxPages), fetch);
    assert (exists page :: 1 <= page <= MaxPages && |fetch(RequestUrl(page))| > 0)
        ==> exists k :: 0 <= k < |pages| && |pages[k]| > 0 by {
      if exists page :: 1 <= page <= MaxPages && |fetch(RequestUrl(page))| > 0 {
        var page :| 1 <= page <= MaxPages && |fetch(RequestUrl(page))| > 0;
        assert pages[page - 1] == fetch(RequestUrl(page));
      }
    }
    Run(s, pages)
  }

  /** Every id extracted from the pages handled so far, page by page. */
  function SeenOnPages(pages: seq<seq<string>>): seq<string> {
    if |pages| == 0 then [] else SeenOnPages(pages[..|pages| - 1]) + ExtractIds(pages[|pages| - 1])
  }

  /** The ids the `k`-th page emits, given the store left by pages 0..k-1. */
  function PageNewIds(s: CrawlState, pages: seq<seq<string>>, k: nat): seq<string>
    requires k < |pages|
  {
    Diff(ExtractIds(pages[k]), LoadIds(Run(s, pages[..k]).store))
  }

  // ---------------------------------------------------------------------
  // Requests

  /** The page number can be read back from a request URL. */
  lemma RequestUrlCarriesPage(page: nat)
    ensures PageOfUrl(RequestUrl(page)) == Some(page)
  {
    var d := Decimal(page);
    var rest := PageSizeParam + Decimal(ResultsPerPage);
    var url := RequestUrl(page);
    assert url == BaseUrl + (d + rest);
    assert url[..|BaseUrl|] == BaseUrl;
    assert url[|BaseUrl|..] == d + rest;
    assert rest[0] == '&';
    DigitRunOfDigits(d, rest);
    ParseDecimalOfDecimal(page);
  }

  /** The configured crawl asks for pages 1..5, each under its own URL, so
      no start request is a duplicate of another. */
  lemma StartRequestsComplete()
    ensures |StartRequests(MaxPages)| == 5
    ensures forall k :: 0 <= k < 5 ==> StartRequests(MaxPages)[k].page == k + 1
    ensures forall j, k :: 0 <= j < k < 5 ==> StartRequests(MaxPages)[j].url != StartRequests(MaxPages)[k].url
  {
    var rs := StartRequests(MaxPages);
    forall j, k | 0 <= j < k < 5
      ensures rs[j].url != rs[k].url
    {
      RequestUrlCarriesPage(j + 1);
      RequestUrlCarriesPage(k + 1);
    }
  }

  // ---------------------------------------------------------------------
  // Records

  /** A row's URL names its own listing: extracting an id from it with the
      pattern used on the page's links gives the row's id back. */
  lemma ListingUrlRoundTrip(id: string)
    requires IsListingId(id)
    ensures MatchId(ListingUrl(id)) == Some(id)
  {
    var u := ListingUrl(id);
    var p := |ListingUrlPrefix| - |Marker|;
    assert u[p..p + |Marker|] == Marker;
    assert u[p + |Marker|] == id[0];
    assert MatchAt(u, p);
    NoMarkerInHost(u);
    assert u[p + |Marker|..] == id + [];
    DigitRunOfDigits(id, []);
  }

  lemma NoMarkerInHost(u: string)
    requires |u| > |ListingUrlPrefix| && u[..|ListingUrlPrefix|] == ListingUrlPrefix
    ensures forall q: nat :: q < |ListingUrlPrefix| - |Marker| ==> !MatchAt(u, q)
  {
    forall q: nat | q < |ListingUrlPrefix| - |Marker|
      ensures !MatchAt(u, q)
    {
      assert u[q] == ListingUrlPrefix[q];
      assert u[q + 1] == ListingUrlPrefix[q + 1];
      assert u[q..q + |Marker|][0] == u[q];
      assert u[q..q + |Marker|][1] == u[q + 1];
    }
  }

  // ---------------------------------------------------------------------
  // One page

  /** A missing store reads as empty, so the first page emits every id it
      extracts, repeats included, and stores them without repeats. */
  lemma FirstPageEmitsAll(dataset: seq<Record>, hrefs: seq<string>)
    ensures HandlePage(CrawlState(None, dataset), hrefs)
         == CrawlState(Some(Distinct(ExtractIds(hrefs))), dataset + RecordsFor(ExtractIds(hrefs)))
  {
    var ids := ExtractIds(hrefs);
    DiffOfEmpty(ids);
    assert [] + ids == ids;
  }

  /** Diffing a page against the list it just stored finds nothing new. */
  lemma ReprocessingFindsNothing(prevIds: seq<string>, currentIds: seq<string>)
    ensures ProcessPage(ProcessPage(prevIds, currentIds).stored, currentIds).newIds == []
  {
    DiffOfCovered(currentIds, ProcessPage(prevIds, currentIds).stored);
  }

  /** Handling the same page twice in a row: the second pass emits nothing
      and stores the same list. */
  lemma {:induction false} HandleRequestIdempotent(s: CrawlState, hrefs: seq<string>)
    ensures HandleRequest(HandleRequest(s, hrefs), hrefs) == HandleRequest(s, hrefs)
  {
    if |hrefs| > 0 {
      var s1 := HandlePage(s, hrefs);
      var prev, ids := LoadIds(s.store), ExtractIds(hrefs);
      UnionIdempotent(prev, ids);
      DiffOfCovered(ids, Union(prev, ids));
      assert RecordsFor(Diff(ids, Union(prev, ids))) == [];
      assert s1.dataset + [] == s1.dataset;
    }
  }

  // ---------------------------------------------------------------------
  // A run of pages

  /** The ids of the rows from `base` on, after `b` is appended to `a`. */
  lemma IdsOfRecordsAppend(a: seq<Record>, b: seq<Record>, base: nat)
    requires base <= |a|
    ensures IdsOfRecords((a + b)[base..]) == IdsOfRecords(a[base..]) + IdsOfRecords(b)
  {
    assert (a + b)[base..] == a[base..] + b;
  }

  /** After a run the store holds exactly what it held before plus every
      id extracted on the way. */
  lemma {:induction false} RunStoreMembers(s: CrawlState, pages: seq<seq<string>>, x: string)
    ensures x in LoadIds(Run(s, pages).store) <==> x in LoadIds(s.store) || x in SeenOnPages(pages)
  {
    if |pages| > 0 {
      RunStoreMembers(s, pages[..|pages| - 1], x);
    }
  }

  /** The rows a run appends are for exactly the ids it saw that were not
      stored when it started: every such id gets a row, and no other. */
  lemma {:induction false} RunEmitted(s: CrawlState, pages: seq<seq<string>>, x: string)
    ensures x in IdsOfRecords(Run(s, pages).dataset[|s.dataset|..])
        <==> x in SeenOnPages(pages) && x !in LoadIds(s.store)
  {
    if |pages| == 0 {
      assert Run(s, pages).dataset[|s.dataset|..] == [];
    } else {
      var init, h := pages[..|pages| - 1], pages[|pages| - 1];
      var s1 := Run(s, init);
      if |h| > 0 {
        HandlePageEmits(s1, h, |s.dataset|, x);
      }
      assert x in SeenOnPages(pages) <==> x in SeenOnPages(init) || x in ExtractIds(h) by {
        assert SeenOnPages(pages) == SeenOnPages(init) + ExtractIds(h);
      }
      RunStoreMembers(s, init, x);
      RunEmitted(s, init, x);
    }
  }

  /** The ids of the rows a page appends are its new ids. */
  lemma HandlePageEmits(s: CrawlState, hrefs: seq<string>, base: nat, x: string)
    requires base <= |s.dataset|
    ensures x in IdsOfRecords(HandlePage(s, hrefs).dataset[base..])
        <==> x in IdsOfRecords(s.dataset[base..]) || (x in ExtractIds(hrefs) && x !in LoadIds(s.store))
  {
    var n := Diff(ExtractIds(hrefs), LoadIds(s.store));
    var rows := RecordsFor(n);
    assert IdsOfRecords(HandlePage(s, hrefs).dataset[base..]) == IdsOfRecords(s.dataset[base..]) + n by {
      assert HandlePage(s, hrefs).dataset == s.dataset + rows;
      IdsOfRecordsAppend(s.dataset, rows, base);
      assert IdsOfRecords(rows) == n;
    }
  }

  /** Every id extracted from one of the pages is among those seen. */
  lemma {:induction false} SeenOnPagesContains(pages: seq<seq<string>>, j: nat, x: string)
    requires j < |pages| && x in ExtractIds(pages[j])
    ensures x in SeenOnPages(pages)
  {
    var init := pages[..|pages| - 1];
    if j < |pages| - 1 {
      assert init[j] == pages[j];
      SeenOnPagesContains(init, j, x);
    }
  }

  /** Handling page `k` after pages 0..k-1 appends one row per id in
      `PageNewIds(s, pages, k)`, in order. */
  lemma RunAddsPageRows(s: CrawlState, pages: seq<seq<string>>, k: nat)
    requires k < |pages|
    ensures Run(s, pages[..k + 1]).dataset == Run(s, pages[..k]).dataset + RecordsFor(PageNewIds(s, pages, k))
  {
    assert pages[..k + 1][..k] == pages[..k];
    if |pages[k]| == 0 {
      assert RecordsFor(PageNewIds(s, pages, k)) == [];
      assert Run(s, pages[..k]).dataset + [] == Run(s, pages[..k]).dataset;
    }
  }

  /** An id seen on an earlier page of a run is never emitted again by a
      later page. */
  lemma NoReemission(s: CrawlState, pages: seq<seq<string>>, j: nat, k: nat, x: string)
    requires j < k < |pages|
    requires x in ExtractIds(pages[j])
    ensures x !in PageNewIds(s, pages, k)
  {
    assert pages[..k][j] == pages[j];
    SeenOnPagesContains(pages[..k], j, x);
    RunStoreMembers(s, pages[..k], x);
  }

  /** Starting from a store without repeats (a missing one, or one this
      handler wrote), the stored list keeps having no repeats and each page
      only appends to it: the list after `k` pages is a prefix of the list
      after `m >= k` pages. */
  lemma {:induction false} StoreOnlyGrows(s: CrawlState, pages: seq<seq<string>>, k: nat, m: nat)
    requires NoDup(LoadIds(s.store))
    requires k <= m <= |pages|
    ensures NoDup(LoadIds(Run(s, pages[..m]).store))
    ensures LoadIds(Run(s, pages[..k]).store) <= LoadIds(Run(s, pages[..m]).store)
    decreases m
  {
    if m == 0 {
      assert pages[..m] == [];
    } else {
      var prev, cur := LoadIds(Run(s, pages[..m - 1]).store), LoadIds(Run(s, pages[..m]).store);
      StoreOnlyGrows(s, pages, if k < m then k else m - 1, m - 1);
      assert NoDup(cur) && prev <= cur by {
        StoreAfterPage(s, pages, m);
        if |pages[m - 1]| > 0 {
          UnionExtendsPrev(prev, ExtractIds(pages[m - 1]));
        }
      }
    }
  }

  /** After `m` pages the store holds the union the `m`-th page stored, or,
      when that page had no listing link, what it held before. */
  lemma StoreAfterPage(s: CrawlState, pages: seq<seq<string>>, m: nat)
    requires 1 <= m <= |pages|
    ensures |pages[m - 1]| > 0 ==>
              LoadIds(Run(s, pages[..m]).store)
              == Union(LoadIds(Run(s, pages[..m - 1]).store), ExtractIds(pages[m - 1]))
    ensures |pages[m - 1]| == 0 ==> Run(s, pages[..m]) == Run(s, pages[..m - 1])
  {
    assert pages[..m][..m - 1] == pages[..m - 1];
  }

  /** The configured crawl visits every start page: whatever page `k`
      shows ends up in the stored list. */
  lemma CrawlStoresEveryPage(s: CrawlState, fetch: string -> seq<string>, k: nat, x: string)
    requires k < MaxPages
    requires x in ExtractIds(fetch(RequestUrl(k + 1)))
    ensures x in LoadIds(Crawl(s, fetch).store)
  {
    var rs := StartRequests(MaxPages);
    var pages := PagesOf(rs, fetch);
    SeenOnPagesContains(pages, k, x);
    RunStoreMembers(s, pages, x);
  }

  // ---------------------------------------------------------------------
  // Two pages worked by hand

  /** With nothing stored, a page listing "10" twice emits it twice: the
      diff keeps repeats. */
  lemma RepeatedNewIdEmittedTwice()
    ensures ProcessPage([], ["10", "20", "10", "30"]).newIds == ["10", "20", "10", "30"]
  {
    DiffOfEmpty(["10", "20", "10", "30"]);
  }

  /** ... but a page listing an id twice stores it once, in the place of
      its first occurrence. */
  lemma RepeatedNewIdStoredOnce(a: string, b: string, c: string)
    requires a != b && a != c && b != c
    ensures ProcessPage([], [a, b, a, c]).stored == [a, b, c]
  {
    var ids := [a, b, a, c];
    assert [] + ids == ids;
    DistinctOfRepeat(a, b, c);
  }

  /** The `Set` of `[a, b, a, c]` yields `[a, b, c]`. */
  lemma DistinctOfRepeat(a: string, b: string, c: string)
    requires a != b && a != c && b != c
    ensures Distinct([a, b, a, c]) == [a, b, c]
  {
    var ab, aba := [a, b], [a, b, a];
    assert Distinct(ab) == ab by {
      assert NoDup(ab);
      DistinctOfNoDup(ab);
    }
    assert Distinct(aba) == ab by {
      assert aba == ab + [a];
      DistinctSnoc(ab, a);
    }
    assert [a, b, a, c] == aba + [c];
    DistinctSnoc(aba, c);
  }

  /** Stored ids are skipped and the new one is appended to the store. */
  lemma KnownIdsSkipped()
    ensures Diff(["20", "40"], ["10", "20", "30"]) == ["40"]
    ensures Union(["10", "20", "30"], ["20", "40"]) == ["10", "20", "30", "40"]
  {
    var prev, ids := ["10", "20", "30"], ["20", "40"];
    assert Diff(ids, prev) == ["40"];
    UnionExtendsPrev(prev, ids);
    assert Distinct(["40"]) == ["40"];
  }
}
