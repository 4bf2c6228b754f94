/** One crawl of one site, shared by the scheduler and the crawl endpoint:
    credential resolution, search, ingest, and the status write on the site. */
module Crawl {
  import opened Common
  import opened Records
  import opened Settings
  import opened GoogleSearch
  import opened Dedup

  const ApiKeySetting: string := "google_api_key"
  const CxSetting: string := "google_cx"

  datatype Credentials = Credentials(key: string, cx: string)

  /** The stored setting when it is a non-empty string, otherwise the
      environment; both the key and the engine id must end up non-empty. */
  function ResolveCredentials(settings: seq<SettingRow>, env: Env): (c: Option<Credentials>)
    ensures c.Some? <==>
      && (Truthy(Lookup(settings, ApiKeySetting)) || Truthy(env.apiKey))
      && (Truthy(Lookup(settings, CxSetting)) || Truthy(env.cx))
    ensures c.Some? ==> c.value.key != "" && c.value.cx != ""
    ensures c.Some? ==>
      c.value.key == (if Truthy(Lookup(settings, ApiKeySetting)) then Lookup(settings, ApiKeySetting) else env.apiKey).value
    ensures c.Some? ==>
      c.value.cx == (if Truthy(Lookup(settings, CxSetting)) then Lookup(settings, CxSetting) else env.cx).value
  {
    var key := Or(Lookup(settings, ApiKeySetting), env.apiKey);
    var cx := Or(Lookup(settings, CxSetting), env.cx);
    if Truthy(key) && Truthy(cx) then Some(Credentials(key.value, cx.value)) else None
  }

  /** The two status writes a crawl ends with. */
  datatype StatusWrite = Success(at: nat) | Failure(message: string)

  /** The fields a status write sets; every other field is kept. */
  function Apply(s: Site, w: StatusWrite): (t: Site)
    ensures t.id == s.id && t.name == s.name && t.domain == s.domain
    ensures t.crawlInterval == s.crawlInterval && t.createdAt == s.createdAt
    ensures w.Success? ==> t.status == Active && t.lastCrawledAt == Some(w.at) && t.errorMessage == None
    ensures w.Failure? ==>
      t.status == Error && t.errorMessage == Some(w.message) && t.lastCrawledAt == s.lastCrawledAt
  {
    match w
    case Success(at) => s.(status := Active, lastCrawledAt := Some(at), errorMessage := None)
    case Failure(m) => s.(status := Error, errorMessage := Some(m))
  }

  /** The site update by id: the row with that id gets the status write,
      every other row stays as it was. */
  function WriteStatus(sites: seq<Site>, id: string, w: StatusWrite): (r: seq<Site>)
    ensures |r| == |sites|
    ensures forall i :: 0 <= i < |sites| && sites[i].id != id ==> r[i] == sites[i]
    ensures forall i :: 0 <= i < |sites| ==> r[i].id == sites[i].id && r[i].domain == sites[i].domain
    ensures FindSite(r, id) == if FindSite(sites, id).Some? then Some(Apply(FindSite(sites, id).value, w)) else None
  {
    var r := seq(|sites|, i requires 0 <= i < |sites| => if sites[i].id == id then Apply(sites[i], w) else sites[i]);
    FindAfterWrite(sites, id, w, r);
    r
  }

  /** Looking the id up after the write finds the written row. */
  lemma {:induction false} FindAfterWrite(sites: seq<Site>, id: string, w: StatusWrite, r: seq<Site>)
    requires |r| == |sites|
    requires forall i :: 0 <= i < |sites| ==> r[i] == if sites[i].id == id then Apply(sites[i], w) else sites[i]
    ensures FindSite(r, id) == if FindSite(sites, id).Some? then Some(Apply(FindSite(sites, id).value, w)) else None
    decreases |sites|
  {
    if |sites| > 0 && sites[0].id != id {
      FindAfterWrite(sites[1..], id, w, r[1..]);
    }
  }

  /** A status write keeps ids and domains, hence the site constraints. */
  lemma WriteStatusKeepsKeys(sites: seq<Site>, id: string, w: StatusWrite)
    ensures SiteIds(WriteStatus(sites, id, w)) == SiteIds(sites)
    ensures UniqueSiteIds(sites) ==> UniqueSiteIds(WriteStatus(sites, id, w))
    ensures UniqueDomains(sites) ==> UniqueDomains(WriteStatus(sites, id, w))
  {
    var r := WriteStatus(sites, id, w);
    assert forall i :: 0 <= i < |r| ==> r[i].id == sites[i].id && r[i].domain == sites[i].domain;
    SameIdsAndDomains(r, sites);
  }

  /** With unique ids, the row that carries the id is the one written. */
  lemma WriteStatusAt(sites: seq<Site>, id: string, w: StatusWrite, i: nat)
    requires UniqueSiteIds(sites) && i < |sites| && sites[i].id == id
    ensures WriteStatus(sites, id, w)[i] == Apply(sites[i], w)
  {
    var r := WriteStatus(sites, id, w);
    WriteStatusKeepsKeys(sites, id, w);
    FindSiteAt(sites, i);
    FindSiteAt(r, i);
  }

  /** Two site lists that agree position by position on ids and domains
      have the same ids and the same uniqueness properties. */
  lemma SameIdsAndDomains(a: seq<Site>, b: seq<Site>)
    requires |a| == |b|
    requires forall i :: 0 <= i < |a| ==> a[i].id == b[i].id && a[i].domain == b[i].domain
    ensures SiteIds(a) == SiteIds(b)
    ensures UniqueSiteIds(b) ==> UniqueSiteIds(a)
    ensures UniqueDomains(b) ==> UniqueDomains(a)
  {
    forall x | x in SiteIds(a)
      ensures x in SiteIds(b)
    {
      var i :| 0 <= i < |a| && a[i].id == x;
      assert b[i] in b;
    }
    forall x | x in SiteIds(b)
      ensures x in SiteIds(a)
    {
      var i :| 0 <= i < |b| && b[i].id == x;
      assert a[i] in a;
    }
  }

  /** The status write that follows a search: success when it found
      results, the error's message otherwise. */
  function StatusAfter(p: Pagination, now: nat): (w: StatusWrite)
    ensures w.Success? <==> p.outcome.Found?
    ensures w.Success? ==> w.at == now
    ensures w.Failure? ==> w.message == ErrorMessage(p.outcome.error)
  {
    if p.outcome.Found? then Success(now) else Failure(ErrorMessage(p.outcome.error))
  }

  /** The links a crawl records after a search: every link found, or none
      when the search failed. */
  function LinksAfter(p: Pagination): set<string>
  {
    if p.outcome.Found? then Links(p.outcome.results) else {}
  }

  /** `q` is the page created for one of the results the search found:
      unread, discovered now, with that result's link and title. */
  ghost predicate CreatedFrom(p: Pagination, q: Page, now: nat)
  {
    p.outcome.Found? && exists res :: res in p.outcome.results && q == PageFor(q.siteId, res, now)
  }

  /** The pages a crawl for `siteId` appends after a search: one for each
      first occurrence of a link the site does not have yet, in result
      order; none when the search failed. */
  function PagesAfter(pages: seq<Page>, siteId: string, p: Pagination, now: nat): (added: seq<Page>)
    ensures forall k :: 0 <= k < |added| ==>
      && added[k].siteId == siteId && !added[k].isRead && added[k].discoveredAt == now
      && added[k].url !in UrlsOf(pages, siteId) && CreatedFrom(p, added[k], now)
    ensures forall k, l :: 0 <= k < l < |added| ==> added[k].url != added[l].url
    ensures p.outcome.Found? ==> |added| <= |p.outcome.results|
    ensures p.outcome.Failed? ==> added == []
  {
    if p.outcome.Found? then
      var rs := Fresh(p.outcome.results, UrlsOf(pages, siteId));
      FreshLinks(p.outcome.results, UrlsOf(pages, siteId));
      assert forall k :: 0 <= k < |rs| ==> rs[k] in p.outcome.results;
      ToPages(siteId, rs, now)
    else []
  }

  datatype Outcome = Crawled(totalFound: nat, newPagesCount: nat) | CrawlFailed(message: string)

  datatype Step = Step(store: Store, outcome: Outcome)

  /** Search, ingest, status write. A search failure writes the error status
      and its message and leaves the pages alone; a success writes the
      success status after the ingest. */
  function RunCrawl(st: Store, site: Site, range: string, creds: Credentials, env: Env,
                    net: Network, now: nat, fmt: int -> string): (r: Step)
    ensures r.store.settings == st.settings
    ensures |st.pages| <= |r.store.pages| && r.store.pages[..|st.pages|] == st.pages
    ensures var p := Search(net, site.domain, range, Some(creds.key), Some(creds.cx), env, now, fmt);
      && (r.outcome.Crawled? <==> p.outcome.Found?)
      && (r.outcome.Crawled? ==>
            && r.outcome.totalFound == |p.outcome.results|
            && r.outcome.newPagesCount <= r.outcome.totalFound
            && r.outcome.newPagesCount == |NewResults(p.outcome.results, UrlsOf(st.pages, site.id))|
            && r.store.sites == WriteStatus(st.sites, site.id, Success(now))
            && r.store.pages == st.pages + PagesAfter(st.pages, site.id, p, now)
            && UrlsOf(r.store.pages, site.id) == UrlsOf(st.pages, site.id) + Links(p.outcome.results))
      && (r.outcome.CrawlFailed? ==>
            && r.outcome.message == ErrorMessage(p.outcome.error)
            && r.store.pages == st.pages
            && r.store.sites == WriteStatus(st.sites, site.id, Failure(r.outcome.message)))
    ensures forall k :: |st.pages| <= k < |r.store.pages| ==> r.store.pages[k].siteId == site.id
    ensures Valid(st) && site.id in SiteIds(st.sites) ==> Valid(r.store)
  {
    var p := Search(net, site.domain, range, Some(creds.key), Some(creds.cx), env, now, fmt);
    match p.outcome
    case Failed(e) =>
      var sites := WriteStatus(st.sites, site.id, Failure(ErrorMessage(e)));
      WriteStatusKeepsKeys(st.sites, site.id, Failure(ErrorMessage(e)));
      Step(st.(sites := sites), CrawlFailed(ErrorMessage(e)))
    case Found(results) =>
      var ingested := Ingest(st.pages, site.id, results, now);
      IngestInsertsExactlyFresh(st.pages, site.id, results, now);
      var sites := WriteStatus(st.sites, site.id, Success(now));
      WriteStatusKeepsKeys(st.sites, site.id, Success(now));
      IngestKeepsValid(st, sites, site.id, results, now);
      Step(Store(sites, ingested.pages, st.settings), Crawled(|results|, ingested.newPagesCount))
  }

  /** Ingesting for a site that exists keeps the store valid, given a site
      list with the same ids and the same uniqueness. */
  lemma IngestKeepsValid(st: Store, sites: seq<Site>, siteId: string, results: seq<SearchResult>, now: nat)
    requires SiteIds(sites) == SiteIds(st.sites)
    requires UniqueSiteIds(st.sites) ==> UniqueSiteIds(sites)
    requires UniqueDomains(st.sites) ==> UniqueDomains(sites)
    ensures Valid(st) && siteId in SiteIds(st.sites) ==>
      Valid(Store(sites, Ingest(st.pages, siteId, results, now).pages, st.settings))
  {
    var pages := Ingest(st.pages, siteId, results, now).pages;
    if Valid(st) && siteId in SiteIds(st.sites) {
      forall q | q in pages
        ensures q.siteId in SiteIds(sites)
      {
        var i :| 0 <= i < |pages| && pages[i] == q;
        if i < |st.pages| {
          assert q == st.pages[i];
        }
      }
    }
  }

  /** Both branches of a crawl at once: the site gets the status write that
      follows its search, and its known URLs grow by the links found. */
  lemma RunCrawlEffect(st: Store, site: Site, range: string, creds: Credentials, env: Env,
                       net: Network, now: nat, fmt: int -> string)
    ensures var p := Search(net, site.domain, range, Some(creds.key), Some(creds.cx), env, now, fmt);
      var r := RunCrawl(st, site, range, creds, env, net, now, fmt);
      && r.store.sites == WriteStatus(st.sites, site.id, StatusAfter(p, now))
      && r.store.pages == st.pages + PagesAfter(st.pages, site.id, p, now)
      && UrlsOf(r.store.pages, site.id) == UrlsOf(st.pages, site.id) + LinksAfter(p)
  {
  }
}
