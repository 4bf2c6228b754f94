/** `POST /api/crawl`: a manual crawl of one site, with the request's own
    date range. */
module CrawlRoute {
  import opened Common
  import opened Records
  import opened GoogleSearch
  import opened Crawl
  import Scheduler

  /** The JSON body; a missing `dateRange` defaults to "1w". */
  datatype CrawlBody = CrawlBody(siteId: Option<string>, dateRange: Option<string>)

  const SiteIdRequired: string := "siteId is required"
  const SiteNotFound: string := "Site not found"
  const ApiNotConfigured: string := "Google API 未配置，请先在设置中配置 API Key 和 Search Engine ID"

  /** `Unhandled` is the framework's own 500 for an exception that escapes
      the handler: no JSON body, no error message. */
  datatype Response =
    | Fail(status: nat, error: string)
    | Ok(newPagesCount: nat, totalFound: nat)
    | Unhandled

  datatype Reply = Reply(store: Store, response: Response)

  /** Destructuring default: only an absent field takes "1w". */
  function RangeOf(body: CrawlBody): string
  {
    match body.dateRange
    case None => "1w"
    case Some(r) => r
  }

  /** The handler: validation, lookup, credentials, then one crawl. */
  function Post(st: Store, body: CrawlBody, env: Env, net: Network, now: nat, fmt: int -> string): (r: Reply)
    ensures !Truthy(body.siteId) ==> r == Reply(st, Fail(400, SiteIdRequired))
    ensures Truthy(body.siteId) && body.siteId.value !in SiteIds(st.sites) ==>
      r == Reply(st, Fail(404, SiteNotFound))
    ensures (Truthy(body.siteId) && body.siteId.value in SiteIds(st.sites)
             && ResolveCredentials(st.settings, env).None?) ==> r == Reply(st, Fail(400, ApiNotConfigured))
    ensures r.response.Fail? && r.response.status != 500 ==> r.store == st
    ensures r.response.Ok? ==>
      && Truthy(body.siteId)
      && var id := body.siteId.value;
         && id in SiteIds(st.sites)
         && r.response.newPagesCount <= r.response.totalFound
         && r.store.sites == WriteStatus(st.sites, id, Success(now))
    ensures r.response.Ok? ==>
      && FindSite(st.sites, body.siteId.value).Some?
      && ResolveCredentials(st.settings, env).Some?
      && var site := FindSite(st.sites, body.siteId.value).value;
         var creds := ResolveCredentials(st.settings, env).value;
         var p := Search(net, site.domain, RangeOf(body), Some(creds.key), Some(creds.cx), env, now, fmt);
         && p.outcome.Found?
         && r.response.totalFound == |p.outcome.results|
         && r.response.newPagesCount == |Dedup.NewResults(p.outcome.results, UrlsOf(st.pages, site.id))|
         && r.store.pages == st.pages + PagesAfter(st.pages, site.id, p, now)
    ensures r.response.Fail? && r.response.status == 500 ==>
      && Truthy(body.siteId)
      && r.store.pages == st.pages
      && r.store.sites == WriteStatus(st.sites, body.siteId.value, Failure(r.response.error))
    ensures r.store.settings == st.settings
    ensures |st.pages| <= |r.store.pages| && r.store.pages[..|st.pages|] == st.pages
    ensures Valid(st) ==> Valid(r.store)
  {
    if !Truthy(body.siteId) then Reply(st, Fail(400, SiteIdRequired))
    else
      match FindSite(st.sites, body.siteId.value)
      case None => Reply(st, Fail(404, SiteNotFound))
      case Some(site) =>
        match ResolveCredentials(st.settings, env)
        case None => Reply(st, Fail(400, ApiNotConfigured))
        case Some(creds) =>
          var step := RunCrawl(st, site, RangeOf(body), creds, env, net, now, fmt);
          match step.outcome
          case Crawled(total, added) => Reply(step.store, Ok(added, total))
          case CrawlFailed(message) => Reply(step.store, Fail(500, message))
  }

  /** A successful reply reports what the search found and what it wrote:
      `totalFound` is the number of results, and afterwards the site's
      known URLs are the old ones plus every result link. */
  lemma OkReportsSearch(st: Store, body: CrawlBody, env: Env, net: Network, now: nat, fmt: int -> string,
                        site: Site, creds: Credentials)
    requires Truthy(body.siteId) && FindSite(st.sites, body.siteId.value) == Some(site)
    requires ResolveCredentials(st.settings, env) == Some(creds)
    ensures var p := Search(net, site.domain, RangeOf(body), Some(creds.key), Some(creds.cx), env, now, fmt);
      var r := Post(st, body, env, net, now, fmt);
      && (r.response.Ok? <==> p.outcome.Found?)
      && (r.response.Ok? ==>
            && r.response.totalFound == |p.outcome.results|
            && r.response.newPagesCount == |Dedup.NewResults(p.outcome.results, UrlsOf(st.pages, site.id))|
            && r.store.pages == st.pages + PagesAfter(st.pages, site.id, p, now)
            && UrlsOf(r.store.pages, site.id) == UrlsOf(st.pages, site.id) + Dedup.Links(p.outcome.results))
      && (r.response.Fail? ==> r.response.status == 500 && r.response.error == ErrorMessage(p.outcome.error))
  {
  }

  /** Without a `dateRange` the manual crawl changes the store exactly as the
      scheduler's crawl of the same site does. */
  lemma DefaultRangeMatchesScheduler(st: Store, id: string, env: Env, net: Network, now: nat, fmt: int -> string,
                                     site: Site)
    requires id != "" && FindSite(st.sites, id) == Some(site)
    ensures Post(st, CrawlBody(Some(id), None), env, net, now, fmt).store
         == Scheduler.CrawlSite(st, site, env, net, now, fmt).store
  {
  }

  /** The handler as it is written. Its catch block reads the request body
      again through `request.clone().json()`, but the body was consumed by
      `request.json()` on entry and a consumed request cannot be cloned.
      That call throws, so a failing crawl writes no error status and the
      exception escapes as the framework's bare 500. */
  function PostAsWritten(st: Store, body: CrawlBody, env: Env, net: Network, now: nat, fmt: int -> string): (r: Reply)
    ensures !Truthy(body.siteId) ==> r == Reply(st, Fail(400, SiteIdRequired))
    ensures Truthy(body.siteId) && body.siteId.value !in SiteIds(st.sites) ==>
      r == Reply(st, Fail(404, SiteNotFound))
    ensures r.response.Fail? ==> r.store == st && r.response.status != 500
    ensures r.response.Unhandled? ==> r.store == st
    ensures r.response.Ok? ==>
      && Truthy(body.siteId)
      && r.store.sites == WriteStatus(st.sites, body.siteId.value, Success(now))
  {
    if !Truthy(body.siteId) then Reply(st, Fail(400, SiteIdRequired))
    else
      match FindSite(st.sites, body.siteId.value)
      case None => Reply(st, Fail(404, SiteNotFound))
      case Some(site) =>
        match ResolveCredentials(st.settings, env)
        case None => Reply(st, Fail(400, ApiNotConfigured))
        case Some(creds) =>
          var step := RunCrawl(st, site, RangeOf(body), creds, env, net, now, fmt);
          match step.outcome
          case Crawled(total, added) => Reply(step.store, Ok(added, total))
          case CrawlFailed(_) => Reply(st, Unhandled)
  }

  /** The two handlers part exactly on a failing crawl: there the corrected
      one answers 500 with the message, the one as written escapes; on
      every other path they give the same reply. */
  lemma AsWrittenPartsOnFailure(st: Store, body: CrawlBody, env: Env, net: Network, now: nat, fmt: int -> string)
    ensures var fixed := Post(st, body, env, net, now, fmt);
      var written := PostAsWritten(st, body, env, net, now, fmt);
      && (written.response.Unhandled? <==> fixed.response.Fail? && fixed.response.status == 500)
      && (!written.response.Unhandled? ==> written == fixed)
  {
  }

  /** A failing search on a site with credentials: the scheduled crawl and
      the corrected handler mark the site as failed with the provider's
      message; the handler as written leaves the site as it was. */
  lemma FailedCrawlStatusLost(st: Store, id: string, env: Env, net: Network, now: nat, fmt: int -> string,
                              site: Site, creds: Credentials)
    requires id != "" && FindSite(st.sites, id) == Some(site)
    requires ResolveCredentials(st.settings, env) == Some(creds)
    requires Search(net, site.domain, "1w", Some(creds.key), Some(creds.cx), env, now, fmt).outcome.Failed?
    ensures var e := ErrorMessage(Search(net, site.domain, "1w", Some(creds.key), Some(creds.cx), env, now, fmt).outcome.error);
      var fixed := Post(st, CrawlBody(Some(id), None), env, net, now, fmt);
      && fixed.response == Fail(500, e)
      && fixed.store == Scheduler.CrawlSite(st, site, env, net, now, fmt).store
      && FindSite(fixed.store.sites, id) == Some(site.(status := Error, errorMessage := Some(e)))
      && PostAsWritten(st, CrawlBody(Some(id), None), env, net, now, fmt) == Reply(st, Unhandled)
  {
    var body := CrawlBody(Some(id), None);
    var step := RunCrawl(st, site, "1w", creds, env, net, now, fmt);
    var e := step.outcome.message;
    assert RangeOf(body) == "1w";
    assert Post(st, body, env, net, now, fmt) == Reply(step.store, Fail(500, e));
    assert Apply(site, Failure(e)) == site.(status := Error, errorMessage := Some(e));
  }
}
