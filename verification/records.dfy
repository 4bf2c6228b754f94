/** The persisted entities (Site, Page, Setting) and the in-memory store
    that stands for the relational database, with the constraints the
    schema enforces. */
module Records {
  import opened Common

  /** A site is either crawled successfully so far or left in error. */
  datatype SiteStatus = Active | Error

  /** A monitored competitor site. `lastCrawledAt` and `createdAt` are
      milliseconds since the epoch. */
  datatype Site = Site(
    id: string,
    name: string,
    domain: string,
    crawlInterval: string,
    lastCrawledAt: Option<nat>,
    status: SiteStatus,
    errorMessage: Option<string>,
    createdAt: nat)

  /** A discovered URL of one site; identified by `(siteId, url)`. */
  datatype Page = Page(
    siteId: string,
    url: string,
    title: string,
    discoveredAt: nat,
    isRead: bool,
    createdAt: nat)

  /** One row of the key/value settings table. */
  datatype SettingRow = SettingRow(key: string, value: string)

  datatype Store = Store(sites: seq<Site>, pages: seq<Page>, settings: seq<SettingRow>)

  function SiteIds(sites: seq<Site>): set<string>
  {
    set s | s in sites :: s.id
  }

  /** The URLs on file for one site. */
  function UrlsOf(pages: seq<Page>, siteId: string): set<string>
  {
    set p | p in pages && p.siteId == siteId :: p.url
  }

  ghost predicate UniqueSiteIds(sites: seq<Site>)
  {
    forall i, j | 0 <= i < j < |sites| :: sites[i].id != sites[j].id
  }

  ghost predicate UniqueDomains(sites: seq<Site>)
  {
    forall i, j | 0 <= i < j < |sites| :: sites[i].domain != sites[j].domain
  }

  /** No URL is recorded twice for the same site. */
  ghost predicate UniquePages(pages: seq<Page>)
  {
    forall i, j | 0 <= i < j < |pages| ::
      pages[i].siteId != pages[j].siteId || pages[i].url != pages[j].url
  }

  ghost predicate UniqueKeys(rows: seq<SettingRow>)
  {
    forall i, j | 0 <= i < j < |rows| :: rows[i].key != rows[j].key
  }

  /** The constraints of the schema: primary keys, the unique domain, one
      page per (site, URL), and every page owned by an existing site. */
  ghost predicate Valid(st: Store)
  {
    && UniqueSiteIds(st.sites)
    && UniqueDomains(st.sites)
    && UniquePages(st.pages)
    && UniqueKeys(st.settings)
    && forall p | p in st.pages :: p.siteId in SiteIds(st.sites)
  }

  /** The site with the given id, if there is one. */
  function FindSite(sites: seq<Site>, id: string): (r: Option<Site>)
    ensures r.Some? <==> id in SiteIds(sites)
    ensures r.Some? ==> r.value in sites && r.value.id == id
    decreases |sites|
  {
    if |sites| == 0 then None
    else if sites[0].id == id then Some(sites[0])
    else FindSite(sites[1..], id)
  }

  /** With unique ids, looking up a row's own id finds that row. */
  lemma {:induction false} FindSiteAt(sites: seq<Site>, i: nat)
    requires UniqueSiteIds(sites) && i < |sites|
    ensures FindSite(sites, sites[i].id) == Some(sites[i])
    decreases i
  {
    if i > 0 {
      var tail := sites[1..];
      assert UniqueSiteIds(tail) by {
        forall a, b | 0 <= a < b < |tail|
          ensures tail[a].id != tail[b].id
        {
          assert tail[a] == sites[a + 1] && tail[b] == sites[b + 1];
        }
      }
      assert sites[0].id != sites[i].id;
      assert tail[i - 1] == sites[i];
      FindSiteAt(tail, i - 1);
    }
  }

  /** Appending pages of one site leaves every other site's URLs alone. */
  lemma UrlsOfOthers(a: seq<Page>, b: seq<Page>, s: string, x: string)
    requires |a| <= |b| && b[..|a|] == a
    requires forall k :: |a| <= k < |b| ==> b[k].siteId == s
    requires x != s
    ensures UrlsOf(b, x) == UrlsOf(a, x)
  {
    forall u | u in UrlsOf(b, x)
      ensures u in UrlsOf(a, x)
    {
      var q :| q in b && q.siteId == x && q.url == u;
      var k :| 0 <= k < |b| && b[k] == q;
      assert a[k] == q;
    }
    forall u | u in UrlsOf(a, x)
      ensures u in UrlsOf(b, x)
    {
      var q :| q in a && q.siteId == x && q.url == u;
      var k :| 0 <= k < |a| && a[k] == q;
      assert b[k] == q;
    }
  }
}
