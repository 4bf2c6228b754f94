/** `POST /api/sites`: domain clean-up and site creation. */
module SitesRoute {
  import opened Common
  import opened Text
  import opened Records

  /** Drops one leading `http://` or `https://`, written in lower case
      only; any other prefix stays. */
  function StripScheme(d: string): (r: string)
    ensures StartsWith(d, "http://") ==> r == d[7..]
    ensures StartsWith(d, "https://") ==> r == d[8..]
    ensures !StartsWith(d, "http://") && !StartsWith(d, "https://") ==> r == d
  {
    SchemesExclusive(d);
    if StartsWith(d, "http://") then d[7..]
    else if StartsWith(d, "https://") then d[8..]
    else d
  }

  /** No string starts with both schemes: they differ at index 4. */
  lemma SchemesExclusive(d: string)
    ensures !(StartsWith(d, "http://") && StartsWith(d, "https://"))
  {
    if StartsWith(d, "https://") {
      assert d[4] == "https://"[4];
    }
  }

  /** Drops every slash at the end of the string. */
  function TrimSlashes(s: string): (r: string)
    ensures |r| <= |s| && s[..|r|] == r
    ensures forall i :: |r| <= i < |s| ==> s[i] == '/'
    ensures |r| == 0 || r[|r| - 1] != '/'
    decreases |s|
  {
    if |s| > 0 && s[|s| - 1] == '/' then TrimSlashes(s[..|s| - 1]) else s
  }

  predicate EndsWithSlash(s: string)
  {
    |s| > 0 && s[|s| - 1] == '/'
  }

  predicate HasScheme(s: string)
  {
    StartsWith(s, "http://") || StartsWith(s, "https://")
  }

  predicate HasUpper(s: string)
  {
    exists i :: 0 <= i < |s| && IsUpperAscii(s[i])
  }

  /** The stored form of a domain: scheme stripped, trailing slashes
      trimmed, lower-cased. */
  function NormalizeDomain(d: string): (r: string)
    ensures |r| <= |d|
    ensures !HasUpper(r) && !EndsWithSlash(r)
  {
    var t := TrimSlashes(StripScheme(d));
    var r := ToLower(t);
    assert |r| > 0 ==> r[|r| - 1] == LowerChar(t[|t| - 1]);
    r
  }

  /** A domain already in stored form is stored as it is. */
  lemma NormalFormUnchanged(d: string)
    requires !HasScheme(d) && !EndsWithSlash(d) && !HasUpper(d)
    ensures NormalizeDomain(d) == d
  {
    assert TrimSlashes(d) == d;
    assert ToLower(d) == d;
  }

  /** Normalising twice is normalising once, provided the first pass did
      not leave a lower-case scheme behind. */
  lemma NormalizeIdempotentWithoutScheme(d: string)
    requires !HasScheme(NormalizeDomain(d))
    ensures NormalizeDomain(NormalizeDomain(d)) == NormalizeDomain(d)
  {
    NormalFormUnchanged(NormalizeDomain(d));
  }

  /** The scheme test runs before lower-casing, so an upper-case scheme
      survives the first pass as a lower-case one and goes on the second. */
  lemma UpperCaseSchemeNotIdempotent()
    ensures NormalizeDomain("HTTP://X/") == "http://x"
    ensures NormalizeDomain("http://x") == "x"
  {
    var d := "HTTP://X/";
    assert d[0] == 'H';
    assert StripScheme(d) == d;
    assert TrimSlashes(d) == "HTTP://X" by {
      assert d[..|d| - 1] == "HTTP://X";
      assert TrimSlashes("HTTP://X") == "HTTP://X";
    }
    assert ToLower("HTTP://X") == "http://x";
    var e := "http://x";
    assert StartsWith(e, "http://");
    assert StripScheme(e) == "x";
    assert TrimSlashes("x") == "x";
  }

  function Domains(sites: seq<Site>): set<string>
  {
    set s | s in sites :: s.domain
  }

  /** The JSON body's string fields; anything else is absent. */
  datatype SiteBody = SiteBody(name: Option<string>, domain: Option<string>, crawlInterval: Option<string>)

  const NameAndDomainRequired: string := "Name and domain are required"
  const DomainExists: string := "该域名已存在"

  datatype Response = Fail(status: nat, error: string) | Created(site: Site)

  datatype Reply = Reply(store: Store, response: Response)

  /** The new row: `crawlInterval || "1d"`, active, never crawled. `newId`
      stands for the database's id generator. */
  function NewSite(newId: string, name: string, domain: string, interval: Option<string>, now: nat): (s: Site)
    ensures s.status == Active && s.lastCrawledAt.None? && s.errorMessage.None?
    ensures s.crawlInterval == if Truthy(interval) then interval.value else "1d"
  {
    Site(newId, name, domain, Or(interval, Some("1d")).value, None, Active, None, now)
  }

  function Post(st: Store, body: SiteBody, newId: string, now: nat): (r: Reply)
    ensures !Truthy(body.name) || !Truthy(body.domain) ==>
      r == Reply(st, Fail(400, NameAndDomainRequired))
    ensures Truthy(body.name) && Truthy(body.domain) && NormalizeDomain(body.domain.value) in Domains(st.sites) ==>
      r == Reply(st, Fail(400, DomainExists))
    ensures r.response.Created? <==>
      Truthy(body.name) && Truthy(body.domain) && NormalizeDomain(body.domain.value) !in Domains(st.sites)
    ensures r.response.Fail? ==> r.store == st
    ensures r.response.Created? ==>
      && r.store == st.(sites := st.sites + [r.response.site])
      && r.response.site.id == newId
      && r.response.site.name == body.name.value
      && r.response.site.domain == NormalizeDomain(body.domain.value)
      && r.response.site.createdAt == now
      && r.response.site == NewSite(newId, body.name.value, r.response.site.domain, body.crawlInterval, now)
    ensures Valid(st) && newId !in SiteIds(st.sites) ==> Valid(r.store)
  {
    if !Truthy(body.name) || !Truthy(body.domain) then Reply(st, Fail(400, NameAndDomainRequired))
    else
      var clean := NormalizeDomain(body.domain.value);
      if clean in Domains(st.sites) then Reply(st, Fail(400, DomainExists))
      else
        var site := NewSite(newId, body.name.value, clean, body.crawlInterval, now);
        AppendKeepsValid(st, site);
        Reply(st.(sites := st.sites + [site]), Created(site))
  }

  lemma AppendKeepsValid(st: Store, site: Site)
    ensures Valid(st) && site.id !in SiteIds(st.sites) && site.domain !in Domains(st.sites) ==>
      Valid(st.(sites := st.sites + [site]))
  {
    if Valid(st) && site.id !in SiteIds(st.sites) && site.domain !in Domains(st.sites) {
      var sites := st.sites + [site];
      assert forall j :: 0 <= j < |st.sites| ==> sites[j] == st.sites[j] && st.sites[j] in st.sites;
      assert SiteIds(st.sites) <= SiteIds(sites);
    }
  }

  /** Two requests naming the same domain in different spellings cannot
      both create a site: the second is refused. */
  lemma SecondSpellingRefused(st: Store, name: string, d1: string, d2: string, id1: string, id2: string, now: nat)
    requires name != "" && d1 != "" && d2 != ""
    requires NormalizeDomain(d1) == NormalizeDomain(d2)
    requires Post(st, SiteBody(Some(name), Some(d1), None), id1, now).response.Created?
    ensures Post(Post(st, SiteBody(Some(name), Some(d1), None), id1, now).store,
                 SiteBody(Some(name), Some(d2), None), id2, now).response == Fail(400, DomainExists)
  {
    var r := Post(st, SiteBody(Some(name), Some(d1), None), id1, now);
    assert r.response.site in r.store.sites;
  }

  /** The clean-up can leave nothing: a bare scheme is accepted and stored
      as the empty domain. */
  lemma BareSchemeStoredEmpty(st: Store, id: string, now: nat)
    requires "" !in Domains(st.sites)
    ensures var r := Post(st, SiteBody(Some("x"), Some("https://"), None), id, now);
      r.response.Created? && r.response.site.domain == ""
  {
    assert NormalizeDomain("https://") == "";
  }
}
