/** The background scheduler: the interval table, the due check, the
    per-site crawl it runs, one tick over all sites, and the start guard. */
module Scheduler {
  import opened Common
  import opened Seqs
  import opened Records
  import opened GoogleSearch
  import opened Crawl

  const HourMs: nat := 60 * 60 * 1000

  /** The crawl interval in milliseconds; a code outside the table gets the
      one-day interval. */
  function IntervalToMs(code: string): (ms: nat)
    ensures code == "12h" ==> ms == 43_200_000
    ensures code == "1d" ==> ms == 86_400_000
    ensures code == "1w" ==> ms == 604_800_000
    ensures code !in {"12h", "1d", "1w"} ==> ms == 86_400_000
  {
    match code
    case "12h" => 12 * HourMs
    case "1w" => 7 * 24 * HourMs
    case _ => 24 * HourMs
  }

  /** A never-crawled site counts as crawled at the epoch. */
  function LastCrawledMs(site: Site): nat
  {
    match site.lastCrawledAt
    case None => 0
    case Some(t) => t
  }

  /** Level-triggered: due once the interval has elapsed since the last crawl. */
  predicate IsDue(now: nat, site: Site)
  {
    now - LastCrawledMs(site) >= IntervalToMs(site.crawlInterval)
  }

  /** Only sites whose status is active are fetched by a tick. */
  predicate IsCandidate(now: nat, site: Site)
  {
    site.status == Active && IsDue(now, site)
  }

  /** A never-crawled site is due exactly when `now` has reached its interval. */
  lemma NeverCrawledDue(now: nat, site: Site)
    requires site.lastCrawledAt.None?
    ensures IsDue(now, site) <==> now >= IntervalToMs(site.crawlInterval)
  {
  }

  /** After a successful crawl at `t` a site is due again exactly from
      `t + interval` on, and stays due until it is crawled again. */
  lemma DueAgainAfterInterval(site: Site, t: nat, now: nat, later: nat)
    ensures IsDue(now, Apply(site, Success(t))) <==> now >= t + IntervalToMs(site.crawlInterval)
    ensures IsDue(now, site) && now <= later ==> IsDue(later, site)
  {
  }

  /** A failed crawl leaves the site in error, so no tick picks it again. */
  lemma FailedSiteNotCandidate(site: Site, message: string, now: nat)
    ensures !IsCandidate(now, Apply(site, Failure(message)))
  {
  }

  /** The outcome of `crawlSite`: `None` when it returned early because the
      credentials are missing. */
  datatype SiteRun = SiteRun(store: Store, ran: Option<Outcome>)

  /** The search the scheduler runs for a site: its domain over the last
      week, with the resolved credentials; `None` when they are missing. */
  function TickSearch(settings: seq<SettingRow>, site: Site, env: Env, net: Network, now: nat,
                      fmt: int -> string): Option<Pagination>
  {
    match ResolveCredentials(settings, env)
    case None => None
    case Some(c) => Some(Search(net, site.domain, "1w", Some(c.key), Some(c.cx), env, now, fmt))
  }

  /** The scheduler's crawl of one site over the last week: returns early
      without credentials, otherwise searches, ingests and writes the
      status that follows the search. */
  function CrawlSite(st: Store, site: Site, env: Env, net: Network, now: nat, fmt: int -> string): (r: SiteRun)
    ensures ResolveCredentials(st.settings, env).None? ==> r == SiteRun(st, None)
    ensures ResolveCredentials(st.settings, env).Some? ==> r.ran.Some?
    ensures TickSearch(st.settings, site, env, net, now, fmt).Some? ==>
      var p := TickSearch(st.settings, site, env, net, now, fmt).value;
      && r.store.sites == WriteStatus(st.sites, site.id, StatusAfter(p, now))
      && r.store.pages == st.pages + PagesAfter(st.pages, site.id, p, now)
      && UrlsOf(r.store.pages, site.id) == UrlsOf(st.pages, site.id) + LinksAfter(p)
    ensures forall k :: |st.pages| <= k < |r.store.pages| ==> r.store.pages[k].siteId == site.id
    ensures r.store.settings == st.settings
    ensures |st.pages| <= |r.store.pages| && r.store.pages[..|st.pages|] == st.pages
    ensures r.ran.Some? && r.ran.value.Crawled? ==> r.store.sites == WriteStatus(st.sites, site.id, Success(now))
    ensures r.ran.Some? && r.ran.value.CrawlFailed? ==>
      r.store.sites == WriteStatus(st.sites, site.id, Failure(r.ran.value.message))
    ensures Valid(st) && site.id in SiteIds(st.sites) ==> Valid(r.store)
  {
    match ResolveCredentials(st.settings, env)
    case None => SiteRun(st, None)
    case Some(creds) =>
      var step := RunCrawl(st, site, "1w", creds, env, net, now, fmt);
      RunCrawlEffect(st, site, "1w", creds, env, net, now, fmt);
      SiteRun(step.store, Some(step.outcome))
  }

  function Ids(sites: seq<Site>): seq<string>
  {
    seq(|sites|, i requires 0 <= i < |sites| => sites[i].id)
  }

  /** The sites a tick at `now` crawls, in store order. */
  function Candidates(sites: seq<Site>, now: nat): seq<Site>
  {
    Filter(sites, (s: Site) => IsCandidate(now, s))
  }

  lemma CandidatesSnoc(sites: seq<Site>, site: Site, now: nat)
    ensures Ids(Candidates(sites + [site], now))
         == Ids(Candidates(sites, now)) + (if IsCandidate(now, site) then [site.id] else [])
  {
    FilterSnoc(sites, site, (s: Site) => IsCandidate(now, s));
  }

  /** `crawled` lists the candidates among the first `i` sites. */
  ghost predicate CrawledUpTo(sites: seq<Site>, crawled: seq<string>, i: nat, now: nat)
  {
    i <= |sites| && crawled == Ids(Candidates(sites[..i], now))
  }

  lemma CrawledStep(sites: seq<Site>, crawled: seq<string>, i: nat, now: nat)
    requires CrawledUpTo(sites, crawled, i, now) && i < |sites|
    ensures CrawledUpTo(sites, crawled + (if IsCandidate(now, sites[i]) then [sites[i].id] else []), i + 1, now)
  {
    assert sites[..i + 1] == sites[..i] + [sites[i]];
    CandidatesSnoc(sites[..i], sites[i], now);
  }

  lemma CrawledDone(sites: seq<Site>, crawled: seq<string>, now: nat)
    requires CrawledUpTo(sites, crawled, |sites|, now)
    ensures crawled == Ids(Candidates(sites, now))
  {
    assert sites[..|sites|] == sites;
  }

  /** The search result that decides site `j`'s fate in a tick: its own
      search when it is a candidate and credentials resolve. */
  function TickEffect(st: Store, j: nat, env: Env, net: Network, now: nat, fmt: int -> string): Option<Pagination>
    requires j < |st.sites|
  {
    if IsCandidate(now, st.sites[j]) then TickSearch(st.settings, st.sites[j], env, net, now, fmt) else None
  }

  /** Site `j` after the tick has visited it: the status write that follows
      its search, or unchanged when it was not crawled. */
  function TickedSite(st: Store, j: nat, env: Env, net: Network, now: nat, fmt: int -> string): Site
    requires j < |st.sites|
  {
    match TickEffect(st, j, env, net, now, fmt)
    case None => st.sites[j]
    case Some(p) => Apply(st.sites[j], StatusAfter(p, now))
  }

  /** The links the tick records for site `j`: those its search found. */
  function TickedLinks(st: Store, j: nat, env: Env, net: Network, now: nat, fmt: int -> string): set<string>
    requires j < |st.sites|
  {
    match TickEffect(st, j, env, net, now, fmt)
    case None => {}
    case Some(p) => LinksAfter(p)
  }

  /** Each of the first `i` sites is as its own search decided; the rest
      are as they were. */
  ghost predicate SitesTicked(st: Store, after: Store, i: nat, env: Env, net: Network, now: nat, fmt: int -> string)
  {
    && i <= |st.sites| == |after.sites|
    && forall j :: 0 <= j < |st.sites| ==>
         after.sites[j] == if j < i then TickedSite(st, j, env, net, now, fmt) else st.sites[j]
  }

  /** Each of the first `i` sites has the links its search found added. */
  ghost predicate UrlsTicked(st: Store, after: Store, i: nat, env: Env, net: Network, now: nat, fmt: int -> string)
  {
    && i <= |st.sites|
    && forall j :: 0 <= j < |st.sites| ==>
         UrlsOf(after.pages, st.sites[j].id)
         == UrlsOf(st.pages, st.sites[j].id) + (if j < i then TickedLinks(st, j, env, net, now, fmt) else {})
  }

  /** A page the tick created: unread, discovered now, and made from one of
      the results of its own site's search. */
  ghost predicate TickPage(st: Store, q: Page, env: Env, net: Network, now: nat, fmt: int -> string)
  {
    && !q.isRead && q.discoveredAt == now
    && exists j :: 0 <= j < |st.sites| && st.sites[j].id == q.siteId
         && TickEffect(st, j, env, net, now, fmt).Some?
         && CreatedFrom(TickEffect(st, j, env, net, now, fmt).value, q, now)
  }

  /** Every page added since the start of the tick is one the tick created. */
  ghost predicate PagesTicked(st: Store, after: Store, env: Env, net: Network, now: nat, fmt: int -> string)
  {
    forall k :: |st.pages| <= k < |after.pages| ==> TickPage(st, after.pages[k], env, net, now, fmt)
  }

  /** After visiting the first `i` sites of `st`: the visited sites are as
      their searches decided, the store is valid, settings are untouched and
      the old pages are a prefix of the new ones. */
  ghost predicate TickedUpTo(st: Store, after: Store, i: nat, env: Env, net: Network, now: nat, fmt: int -> string)
  {
    && Valid(after)
    && after.settings == st.settings
    && |st.pages| <= |after.pages| && after.pages[..|st.pages|] == st.pages
    && SitesTicked(st, after, i, env, net, now, fmt)
    && UrlsTicked(st, after, i, env, net, now, fmt)
    && PagesTicked(st, after, env, net, now, fmt)
    && (ResolveCredentials(st.settings, env).None? ==> after == st)
  }

  /** Visiting site `i` (crawling it when it is a candidate) extends the progress by one. */
  lemma {:induction false} TickStep(st: Store, after: Store, i: nat, env: Env, net: Network, now: nat, fmt: int -> string, next: Store)
    requires Valid(st)
    requires TickedUpTo(st, after, i, env, net, now, fmt) && i < |st.sites|
    requires next == Advance(st, after, i, env, net, now, fmt)
    ensures TickedUpTo(st, next, i + 1, env, net, now, fmt)
  {
    if IsCandidate(now, st.sites[i]) {
      PrefixTransitive(st.pages, after.pages, next.pages);
      SitesStep(st, after, i, env, net, now, fmt, next);
      UrlsStep(st, after, i, env, net, now, fmt, next);
      PagesStep(st, after, i, env, net, now, fmt, next);
    } else {
      SkipStep(st, after, i, env, net, now, fmt);
    }
  }

  /** A site that is not a candidate is done without touching the store. */
  lemma SkipStep(st: Store, after: Store, i: nat, env: Env, net: Network, now: nat, fmt: int -> string)
    requires SitesTicked(st, after, i, env, net, now, fmt)
    requires UrlsTicked(st, after, i, env, net, now, fmt) && i < |st.sites|
    requires !IsCandidate(now, st.sites[i])
    ensures SitesTicked(st, after, i + 1, env, net, now, fmt)
    ensures UrlsTicked(st, after, i + 1, env, net, now, fmt)
  {
    assert TickEffect(st, i, env, net, now, fmt).None?;
  }

  lemma PagesStep(st: Store, after: Store, i: nat, env: Env, net: Network, now: nat, fmt: int -> string, next: Store)
    requires Valid(after) && after.settings == st.settings
    requires i < |st.sites| == |after.sites| && after.sites[i] == st.sites[i]
    requires PagesTicked(st, after, env, net, now, fmt)
    requires IsCandidate(now, st.sites[i]) && next == Visit(after, i, env, net, now, fmt)
    ensures PagesTicked(st, next, env, net, now, fmt)
  {
    forall k | |st.pages| <= k < |next.pages|
      ensures TickPage(st, next.pages[k], env, net, now, fmt)
    {
      if k < |after.pages| {
        assert next.pages[k] == next.pages[..|after.pages|][k];
      } else {
        match TickSearch(after.settings, after.sites[i], env, net, now, fmt)
        case None =>
          assert false;
        case Some(p) =>
          var added := PagesAfter(after.pages, st.sites[i].id, p, now);
          assert next.pages[k] == added[k - |after.pages|];
          assert TickEffect(st, i, env, net, now, fmt) == Some(p);
      }
    }
  }

  lemma SitesStep(st: Store, after: Store, i: nat, env: Env, net: Network, now: nat, fmt: int -> string, next: Store)
    requires Valid(after) && after.settings == st.settings
    requires SitesTicked(st, after, i, env, net, now, fmt) && i < |st.sites|
    requires IsCandidate(now, st.sites[i]) && next == Visit(after, i, env, net, now, fmt)
    ensures SitesTicked(st, next, i + 1, env, net, now, fmt)
  {
    assert after.sites[i] == st.sites[i];
  }

  lemma UrlsStep(st: Store, after: Store, i: nat, env: Env, net: Network, now: nat, fmt: int -> string, next: Store)
    requires Valid(st) && Valid(after) && after.settings == st.settings
    requires SitesTicked(st, after, i, env, net, now, fmt)
    requires UrlsTicked(st, after, i, env, net, now, fmt) && i < |st.sites|
    requires IsCandidate(now, st.sites[i]) && next == Visit(after, i, env, net, now, fmt)
    ensures UrlsTicked(st, next, i + 1, env, net, now, fmt)
  {
    var id := st.sites[i].id;
    assert after.sites[i] == st.sites[i];
    assert TickEffect(st, i, env, net, now, fmt) == TickSearch(after.settings, after.sites[i], env, net, now, fmt);
    assert UrlsOf(next.pages, id) == UrlsOf(after.pages, id) + TickedLinks(st, i, env, net, now, fmt);
    forall j | 0 <= j < |st.sites| && j != i
      ensures UrlsOf(next.pages, st.sites[j].id) == UrlsOf(after.pages, st.sites[j].id)
    {
      assert st.sites[j].id != id;
      UrlsOfOthers(after.pages, next.pages, id, st.sites[j].id);
    }
    UrlsTickedNext(st, after, next, i, env, net, now, fmt);
  }

  /** Site `i`'s URLs gained its links and nobody else's changed: one more
      site is done. */
  lemma UrlsTickedNext(st: Store, after: Store, next: Store, i: nat, env: Env, net: Network, now: nat, fmt: int -> string)
    requires UrlsTicked(st, after, i, env, net, now, fmt) && i < |st.sites|
    requires UrlsOf(next.pages, st.sites[i].id) == UrlsOf(after.pages, st.sites[i].id) + TickedLinks(st, i, env, net, now, fmt)
    requires forall j :: 0 <= j < |st.sites| && j != i ==>
      UrlsOf(next.pages, st.sites[j].id) == UrlsOf(after.pages, st.sites[j].id)
    ensures UrlsTicked(st, next, i + 1, env, net, now, fmt)
  {
  }

  /** Each candidate ends the tick as the scheduler's crawl of that site
      alone, on the store the tick started from, would leave it. */
  lemma TickedAsCrawlSite(st: Store, j: nat, env: Env, net: Network, now: nat, fmt: int -> string)
    requires Valid(st) && j < |st.sites| && IsCandidate(now, st.sites[j])
    ensures var r := CrawlSite(st, st.sites[j], env, net, now, fmt).store;
      && FindSite(r.sites, st.sites[j].id) == Some(TickedSite(st, j, env, net, now, fmt))
      && UrlsOf(r.pages, st.sites[j].id) == UrlsOf(st.pages, st.sites[j].id) + TickedLinks(st, j, env, net, now, fmt)
  {
    FindSiteAt(st.sites, j);
  }

  lemma TickStart(st: Store, env: Env, net: Network, now: nat, fmt: int -> string)
    requires Valid(st)
    ensures TickedUpTo(st, st, 0, env, net, now, fmt)
  {
    assert st.pages[..|st.pages|] == st.pages;
  }

  lemma TickDone(st: Store, after: Store, env: Env, net: Network, now: nat, fmt: int -> string)
    requires TickedUpTo(st, after, |st.sites|, env, net, now, fmt)
    ensures forall k :: |st.pages| <= k < |after.pages| ==> TickPage(st, after.pages[k], env, net, now, fmt)
    ensures |after.sites| == |st.sites|
    ensures forall i :: 0 <= i < |st.sites| ==> after.sites[i] == TickedSite(st, i, env, net, now, fmt)
    ensures forall i :: 0 <= i < |st.sites| ==>
      UrlsOf(after.pages, st.sites[i].id) == UrlsOf(st.pages, st.sites[i].id) + TickedLinks(st, i, env, net, now, fmt)
  {
  }

  /** One tick of `checkAndCrawl`: every active, due site is crawled in turn
      and gets the status that follows its own search, with the links it
      found recorded; every other site is left exactly as it was. Returns
      the store after the tick and the ids of the sites it crawled. */
  method Tick(st: Store, env: Env, net: Network, now: nat, fmt: int -> string)
    returns (after: Store, crawled: seq<string>)
    requires Valid(st)
    ensures Valid(after)
    ensures crawled == Ids(Candidates(st.sites, now))
    ensures after.settings == st.settings
    ensures |st.pages| <= |after.pages| && after.pages[..|st.pages|] == st.pages
    ensures |after.sites| == |st.sites|
    ensures forall i :: 0 <= i < |st.sites| ==> after.sites[i] == TickedSite(st, i, env, net, now, fmt)
    ensures forall i :: 0 <= i < |st.sites| ==>
      UrlsOf(after.pages, st.sites[i].id) == UrlsOf(st.pages, st.sites[i].id) + TickedLinks(st, i, env, net, now, fmt)
    ensures forall k :: |st.pages| <= k < |after.pages| ==>
      && !after.pages[k].isRead && after.pages[k].discoveredAt == now
      && TickPage(st, after.pages[k], env, net, now, fmt)
    ensures ResolveCredentials(st.settings, env).None? ==> after == st
  {
    after := st;
    crawled := [];
    var i := 0;
    TickStart(st, env, net, now, fmt);
    assert CrawledUpTo(st.sites, crawled, 0, now) by {
      assert st.sites[..0] == [];
    }
    while i < |st.sites|
      invariant 0 <= i <= |st.sites|
      invariant TickedUpTo(st, after, i, env, net, now, fmt)
      invariant CrawledUpTo(st.sites, crawled, i, now)
    {
      CrawledStep(st.sites, crawled, i, now);
      crawled := crawled + (if IsCandidate(now, st.sites[i]) then [st.sites[i].id] else []);
      var next := Advance(st, after, i, env, net, now, fmt);
      TickStep(st, after, i, env, net, now, fmt, next);
      after := next;
      i := i + 1;
    }
    CrawledDone(st.sites, crawled, now);
    TickDone(st, after, env, net, now, fmt);
  }

  /** The store after the tick has looked at site `i`: crawled when it is
      a candidate, untouched otherwise. */
  function Advance(st: Store, after: Store, i: nat, env: Env, net: Network, now: nat, fmt: int -> string): Store
    requires Valid(after) && i < |st.sites| && i < |after.sites|
  {
    if IsCandidate(now, st.sites[i]) then Visit(after, i, env, net, now, fmt) else after
  }

  /** The store after crawling the site at index `i`: that site alone is
      rewritten, by its own search, and only its pages are added. */
  function Visit(st: Store, i: nat, env: Env, net: Network, now: nat, fmt: int -> string): (next: Store)
    requires Valid(st) && i < |st.sites|
    ensures Valid(next)
    ensures next.settings == st.settings
    ensures |st.pages| <= |next.pages| && next.pages[..|st.pages|] == st.pages
    ensures forall k :: |st.pages| <= k < |next.pages| ==> next.pages[k].siteId == st.sites[i].id
    ensures |next.sites| == |st.sites|
    ensures forall j :: 0 <= j < |st.sites| && j != i ==> next.sites[j] == st.sites[j]
    ensures TickSearch(st.settings, st.sites[i], env, net, now, fmt).Some? ==>
      var p := TickSearch(st.settings, st.sites[i], env, net, now, fmt).value;
      && next.sites[i] == Apply(st.sites[i], StatusAfter(p, now))
      && next.pages == st.pages + PagesAfter(st.pages, st.sites[i].id, p, now)
      && UrlsOf(next.pages, st.sites[i].id) == UrlsOf(st.pages, st.sites[i].id) + LinksAfter(p)
    ensures ResolveCredentials(st.settings, env).None? ==> next == st
  {
    var site := st.sites[i];
    assert site.id in SiteIds(st.sites);
    assert forall j :: 0 <= j < |st.sites| && j != i ==> st.sites[j].id != site.id;
    var r := CrawlSite(st, site, env, net, now, fmt);
    match TickSearch(st.settings, site, env, net, now, fmt)
    case None => r.store
    case Some(p) =>
      WriteStatusAt(st.sites, site.id, StatusAfter(p, now), i);
      r.store
  }

  lemma PrefixTransitive<T>(a: seq<T>, b: seq<T>, c: seq<T>)
    requires |a| <= |b| && b[..|a|] == a
    requires |b| <= |c| && c[..|b|] == b
    ensures |a| <= |c| && c[..|a|] == a
  {
    assert c[..|a|] == c[..|b|][..|a|];
  }

  /** The process-wide start guard of `startScheduler`. */
  datatype SchedulerState = SchedulerState(started: bool, timers: nat)

  const Boot: SchedulerState := SchedulerState(false, 0)

  /** Registers the per-minute timer unless one was registered already. */
  function StartScheduler(s: SchedulerState): (r: SchedulerState)
    ensures r.started
    ensures r.timers == if s.started then s.timers else s.timers + 1
  {
    if s.started then s else SchedulerState(true, s.timers + 1)
  }

  function StartTimes(s: SchedulerState, n: nat): SchedulerState
    decreases n
  {
    if n == 0 then s else StartTimes(StartScheduler(s), n - 1)
  }

  lemma {:induction false} StartedStaysPut(s: SchedulerState, n: nat)
    requires s.started
    ensures StartTimes(s, n) == s
    decreases n
  {
    if n > 0 {
      StartedStaysPut(StartScheduler(s), n - 1);
    }
  }

  /** However many times the process calls `startScheduler`, at most one
      timer is registered. */
  lemma AtMostOneTimer(n: nat)
    ensures StartTimes(Boot, n).timers == if n == 0 then 0 else 1
  {
    if n > 0 {
      StartedStaysPut(StartScheduler(Boot), n - 1);
    }
  }

  // The interval table as written is a plain object literal, so indexing it
  // with a key that `Object.prototype` defines yields an inherited member
  // rather than `undefined`. Such a member is truthy, so the `|| 1d` fallback
  // does not apply, and comparing a number with it compares with NaN.

  /** The property names every object literal inherits. */
  const ObjectPrototypeKeys: set<string> := {
    "constructor", "hasOwnProperty", "isPrototypeOf", "propertyIsEnumerable",
    "toLocaleString", "toString", "valueOf", "__defineGetter__",
    "__defineSetter__", "__lookupGetter__", "__lookupSetter__", "__proto__"
  }

  /** What indexing the interval table yields: a number, nothing, or an
      inherited function/object. */
  datatype JsValue = Number(n: nat) | Undefined | Inherited

  function IntervalLookupAsWritten(code: string): (v: JsValue)
    ensures v.Number? <==> code in {"12h", "1d", "1w"}
    ensures v.Number? ==> v.n == IntervalToMs(code)
    ensures v == Inherited <==> code in ObjectPrototypeKeys
  {
    if code in {"12h", "1d", "1w"} then Number(IntervalToMs(code))
    else if code in ObjectPrototypeKeys then Inherited
    else Undefined
  }

  /** The interval lookup as the code does it, on a plain object: only a
      missing entry (or a zero, which the table does not hold) falls back
      to one day. */
  function IntervalAsWritten(code: string): JsValue
  {
    match IntervalLookupAsWritten(code)
    case Number(n) => if n == 0 then Number(IntervalToMs("1d")) else Number(n)
    case Undefined => Number(IntervalToMs("1d"))
    case Inherited => Inherited
  }

  /** The due check as written: a comparison with NaN is false. */
  predicate IsDueAsWritten(now: nat, site: Site)
  {
    match IntervalAsWritten(site.crawlInterval)
    case Number(ms) => now - LastCrawledMs(site) >= ms
    case _ => false
  }

  /** A site whose interval code names an inherited property is never due,
      however long ago it was crawled. */
  lemma PrototypeKeyNeverDue(now: nat, site: Site)
    requires site.crawlInterval in ObjectPrototypeKeys
    ensures !IsDueAsWritten(now, site)
    ensures now >= LastCrawledMs(site) + 86_400_000 ==> IsDue(now, site)
  {
  }

  /** Concretely: a never-crawled site created with interval "toString" is
      overdue after a day under the intended rule and skipped as written. */
  lemma ToStringSiteSkipped()
    ensures var site := Site("s1", "Example", "example.com", "toString", None, Active, None, 0);
      IsCandidate(86_400_000, site) && !IsDueAsWritten(86_400_000, site)
  {
    var site := Site("s1", "Example", "example.com", "toString", None, Active, None, 0);
    PrototypeKeyNeverDue(86_400_000, site);
  }

  /** For every other code the table lookup as written and the corrected
      interval agree. */
  lemma AsWrittenAgreesElsewhere(now: nat, site: Site)
    requires site.crawlInterval !in ObjectPrototypeKeys
    ensures IsDueAsWritten(now, site) <==> IsDue(now, site)
  {
  }
}
