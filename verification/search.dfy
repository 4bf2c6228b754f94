/** The paginated search client: date-range codes, the query string, and
    the loop that pages through the provider 10 results at a time. The HTTP
    call is an abstract `Network`. */
module GoogleSearch {
  import opened Common

  const DayMs: nat := 24 * 60 * 60 * 1000
  /** Results per provider page (`num=10`). */
  const PageSize: nat := 10
  /** The provider never serves a start offset above 100. */
  const MaxResults: nat := 100

  /** One search hit. */
  datatype SearchResult = SearchResult(title: string, link: string)

  /** What one page request yields: the provider's `error` payload (also
      standing for a failed fetch or undecodable body), or the `items`
      array, with a missing array read as empty. */
  datatype PageResponse = ProviderError(message: string) | Items(items: seq<SearchResult>)

  /** The request parameters that stay fixed across pages. */
  datatype SearchCall = SearchCall(key: string, cx: string, query: string)

  /** The provider, as a function of the fixed parameters and the `start` offset. */
  type Network = (SearchCall, nat) -> PageResponse

  datatype SearchError = NotConfigured | Provider(message: string)

  datatype SearchOutcome = Found(results: seq<SearchResult>) | Failed(error: SearchError)

  /** The outcome together with the start offsets requested, in order. */
  datatype Pagination = Pagination(outcome: SearchOutcome, offsets: seq<nat>)

  const NotConfiguredMessage: string := "Google API Key 或 Search Engine ID 未配置"

  function ErrorMessage(e: SearchError): string
  {
    match e
    case NotConfigured => NotConfiguredMessage
    case Provider(m) => m
  }

  /** How far back a date-range code reaches, in days. */
  function DaysAgo(range: string): (days: nat)
    ensures range == "1d" ==> days == 1
    ensures range == "1w" ==> days == 7
    ensures range == "2w" ==> days == 14
    ensures range == "1m" ==> days == 30
    ensures range !in {"1d", "1w", "2w", "1m"} ==> days == 7
  {
    match range
    case "1d" => 1
    case "2w" => 14
    case "1m" => 30
    case _ => 7
  }

  /** The cutoff instant in milliseconds; it may precede the epoch. */
  function CutoffMs(now: nat, range: string): int
  {
    now - DaysAgo(range) * DayMs
  }

  /** The cutoff lies between one and thirty days before `now`, and an
      unrecognised code behaves exactly like "1w". */
  lemma CutoffBounds(now: nat, range: string)
    ensures now - 30 * 86_400_000 <= CutoffMs(now, range) <= now - 86_400_000
    ensures range !in {"1d", "1w", "2w", "1m"} ==> CutoffMs(now, range) == CutoffMs(now, "1w")
  {
  }

  /** `site:<domain> after:<date>`. */
  function Query(domain: string, dateAfter: string): string
  {
    "site:" + domain + " after:" + dateAfter
  }

  /** The query string determines the domain and the date when the domain
      contains no space: the domain runs from offset 5 to the first space. */
  lemma QueryDeterminesParts(d1: string, a1: string, d2: string, a2: string)
    requires ' ' !in d1 && ' ' !in d2
    requires Query(d1, a1) == Query(d2, a2)
    ensures d1 == d2 && a1 == a2
  {
    var q := Query(d1, a1);
    assert q == "site:" + d1 + " after:" + a1;
    assert q == "site:" + d2 + " after:" + a2;
    QueryAt(d1, a1);
    QueryAt(d2, a2);
    if |d1| < |d2| {
    } else if |d2| < |d1| {
    } else {
      assert d1 == q[5..5 + |d1|] == d2;
      assert a1 == q[5 + |d1| + 7..] == a2;
    }
  }

  lemma QueryAt(domain: string, dateAfter: string)
    ensures forall i :: 0 <= i < |domain| ==> Query(domain, dateAfter)[5 + i] == domain[i]
    ensures Query(domain, dateAfter)[5 + |domain|] == ' '
  {
  }

  function PageItems(r: PageResponse): seq<SearchResult>
  {
    if r.Items? then r.items else []
  }

  /** A page after which the loop asks for the next one. */
  predicate FullPage(r: PageResponse)
  {
    r.Items? && |r.items| >= PageSize
  }

  /** The items of the pages at the given offsets, concatenated in order. */
  function ItemsOf(net: Network, call: SearchCall, offsets: seq<nat>): seq<SearchResult>
    decreases |offsets|
  {
    if |offsets| == 0 then []
    else PageItems(net(call, offsets[0])) + ItemsOf(net, call, offsets[1..])
  }

  lemma {:induction false} ItemsOfLength(net: Network, call: SearchCall, offsets: seq<nat>, n: nat)
    requires forall o: nat :: |PageItems(net(call, o))| <= n
    ensures |ItemsOf(net, call, offsets)| <= n * |offsets|
    ensures (forall o: nat :: |PageItems(net(call, o))| == n) ==> |ItemsOf(net, call, offsets)| == n * |offsets|
    decreases |offsets|
  {
    if |offsets| > 0 {
      ItemsOfLength(net, call, offsets[1..], n);
    }
  }

  /** With pages of at most 10 items, a search returns at most 100 results. */
  lemma AtMostHundredResults(net: Network, domain: string, range: string, apiKey: Option<string>,
                             cx: Option<string>, env: Env, now: nat, fmt: int -> string)
    requires forall c, o: nat :: |PageItems(net(c, o))| <= PageSize
    ensures var p := Search(net, domain, range, apiKey, cx, env, now, fmt);
      p.outcome.Found? ==> |p.outcome.results| <= 100
  {
    var key := Or(apiKey, env.apiKey);
    var engine := Or(cx, env.cx);
    if Truthy(key) && Truthy(engine) {
      var call := SearchCall(key.value, engine.value, Query(domain, fmt(CutoffMs(now, range))));
      CollectFoundConcatenates(net, call, 1);
      ItemsOfLength(net, call, Collect(net, call, 1).offsets, PageSize);
    }
  }

  /** A provider that always serves full pages is asked for ten pages,
      offsets 1, 11, ..., 91 (every offset is `1 + 10 * k` by the contract
      of `Search`), and no further; 100 results come back. */
  lemma FullPagesStopAtCap(net: Network, domain: string, range: string, apiKey: Option<string>,
                           cx: Option<string>, env: Env, now: nat, fmt: int -> string)
    requires Truthy(Or(apiKey, env.apiKey)) && Truthy(Or(cx, env.cx))
    requires forall c, o: nat :: net(c, o).Items? && |net(c, o).items| == PageSize
    ensures var offsets := Search(net, domain, range, apiKey, cx, env, now, fmt).offsets;
      |offsets| == 10 && offsets[0] == 1 && offsets[9] == 91
    ensures Search(net, domain, range, apiKey, cx, env, now, fmt).outcome.Found?
    ensures |Search(net, domain, range, apiKey, cx, env, now, fmt).outcome.results| == 100
  {
    var call := SearchCall(Or(apiKey, env.apiKey).value, Or(cx, env.cx).value,
                           Query(domain, fmt(CutoffMs(now, range))));
    var p := Search(net, domain, range, apiKey, cx, env, now, fmt);
    assert p == Collect(net, call, 1);
    CollectFullPages(net, call);
  }

  lemma CollectFullPages(net: Network, call: SearchCall)
    requires forall o: nat :: net(call, o).Items? && |net(call, o).items| == PageSize
    ensures |Collect(net, call, 1).offsets| == 10
    ensures Collect(net, call, 1).outcome.Found?
    ensures |Collect(net, call, 1).outcome.results| == 100
  {
    var p := Collect(net, call, 1);
    CollectOffsets(net, call, 1);
    CollectFailsOnProviderError(net, call, 1);
    CollectFoundConcatenates(net, call, 1);
    assert p.outcome.Found?;
    var last := p.offsets[|p.offsets| - 1];
    assert FullPage(net(call, last));
    assert |p.offsets| == 10;
    ItemsOfLength(net, call, p.offsets, PageSize);
  }

  /** Prefixes the results and offsets already gathered to what remains. */
  function Prepend(results: seq<SearchResult>, offsets: seq<nat>, p: Pagination): Pagination
  {
    Pagination(
      match p.outcome
      case Found(rs) => Found(results + rs)
      case Failed(e) => Failed(e),
      offsets + p.offsets)
  }

  /** The pagination loop from offset `start` on: it stops at the cap, on a
      provider error, on an empty page and after a short page. */
  function Collect(net: Network, call: SearchCall, start: nat): Pagination
    decreases MaxResults - start
  {
    if start > MaxResults then Pagination(Found([]), [])
    else
      match net(call, start)
      case ProviderError(m) => Pagination(Failed(Provider(m)), [start])
      case Items(items) =>
        if |items| < PageSize then Pagination(Found(items), [start])
        else Prepend(items, [start], Collect(net, call, start + PageSize))
  }

  /** The requested offsets step by 10 from `start`, never pass the cap,
      and at least one page is requested when `start` is within it. */
  lemma {:induction false} CollectOffsets(net: Network, call: SearchCall, start: nat)
    ensures var p := Collect(net, call, start);
      && (forall k :: 0 <= k < |p.offsets| ==> p.offsets[k] == start + PageSize * k <= MaxResults)
      && (start <= MaxResults ==> 1 <= |p.offsets| <= (MaxResults - start) / PageSize + 1)
    decreases MaxResults - start
  {
    if start <= MaxResults && FullPage(net(call, start)) {
      CollectOffsets(net, call, start + PageSize);
      var rest := Collect(net, call, start + PageSize);
      var p := Collect(net, call, start);
      assert p.offsets == [start] + rest.offsets;
      forall k | 1 <= k < |p.offsets|
        ensures p.offsets[k] == start + PageSize * k
      {
        assert p.offsets[k] == rest.offsets[k - 1];
      }
    }
  }

  /** A failure is the provider error of the last page requested. */
  ghost predicate FailedOnLastPage(net: Network, call: SearchCall, p: Pagination)
  {
    p.outcome.Failed? ==>
      && |p.offsets| > 0
      && p.outcome.error.Provider?
      && net(call, p.offsets[|p.offsets| - 1]) == ProviderError(p.outcome.error.message)
  }

  /** A success holds every requested page's items, and the last page was
      not full or the cap was reached. */
  ghost predicate FoundAllPages(net: Network, call: SearchCall, p: Pagination)
  {
    p.outcome.Found? ==>
      && p.outcome.results == ItemsOf(net, call, p.offsets)
      && (|p.offsets| > 0 ==>
            !FullPage(net(call, p.offsets[|p.offsets| - 1]))
            || p.offsets[|p.offsets| - 1] + PageSize > MaxResults)
  }

  /** Every page requested before the last one was full. */
  lemma {:induction false} CollectContinuesOnFullPages(net: Network, call: SearchCall, start: nat)
    ensures forall k :: 0 <= k < |Collect(net, call, start).offsets| - 1 ==>
      FullPage(net(call, Collect(net, call, start).offsets[k]))
    decreases MaxResults - start
  {
    if start <= MaxResults && FullPage(net(call, start)) {
      CollectContinuesOnFullPages(net, call, start + PageSize);
      var rest := Collect(net, call, start + PageSize);
      var p := Collect(net, call, start);
      assert p.offsets == [start] + rest.offsets;
      forall k | 1 <= k < |p.offsets| - 1
        ensures FullPage(net(call, p.offsets[k]))
      {
        assert p.offsets[k] == rest.offsets[k - 1];
      }
    }
  }

  /** A failure is the last requested page's provider error, verbatim; the
      items gathered before it are not returned. */
  lemma {:induction false} CollectFailsOnProviderError(net: Network, call: SearchCall, start: nat)
    ensures FailedOnLastPage(net, call, Collect(net, call, start))
    decreases MaxResults - start
  {
    if start <= MaxResults && FullPage(net(call, start)) {
      CollectFailsOnProviderError(net, call, start + PageSize);
      var rest := Collect(net, call, start + PageSize);
      assert Collect(net, call, start).offsets == [start] + rest.offsets;
    }
  }

  /** A success is the concatenation of every requested page's items, in
      page order, and the loop stopped because the last page was short or
      empty, or because the next offset would pass the cap. */
  lemma {:induction false} CollectFoundConcatenates(net: Network, call: SearchCall, start: nat)
    ensures FoundAllPages(net, call, Collect(net, call, start))
    decreases MaxResults - start
  {
    var p := Collect(net, call, start);
    if start <= MaxResults && FullPage(net(call, start)) {
      CollectFoundConcatenates(net, call, start + PageSize);
      var rest := Collect(net, call, start + PageSize);
      assert p == Prepend(net(call, start).items, [start], rest);
      assert p.offsets == [start] + rest.offsets;
      assert p.offsets[1..] == rest.offsets;
      assert ItemsOf(net, call, p.offsets) == net(call, start).items + ItemsOf(net, call, rest.offsets);
      if |rest.offsets| > 0 {
        assert p.offsets[|p.offsets| - 1] == rest.offsets[|rest.offsets| - 1];
      } else {
        assert p.offsets == [start];
      }
    } else if start <= MaxResults && net(call, start).Items? {
      assert p.offsets == [start];
      assert ItemsOf(net, call, [start]) == net(call, start).items + ItemsOf(net, call, []);
    }
  }

  /** `searchGoogleForSite` as a function: credentials fall back to the
      environment; missing ones fail before any request. */
  function Search(net: Network, domain: string, range: string, apiKey: Option<string>,
                  cx: Option<string>, env: Env, now: nat, fmt: int -> string): (p: Pagination)
    ensures !Truthy(Or(apiKey, env.apiKey)) || !Truthy(Or(cx, env.cx)) ==>
      p == Pagination(Failed(NotConfigured), [])
    ensures Truthy(Or(apiKey, env.apiKey)) && Truthy(Or(cx, env.cx)) ==>
      && 1 <= |p.offsets| <= 10
      && p.outcome != Failed(NotConfigured)
    ensures Truthy(Or(apiKey, env.apiKey)) && Truthy(Or(cx, env.cx)) ==>
      var call := SearchCall(Or(apiKey, env.apiKey).value, Or(cx, env.cx).value,
                             Query(domain, fmt(CutoffMs(now, range))));
      && FoundAllPages(net, call, p) && FailedOnLastPage(net, call, p)
      && (forall k :: 0 <= k < |p.offsets| - 1 ==> FullPage(net(call, p.offsets[k])))
    ensures forall k :: 0 <= k < |p.offsets| ==> p.offsets[k] == 1 + 10 * k
  {
    var key := Or(apiKey, env.apiKey);
    var engine := Or(cx, env.cx);
    if !Truthy(key) || !Truthy(engine) then Pagination(Failed(NotConfigured), [])
    else
      var call := SearchCall(key.value, engine.value, Query(domain, fmt(CutoffMs(now, range))));
      CollectFailsOnProviderError(net, call, 1);
      CollectFoundConcatenates(net, call, 1);
      CollectContinuesOnFullPages(net, call, 1);
      CollectOffsets(net, call, 1);
      Collect(net, call, 1)
  }

  /** The imperative client: pages through the provider with offsets
      1, 11, 21, ... and returns what it gathered together with the offsets
      it requested. */
  method SearchForSite(net: Network, domain: string, range: string, apiKey: Option<string>,
                       cx: Option<string>, env: Env, now: nat, fmt: int -> string)
    returns (outcome: SearchOutcome, offsets: seq<nat>)
    ensures Pagination(outcome, offsets) == Search(net, domain, range, apiKey, cx, env, now, fmt)
    ensures |offsets| <= 10
    ensures forall k :: 0 <= k < |offsets| ==> offsets[k] == 1 + 10 * k
  {
    var key := Or(apiKey, env.apiKey);
    var engine := Or(cx, env.cx);
    if !Truthy(key) || !Truthy(engine) {
      return Failed(NotConfigured), [];
    }
    var call := SearchCall(key.value, engine.value, Query(domain, fmt(CutoffMs(now, range))));
    outcome, offsets := Paginate(net, call);
    CollectOffsets(net, call, 1);
  }

  /** The loop of the client: requests offsets 1, 11, 21, ... and stops as
      `Collect` does. */
  method Paginate(net: Network, call: SearchCall) returns (outcome: SearchOutcome, offsets: seq<nat>)
    ensures Pagination(outcome, offsets) == Collect(net, call, 1)
  {
    var results: seq<SearchResult> := [];
    offsets := [];
    var start: nat := 1;
    while start <= MaxResults
      invariant Collect(net, call, 1) == Prepend(results, offsets, Collect(net, call, start))
      decreases MaxResults - start
    {
      var response := net(call, start);
      match response {
        case ProviderError(m) =>
          assert Collect(net, call, start) == Pagination(Failed(Provider(m)), [start]);
          return Failed(Provider(m)), offsets + [start];
        case Items(items) =>
          if |items| < PageSize {
            assert Collect(net, call, start) == Pagination(Found(items), [start]);
            if |items| == 0 {
              assert results + items == results;
              return Found(results), offsets + [start];
            }
            return Found(results + items), offsets + [start];
          }
          PrependTwice(results, offsets, items, [start], Collect(net, call, start + PageSize));
          results := results + items;
          offsets := offsets + [start];
      }
      start := start + PageSize;
    }
    outcome := Found(results);
    assert results + [] == results;
  }

  lemma PrependTwice(r1: seq<SearchResult>, o1: seq<nat>, r2: seq<SearchResult>, o2: seq<nat>, p: Pagination)
    ensures Prepend(r1, o1, Prepend(r2, o2, p)) == Prepend(r1 + r2, o1 + o2, p)
  {
    assert (o1 + o2) + p.offsets == o1 + (o2 + p.offsets);
    if p.outcome.Found? {
      assert (r1 + r2) + p.outcome.results == r1 + (r2 + p.outcome.results);
    }
  }
}
