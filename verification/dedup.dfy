/** Dedup and insert of search results for one site, shared by the
    scheduled crawl and the on-demand crawl endpoint. */
module Dedup {
  import opened Seqs
  import opened Records
  import opened GoogleSearch

  function Links(results: seq<SearchResult>): set<string>
  {
    set r | r in results :: r.link
  }

  /** The results whose link the site does not have yet, in result order. */
  function NewResults(results: seq<SearchResult>, existing: set<string>): (unseen: seq<SearchResult>)
    ensures forall i :: 0 <= i < |unseen| ==> unseen[i] in results && unseen[i].link !in existing
    ensures forall i :: 0 <= i < |results| && results[i].link !in existing ==> results[i] in unseen
    ensures IsSubsequence(unseen, results)
  {
    Filter(results, (r: SearchResult) => r.link !in existing)
  }

  /** The page row created for one result: unread, discovered now. */
  function PageFor(siteId: string, r: SearchResult, now: nat): Page
  {
    Page(siteId, r.link, r.title, now, false, now)
  }

  /** One insert: a URL the site already has violates the (site, URL)
      uniqueness, the insert fails and the failure is ignored. */
  function InsertOne(pages: seq<Page>, siteId: string, r: SearchResult, now: nat): seq<Page>
  {
    if r.link in UrlsOf(pages, siteId) then pages else pages + [PageFor(siteId, r, now)]
  }

  lemma UrlsOfSnoc(pages: seq<Page>, p: Page, siteId: string)
    ensures UrlsOf(pages + [p], siteId)
         == UrlsOf(pages, siteId) + (if p.siteId == siteId then {p.url} else {})
  {
    assert forall q | q in pages + [p] :: q in pages || q == p;
  }

  lemma LinksCons(results: seq<SearchResult>)
    requires |results| > 0
    ensures Links(results) == {results[0].link} + Links(results[1..])
  {
    assert results == [results[0]] + results[1..];
    assert forall r | r in results :: r == results[0] || r in results[1..];
  }

  /** Inserting each result in order: existing pages stay as they are and
      only unread pages of this site, discovered now, are appended. */
  function InsertAll(pages: seq<Page>, siteId: string, rs: seq<SearchResult>, now: nat): (out: seq<Page>)
    ensures |pages| <= |out| <= |pages| + |rs|
    ensures out[..|pages|] == pages
    ensures forall i :: |pages| <= i < |out| ==>
      out[i].siteId == siteId && !out[i].isRead && out[i].discoveredAt == now
    decreases |rs|
  {
    if |rs| == 0 then pages
    else
      var next := InsertOne(pages, siteId, rs[0], now);
      var out := InsertAll(next, siteId, rs[1..], now);
      assert out[..|pages|] == out[..|next|][..|pages|];
      out
  }

  /** The site's URL set afterwards is the old one plus every inserted link. */
  lemma {:induction false} InsertAllUrls(pages: seq<Page>, siteId: string, rs: seq<SearchResult>, now: nat)
    ensures UrlsOf(InsertAll(pages, siteId, rs, now), siteId) == UrlsOf(pages, siteId) + Links(rs)
    decreases |rs|
  {
    if |rs| > 0 {
      UrlsOfSnoc(pages, PageFor(siteId, rs[0], now), siteId);
      LinksCons(rs);
      InsertAllUrls(InsertOne(pages, siteId, rs[0], now), siteId, rs[1..], now);
    }
  }

  /** A skipped duplicate keeps every (site, URL) pair unique. */
  lemma InsertOneUnique(pages: seq<Page>, siteId: string, r: SearchResult, now: nat)
    requires UniquePages(pages)
    ensures UniquePages(InsertOne(pages, siteId, r, now))
  {
    var next := InsertOne(pages, siteId, r, now);
    if next != pages {
      forall i, j | 0 <= i < j < |next|
        ensures next[i].siteId != next[j].siteId || next[i].url != next[j].url
      {
        if j == |pages| {
          assert next[i] in pages;
        }
      }
    }
  }

  lemma {:induction false} InsertAllUnique(pages: seq<Page>, siteId: string, rs: seq<SearchResult>, now: nat)
    ensures UniquePages(pages) ==> UniquePages(InsertAll(pages, siteId, rs, now))
    decreases |rs|
  {
    if |rs| > 0 && UniquePages(pages) {
      InsertOneUnique(pages, siteId, rs[0], now);
      InsertAllUnique(InsertOne(pages, siteId, rs[0], now), siteId, rs[1..], now);
    }
  }

  /** The outcome of one ingest: the pages afterwards and the count the
      handlers report as `newPagesCount`. */
  datatype Ingested = Ingested(pages: seq<Page>, newPagesCount: nat)

  /** Reads the site's URLs, keeps the results not on file, inserts them. */
  function Ingest(pages: seq<Page>, siteId: string, results: seq<SearchResult>, now: nat): (r: Ingested)
    ensures r.newPagesCount <= |results|
    ensures |pages| <= |r.pages| <= |pages| + r.newPagesCount
    ensures r.pages[..|pages|] == pages
    ensures forall i :: |pages| <= i < |r.pages| ==>
      r.pages[i].siteId == siteId && !r.pages[i].isRead && r.pages[i].discoveredAt == now
    ensures UrlsOf(r.pages, siteId) == UrlsOf(pages, siteId) + Links(results)
    ensures UniquePages(pages) ==> UniquePages(r.pages)
  {
    var unseen := NewResults(results, UrlsOf(pages, siteId));
    InsertAllUrls(pages, siteId, unseen, now);
    InsertAllUnique(pages, siteId, unseen, now);
    assert Links(results) <= UrlsOf(pages, siteId) + Links(unseen) by {
      forall l | l in Links(results)
        ensures l in UrlsOf(pages, siteId) + Links(unseen)
      {
        var i :| 0 <= i < |results| && results[i].link == l;
      }
    }
    Ingested(InsertAll(pages, siteId, unseen, now), |unseen|)
  }

  ghost predicate DistinctLinks(rs: seq<SearchResult>)
  {
    forall i, j | 0 <= i < j < |rs| :: rs[i].link != rs[j].link
  }

  function ToPages(siteId: string, rs: seq<SearchResult>, now: nat): seq<Page>
  {
    seq(|rs|, i requires 0 <= i < |rs| => PageFor(siteId, rs[i], now))
  }

  /** The results in order with every link that is in `known`, or that an
      earlier result already carried, dropped: each new link once, at its
      first occurrence. */
  function Fresh(rs: seq<SearchResult>, known: set<string>): (r: seq<SearchResult>)
    ensures |r| <= |rs|
    ensures forall i :: 0 <= i < |r| ==> r[i] in rs && r[i].link !in known
    decreases |rs|
  {
    if |rs| == 0 then []
    else if rs[0].link in known then Fresh(rs[1..], known)
    else
      var rest := Fresh(rs[1..], known + {rs[0].link});
      assert forall i :: 0 <= i < |rest| ==> rest[i] in rs[1..];
      [rs[0]] + rest
  }

  /** The fresh results carry every new link, and each of them only once. */
  lemma {:induction false} FreshLinks(rs: seq<SearchResult>, known: set<string>)
    ensures Links(Fresh(rs, known)) == Links(rs) - known
    ensures DistinctLinks(Fresh(rs, known))
    decreases |rs|
  {
    if |rs| > 0 {
      LinksCons(rs);
      var l := rs[0].link;
      if l in known {
        FreshLinks(rs[1..], known);
      } else {
        var rest := Fresh(rs[1..], known + {l});
        FreshLinks(rs[1..], known + {l});
        var r := [rs[0]] + rest;
        assert r[1..] == rest;
        LinksCons(r);
        forall i, j | 0 <= i < j < |r|
          ensures r[i].link != r[j].link
        {
          if i == 0 {
            assert r[j] == rest[j - 1];
          } else {
            assert r[i] == rest[i - 1] && r[j] == rest[j - 1];
          }
        }
      }
    }
  }

  lemma ToPagesCons(pages: seq<Page>, siteId: string, rs: seq<SearchResult>, now: nat)
    requires |rs| > 0
    ensures (pages + [PageFor(siteId, rs[0], now)]) + ToPages(siteId, rs[1..], now) == pages + ToPages(siteId, rs, now)
  {
    var tail := ToPages(siteId, rs[1..], now);
    assert ToPages(siteId, rs, now) == [PageFor(siteId, rs[0], now)] + tail;
  }

  /** A run of inserts appends one page per fresh result, in result order. */
  lemma {:induction false} InsertAllAppendsFresh(pages: seq<Page>, siteId: string, rs: seq<SearchResult>, now: nat)
    ensures InsertAll(pages, siteId, rs, now) == pages + ToPages(siteId, Fresh(rs, UrlsOf(pages, siteId)), now)
    decreases |rs|
  {
    if |rs| > 0 {
      var known := UrlsOf(pages, siteId);
      if rs[0].link in known {
        InsertAllAppendsFresh(pages, siteId, rs[1..], now);
      } else {
        var first := PageFor(siteId, rs[0], now);
        var next := pages + [first];
        UrlsOfSnoc(pages, first, siteId);
        InsertAllAppendsFresh(next, siteId, rs[1..], now);
        var added := [rs[0]] + Fresh(rs[1..], known + {rs[0].link});
        assert added[0] == rs[0] && added[1..] == Fresh(rs[1..], known + {rs[0].link});
        ToPagesCons(pages, siteId, added, now);
      }
    }
  }

  lemma NewResultsCons(rs: seq<SearchResult>, known: set<string>)
    requires |rs| > 0
    ensures NewResults(rs, known)
         == if rs[0].link in known then NewResults(rs[1..], known)
            else [rs[0]] + NewResults(rs[1..], known)
  {
  }

  /** Dropping links that are already known changes nothing fresh. */
  lemma {:induction false} FreshSkipsKnown(rs: seq<SearchResult>, k0: set<string>, known: set<string>)
    requires k0 <= known
    ensures Fresh(NewResults(rs, k0), known) == Fresh(rs, known)
    decreases |rs|
  {
    if |rs| > 0 {
      NewResultsCons(rs, k0);
      var l := rs[0].link;
      var tail := NewResults(rs[1..], k0);
      if l in k0 {
        FreshSkipsKnown(rs[1..], k0, known);
      } else {
        assert ([rs[0]] + tail)[0] == rs[0] && ([rs[0]] + tail)[1..] == tail;
        if l in known {
          FreshSkipsKnown(rs[1..], k0, known);
        } else {
          FreshSkipsKnown(rs[1..], k0, known + {l});
        }
      }
    }
  }

  /** Two sets that agree on every link of the results filter them alike. */
  lemma {:induction false} NewResultsCongruent(rs: seq<SearchResult>, k1: set<string>, k2: set<string>)
    requires forall i :: 0 <= i < |rs| ==> (rs[i].link in k1 <==> rs[i].link in k2)
    ensures NewResults(rs, k1) == NewResults(rs, k2)
    decreases |rs|
  {
    if |rs| > 0 {
      NewResultsCons(rs, k1);
      NewResultsCons(rs, k2);
      NewResultsCongruent(rs[1..], k1, k2);
    }
  }

  /** Without repeated links, the fresh results are just the unseen ones. */
  lemma {:induction false} FreshOfDistinct(rs: seq<SearchResult>, known: set<string>)
    requires DistinctLinks(rs)
    ensures Fresh(rs, known) == NewResults(rs, known)
    decreases |rs|
  {
    if |rs| > 0 {
      NewResultsCons(rs, known);
      var l := rs[0].link;
      assert DistinctLinks(rs[1..]) by {
        forall i, j | 0 <= i < j < |rs[1..]|
          ensures rs[1..][i].link != rs[1..][j].link
        {
          assert rs[1..][i] == rs[i + 1] && rs[1..][j] == rs[j + 1];
        }
      }
      if l in known {
        FreshOfDistinct(rs[1..], known);
      } else {
        FreshOfDistinct(rs[1..], known + {l});
        forall i | 0 <= i < |rs[1..]|
          ensures rs[1..][i].link in known + {l} <==> rs[1..][i].link in known
        {
          assert rs[1..][i] == rs[i + 1];
        }
        NewResultsCongruent(rs[1..], known + {l}, known);
      }
    }
  }

  /** Ingest appends exactly one unread page per fresh link of the results
      (a link repeated within the batch is inserted once, its repeat fails
      on the uniqueness constraint), in result order, and reports the
      number of unseen results; without repeats those are the same list. */
  lemma IngestInsertsExactlyFresh(pages: seq<Page>, siteId: string, results: seq<SearchResult>, now: nat)
    ensures var known := UrlsOf(pages, siteId);
      && Ingest(pages, siteId, results, now).pages == pages + ToPages(siteId, Fresh(results, known), now)
      && Ingest(pages, siteId, results, now).newPagesCount == |NewResults(results, known)|
      && (DistinctLinks(results) ==> Fresh(results, known) == NewResults(results, known))
  {
    var known := UrlsOf(pages, siteId);
    var unseen := NewResults(results, known);
    InsertAllAppendsFresh(pages, siteId, unseen, now);
    FreshSkipsKnown(results, known, known);
    if DistinctLinks(results) {
      FreshOfDistinct(results, known);
    }
  }

  /** Running the same ingest again inserts nothing and reports zero. */
  lemma IngestTwice(pages: seq<Page>, siteId: string, results: seq<SearchResult>, now: nat, later: nat)
    ensures var once := Ingest(pages, siteId, results, now).pages;
      Ingest(once, siteId, results, later) == Ingested(once, 0)
  {
    var once := Ingest(pages, siteId, results, now).pages;
    var unseen := NewResults(results, UrlsOf(once, siteId));
  }
}
