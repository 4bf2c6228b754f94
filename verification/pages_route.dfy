/** `GET /api/pages`: the page list with its filters, newest-first order,
    offset/limit window and the two counts. */
module PagesRoute {
  import opened Common
  import opened Text
  import opened Seqs
  import opened Records

  /** The filtering parameters of the query string. */
  datatype PageFilter = PageFilter(siteId: Option<string>, isRead: Option<string>, search: Option<string>)

  /** The query string, with `limit`/`offset` already parsed; an absent (or
      empty) parameter is `None`. */
  datatype PageQuery = PageQuery(filter: PageFilter, limit: Option<nat>, offset: Option<nat>)

  const DefaultLimit: nat := 50
  const DefaultOffset: nat := 0

  function LimitOf(q: PageQuery): nat
  {
    match q.limit
    case None => DefaultLimit
    case Some(n) => n
  }

  function OffsetOf(q: PageQuery): nat
  {
    match q.offset
    case None => DefaultOffset
    case Some(n) => n
  }

  /** The site and search conditions, shared by the list and the unread count. */
  predicate InScope(f: PageFilter, p: Page)
  {
    && (Truthy(f.siteId) ==> p.siteId == f.siteId.value)
    && (Truthy(f.search) ==> Contains(p.title, f.search.value) || Contains(p.url, f.search.value))
  }

  /** The full `where` clause: the read filter applies to a present,
      non-empty `isRead`, and selects read pages only for exactly "true". */
  predicate Matches(f: PageFilter, p: Page)
  {
    InScope(f, p) && (Truthy(f.isRead) ==> p.isRead == (f.isRead.value == "true"))
  }

  /** The unread count's condition: the listing's site and search
      conditions, with unread in place of any read filter. */
  predicate UnreadInScope(f: PageFilter, p: Page)
  {
    InScope(f, p) && !p.isRead
  }

  function Matching(pages: seq<Page>, f: PageFilter): seq<Page>
  {
    Filter(pages, (p: Page) => Matches(f, p))
  }

  function UnreadMatching(pages: seq<Page>, f: PageFilter): seq<Page>
  {
    Filter(pages, (p: Page) => UnreadInScope(f, p))
  }

  /** Ordered by discovery time, most recent first. */
  ghost predicate NewestFirst(s: seq<Page>)
  {
    forall i, j :: 0 <= i < j < |s| ==> s[i].discoveredAt >= s[j].discoveredAt
  }

  function InsertByDate(x: Page, s: seq<Page>): (r: seq<Page>)
    requires NewestFirst(s)
    ensures NewestFirst(r)
    ensures multiset(r) == multiset(s) + multiset{x}
    ensures |r| == |s| + 1
    ensures forall i :: 0 <= i < |r| ==> r[i] == x || r[i] in s
    decreases |s|
  {
    if |s| == 0 then [x]
    else if x.discoveredAt >= s[0].discoveredAt then [x] + s
    else
      var rest := InsertByDate(x, s[1..]);
      HeadThenNewestFirst(s[0], rest, x, s[1..]);
      InsertConsFacts(s, x, rest);
      [s[0]] + rest
  }

  lemma InsertConsFacts(s: seq<Page>, x: Page, rest: seq<Page>)
    requires |s| > 0
    requires multiset(rest) == multiset(s[1..]) + multiset{x}
    requires forall i :: 0 <= i < |rest| ==> rest[i] == x || rest[i] in s[1..]
    ensures multiset([s[0]] + rest) == multiset(s) + multiset{x}
    ensures forall i :: 0 <= i < |[s[0]] + rest| ==> ([s[0]] + rest)[i] == x || ([s[0]] + rest)[i] in s
  {
    assert s == [s[0]] + s[1..];
    assert multiset(s) == multiset{s[0]} + multiset(s[1..]);
    forall i | 0 <= i < |[s[0]] + rest|
      ensures ([s[0]] + rest)[i] == x || ([s[0]] + rest)[i] in s
    {
      if i > 0 {
        assert ([s[0]] + rest)[i] == rest[i - 1];
      }
    }
  }

  lemma HeadThenNewestFirst(h: Page, rest: seq<Page>, x: Page, tail: seq<Page>)
    requires NewestFirst(rest) && NewestFirst([h] + tail)
    requires h.discoveredAt >= x.discoveredAt
    requires forall i :: 0 <= i < |rest| ==> rest[i] == x || rest[i] in tail
    ensures NewestFirst([h] + rest)
  {
    forall i | 0 <= i < |rest|
      ensures h.discoveredAt >= rest[i].discoveredAt
    {
      if rest[i] != x {
        var j :| 0 <= j < |tail| && tail[j] == rest[i];
        assert ([h] + tail)[0] == h && ([h] + tail)[j + 1] == tail[j];
      }
    }
    var r := [h] + rest;
    forall i, j | 0 <= i < j < |r|
      ensures r[i].discoveredAt >= r[j].discoveredAt
    {
      if i > 0 {
        assert r[i] == rest[i - 1] && r[j] == rest[j - 1];
      } else {
        assert r[j] == rest[j - 1];
      }
    }
  }

  /** A newest-first permutation of `s`; pages discovered at the same time
      keep their relative order. */
  function SortNewestFirst(s: seq<Page>): (r: seq<Page>)
    ensures NewestFirst(r)
    ensures multiset(r) == multiset(s)
    ensures |r| == |s|
    decreases |s|
  {
    if |s| == 0 then []
    else
      assert s == [s[0]] + s[1..];
      InsertByDate(s[0], SortNewestFirst(s[1..]))
  }

  /** At most `limit` elements, after skipping the first `offset`. */
  function Window<T>(s: seq<T>, offset: nat, limit: nat): (r: seq<T>)
    ensures |r| == if offset >= |s| then 0 else if offset + limit <= |s| then limit else |s| - offset
  {
    if offset >= |s| then []
    else if offset + limit <= |s| then s[offset..offset + limit]
    else s[offset..]
  }

  /** The window holds the elements of `s` from `offset` on, in order. */
  lemma WindowElements<T>(s: seq<T>, offset: nat, limit: nat)
    ensures forall k :: 0 <= k < |Window(s, offset, limit)| ==> Window(s, offset, limit)[k] == s[offset + k]
  {
  }

  datatype PagesReply = PagesReply(pages: seq<Page>, total: nat, unreadCount: nat, limit: nat, offset: nat)

  /** The listed pages: the matches, newest first, windowed. */
  function Listing(pages: seq<Page>, q: PageQuery): seq<Page>
  {
    Window(Ordered(pages, q.filter), OffsetOf(q), LimitOf(q))
  }

  function Ordered(pages: seq<Page>, f: PageFilter): seq<Page>
  {
    SortNewestFirst(Matching(pages, f))
  }

  function Get(pages: seq<Page>, q: PageQuery): (r: PagesReply)
    ensures r.pages == Listing(pages, q)
    ensures r.limit == LimitOf(q) && r.offset == OffsetOf(q)
    ensures r.total == |Matching(pages, q.filter)| && r.unreadCount == |UnreadMatching(pages, q.filter)|
    ensures |r.pages| <= r.limit && |r.pages| <= r.total
    ensures |r.pages| == if r.offset >= r.total then 0 else if r.offset + r.limit <= r.total then r.limit else r.total - r.offset
    ensures NewestFirst(r.pages)
    ensures forall i :: 0 <= i < |r.pages| ==> r.pages[i] in pages && Matches(q.filter, r.pages[i])
    ensures r.offset == 0 && r.limit >= r.total ==> multiset(r.pages) == multiset(Matching(pages, q.filter))
  {
    var matching := Matching(pages, q.filter);
    var window := Listing(pages, q);
    WindowOfMatches(pages, q.filter, OffsetOf(q), LimitOf(q), matching, Ordered(pages, q.filter), window);
    PagesReply(window, |matching|, |UnreadMatching(pages, q.filter)|, LimitOf(q), OffsetOf(q))
  }

  /** What a window of the sorted matches holds: matching stored pages,
      newest first, all of them when the window spans every match. */
  lemma WindowOfMatches(pages: seq<Page>, f: PageFilter, offset: nat, limit: nat,
                        matching: seq<Page>, sorted: seq<Page>, window: seq<Page>)
    requires matching == Matching(pages, f) && sorted == SortNewestFirst(matching)
    requires window == Window(sorted, offset, limit)
    ensures |window| == if offset >= |matching| then 0 else if offset + limit <= |matching| then limit else |matching| - offset
    ensures NewestFirst(window)
    ensures forall i :: 0 <= i < |window| ==> window[i] in pages && Matches(f, window[i])
    ensures offset == 0 && limit >= |matching| ==> multiset(window) == multiset(matching)
  {
    MatchingMembers(pages, f);
    WindowWithin(sorted, offset, limit);
    WindowNewestFirst(sorted, offset, limit);
    forall i | 0 <= i < |window|
      ensures window[i] in pages && Matches(f, window[i])
    {
      assert window[i] in sorted;
      assert window[i] in multiset(matching);
    }
    if offset == 0 && limit >= |matching| {
      WindowWhole(sorted, limit);
    }
  }

  lemma MatchingMembers(pages: seq<Page>, f: PageFilter)
    ensures forall x :: x in Matching(pages, f) ==> x in pages && Matches(f, x)
  {
    var m := Matching(pages, f);
    forall x | x in m
      ensures x in pages && Matches(f, x)
    {
      var k :| 0 <= k < |m| && m[k] == x;
    }
  }

  lemma WindowWithin<T>(s: seq<T>, offset: nat, limit: nat)
    ensures forall x :: x in Window(s, offset, limit) ==> x in s
  {
    var w := Window(s, offset, limit);
    WindowElements(s, offset, limit);
    forall x | x in w
      ensures x in s
    {
      var k :| 0 <= k < |w| && w[k] == x;
      assert w[k] == s[offset + k];
    }
  }

  lemma WindowNewestFirst(s: seq<Page>, offset: nat, limit: nat)
    requires NewestFirst(s)
    ensures NewestFirst(Window(s, offset, limit))
  {
    var w := Window(s, offset, limit);
    WindowElements(s, offset, limit);
    forall i, j | 0 <= i < j < |w|
      ensures w[i].discoveredAt >= w[j].discoveredAt
    {
      assert w[i] == s[offset + i] && w[j] == s[offset + j];
    }
  }

  lemma WindowWhole<T>(s: seq<T>, limit: nat)
    requires limit >= |s|
    ensures Window(s, 0, limit) == s
  {
  }

  /** A page is counted in `total` as many times as it is stored, when it
      matches, and not at all otherwise. */
  lemma TotalCountsMatches(pages: seq<Page>, f: PageFilter, p: Page)
    ensures multiset(Matching(pages, f))[p] == if Matches(f, p) then multiset(pages)[p] else 0
  {
    FilterMultiset(pages, (p: Page) => Matches(f, p), p);
  }

  lemma {:induction false} WindowsConcatenate<T>(s: seq<T>, offset: nat, a: nat, b: nat)
    ensures Window(s, offset, a) + Window(s, offset + a, b) == Window(s, offset, a + b)
  {
    var w1, w2, w := Window(s, offset, a), Window(s, offset + a, b), Window(s, offset, a + b);
    WindowElements(s, offset, a);
    WindowElements(s, offset + a, b);
    WindowElements(s, offset, a + b);
    assert |w1 + w2| == |w|;
    forall k | 0 <= k < |w|
      ensures (w1 + w2)[k] == w[k]
    {
      if k < |w1| {
        assert (w1 + w2)[k] == s[offset + k];
      } else {
        assert (w1 + w2)[k] == w2[k - |w1|] == s[offset + k];
      }
    }
  }

  /** Paging is consistent: the pages listed by two consecutive windows of
      one filter together are the pages listed by the window spanning both. */
  lemma ConsecutiveWindows(pages: seq<Page>, q1: PageQuery, q2: PageQuery, q3: PageQuery)
    requires q2.filter == q1.filter && q3.filter == q1.filter
    requires OffsetOf(q2) == OffsetOf(q1) + LimitOf(q1)
    requires OffsetOf(q3) == OffsetOf(q1) && LimitOf(q3) == LimitOf(q1) + LimitOf(q2)
    ensures Listing(pages, q1) + Listing(pages, q2) == Listing(pages, q3)
  {
    WindowsConcatenate(Ordered(pages, q1.filter), OffsetOf(q1), LimitOf(q1), LimitOf(q2));
  }

  /** Without a read filter every unread match is a match. */
  lemma UnreadWithinTotal(pages: seq<Page>, q: PageQuery)
    requires !Truthy(q.filter.isRead)
    ensures Get(pages, q).unreadCount <= Get(pages, q).total
  {
    FilterMonotone(pages, (p: Page) => UnreadInScope(q.filter, p), (p: Page) => Matches(q.filter, p));
  }

  /** Any read-filter value other than "true" lists the unread pages, so the
      two counts coincide. */
  lemma UnreadFilterCountsUnread(pages: seq<Page>, q: PageQuery)
    requires Truthy(q.filter.isRead) && q.filter.isRead.value != "true"
    ensures Get(pages, q).unreadCount == Get(pages, q).total
  {
    FilterCongruent(pages, (p: Page) => UnreadInScope(q.filter, p), (p: Page) => Matches(q.filter, p));
  }

  /** "true" lists the read pages: the list and the unread count are disjoint. */
  lemma ReadFilterExcludesUnread(pages: seq<Page>, q: PageQuery)
    requires q.filter.isRead == Some("true")
    ensures forall i :: 0 <= i < |Get(pages, q).pages| ==> Get(pages, q).pages[i].isRead
  {
  }
}
