/** `PUT /api/pages/read-all`: mark every unread page in scope as read. */
module ReadAllRoute {
  import opened Common
  import opened Records
  import PagesRoute

  /** The scope: one site for a non-empty `siteId`, every page otherwise. */
  predicate InScope(siteId: Option<string>, p: Page)
  {
    Truthy(siteId) ==> p.siteId == siteId.value
  }

  /** One bulk update: every unread page in scope becomes read. */
  function MarkAllRead(pages: seq<Page>, siteId: Option<string>): (r: seq<Page>)
    ensures |r| == |pages|
    ensures forall i :: 0 <= i < |pages| && InScope(siteId, pages[i]) ==> r[i].isRead
    ensures forall i :: 0 <= i < |pages| && !InScope(siteId, pages[i]) ==> r[i] == pages[i]
    ensures forall i :: 0 <= i < |pages| ==> r[i].(isRead := pages[i].isRead) == pages[i]
    ensures forall i :: 0 <= i < |pages| && pages[i].isRead ==> r[i] == pages[i]
  {
    seq(|pages|, i requires 0 <= i < |pages| =>
      if InScope(siteId, pages[i]) && !pages[i].isRead then pages[i].(isRead := true) else pages[i])
  }

  /** Marking twice is marking once. */
  lemma MarkAllReadIdempotent(pages: seq<Page>, siteId: Option<string>)
    ensures MarkAllRead(MarkAllRead(pages, siteId), siteId) == MarkAllRead(pages, siteId)
  {
  }

  /** An empty `siteId` is no `siteId`: every page is in scope. */
  lemma EmptySiteIdMarksAll(pages: seq<Page>)
    ensures MarkAllRead(pages, Some("")) == MarkAllRead(pages, None)
    ensures forall i :: 0 <= i < |pages| ==> MarkAllRead(pages, None)[i].isRead
  {
  }

  /** The handler on the whole store: sites and settings are untouched and
      the store stays valid, since no page changes site or URL. */
  function Put(st: Store, siteId: Option<string>): (r: Store)
    ensures r.sites == st.sites && r.settings == st.settings
    ensures |r.pages| == |st.pages|
    ensures forall i :: 0 <= i < |st.pages| ==>
      r.pages[i].siteId == st.pages[i].siteId && r.pages[i].url == st.pages[i].url
    ensures Valid(st) ==> Valid(r)
  {
    var pages := MarkAllRead(st.pages, siteId);
    assert forall p | p in pages :: exists i :: 0 <= i < |pages| && p == pages[i] && p.siteId == st.pages[i].siteId;
    st.(pages := pages)
  }

  /** Afterwards the page list for the same site reports no unread page. */
  lemma NoUnreadAfterwards(pages: seq<Page>, q: PagesRoute.PageQuery)
    ensures PagesRoute.Get(MarkAllRead(pages, q.filter.siteId), q).unreadCount == 0
  {
    var marked := MarkAllRead(pages, q.filter.siteId);
    assert forall i :: 0 <= i < |marked| ==> !PagesRoute.UnreadInScope(q.filter, marked[i]);
  }
}
