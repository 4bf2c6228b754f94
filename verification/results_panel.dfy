/** The `filteredItems` predicate of the generation results panel: a tab
    and two toggles, combined conjunctively. */
module ResultsPanel {
  import opened Seqs

  datatype Kind = Video | Image | Audio

  /** The content-type tab: "all" or one kind. */
  datatype Tab = AllTab | KindTab(kind: Kind)

  datatype ItemStatus = Completed | InProgress | Failed

  /** A generated item; the thumbnail plays no part in filtering. */
  datatype Item = Item(id: string, kind: Kind, title: string, createdAt: nat, isFavorite: bool, status: ItemStatus)

  datatype View = View(tab: Tab, showFavorites: bool, showInProgress: bool)

  /** The three early returns, in order; an item that passes all of them is kept. */
  predicate Keep(v: View, item: Item)
  {
    if v.tab.KindTab? && item.kind != v.tab.kind then false
    else if v.showFavorites && !item.isFavorite then false
    else if v.showInProgress && item.status != InProgress then false
    else true
  }

  function FilteredItems(items: seq<Item>, v: View): (r: seq<Item>)
    ensures IsSubsequence(r, items)
    ensures forall i :: 0 <= i < |r| ==> Keep(v, r[i])
    ensures forall i :: 0 <= i < |items| && Keep(v, items[i]) ==> items[i] in r
  {
    Filter(items, (item: Item) => Keep(v, item))
  }

  /** The initial view shows every item, in order. */
  lemma DefaultViewShowsAll(items: seq<Item>)
    ensures FilteredItems(items, View(AllTab, false, false)) == items
  {
    FilterKeepsAll(items, (item: Item) => Keep(View(AllTab, false, false), item));
  }

  /** What each enabled condition guarantees of a shown item, and that an
      item meeting every enabled condition is shown. */
  lemma ShownItemsMeetConditions(items: seq<Item>, v: View)
    ensures forall i :: 0 <= i < |FilteredItems(items, v)| ==>
      var item := FilteredItems(items, v)[i];
      && (v.tab.KindTab? ==> item.kind == v.tab.kind)
      && (v.showFavorites ==> item.isFavorite)
      && (v.showInProgress ==> item.status == InProgress)
    ensures forall i :: 0 <= i < |items| ==>
      ((v.tab.KindTab? ==> items[i].kind == v.tab.kind)
       && (v.showFavorites ==> items[i].isFavorite)
       && (v.showInProgress ==> items[i].status == InProgress))
      ==> items[i] in FilteredItems(items, v)
  {
  }

  /** A view whose conditions imply another's shows no more items. */
  lemma StricterViewNarrows(items: seq<Item>, v: View, w: View)
    requires forall i :: 0 <= i < |items| && Keep(w, items[i]) ==> Keep(v, items[i])
    ensures |FilteredItems(items, w)| <= |FilteredItems(items, v)|
  {
    FilterMonotone(items, (item: Item) => Keep(w, item), (item: Item) => Keep(v, item));
  }

  /** Turning on a toggle never shows more items. */
  lemma ToggleNarrows(items: seq<Item>, v: View)
    ensures |FilteredItems(items, v.(showFavorites := true))| <= |FilteredItems(items, v)|
    ensures |FilteredItems(items, v.(showInProgress := true))| <= |FilteredItems(items, v)|
  {
    StricterViewNarrows(items, v, v.(showFavorites := true));
    StricterViewNarrows(items, v, v.(showInProgress := true));
  }
}
