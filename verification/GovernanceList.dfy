/** `discover_governance_list`: a bounded breadth-first walk over the proposal list pages. */
module GovernanceList {
  import opened Wrappers
  import opened GovernanceModel
  import GovernancePersistence

  // ----- pages -----

  /** A proposal as a list page shows it; the warnings count when two pages are compared. */
  datatype Item = Item(summary: Summary, warnings: seq<string>)

  /** A rendered list page: its proposals, the pages it links to and its size. */
  datatype Page = Page(items: seq<Item>, links: seq<string>, bytes: nat)

  /** What each path renders to at the fixed height, None when fetching or parsing it fails. */
  type Pages = string -> Option<Page>

  datatype Error = InvalidLimits | PageFailed | ConflictingProposal | TooManyProposals | TooManyBytes

  datatype Discovered = Discovered(complete: bool, pageCount: nat, items: seq<Item>)

  function Links(pages: Pages, path: string): seq<string> {
    if pages(path).Some? then pages(path).value.links else []
  }

  function Items(pages: Pages, path: string): seq<Item> {
    if pages(path).Some? then pages(path).value.items else []
  }

  // ----- specification: reachability -----

  /** A walk from the first page along links. */
  predicate Walk(pages: Pages, trail: seq<string>) {
    && trail != [] && trail[0] == ""
    && forall i :: 0 < i < |trail| ==> trail[i] in Links(pages, trail[i - 1])
  }

  ghost predicate Reachable(pages: Pages, path: string) {
    exists trail :: Walk(pages, trail) && trail[|trail| - 1] == path
  }

  lemma RootReachable(pages: Pages)
    ensures Reachable(pages, "")
  {
    assert Walk(pages, [""]);
  }

  lemma LinkReachable(pages: Pages, path: string, link: string)
    requires Reachable(pages, path) && link in Links(pages, path)
    ensures Reachable(pages, link)
  {
    var trail :| Walk(pages, trail) && trail[|trail| - 1] == path;
    assert Walk(pages, trail + [link]);
  }

  /** A set of pages with the first one and all its links holds every reachable page. */
  lemma {:induction false} ClosedHoldsWalk(pages: Pages, closed: set<string>, trail: seq<string>)
    requires "" in closed && forall p, l :: p in closed && l in Links(pages, p) ==> l in closed
    requires Walk(pages, trail)
    ensures trail[|trail| - 1] in closed
  {
    if |trail| > 1 {
      ClosedHoldsWalk(pages, closed, trail[..|trail| - 1]);
    }
  }

  /** An item that some fetched page shows. */
  predicate Shown(pages: Pages, fetched: seq<string>, item: Item) {
    exists i :: 0 <= i < |fetched| && item in Items(pages, fetched[i])
  }

  // ----- the summaries -----

  /** The dictionary holds exactly the shown items, by their ids. */
  ghost predicate Collected(summaries: map<int, Item>, shown: set<Item>) {
    && (forall id :: id in summaries ==> summaries[id].summary.id == id && summaries[id] in shown)
    && (forall item :: item in shown ==> item.summary.id in summaries && summaries[item.summary.id] == item)
  }

  function AsSet<T>(s: seq<T>): set<T> { set x | x in s }

  /** Two shown items with the same id that differ. */
  ghost predicate Conflict(shown: set<Item>) {
    exists x, y :: x in shown && y in shown && x.summary.id == y.summary.id && x != y
  }

  method AddItems(summaries: map<int, Item>, items: seq<Item>, ghost shown: set<Item>)
    returns (r: Option<map<int, Item>>)
    requires Collected(summaries, shown)
    ensures r.Some? ==> Collected(r.value, shown + AsSet(items))
    ensures r.None? ==> Conflict(shown + AsSet(items))
  {
    var out := summaries;
    for i := 0 to |items|
      invariant Collected(out, shown + AsSet(items[..i]))
    {
      var item := items[i];
      if item.summary.id in out && out[item.summary.id] != item {
        assert out[item.summary.id] in shown + AsSet(items[..i]) && item in AsSet(items);
        return None;
      }
      out := out[item.summary.id := item];
      assert AsSet(items[..i + 1]) == AsSet(items[..i]) + {item};
    }
    assert items[..|items|] == items;
    return Some(out);
  }

  predicate Descending(items: seq<Item>) {
    forall i, j :: 0 <= i < j < |items| ==> items[i].summary.id > items[j].summary.id
  }

  function InsertDescending(item: Item, sorted: seq<Item>): seq<Item> {
    if sorted == [] || item.summary.id > sorted[0].summary.id then [item] + sorted
    else [sorted[0]] + InsertDescending(item, sorted[1..])
  }

  lemma {:induction false} InsertAdds(item: Item, sorted: seq<Item>)
    ensures forall x :: x in InsertDescending(item, sorted) <==> x == item || x in sorted
    ensures |InsertDescending(item, sorted)| == |sorted| + 1
  {
    if sorted != [] && item.summary.id <= sorted[0].summary.id {
      InsertAdds(item, sorted[1..]);
      assert sorted == [sorted[0]] + sorted[1..];
    }
  }

  lemma DescendingCons(item: Item, rest: seq<Item>)
    requires Descending(rest) && forall x :: x in rest ==> item.summary.id > x.summary.id
    ensures Descending([item] + rest)
  {
  }

  lemma {:induction false} InsertKeepsDescending(item: Item, sorted: seq<Item>)
    requires Descending(sorted) && forall x :: x in sorted ==> x.summary.id != item.summary.id
    ensures Descending(InsertDescending(item, sorted))
  {
    if sorted == [] || item.summary.id > sorted[0].summary.id {
      DescendingCons(item, sorted);
    } else {
      InsertKeepsDescending(item, sorted[1..]);
      InsertAdds(item, sorted[1..]);
      DescendingCons(sorted[0], InsertDescending(item, sorted[1..]));
    }
  }

  /** The values in descending order of their ids. */
  method SortedItems(summaries: map<int, Item>) returns (items: seq<Item>)
    requires forall id :: id in summaries ==> summaries[id].summary.id == id
    ensures Descending(items) && |items| == |summaries.Keys|
    ensures forall item :: item in items <==> item.summary.id in summaries && summaries[item.summary.id] == item
  {
    items := [];
    var todo := summaries.Keys;
    while todo != {}
      invariant todo <= summaries.Keys && Descending(items) && |items| + |todo| == |summaries.Keys|
      invariant forall item :: item in items <==>
        item.summary.id in summaries && item.summary.id !in todo && summaries[item.summary.id] == item
      decreases |todo|
    {
      var id := AnyOf(todo);
      InsertKeepsDescending(summaries[id], items);
      InsertAdds(summaries[id], items);
      items := InsertDescending(summaries[id], items);
      todo := todo - {id};
    }
  }

  // ----- the walk -----

  /** What the walk knows between two pages. */
  ghost predicate Walked(pages: Pages, queue: seq<string>, fetched: seq<string>) {
    && (forall i, j :: 0 <= i < j < |fetched| ==> fetched[i] != fetched[j])
    && (forall i :: 0 <= i < |fetched| ==> pages(fetched[i]).Some? && Reachable(pages, fetched[i]))
    && (forall q :: q in queue ==> Reachable(pages, q))
    && ("" in queue || "" in fetched)
    && LinksKnown(pages, queue, fetched)
  }

  /** Every link of a fetched page was fetched or is queued. */
  ghost predicate LinksKnown(pages: Pages, queue: seq<string>, fetched: seq<string>) {
    forall p, l :: p in fetched && l in Links(pages, p) ==> l in fetched || l in queue
  }

  /** Every item of the fetched pages. */
  function ShownSet(pages: Pages, fetched: seq<string>): set<Item> {
    if fetched == [] then {}
    else ShownSet(pages, fetched[..|fetched| - 1]) + AsSet(Items(pages, fetched[|fetched| - 1]))
  }

  lemma {:induction false} ShownMeans(pages: Pages, fetched: seq<string>, item: Item)
    ensures item in ShownSet(pages, fetched) <==> Shown(pages, fetched, item)
  {
    if fetched != [] {
      var n := |fetched| - 1;
      ShownMeans(pages, fetched[..n], item);
      if Shown(pages, fetched[..n], item) {
        var i :| 0 <= i < n && item in Items(pages, fetched[..n][i]);
        assert item in Items(pages, fetched[i]);
      }
    }
  }

  lemma WalkedStart(pages: Pages)
    ensures Walked(pages, [""], [])
  {
    RootReachable(pages);
  }

  lemma WalkedSkip(pages: Pages, queue: seq<string>, fetched: seq<string>)
    requires Walked(pages, queue, fetched) && queue != [] && queue[0] in fetched
    ensures Walked(pages, queue[1..], fetched)
  {
    assert queue == [queue[0]] + queue[1..];
  }

  /** The links that are appended to the queue. */
  function Unvisited(links: seq<string>, fetched: seq<string>): seq<string> {
    if links == [] then []
    else (if links[0] in fetched then [] else [links[0]]) + Unvisited(links[1..], fetched)
  }

  lemma {:induction false} UnvisitedMeans(links: seq<string>, fetched: seq<string>)
    ensures forall l :: l in Unvisited(links, fetched) <==> l in links && l !in fetched
  {
    if links != [] {
      UnvisitedMeans(links[1..], fetched);
      assert links == [links[0]] + links[1..];
    }
  }

  lemma LinksStayKnown(pages: Pages, queue: seq<string>, fetched: seq<string>)
    requires LinksKnown(pages, queue, fetched) && queue != []
    ensures var more := fetched + [queue[0]];
            LinksKnown(pages, queue[1..] + Unvisited(Links(pages, queue[0]), more), more)
  {
    hide Links;
    var path, more := queue[0], fetched + [queue[0]];
    assert queue == [path] + queue[1..];
    UnvisitedMeans(Links(pages, path), more);
  }

  lemma QueueStaysReachable(pages: Pages, queue: seq<string>, more: seq<string>)
    requires queue != [] && forall q :: q in queue ==> Reachable(pages, q)
    ensures forall q :: q in queue[1..] + Unvisited(Links(pages, queue[0]), more) ==> Reachable(pages, q)
  {
    var path := queue[0];
    assert queue == [path] + queue[1..];
    UnvisitedMeans(Links(pages, path), more);
    forall l | l in Links(pages, path) ensures Reachable(pages, l) {
      LinkReachable(pages, path, l);
    }
  }

  lemma WalkedFetch(pages: Pages, queue: seq<string>, fetched: seq<string>)
    requires Walked(pages, queue, fetched) && queue != [] && queue[0] !in fetched && pages(queue[0]).Some?
    ensures var more := fetched + [queue[0]];
            Walked(pages, queue[1..] + Unvisited(Links(pages, queue[0]), more), more)
  {
    hide LinksKnown, Reachable, Unvisited, Links;
    LinksStayKnown(pages, queue, fetched);
    QueueStaysReachable(pages, queue, fetched + [queue[0]]);
    assert queue == [queue[0]] + queue[1..];
  }

  /** The walk was complete: exactly the reachable pages were fetched. */
  lemma AllFetched(pages: Pages, fetched: seq<string>)
    requires Walked(pages, [], fetched)
    ensures forall path :: Reachable(pages, path) <==> path in fetched
  {
    forall path | Reachable(pages, path) ensures path in fetched {
      var trail :| Walk(pages, trail) && trail[|trail| - 1] == path;
      ClosedHoldsWalk(pages, AsSet(fetched), trail);
    }
  }

  /** The first page shows many proposals but no pager was recognized in it. */
  predicate PagerMissing(pages: Pages) {
    pages("").Some? && pages("").value.links == [] && |pages("").value.items| >= 5
  }

  /** A first page without a link is taken for incomplete from five proposals on. */
  lemma PagerMissingIs(pages: Pages, page: Page)
    requires pages("") == Some(page)
    ensures page.links != [] || |page.items| < 5 ==> !PagerMissing(pages)
    ensures page.links == [] && |page.items| > 4 ==> PagerMissing(pages)
  {
  }

  /** The requests of a walk: distinct pages that are reachable, never more than allowed. */
  ghost predicate Requested(pages: Pages, maxPages: int, fetched: seq<string>) {
    && (forall i, j :: 0 <= i < j < |fetched| ==> fetched[i] != fetched[j])
    && (forall p :: p in fetched ==> Reachable(pages, p))
    && (fetched == [] || |fetched| <= maxPages)
  }

  /** What a successful walk gives. */
  ghost predicate Discovery(pages: Pages, maxPages: nat, maxProposals: nat, fetched: seq<string>, d: Discovered) {
    && d.pageCount == |fetched| && 1 <= d.pageCount && Requested(pages, maxPages, fetched)
    && Descending(d.items) && |d.items| <= maxProposals
    && (forall item :: item in d.items <==> Shown(pages, fetched, item))
    && (d.complete <==> !PagerMissing(pages) && forall p :: Reachable(pages, p) ==> p in fetched)
    && ((exists p :: Reachable(pages, p) && p !in fetched) ==> d.pageCount == maxPages)
  }

  /** The pages so far gave no reason to fail. */
  ghost predicate Harmless(pages: Pages, maxProposals: int, capture: bool, fetched: seq<string>) {
    && (forall i :: 0 <= i < |fetched| ==> pages(fetched[i]).Some?)
    && (exists m: map<int, Item> :: Collected(m, ShownSet(pages, fetched)) && |m.Keys| <= maxProposals)
    && (capture ==> TotalBytes(pages, fetched) <= MAX_TOTAL_RAW_BYTES)
  }

  /** Why the last requested page ends the walk. */
  ghost predicate FailsFor(pages: Pages, maxProposals: int, capture: bool, fetched: seq<string>, e: Error)
    requires fetched != []
  {
    match e
    case InvalidLimits => false
    case PageFailed => pages(fetched[|fetched| - 1]).None?
    case ConflictingProposal => Conflict(ShownSet(pages, fetched))
    case TooManyProposals =>
      exists m: map<int, Item> :: Collected(m, ShownSet(pages, fetched)) && |m.Keys| > maxProposals
    case TooManyBytes => capture && TotalBytes(pages, fetched) > MAX_TOTAL_RAW_BYTES
  }

  /** A dictionary exists exactly if no two shown items conflict, so the causes exclude each other. */
  lemma CollectedOrConflict(m: map<int, Item>, shown: set<Item>)
    requires Collected(m, shown)
    ensures !Conflict(shown)
    ensures forall n: map<int, Item> :: Collected(n, shown) ==> n == m
  {
    forall n: map<int, Item> | Collected(n, shown) ensures n == m {
      assert forall id :: id in n ==> n[id] in shown && id in m && m[id] == n[id];
      assert forall id :: id in m ==> m[id] in shown && id in n;
    }
  }

  /** So harmless pages give no error. */
  lemma HarmlessOrFails(pages: Pages, maxProposals: int, capture: bool, fetched: seq<string>, e: Error)
    requires fetched != [] && Harmless(pages, maxProposals, capture, fetched)
    ensures !FailsFor(pages, maxProposals, capture, fetched, e)
  {
    var m: map<int, Item> :| Collected(m, ShownSet(pages, fetched)) && |m.Keys| <= maxProposals;
    CollectedOrConflict(m, ShownSet(pages, fetched));
  }

  function TotalBytes(pages: Pages, fetched: seq<string>): nat {
    if fetched == [] then 0
    else TotalBytes(pages, fetched[..|fetched| - 1])
         + (if pages(fetched[|fetched| - 1]).Some? then pages(fetched[|fetched| - 1]).value.bytes else 0)
  }

  /** One page: None when its path fails to render. */
  method FetchPage(pages: Pages, capture: bool, fetched: seq<string>, path: string, bytes: nat,
                   summaries: map<int, Item>, maxProposals: int)
    returns (r: Result<(map<int, Item>, nat), Error>)
    requires Collected(summaries, ShownSet(pages, fetched)) && Reachable(pages, path)
    requires capture ==> bytes == TotalBytes(pages, fetched)
    ensures r.Ok? ==>
      && pages(path).Some? && Collected(r.value.0, ShownSet(pages, fetched + [path]))
      && |r.value.0.Keys| <= maxProposals
      && (capture ==> r.value.1 == TotalBytes(pages, fetched + [path]) <= MAX_TOTAL_RAW_BYTES)
    ensures r.Err? ==> FailsFor(pages, maxProposals, capture, fetched + [path], r.error)
  {
    var more := fetched + [path];
    assert more[..|more| - 1] == fetched;
    var page := pages(path);
    if page.None? {
      return Err(PageFailed);
    }
    var total := bytes;
    if capture {
      total := total + page.value.bytes;
      if total > MAX_TOTAL_RAW_BYTES {
        return Err(TooManyBytes);
      }
    }
    var added := AddItems(summaries, page.value.items, ShownSet(pages, fetched));
    if added.None? {
      return Err(ConflictingProposal);
    }
    if |added.value.Keys| > maxProposals {
      assert Collected(added.value, ShownSet(pages, more));
      return Err(TooManyProposals);
    }
    return Ok((added.value, total));
  }

  /** The walk ended before any page beyond `fetched`. */
  lemma LimitReached(pages: Pages, queue: seq<string>, fetched: seq<string>)
    requires Walked(pages, queue, fetched) && queue != [] && queue[0] !in fetched
    ensures exists p :: Reachable(pages, p) && p !in fetched
  {
    assert queue[0] in queue;
  }

  lemma Concluded(pages: Pages, maxPages: nat, maxProposals: nat, queue: seq<string>, fetched: seq<string>,
                  summaries: map<int, Item>, d: Discovered)
    requires Walked(pages, queue, fetched) && 1 <= |fetched| <= maxPages && d.pageCount == |fetched|
    requires queue == [] || (queue[0] !in fetched && |fetched| == maxPages)
    requires Collected(summaries, ShownSet(pages, fetched)) && |summaries.Keys| <= maxProposals
    requires Descending(d.items) && |d.items| == |summaries.Keys|
    requires forall item :: item in d.items <==> item.summary.id in summaries && summaries[item.summary.id] == item
    requires d.complete <==> queue == [] && !PagerMissing(pages)
    ensures Discovery(pages, maxPages, maxProposals, fetched, d)
  {
    if queue == [] { AllFetched(pages, fetched); } else { LimitReached(pages, queue, fetched); }
    WalkedRequested(pages, maxPages, queue, fetched);
    hide Walked, Reachable, PagerMissing, Requested, ShownSet;
    forall item ensures item in d.items <==> Shown(pages, fetched, item) {
      ShownMeans(pages, fetched, item);
    }
  }

  lemma WalkedRequested(pages: Pages, maxPages: nat, queue: seq<string>, fetched: seq<string>)
    requires Walked(pages, queue, fetched) && |fetched| <= maxPages
    ensures Requested(pages, maxPages, fetched)
  {
  }

  /** The walk over the pages of the list. `fetched` are the requests that were made. */
  method DiscoverList(pages: Pages, maxPages: int, maxProposals: int, capture: bool)
    returns (r: Result<Discovered, Error>, fetched: seq<string>)
    ensures r == Err(InvalidLimits) <==>
      !(1 <= maxPages <= MAX_GOVERNANCE_PAGES && 1 <= maxProposals <= MAX_GOVERNANCE_PROPOSALS)
    ensures Requested(pages, maxPages, fetched)
    ensures r.Ok? ==> Discovery(pages, maxPages, maxProposals, fetched, r.value)
    ensures r.Ok? ==> Harmless(pages, maxProposals, capture, fetched)
    ensures r.Err? && r.error != InvalidLimits ==>
      && fetched != [] && FailsFor(pages, maxProposals, capture, fetched, r.error)
      && Harmless(pages, maxProposals, capture, fetched[..|fetched| - 1])
  {
    hide Walked, Collected, Reachable, Conflict, Discovery, Requested, Harmless, FailsFor, ShownSet, TotalBytes;
    fetched := [];
    NothingRequested(pages, maxPages);
    if !(1 <= maxPages <= MAX_GOVERNANCE_PAGES && 1 <= maxProposals <= MAX_GOVERNANCE_PROPOSALS) {
      return Err(InvalidLimits), fetched;
    }
    var queue: seq<string> := [""];
    var summaries: map<int, Item> := map[];
    var bytes := 0;
    var recognized := true;
    WalkedStart(pages);
    NothingCollected(pages);
    HarmlessNext(pages, maxProposals, capture, fetched, summaries);
    while queue != []
      invariant Requested(pages, maxPages, fetched) && Harmless(pages, maxProposals, capture, fetched)
      invariant Walked(pages, queue, fetched) && |fetched| <= maxPages
      invariant Collected(summaries, ShownSet(pages, fetched)) && |summaries.Keys| <= maxProposals
      invariant capture ==> bytes == TotalBytes(pages, fetched) <= MAX_TOTAL_RAW_BYTES
      invariant if fetched == [] then queue == [""] && recognized
                else fetched[0] == "" && recognized == !PagerMissing(pages)
      decreases maxPages - |fetched|, |queue|
    {
      var path := queue[0];
      if path in fetched {
        WalkedSkip(pages, queue, fetched);
        queue := queue[1..];
      } else if |fetched| >= maxPages {
        var items := SortedItemsOf(summaries, ShownSet(pages, fetched));
        r := Ok(Discovered(false, |fetched|, items));
        Concluded(pages, maxPages, maxProposals, queue, fetched, summaries, r.value);
        return r, fetched;
      } else {
        QueueReachable(pages, queue, fetched);
        var page := FetchPage(pages, capture, fetched, path, bytes, summaries, maxProposals);
        RequestedNext(pages, maxPages, fetched, path);
        if page.Err? {
          assert (fetched + [path])[..|fetched|] == fetched;
          return Err(page.error), fetched + [path];
        }
        summaries, bytes := page.value.0, page.value.1;
        assert (fetched + [path])[..|fetched|] == fetched;
        HarmlessNext(pages, maxProposals, capture, fetched + [path], summaries);
        var links := pages(path).value.links;
        WalkedFetch(pages, queue, fetched);
        fetched := fetched + [path];
        queue := queue[1..] + Unvisited(links, fetched);
        if links == [] && path == "" && |pages(path).value.items| >= 5 {
          recognized := false;
        }
        RootOnce(pages, queue, fetched);
      }
    }
    var items := SortedItemsOf(summaries, ShownSet(pages, fetched));
    SomethingFetched(pages, fetched);
    r := Ok(Discovered(recognized, |fetched|, items));
    Concluded(pages, maxPages, maxProposals, queue, fetched, summaries, r.value);
    return r, fetched;
  }

  method SortedItemsOf(summaries: map<int, Item>, ghost shown: set<Item>) returns (items: seq<Item>)
    requires Collected(summaries, shown)
    ensures Descending(items) && |items| == |summaries.Keys|
    ensures forall item :: item in items <==> item.summary.id in summaries && summaries[item.summary.id] == item
  {
    items := SortedItems(summaries);
  }

  lemma NothingRequested(pages: Pages, maxPages: int)
    ensures Requested(pages, maxPages, [])
  {
  }

  lemma RequestedNext(pages: Pages, maxPages: int, fetched: seq<string>, path: string)
    requires Requested(pages, maxPages, fetched) && Reachable(pages, path) && path !in fetched && |fetched| < maxPages
    ensures Requested(pages, maxPages, fetched + [path])
  {
    hide Reachable;
  }

  lemma HarmlessNext(pages: Pages, maxProposals: int, capture: bool, fetched: seq<string>, summaries: map<int, Item>)
    requires Collected(summaries, ShownSet(pages, fetched)) && |summaries.Keys| <= maxProposals
    requires fetched != [] ==>
      Harmless(pages, maxProposals, capture, fetched[..|fetched| - 1]) && pages(fetched[|fetched| - 1]).Some?
    requires capture ==> TotalBytes(pages, fetched) <= MAX_TOTAL_RAW_BYTES
    ensures Harmless(pages, maxProposals, capture, fetched)
  {
    hide Collected, ShownSet, TotalBytes;
  }

  lemma NothingCollected(pages: Pages)
    ensures Collected(map[], ShownSet(pages, [])) && TotalBytes(pages, []) == 0
  {
  }

  lemma QueueReachable(pages: Pages, queue: seq<string>, fetched: seq<string>)
    requires Walked(pages, queue, fetched) && queue != []
    ensures Reachable(pages, queue[0])
  {
    assert queue[0] in queue;
  }

  lemma SomethingFetched(pages: Pages, fetched: seq<string>)
    requires Walked(pages, [], fetched)
    ensures fetched != []
  {
  }

  lemma RootOnce(pages: Pages, queue: seq<string>, fetched: seq<string>)
    requires Walked(pages, queue, fetched)
    ensures forall i :: 0 < i < |fetched| ==> fetched[i] != fetched[0]
  {
  }

  // ----- what the quick writer may rely on -----

  /** The list that is handed to the quick writer. */
  function ListingOf(source: Source, d: Discovered): Listing {
    Listing(source, d.complete, d.pageCount, seq(|d.items|, i requires 0 <= i < |d.items| => d.items[i].summary))
  }

  /** Whatever the walk returns passes the quick writer's own checks of the list. */
  lemma DiscoveredListAcceptable(pages: Pages, maxPages: nat, maxProposals: nat, fetched: seq<string>, d: Discovered,
                                 source: Source)
    requires Discovery(pages, maxPages, maxProposals, fetched, d)
    requires maxPages <= MAX_GOVERNANCE_PAGES && maxProposals <= MAX_GOVERNANCE_PROPOSALS
    requires source.realmPath != "" && Bounded(source.realmPath, 512) && source.observedHeight >= 1
    ensures GovernancePersistence.ListAcceptable(ListingOf(source, d))
  {
    hide Reachable, Shown, PagerMissing;
    var summaries := ListingOf(source, d).proposals;
    assert forall i, j :: 0 <= i < j < |summaries| ==> summaries[i].id != summaries[j].id;
  }
}
