/** The single-slot route cache (CachingRouteLocator): the delegate's routes,
    sorted by their order, kept under one key until a refresh clears the slot
    or a refresh event overwrites it. */
module RouteCache {
  import opened Wrappers

  /** A route as the cache sees it: only its order matters to the cache. */
  datatype Route = Route(id: string, uri: string, order: int)

  /** A materialized route stream: every route followed by completion, or the
      error that ended it. */
  type Signals = Result<seq<Route>, string>

  /** The one key the cache map is ever written under. */
  const CacheKey: string := "routes"

  // ---------------------------------------------------------------------------
  // Sorting by order (a stable sort, as List.sort is)
  // ---------------------------------------------------------------------------

  predicate Sorted(routes: seq<Route>) {
    forall i, j :: 0 <= i < j < |routes| ==> routes[i].order <= routes[j].order
  }

  /** The routes of the given order, in their relative order. */
  function WithOrder(routes: seq<Route>, order: int): seq<Route> {
    if routes == [] then []
    else (if routes[0].order == order then [routes[0]] else []) + WithOrder(routes[1..], order)
  }

  /** `sorted` is `routes` sorted by order, ties keeping their input order. */
  ghost predicate IsStableSortOf(sorted: seq<Route>, routes: seq<Route>) {
    Sorted(sorted) && forall order :: WithOrder(sorted, order) == WithOrder(routes, order)
  }

  /** Places a route before the first route of the same or a higher order. */
  function Insert(route: Route, sorted: seq<Route>): seq<Route> {
    if sorted == [] then [route]
    else if route.order <= sorted[0].order then [route] + sorted
    else [sorted[0]] + Insert(route, sorted[1..])
  }

  function SortByOrder(routes: seq<Route>): seq<Route> {
    if routes == [] then [] else Insert(routes[0], SortByOrder(routes[1..]))
  }

  /** Every route of the list has at least the given order. */
  predicate AllAtLeast(routes: seq<Route>, bound: int) {
    forall k :: 0 <= k < |routes| ==> bound <= routes[k].order
  }

  lemma {:induction false} InsertAtLeast(route: Route, sorted: seq<Route>, bound: int)
    requires AllAtLeast(sorted, bound) && bound <= route.order
    ensures AllAtLeast(Insert(route, sorted), bound)
  {
    if sorted != [] && route.order > sorted[0].order {
      InsertAtLeast(route, sorted[1..], bound);
    }
  }

  lemma {:induction false} InsertSorted(route: Route, sorted: seq<Route>)
    requires Sorted(sorted)
    ensures Sorted(Insert(route, sorted))
  {
    if sorted != [] && route.order > sorted[0].order {
      var rest := Insert(route, sorted[1..]);
      InsertSorted(route, sorted[1..]);
      InsertAtLeast(route, sorted[1..], sorted[0].order);
      var r := [sorted[0]] + rest;
      forall i, j | 0 <= i < j < |r|
        ensures r[i].order <= r[j].order
      {
        assert r[j] == rest[j - 1];
        if i > 0 {
          assert r[i] == rest[i - 1];
        }
      }
    }
  }

  lemma {:induction false} InsertContents(route: Route, sorted: seq<Route>)
    ensures |Insert(route, sorted)| == |sorted| + 1
    ensures multiset(Insert(route, sorted)) == multiset(sorted) + multiset{route}
  {
    if sorted != [] && route.order > sorted[0].order {
      InsertContents(route, sorted[1..]);
      assert sorted == [sorted[0]] + sorted[1..];
    }
  }

  lemma {:induction false} InsertWithOrder(route: Route, sorted: seq<Route>, order: int)
    ensures WithOrder(Insert(route, sorted), order) ==
      if route.order == order then [route] + WithOrder(sorted, order) else WithOrder(sorted, order)
  {
    if sorted == [] {
      assert [route][1..] == [];
    } else if route.order <= sorted[0].order {
      assert ([route] + sorted)[1..] == sorted;
    } else {
      InsertWithOrder(route, sorted[1..], order);
      var rest := Insert(route, sorted[1..]);
      assert ([sorted[0]] + rest)[1..] == rest;
    }
  }

  lemma {:induction false} SortByOrderSorted(routes: seq<Route>)
    ensures Sorted(SortByOrder(routes))
  {
    if routes != [] {
      SortByOrderSorted(routes[1..]);
      InsertSorted(routes[0], SortByOrder(routes[1..]));
    }
  }

  lemma {:induction false} SortByOrderPermutes(routes: seq<Route>)
    ensures multiset(SortByOrder(routes)) == multiset(routes)
  {
    if routes != [] {
      SortByOrderPermutes(routes[1..]);
      InsertContents(routes[0], SortByOrder(routes[1..]));
      assert routes == [routes[0]] + routes[1..];
    }
  }

  lemma {:induction false} SortByOrderKeepsTies(routes: seq<Route>, order: int)
    ensures WithOrder(SortByOrder(routes), order) == WithOrder(routes, order)
  {
    if routes != [] {
      SortByOrderKeepsTies(routes[1..], order);
      InsertWithOrder(routes[0], SortByOrder(routes[1..]), order);
    }
  }

  /** The sort is a stable sort and a permutation of its input. */
  lemma SortByOrderIsStableSort(routes: seq<Route>)
    ensures IsStableSortOf(SortByOrder(routes), routes)
    ensures multiset(SortByOrder(routes)) == multiset(routes)
  {
    SortByOrderSorted(routes);
    SortByOrderPermutes(routes);
    forall order
      ensures WithOrder(SortByOrder(routes), order) == WithOrder(routes, order)
    {
      SortByOrderKeepsTies(routes, order);
    }
  }

  lemma {:induction false} WithOrderNonEmpty(routes: seq<Route>, order: int)
    requires WithOrder(routes, order) != []
    ensures exists i :: 0 <= i < |routes| && routes[i].order == order
  {
    if routes[0].order != order {
      WithOrderNonEmpty(routes[1..], order);
      var i :| 0 <= i < |routes[1..]| && routes[1..][i].order == order;
      assert routes[i + 1].order == order;
    }
  }

  /** In a sorted list, the first route has the least order of all. */
  lemma SortedHeadIsLeast(routes: seq<Route>, order: int)
    requires Sorted(routes)
    requires WithOrder(routes, order) != []
    ensures routes[0].order <= order
  {
    WithOrderNonEmpty(routes, order);
  }

  lemma SortedHeadsAgree(r: seq<Route>, t: seq<Route>)
    requires Sorted(r) && Sorted(t) && r != [] && t != []
    requires forall order :: WithOrder(r, order) == WithOrder(t, order)
    ensures r[0] == t[0]
  {
    var a, b := r[0], t[0];
    assert WithOrder(r, a.order)[0] == a;
    assert WithOrder(t, b.order)[0] == b;
    SortedHeadIsLeast(t, a.order);
    SortedHeadIsLeast(r, b.order);
  }

  lemma TailWithOrder(routes: seq<Route>, order: int)
    requires routes != []
    ensures WithOrder(routes[1..], order) ==
      if routes[0].order == order then WithOrder(routes, order)[1..] else WithOrder(routes, order)
  {
  }

  lemma TailsAgree(r: seq<Route>, t: seq<Route>)
    requires r != [] && t != [] && r[0] == t[0]
    requires forall order :: WithOrder(r, order) == WithOrder(t, order)
    ensures forall order :: WithOrder(r[1..], order) == WithOrder(t[1..], order)
  {
    forall order
      ensures WithOrder(r[1..], order) == WithOrder(t[1..], order)
    {
      TailWithOrder(r, order);
      TailWithOrder(t, order);
    }
  }

  lemma HeadOrderPresent(routes: seq<Route>)
    requires routes != []
    ensures WithOrder(routes, routes[0].order) != []
  {
  }

  /** Two sorted lists with the same routes of every order, in the same
      relative order, are equal. */
  lemma {:induction false} SortedUnique(r: seq<Route>, t: seq<Route>)
    requires Sorted(r) && Sorted(t)
    requires forall order :: WithOrder(r, order) == WithOrder(t, order)
    ensures r == t
    decreases |r|
  {
    if r == [] {
      if t != [] {
        HeadOrderPresent(t);
        assert false;
      }
    } else if t == [] {
      HeadOrderPresent(r);
      assert false;
    } else {
      SortedHeadsAgree(r, t);
      TailsAgree(r, t);
      SortedUnique(r[1..], t[1..]);
      assert r == [r[0]] + r[1..] && t == [t[0]] + t[1..];
    }
  }

  /** Stable sorting has exactly one result: any stable sort of the routes,
      whatever algorithm produced it, is SortByOrder's. */
  lemma StableSortIsUnique(sorted: seq<Route>, routes: seq<Route>)
    requires IsStableSortOf(sorted, routes)
    ensures sorted == SortByOrder(routes)
  {
    SortByOrderIsStableSort(routes);
    SortedUnique(sorted, SortByOrder(routes));
  }

  /** fetch: the delegate's routes sorted by order; an error ends the stream
      and no route survives it. */
  function Fetch(upstream: Signals): (r: Signals)
    ensures r.Failure? <==> upstream.Failure?
    ensures r.Failure? ==> r == upstream
    ensures r.Success? ==>
      IsStableSortOf(r.value, upstream.value) && multiset(r.value) == multiset(upstream.value)
  {
    match upstream
    case Failure(e) => Failure(e)
    case Success(routes) =>
      SortByOrderIsStableSort(routes);
      Success(SortByOrder(routes))
  }

  // ---------------------------------------------------------------------------
  // The cache
  // ---------------------------------------------------------------------------

  /** The locator's state. A read, a refresh or an event is one atomic step;
      `upstream` stands for what the delegate's routes would be if it were
      asked at that step, and `fetches` counts the times it was asked. */
  class CachingRouteLocator {
    var cache: map<string, Signals>
    ghost var fetches: nat

    /** The map only ever holds the one key. */
    ghost predicate Valid()
      reads this
    {
      cache.Keys <= {CacheKey}
    }

    /** The content of the slot, if it is filled. */
    function Cached(): Option<Signals>
      reads this
    {
      if CacheKey in cache then Some(cache[CacheKey]) else None
    }

    constructor ()
      ensures Valid() && Cached() == None && fetches == 0
    {
      cache := map[];
      fetches := 0;
    }

    /** getRoutes, subscribed to: a filled slot is returned as stored and the
      delegate is not asked; an empty slot is filled with a fresh fetch. */
    method GetRoutes(upstream: Signals) returns (routes: Signals)
      requires Valid()
      modifies this
      ensures Valid()
      ensures old(Cached()).Some? ==>
        routes == old(Cached()).value && cache == old(cache) && fetches == old(fetches)
      ensures old(Cached()).None? ==>
        routes == Fetch(upstream) && Cached() == Some(routes) && fetches == old(fetches) + 1
    {
      if CacheKey in cache {
        routes := cache[CacheKey];
      } else {
        routes := Fetch(upstream);
        cache := cache[CacheKey := routes];
        fetches := fetches + 1;
      }
    }

    /** refresh: the slot is emptied; the delegate is not asked. */
    method Refresh()
      requires Valid()
      modifies this
      ensures Valid() && Cached() == None && fetches == old(fetches)
    {
      cache := map[];
    }

    /** onApplicationEvent(RefreshRoutesEvent): the slot is overwritten with a
      fresh fetch, whatever it held, an error included. */
    method OnRefreshRoutesEvent(upstream: Signals)
      requires Valid()
      modifies this
      ensures Valid() && Cached() == Some(Fetch(upstream)) && fetches == old(fetches) + 1
    {
      cache := cache[CacheKey := Fetch(upstream)];
      fetches := fetches + 1;
    }

    /** getOrder: always 0. */
    function GetOrder(): (order: int)
      ensures order == 0
    {
      0
    }
  }

  // ---------------------------------------------------------------------------
  // Consequences for callers
  // ---------------------------------------------------------------------------

  /** Two reads with nothing in between return the same routes, and the
      delegate is asked at most once for both, whatever it would answer. */
  method ReadTwice(locator: CachingRouteLocator, first: Signals, second: Signals)
    returns (r1: Signals, r2: Signals)
    requires locator.Valid()
    modifies locator
    ensures locator.Valid()
    ensures r1 == r2
    ensures locator.fetches <= old(locator.fetches) + 1
  {
    r1 := locator.GetRoutes(first);
    r2 := locator.GetRoutes(second);
  }

  /** After a refresh the next read recomputes from the delegate, even if the
      slot was filled before. */
  method RefreshThenRead(locator: CachingRouteLocator, upstream: Signals) returns (routes: Signals)
    requires locator.Valid()
    modifies locator
    ensures locator.Valid()
    ensures routes == Fetch(upstream)
    ensures locator.fetches == old(locator.fetches) + 1
  {
    locator.Refresh();
    routes := locator.GetRoutes(upstream);
  }

  /** After a refresh event, reads see that event's fetch, a failed one
      included: the earlier content is not kept. */
  method EventThenRead(locator: CachingRouteLocator, atEvent: Signals, later: Signals) returns (routes: Signals)
    requires locator.Valid()
    modifies locator
    ensures locator.Valid()
    ensures routes == Fetch(atEvent)
    ensures atEvent.Failure? ==> routes == atEvent
  {
    locator.OnRefreshRoutesEvent(atEvent);
    routes := locator.GetRoutes(later);
  }
}
