/** The public display: a route looked up by name, its rows in position
    order, and the fallback to the default route. */
module PublicView {
  import opened Wrappers
  import opened Models
  import opened Http
  import opened Assign

  /** The first route named `name`, as
      `select(RouteSet).where(RouteSet.route == name).first()`. */
  function FindRoute(routes: seq<RouteSet>, name: string): (r: Option<RouteSet>)
    ensures r.Some? ==> r.value in routes && r.value.route == name
    ensures r.None? <==> forall i :: 0 <= i < |routes| ==> routes[i].route != name
  {
    if |routes| == 0 then None
    else if routes[0].route == name then Some(routes[0])
    else FindRoute(routes[1..], name)
  }

  /** With unique route names the lookup finds the one route of that name. */
  lemma FindUniqueRoute(routes: seq<RouteSet>, r: RouteSet)
    requires UniqueRouteNames(routes)
    requires r in routes
    ensures FindRoute(routes, r.route) == Some(r)
  {
  }

  predicate SortedByPosition(rows: seq<RouteItem>)
  {
    forall i, j :: 0 <= i < j < |rows| ==> rows[i].position <= rows[j].position
  }

  /** Puts `x` into sorted `rows` ahead of the rows with the same or a
      later position. */
  function InsertByPosition(x: RouteItem, rows: seq<RouteItem>): (r: seq<RouteItem>)
    requires SortedByPosition(rows)
    ensures SortedByPosition(r)
    ensures multiset(r) == multiset(rows) + multiset{x}
    ensures |r| > 0 && (r[0] == x || (|rows| > 0 && r[0] == rows[0]))
  {
    if |rows| == 0 || x.position <= rows[0].position then
      SortedCons(x, rows);
      [x] + rows
    else
      var rest := InsertByPosition(x, rows[1..]);
      assert rows == [rows[0]] + rows[1..];
      SortedCons(rows[0], rest);
      [rows[0]] + rest
  }

  /** A row no later than the first of some sorted rows can go in front. */
  lemma SortedCons(x: RouteItem, rows: seq<RouteItem>)
    requires SortedByPosition(rows)
    requires |rows| == 0 || x.position <= rows[0].position
    ensures SortedByPosition([x] + rows)
  {
    var r := [x] + rows;
    forall i, j | 0 <= i < j < |r|
      ensures r[i].position <= r[j].position
    {
      assert r[j] == rows[j - 1];
      if i > 0 {
        assert r[i] == rows[i - 1];
      } else {
        assert rows[0].position <= rows[j - 1].position;
      }
    }
  }

  /** `ORDER BY position`: a stable insertion sort on the rows. */
  function SortByPosition(rows: seq<RouteItem>): (r: seq<RouteItem>)
    ensures SortedByPosition(r)
    ensures multiset(r) == multiset(rows)
  {
    if |rows| == 0 then []
    else
      assert rows == [rows[0]] + rows[1..];
      InsertByPosition(rows[0], SortByPosition(rows[1..]))
  }

  /** Rows already in position order come out of the sort unchanged. */
  lemma {:induction false} SortKeepsSortedRows(rows: seq<RouteItem>)
    requires SortedByPosition(rows)
    ensures SortByPosition(rows) == rows
  {
    if |rows| > 0 {
      SortKeepsSortedRows(rows[1..]);
      assert rows == [rows[0]] + rows[1..];
    }
  }

  /** The rows the display of `route` lists, in position order. */
  function OrderedLinks(s: Store, route: RouteSet): seq<RouteItem>
  {
    match route.id
    case None => []
    case Some(key) => SortByPosition(LinksOf(s.links, key))
  }

  /** `GET /r/{name}`. An unknown name redirects to the default route; a
      known one renders its items in position order with the global
      inactivity timeout, whatever timeout the route itself stores. */
  function ViewRoute(s: Store, name: string): (r: Response)
    ensures r.Redirect? <==> forall i :: 0 <= i < |s.routes| ==> s.routes[i].route != name
    ensures r.Redirect? ==> r == Redirect("/r/" + DefaultRoute, TemporaryRedirect, NoCookie)
    ensures !r.Redirect? ==> r.Page? && r.view.RoutePage?
    ensures !r.Redirect? ==> r.view.route in s.routes && r.view.route.route == name
    ensures !r.Redirect? ==> r.view.inactivityTimeout == InactivityTimeout
  {
    match FindRoute(s.routes, name)
    case None => Redirect("/r/" + DefaultRoute, TemporaryRedirect, NoCookie)
    case Some(route) => Page(RoutePage(route, LookupItems(s.items, OrderedLinks(s, route)), InactivityTimeout))
  }

  /** The displayed items are the route's rows, all of them and no other,
      looked up in ascending position. */
  lemma DisplayFollowsPositions(s: Store, name: string)
    requires ViewRoute(s, name).Page?
    ensures var v := ViewRoute(s, name).view;
      var rows := OrderedLinks(s, v.route);
      && SortedByPosition(rows)
      && (v.route.id.Some? ==> multiset(rows) == multiset(LinksOf(s.links, v.route.id.value)))
      && |v.slots| == |rows|
      && forall i :: 0 <= i < |rows| ==> v.slots[i] == FindItem(s.items, rows[i].itemId)
  {
  }

  /** After a successful `POST .../assign` on a stored route, the rows
      its display uses carry the parsed ids in token order, at positions
      1, 2, ..., N. */
  lemma AssignedRowsInOrder(s: Store, cookies: Cookies, route: RouteSet, order: string)
    requires IsAuthenticated(cookies)
    requires route.id.Some? && IsInt64(route.id.value)
    requires StorableOrder(order)
    ensures var rows := OrderedLinks(PostAssign(s, cookies, route.id.value, order).0, route);
      && ItemIdsOf(rows) == ParseOrder(order).value
      && PositionsOf(rows) == Range(1, |ParseOrder(order).value|)
  {
    var rid := route.id.value;
    var rows := LinksOf(PostAssign(s, cookies, rid, order).0.links, rid);
    assert SortedByPosition(rows) by {
      forall i, j | 0 <= i < j < |rows|
        ensures rows[i].position <= rows[j].position
      {
        assert PositionsOf(rows)[i] == 1 + i && PositionsOf(rows)[j] == 1 + j;
      }
    }
    SortKeepsSortedRows(rows);
  }

  /** Assign, then view: after a successful `POST .../assign` on a stored
      route, its display lists the items of the parsed ids, in token
      order. */
  lemma AssignThenView(s: Store, cookies: Cookies, route: RouteSet, order: string)
    requires Valid(s)
    requires IsAuthenticated(cookies)
    requires route in s.routes && route.id.Some? && IsInt64(route.id.value)
    requires StorableOrder(order)
    ensures var ids := ParseOrder(order).value;
      ViewRoute(PostAssign(s, cookies, route.id.value, order).0, route.route)
      == Page(RoutePage(route, seq(|ids|, i requires 0 <= i < |ids| => FindItem(s.items, ids[i])), InactivityTimeout))
  {
    var ids := ParseOrder(order).value;
    var s' := PostAssign(s, cookies, route.id.value, order).0;
    assert s'.items == s.items && s'.routes == s.routes;
    AssignedRowsInOrder(s, cookies, route, order);
    FindUniqueRoute(s'.routes, route);
    var rows := OrderedLinks(s', route);
    LookupByIds(s.items, rows, ids);
    assert ViewRoute(s', route.route) == Page(RoutePage(route, LookupItems(s.items, rows), InactivityTimeout));
  }

  /** Looking up rows is looking up their item ids. */
  lemma LookupByIds(items: seq<Item>, rows: seq<RouteItem>, ids: seq<int>)
    requires ItemIdsOf(rows) == ids
    ensures LookupItems(items, rows) == seq(|ids|, i requires 0 <= i < |ids| => FindItem(items, ids[i]))
  {
    assert |ItemIdsOf(rows)| == |rows|;
    forall i | 0 <= i < |rows|
      ensures rows[i].itemId == ids[i]
    {
      assert ItemIdsOf(rows)[i] == rows[i].itemId;
    }
  }

  /** When the default route itself is missing, the fallback redirects to
      the page that was just asked for: a redirect loop. */
  lemma MissingDefaultLoops(s: Store)
    requires forall i :: 0 <= i < |s.routes| ==> s.routes[i].route != DefaultRoute
    ensures ViewRoute(s, DefaultRoute).Redirect?
    ensures ViewRoute(s, DefaultRoute).url == "/r/" + DefaultRoute
  {
  }

  /** `GET /`: to the default route. */
  function RedirectToDefault(): Response
  {
    Redirect("/r/" + DefaultRoute, TemporaryRedirect, NoCookie)
  }

  /** The front page and an unknown route name lead to the same place. */
  lemma FrontPageIsFallback(s: Store, name: string)
    requires forall i :: 0 <= i < |s.routes| ==> s.routes[i].route != name
    ensures ViewRoute(s, name) == RedirectToDefault()
  {
  }
}
