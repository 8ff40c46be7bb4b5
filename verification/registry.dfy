/** The admin pages for items and routes: listing, and the record each
    create form builds. Uploaded files are reduced to the path stored in
    the record. */
module Registry {
  import opened Wrappers
  import opened Models
  import opened Http

  /** `GET /admin`. */
  function AdminPage(cookies: Cookies): Response
  {
    if !IsAuthenticated(cookies) then ToLogin else Page(AdminHome)
  }

  /** `GET /admin/items`: every item, unfiltered. */
  function ListItems(s: Store, cookies: Cookies): Response
  {
    if !IsAuthenticated(cookies) then ToLogin else Page(ItemList(s.items))
  }

  /** `GET /admin/routes`: every route, unfiltered. */
  function ListRoutes(s: Store, cookies: Cookies): Response
  {
    if !IsAuthenticated(cookies) then ToLogin else Page(RouteList(s.routes))
  }

  /** Where an uploaded icon named `filename` is served from. */
  function IconPath(filename: string): string
  {
    "/" + "media/icons/" + filename
  }

  /** Where an uploaded background named `filename` is served from. */
  function BackgroundPath(filename: string): string
  {
    "/media/backgrounds/" + filename
  }

  /** `POST /admin/items`: a new item whose icon path is built from the
      uploaded file's name. */
  function AddItem(s: Store, cookies: Cookies, caption: string, qrText: string, filename: string): (r: (Store, Response))
    ensures !IsAuthenticated(cookies) ==> r == (s, ToLogin)
    ensures IsAuthenticated(cookies) ==>
              && r.1 == Redirect("/admin/items", Found, NoCookie)
              && r.0.users == s.users && r.0.routes == s.routes && r.0.links == s.links
              && |r.0.items| == |s.items| + 1 && r.0.items[..|s.items|] == s.items
              && var it := r.0.items[|s.items|];
                 && it.caption == caption && it.qrText == qrText
                 && it.imagePath == "/media/icons/" + filename
                 && it.id.Some? && forall i :: 0 <= i < |s.items| ==> s.items[i].id != it.id
    ensures Valid(s) ==> Valid(r.0)
  {
    if !IsAuthenticated(cookies) then (s, ToLogin)
    else
      InsertItemKeepsKeys(s.items, Item(None, caption, qrText, IconPath(filename)));
      KeyColumnMembers(s.items, (it: Item) => it.id, Some(NextKey(ItemKeys(s.items))));
      (s.(items := InsertItem(s.items, Item(None, caption, qrText, IconPath(filename)))),
       Redirect("/admin/items", Found, NoCookie))
  }

  /** Some stored route already uses this name. */
  predicate RouteNameTaken(routes: seq<RouteSet>, name: string)
  {
    exists i :: 0 <= i < |routes| && routes[i].route == name
  }

  /** `POST /admin/routes`. `background` is the uploaded file's name, if
      a file came with the form. The commit raises, nothing is stored and
      the request ends with a 500 when the name is already in use (the
      unique index) or when `rows`, `cols` or `timeout` does not fit the
      64-bit INTEGER column. */
  function AddRoute(s: Store, cookies: Cookies, name: string, title: string, rows: int, cols: int, timeout: int,
                    background: Option<string>): (r: (Store, Response))
    ensures !IsAuthenticated(cookies) ==> r == (s, ToLogin)
    ensures IsAuthenticated(cookies) && RouteNameTaken(s.routes, name) ==> r == (s, Failure(500))
    ensures IsAuthenticated(cookies) && !(IsInt64(rows) && IsInt64(cols) && IsInt64(timeout)) ==>
              r == (s, Failure(500))
    ensures IsAuthenticated(cookies) && !RouteNameTaken(s.routes, name)
              && IsInt64(rows) && IsInt64(cols) && IsInt64(timeout) ==>
              && r.1 == Redirect("/admin/routes", Found, NoCookie)
              && r.0.users == s.users && r.0.items == s.items && r.0.links == s.links
              && |r.0.routes| == |s.routes| + 1 && r.0.routes[..|s.routes|] == s.routes
              && var rs := r.0.routes[|s.routes|];
                 && rs.route == name && rs.title == title && rs.rows == rows && rs.cols == cols && rs.timeout == timeout
                 && (background.None? ==> rs.backgroundPath.None?)
                 && (background.Some? ==> rs.backgroundPath == Some("/media/backgrounds/" + background.value))
                 && rs.id.Some? && forall i :: 0 <= i < |s.routes| ==> s.routes[i].id != rs.id
    ensures Valid(s) ==> Valid(r.0)
  {
    if !IsAuthenticated(cookies) then (s, ToLogin)
    else
      var bg := match background
        case Some(f) => Some(BackgroundPath(f))
        case None => None;
      var draft := RouteSet(None, name, title, rows, cols, timeout, bg);
      if RouteNameTaken(s.routes, name) || !(IsInt64(rows) && IsInt64(cols) && IsInt64(timeout)) then
        (s, Failure(500))
      else
        InsertRouteKeepsKeys(s.routes, draft);
        KeyColumnMembers(s.routes, (r: RouteSet) => r.id, Some(NextKey(RouteKeys(s.routes))));
        (s.(routes := InsertRoute(s.routes, draft)), Redirect("/admin/routes", Found, NoCookie))
  }

  /** Creating a route under a name that was just created is refused
      with a 500 and leaves the store as the first creation left it: the
      existing route is neither merged nor overwritten. */
  lemma DuplicateRouteRefused(s: Store, cookies: Cookies, name: string, title: string, rows: int, cols: int,
                              timeout: int, background: Option<string>)
    requires Valid(s) && IsAuthenticated(cookies)
    ensures var s1 := AddRoute(s, cookies, name, title, rows, cols, timeout, background).0;
      var second := AddRoute(s1, cookies, name, title, rows, cols, timeout, background);
      second == (s1, Failure(500))
  {
    var s1 := AddRoute(s, cookies, name, title, rows, cols, timeout, background).0;
    if !RouteNameTaken(s.routes, name) && IsInt64(rows) && IsInt64(cols) && IsInt64(timeout) {
      assert s1.routes[|s.routes|].route == name;
    }
  }
}
