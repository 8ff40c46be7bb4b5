/** The HTTP surface as data: what a handler answers, the cookie it sets,
    and the configuration it reads. */
module Http {
  import opened Wrappers
  import opened Models

  /** `DEFAULT_ROUTE` when the environment does not set it. */
  const DefaultRoute: string := "menu1"

  /** `INACTIVITY_TIMEOUT` in milliseconds when the environment does not set it. */
  const InactivityTimeout: int := 60000

  /** Status of a redirect whose code the handler does not choose. */
  const TemporaryRedirect: int := 307

  /** Status of the redirects the handlers build with `status_code=302`. */
  const Found: int := 302

  /** The request's cookies, by name. */
  type Cookies = map<string, string>

  datatype CookieEffect = NoCookie | SetCookie(name: string, value: string, httpOnly: bool) | DeleteCookie(name: string)

  /** The template a page renders and the data handed to it. */
  datatype View =
    | AdminHome
    | ItemList(items: seq<Item>)
    | RouteList(routes: seq<RouteSet>)
    | AssignPage(assignRoute: Option<RouteSet>, linkedItems: seq<Option<Item>>, available: seq<Item>)
    | RoutePage(route: RouteSet, slots: seq<Option<Item>>, inactivityTimeout: int)

  /** A handler's answer: a redirect, a rendered page, or an error status
      (401 from the login check, 500 for an exception the handler lets
      escape). */
  datatype Response =
    | Redirect(url: string, status: int, cookie: CookieEffect)
    | Page(view: View)
    | Failure(status: int)

  /** The answer every guarded admin handler gives a request without the
      auth cookie. */
  const ToLogin: Response := Redirect("/login", TemporaryRedirect, NoCookie)

  /** The admin gate: the `auth` cookie holds exactly "true". */
  predicate IsAuthenticated(cookies: Cookies)
  {
    "auth" in cookies && cookies["auth"] == "true"
  }

  /** The cookie jar a browser keeps after receiving `r`. */
  function ApplyCookie(jar: Cookies, r: Response): Cookies
  {
    if !r.Redirect? then jar
    else match r.cookie
      case NoCookie => jar
      case SetCookie(name, value, _) => jar[name := value]
      case DeleteCookie(name) => jar - {name}
  }
}
