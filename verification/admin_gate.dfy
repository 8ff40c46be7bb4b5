/** The cookie check every admin handler starts with, stated once over
    all of them. */
module AdminGate {
  import opened Wrappers
  import opened Models
  import opened Http
  import opened Registry
  import opened Assign

  /** Every admin page answers the redirect to /login exactly when the
      request lacks `auth=true`; a handler with authentication never
      answers it, whatever it goes on to do. */
  lemma AdminPagesGated(s: Store, cookies: Cookies, rid: int)
    ensures AdminPage(cookies) == ToLogin <==> !IsAuthenticated(cookies)
    ensures ListItems(s, cookies) == ToLogin <==> !IsAuthenticated(cookies)
    ensures ListRoutes(s, cookies) == ToLogin <==> !IsAuthenticated(cookies)
    ensures GetAssign(s, cookies, rid) == ToLogin <==> !IsAuthenticated(cookies)
  {
  }

  /** The admin actions that write: without `auth=true` each answers the
      redirect to /login and leaves every table as it was; with it, none
      answers that redirect. */
  lemma AdminActionsGated(s: Store, cookies: Cookies, caption: string, qrText: string, filename: string,
                          name: string, title: string, rows: int, cols: int, timeout: int,
                          background: Option<string>, rid: int, order: string)
    ensures AddItem(s, cookies, caption, qrText, filename).1 == ToLogin <==> !IsAuthenticated(cookies)
    ensures (AddRoute(s, cookies, name, title, rows, cols, timeout, background).1 == ToLogin)
              <==> !IsAuthenticated(cookies)
    ensures PostAssign(s, cookies, rid, order).1 == ToLogin <==> !IsAuthenticated(cookies)
    ensures !IsAuthenticated(cookies) ==>
              && AddItem(s, cookies, caption, qrText, filename).0 == s
              && AddRoute(s, cookies, name, title, rows, cols, timeout, background).0 == s
              && PostAssign(s, cookies, rid, order).0 == s
  {
  }
}
