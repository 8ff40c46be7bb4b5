# icon_menu_site: route assignment and public view, in Dafny

The repository is a small FastAPI + SQLite signage manager. An administrator
creates items (a label, QR text and an icon) and named routes (a grid of
rows × cols, a timeout, an optional background). The administrator then
assigns items to a route in a chosen order. The public opens `/r/{name}`
and sees that route's items as a grid.

This project models the handlers of `app/main.py` and the four tables of
`app/models.py`. Each handler is a pure function from a store and the
request's inputs to a new store and a response:

- `models.dfy` (`Models`): the records `User`, `Item`, `RouteSet` and `RouteItem`. It also holds the store (one sequence of rows per table), primary-key assignment and the schema invariant `Valid`. `Valid` says keys are present and unique, usernames are unique and route names are unique. It places no constraint on `RouteItem` pairs.
- `http.dfy` (`Http`): responses, views, cookies, the two configuration constants and the `auth` cookie gate.
- `auth.dfy` (`Auth`): login, logout and the admin account seeded at startup.
- `registry.dfy` (`Registry`): the admin dashboard, the item and route listings, and item and route creation.
- `admin_gate.dfy` (`AdminGate`): the `auth` cookie check, stated once over every admin handler.
- `assign.dfy` (`Assign`): `get_assign` (the linked/available split) and `post_assign` (delete the route's rows, commit, then parse and insert).
- `public_view.dfy` (`PublicView`): `view_route`, the `/` redirect and the assign-then-view round trip.
- `text.dfy` (`Text`): `str.split(",")`, `int(token)` and `str(n)`.
- `wrappers.dfy` (`Wrappers`): `Option`.

Modelling choices:

- A record's `id` is `None` until it is inserted. On insert it gets the SQLite rowid rule: one more than the largest key in the table, or 1 for an empty table.
- A `RedirectResponse` built without a status code is a 307. The handlers that pass `status_code=302` answer 302.
- An exception the handler does not catch is answered with a 500. The model has three: a `ValueError` from `int()` in `post_assign`; the unique-index violation when `add_route` commits a duplicate name; and the `OverflowError` the sqlite3 driver raises when it binds an int outside the signed 64-bit range of an INTEGER column. The last one hits a `route_id` in `get_assign` or `post_assign`, an item id at `post_assign`'s second commit, and `rows`, `cols` or `timeout` in `add_route`.
- `bcrypt.verify` is a function parameter `verify`. `bcrypt.hash("admin")` at startup is a parameter `adminHash`.
- `DEFAULT_ROUTE` and `INACTIVITY_TIMEOUT` are the defaults the code passes to `os.getenv`: `"menu1"` and `60000`.
- `int(token)` is modelled for ASCII text. Surrounding whitespace in the C `isspace` sense (space and tab through carriage return) is skipped, one optional sign is allowed, and then comes a run of decimal digits with single underscores between them. The run holds at most 4300 digits, CPython's default `int_max_str_digits`; underscores do not count. Anything else fails, including a token padded with the separator controls `\x1c`..`\x1f`, which `str.strip()` would remove but `int()` does not skip.
- The assign screen lists a route's rows in table order, and the available items in the item table's order.

## Model

| member | source | states |
|---|---|---|
| `Auth.FindUser` | app/main.py:50 | the lookup returns a stored user with exactly that username, and returns nothing exactly when no user has it |
| `Auth.FindUniqueUser` | app/models.py:7 | with unique usernames, the lookup by a stored user's name returns that user |
| `Auth.LoginSucceedsIff` | app/main.py:48-55 | login redirects exactly when a user with that username exists and the password verifies against its hash; success is a 302 to /admin setting `auth=true` (http-only); otherwise it is a 401 with no cookie |
| `Auth.LoginOpensGate` | app/main.py:37-38 | the cookie a successful login sets makes the `auth == "true"` check pass, whatever the browser held before |
| `Auth.LogoutClosesGate` | app/main.py:57-61 | after logout deletes the cookie the admin check fails |
| `Auth.OnStartup` | app/main.py:29-35 | afterwards a user named admin exists; if one existed nothing changes; otherwise exactly one admin user is appended with the given hash; other tables are untouched; the schema invariant is kept |
| `Auth.StartupIdempotent` | app/main.py:32-35 | running the seeding twice equals running it once |
| `Auth.StartupLeavesOneAdmin` | app/main.py:33-34 | after seeding a valid store exactly one user is named admin |
| `Models.KeyColumnAppend` | app/models.py:6 | the key column of two tables laid end to end is the first table's keys followed by the second's |
| `Models.KeyColumnMembers` | app/models.py:6 | a key is in the key column exactly when some row of the table carries it |
| `Models.KeysUniqueCons` | app/models.py:6 | if a key column with a key in front is unique, that key is set, does not recur, and the rest is unique |
| `Models.NextKey` | app/models.py:6 | a new primary key is at least 1 and is not yet used in the table |
| `Models.InsertUserKeepsKeys` | app/models.py:6 | inserting a user gives it a fresh key and keeps the key column unique |
| `Models.InsertItemKeepsKeys` | app/models.py:11 | inserting an item gives it a fresh key and keeps the key column unique |
| `Models.InsertRouteKeepsKeys` | app/models.py:17 | inserting a route gives it a fresh key and keeps the key column unique |
| `Models.InsertLinkKeepsKeys` | app/models.py:26 | inserting a route-item row gives it a fresh key and keeps the key column unique |
| `Models.DuplicateLinksAllowed` | app/models.py:25-29 | a store with two rows linking the same item at the same position of the same route satisfies the schema invariant |
| `Registry.AddItem` | app/main.py:76-86 | without the auth cookie: redirect to /login and no change; otherwise exactly one item is appended with the given label and QR text, icon path `/media/icons/<filename>` and a fresh key; nothing else changes; the answer is a 302 to /admin/items |
| `Registry.AddRoute` | app/main.py:95-108 | without the auth cookie: redirect to /login and no change; a name already in use, or a `rows`, `cols` or `timeout` outside the 64-bit range, gives a 500 and no change; otherwise exactly one route is appended with the form's fields, a background path `/media/backgrounds/<file>` when a file came and None when none did, and a fresh key; the schema invariant is kept |
| `Registry.DuplicateRouteRefused` | app/models.py:18 | creating the same route name a second time is refused and leaves the store as the first creation left it |
| `AdminGate.AdminPagesGated` | app/main.py:63-120 | the dashboard, the item list, the route list and the assign screen each answer the redirect to /login exactly when the request lacks `auth=true` |
| `AdminGate.AdminActionsGated` | app/main.py:76-131 | adding an item, adding a route and posting an assignment each answer the redirect to /login exactly when the request lacks `auth=true`, and in that case leave every table unchanged |
| `Assign.ItemIdsOfAppend` | app/main.py:128-130 | the item ids of two lists of rows laid end to end are the first list's ids followed by the second's |
| `Assign.PositionsOfAppend` | app/main.py:128-130 | the positions of two lists of rows laid end to end are the first list's positions followed by the second's |
| `Assign.RangeCons` | app/main.py:128 | counting n + 1 positions from `start` is `start` followed by n positions counted from `start + 1`, as `enumerate` does |
| `Assign.LinksOfMembers` | app/main.py:116 | the route's rows are exactly the stored rows with that route id, and the other rows are exactly those with another route id |
| `Assign.OtherLinksKeepKeys` | app/main.py:126 | deleting one route's rows keeps the key column unique |
| `Assign.ClearedRoute` | app/main.py:126-127 | after the delete the route has no rows, and the other routes' rows are as before |
| `Assign.FindByKey` | app/main.py:114 | a primary-key lookup returns a row of the table with that key, and returns nothing exactly when no row has it |
| `Assign.FindItem` | app/main.py:117 | a lookup by key returns a stored item with that key, and returns nothing exactly when no item has it |
| `Assign.FindRouteById` | app/main.py:114 | a lookup by key returns a stored route with that key, and returns nothing exactly when no route has it |
| `Assign.AvailableMembers` | app/main.py:119 | an item is available exactly when it is stored and not linked |
| `Assign.AvailablePartition` | app/main.py:119 | for any id list, the items the `not in` filter keeps and the items it drops together hold each item exactly as often as the item table does: the filter loses and duplicates nothing |
| `Assign.AvailableKeepsOrder` | app/main.py:119 | the available items keep the item table's order |
| `Assign.LinkedIdsNamed` | app/main.py:116-118 | an id is among the route's linked ids exactly when some row of that route names it |
| `Assign.AssignLists` | app/main.py:115-119 | the linked list has one entry per row of the route, each the item looked up by the row's id; the available list holds exactly the stored items the route does not link |
| `Assign.GetAssign` | app/main.py:110-120 | without the auth cookie: redirect to /login; a route key outside the 64-bit range gives a 500; otherwise the assign page for the route looked up by key, or None if that key is missing |
| `Assign.AssignScreenPartitions` | app/main.py:116-119 | on the assign screen of a route key in the 64-bit range, a stored item is available exactly when no row of the route names its key, and the available list is an order-preserving subsequence of the items |
| `Assign.ParseAll` | app/main.py:128-129 | parsing every token with a token parser gives one int per token, each the parse of its token; it fails exactly when the parser rejects some token |
| `Assign.ParseOrder` | app/main.py:128 | a parsed order has one id per comma-separated token |
| `Assign.OrderRejectedIff` | app/main.py:128-129 | an order is rejected exactly when `int()` rejects one of its comma-separated tokens; an accepted order's i-th id is `int()` of the i-th token |
| `Assign.EmptyOrderRejected` | app/main.py:128-129 | an empty order splits into one empty token, which `int()` rejects |
| `Assign.FormOrderRoundTrip` | app/main.py:128-129 | a non-empty list of ids, each of at most 4300 digits, written in decimal and joined by commas parses back to exactly that list |
| `Assign.OutOfRangeIdRefused` | app/main.py:126-131 | an id `int()` accepts but the 64-bit column cannot hold (`"9223372036854775808"`) ends with a 500 and the route left without rows |
| `Assign.InsertOneLink` | app/main.py:130 | one insert adds one row to the route, with the given item id and position, and leaves the other routes' rows alone |
| `Assign.InsertRowsKeepKeys` | app/main.py:129-131 | the insert loop keeps the route-item key column unique |
| `Assign.InsertRowsKeepOthers` | app/main.py:129-130 | the insert loop leaves every other route's rows as they were |
| `Assign.InsertRowsIds` | app/main.py:129-130 | the insert loop appends the ids to the route's rows in token order |
| `Assign.InsertRowsPositions` | app/main.py:129-130 | the insert loop numbers the new rows with consecutive positions from the start value |
| `Assign.InsertRowsEffect` | app/main.py:128-130 | the insert loop adds rows to the route only: the route gains the ids in order at consecutive positions; other routes keep their rows; keys stay unique |
| `Assign.SeparatorPaddedOrderFails` | app/main.py:126-129 | an order whose first token starts with one of `\x1c`..`\x1f` (`"\x1c5"`, say) ends with a 500; for a route key in the 64-bit range the route is left without rows |
| `Assign.PostAssignTail` | app/main.py:128-131 | after the committed delete: a token `int()` rejects, or an id outside the 64-bit range, gives a 500 with the route left empty; otherwise the route's rows are the parsed ids at positions 1..N and the answer is a 302 back to the assign page |
| `Assign.PostAssign` | app/main.py:122-131 | without the auth cookie: redirect to /login and no change. Users, items and routes never change, and nor do other routes' rows. A route key outside the 64-bit range gives a 500 and no change. A token `int()` rejects, or an id outside the 64-bit range, leaves the route with no rows and answers 500; called with an empty order, the handler does the same. Otherwise the route holds one row per token, in token order: item id `int(token)` at position 1..N, duplicates kept. The schema invariant is kept |
| `PublicView.FindRoute` | app/main.py:135 | a lookup by name returns a stored route with exactly that name, and returns nothing exactly when no route has it |
| `PublicView.FindUniqueRoute` | app/models.py:18 | with unique route names, the lookup by a stored route's name returns that route |
| `PublicView.SortedCons` | app/main.py:138 | a row whose position is not above the first of some position-sorted rows can go in front and the rows stay sorted |
| `PublicView.InsertByPosition` | app/main.py:138 | inserting into position-sorted rows keeps them sorted and adds exactly that row |
| `PublicView.SortByPosition` | app/main.py:138 | the rows come out in ascending position and are a permutation of the rows that went in |
| `PublicView.SortKeepsSortedRows` | app/main.py:138 | rows already in ascending position are left unchanged by the sort |
| `PublicView.ViewRoute` | app/main.py:133-143 | it redirects exactly when no route has that name, and then to `/r/` + the default route. Otherwise it renders a stored route with that name. The inactivity timeout shown is always the global one, never the route's own `timeout` |
| `PublicView.DisplayFollowsPositions` | app/main.py:138-139 | the rows the display uses are in ascending position and are exactly the route's rows; each shown item is the item looked up by its row's id |
| `PublicView.AssignedRowsInOrder` | app/main.py:128-138 | after a successful assign (every token parses and every id fits 64 bits) on a route whose key fits 64 bits, the rows its display reads, in position order, carry the parsed ids in token order at positions 1, 2, ..., N |
| `PublicView.LookupByIds` | app/main.py:139 | looking up a list of rows gives the items of their item ids, in row order |
| `PublicView.AssignThenView` | app/main.py:122-143 | take a valid store, a stored route whose key fits 64 bits, and an order that parses to ids that fit 64 bits. After a successful assign, viewing the route by name renders that route with the items of those ids, in token order, and the global timeout |
| `PublicView.MissingDefaultLoops` | app/main.py:136-137 | when no route has the default name, viewing the default route redirects to itself |
| `PublicView.FrontPageIsFallback` | app/main.py:40-42 | for an unknown route name the view redirects to the same place as the front page |
| `Text.Split` | app/main.py:128 | `order.split(",")` gives one more piece than there are commas, and no piece contains a comma |
| `Text.JoinSplit` | app/main.py:128 | joining the pieces of a split with the separator gives back the original text |
| `Text.SplitJoin` | app/main.py:128 | take one or more pieces without the separator. Splitting their join gives back those pieces |
| `Text.ParseNeedsDigit` | app/main.py:129 | a token `int()` accepts contains a decimal digit, so empty and blank tokens are rejected |
| `Text.SeparatorPaddingRejected` | app/main.py:129 | a token starting with one of the separator controls `\x1c`..`\x1f` is rejected, since `int()` skips only space and tab through carriage return |
| `Text.TooManyDigitsRejected` | app/main.py:129 | a string of more than 4300 decimal digits is rejected, even when its value is small |
| `Text.ParseIntToString` | app/main.py:129-131 | `int(str(n)) == n` for every int n that `str()` renders (at most 4300 digits), the rendering used in the redirect URL included |

## Left out

- SQLite, the SQLModel engine and sessions, and commit mechanics are modelled only as sequence updates. The one exception is `post_assign`, whose delete commits before parsing starts. `SQLModel.metadata.create_all` at startup is a no-op here.
- Uploads are reduced to their file names. `open`/`shutil.copyfileobj` writes and the `/static` and `/media` mounts are left out. So is a failed file write, and so is the background file `add_route` still writes when the later commit fails.
- Jinja2 rendering is left out. A page is the template's data (`View`).
- `login_form` only renders the login template, so it is left out.
- FastAPI form validation is left out. A non-integer `rows`, `cols`, `timeout` or `route_id` is rejected with a 422 before the handler runs; the model takes them as ints.
- Assign.PostAssign: an empty `order` sent over HTTP counts as a missing required form field, so FastAPI answers 422 and the handler never runs or deletes anything. The model describes the handler itself, which on an empty order deletes the route's rows and answers 500.
- Auth.LoginSucceedsIff: an empty `username` or `password` sent over HTTP is likewise answered with a 422 before the handler runs, not the 401 the handler gives. The same holds for an empty `label`, `qr_text`, `route` or `title` on the create forms.
- bcrypt is a parameter (`verify`, `adminHash`), so the slow hash and a malformed-hash exception are not modelled.
- Environment loading is left out: the two settings are the code's defaults.
- `Text.ParseInt` is ASCII only. Python's `int()` also accepts non-ASCII decimal digits and skips non-ASCII whitespace; the model rejects both.
- Text.ParseInt: the digit limit is fixed at CPython's default of 4300. A limit changed with `sys.set_int_max_str_digits` or `PYTHONINTMAXSTRDIGITS`, and the missing limit of Pythons before 3.11 (and before the matching security releases), are not modelled.
- Text.IntToString: it renders every int. Python's `str()` raises beyond 4300 digits, but the handlers only render route keys in the 64-bit range, which have at most 19 digits.
- Assign.PostAssign: positions 1..N are assumed to fit the 64-bit column; N is the number of tokens in one form field.
- `PublicView.SortByPosition` keeps rows with equal positions in storage order. SQL's `ORDER BY position` leaves that order unspecified. Every property here about routes written by `post_assign` uses distinct positions.
- Models.NextKey: the largest key is taken as at least 0, so a table holding only negative keys still gets key 1. SQLite would give max + 1. Keys here are only ever made by inserts, so they are positive. When the largest key is already 2^63 - 1, SQLite picks an unused key at random; the model keeps counting up.
- Foreign keys (`route_id`, `item_id`) are declared but SQLite does not enforce them. The model stores dangling ids, and a lookup of one gives None.
- Item edit/delete and route edit handlers are not in `app/main.py`, so they are not modelled.
- Concurrent admin requests are left out.
