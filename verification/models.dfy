/** The four tables of app/models.py and the facts the store keeps about
    them: every stored row has a primary key, keys are unique per table,
    `User.username` and `RouteSet.route` are unique. `RouteItem` has no
    uniqueness beyond its key, so one route may link the same item, or use
    the same position, more than once. */
module Models {
  import opened Wrappers

  /** `id` is None on a record that has not been inserted yet. */
  datatype User = User(id: Option<int>, username: string, hashedPassword: string)

  /** `caption` is the `label` column (`label` is a Dafny keyword). */
  datatype Item = Item(id: Option<int>, caption: string, qrText: string, imagePath: string)

  datatype RouteSet = RouteSet(
    id: Option<int>,
    route: string,
    title: string,
    rows: int,
    cols: int,
    timeout: int,
    backgroundPath: Option<string>)

  /** One slot of a route: which item, at which position. */
  datatype RouteItem = RouteItem(id: Option<int>, routeId: int, itemId: int, position: int)

  /** The range of SQLite's INTEGER column, a signed 64-bit value.
      Binding a Python int outside it raises OverflowError. */
  const Int64Min: int := -0x8000_0000_0000_0000
  const Int64Max: int := 0x7FFF_FFFF_FFFF_FFFF

  predicate IsInt64(n: int)
  {
    Int64Min <= n <= Int64Max
  }

  predicate AllInt64(ns: seq<int>)
  {
    forall i :: 0 <= i < |ns| ==> IsInt64(ns[i])
  }

  /** The database: each table as its rows in storage order. */
  datatype Store = Store(users: seq<User>, items: seq<Item>, routes: seq<RouteSet>, links: seq<RouteItem>)

  /** A table's key column, row by row. */
  function KeyColumn<T>(rows: seq<T>, key: T -> Option<int>): seq<Option<int>>
  {
    seq(|rows|, i requires 0 <= i < |rows| => key(rows[i]))
  }

  /** The key column of two row sequences stored one after the other. */
  lemma KeyColumnAppend<T>(a: seq<T>, b: seq<T>, key: T -> Option<int>)
    ensures KeyColumn(a + b, key) == KeyColumn(a, key) + KeyColumn(b, key)
  {
  }

  lemma KeyColumnSingle<T>(x: T, key: T -> Option<int>)
    ensures KeyColumn([x], key) == [key(x)]
  {
  }

  /** A key is in the column exactly when some row carries it. */
  lemma KeyColumnMembers<T>(rows: seq<T>, key: T -> Option<int>, k: Option<int>)
    ensures k in KeyColumn(rows, key) <==> exists i :: 0 <= i < |rows| && key(rows[i]) == k
  {
    var col := KeyColumn(rows, key);
    if k in col {
      var i :| 0 <= i < |col| && col[i] == k;
      assert key(rows[i]) == k;
    }
    if exists i :: 0 <= i < |rows| && key(rows[i]) == k {
      var i :| 0 <= i < |rows| && key(rows[i]) == k;
      assert col[i] == k;
    }
  }

  function UserKeys(us: seq<User>): seq<Option<int>>
  {
    KeyColumn(us, (u: User) => u.id)
  }

  function ItemKeys(its: seq<Item>): seq<Option<int>>
  {
    KeyColumn(its, (it: Item) => it.id)
  }

  function RouteKeys(rs: seq<RouteSet>): seq<Option<int>>
  {
    KeyColumn(rs, (r: RouteSet) => r.id)
  }

  function LinkKeys(ls: seq<RouteItem>): seq<Option<int>>
  {
    KeyColumn(ls, (l: RouteItem) => l.id)
  }

  /** The link key column of a row followed by more rows. */
  lemma LinkKeysCons(x: RouteItem, rest: seq<RouteItem>)
    ensures LinkKeys([x] + rest) == [x.id] + LinkKeys(rest)
  {
    KeyColumnAppend([x], rest, (l: RouteItem) => l.id);
  }

  /** A table's key column once its rows are persisted: no row without a
      key, no key twice. */
  predicate KeysUnique(keys: seq<Option<int>>)
  {
    && (forall i :: 0 <= i < |keys| ==> keys[i].Some?)
    && (forall i, j :: 0 <= i < j < |keys| ==> keys[i] != keys[j])
  }

  /** The rows after the first keep their keys unique, and none of them
      shares the first row's key. */
  lemma KeysUniqueCons(k: Option<int>, keys: seq<Option<int>>)
    requires KeysUnique([k] + keys)
    ensures k.Some? && k !in keys && KeysUnique(keys)
  {
    var all := [k] + keys;
    assert all[0] == k;
    forall i, j | 0 <= i < j < |keys|
      ensures keys[i] != keys[j]
    {
      assert all[i + 1] == keys[i] && all[j + 1] == keys[j];
    }
    forall i | 0 <= i < |keys|
      ensures keys[i].Some? && keys[i] != k
    {
      assert all[i + 1] == keys[i];
    }
  }

  /** A stored link's key is in the link key column. */
  lemma LinkKeyStored(ls: seq<RouteItem>, y: RouteItem)
    requires y in ls
    ensures y.id in LinkKeys(ls)
  {
    var i :| 0 <= i < |ls| && ls[i] == y;
    assert LinkKeys(ls)[i] == y.id;
  }

  /** The largest key in use, or 0 for a table without keys. */
  function MaxKey(keys: seq<Option<int>>): (m: nat)
    ensures forall i :: 0 <= i < |keys| && keys[i].Some? ==> keys[i].value <= m
  {
    if |keys| == 0 then 0
    else
      var m := MaxKey(keys[..|keys| - 1]);
      var last := keys[|keys| - 1];
      if last.Some? && last.value > m then last.value else m
  }

  /** The key SQLite gives the next inserted row: one more than the
      largest key in use, 1 for an empty table. */
  function NextKey(keys: seq<Option<int>>): (k: int)
    ensures k >= 1
    ensures Some(k) !in keys
  {
    MaxKey(keys) + 1
  }

  /** Inserting a row under the next key keeps keys unique. */
  lemma FreshKeyKeepsUnique(keys: seq<Option<int>>)
    requires KeysUnique(keys)
    ensures KeysUnique(keys + [Some(NextKey(keys))])
  {
  }

  predicate UniqueUsernames(us: seq<User>)
  {
    forall i, j :: 0 <= i < j < |us| ==> us[i].username != us[j].username
  }

  predicate UniqueRouteNames(rs: seq<RouteSet>)
  {
    forall i, j :: 0 <= i < j < |rs| ==> rs[i].route != rs[j].route
  }

  /** What the schema guarantees of every committed state. */
  predicate Valid(s: Store)
  {
    && KeysUnique(UserKeys(s.users))
    && KeysUnique(ItemKeys(s.items))
    && KeysUnique(RouteKeys(s.routes))
    && KeysUnique(LinkKeys(s.links))
    && UniqueUsernames(s.users)
    && UniqueRouteNames(s.routes)
  }

  function InsertUser(us: seq<User>, u: User): seq<User>
  {
    us + [u.(id := Some(NextKey(UserKeys(us))))]
  }

  function InsertItem(its: seq<Item>, it: Item): seq<Item>
  {
    its + [it.(id := Some(NextKey(ItemKeys(its))))]
  }

  function InsertRoute(rs: seq<RouteSet>, r: RouteSet): seq<RouteSet>
  {
    rs + [r.(id := Some(NextKey(RouteKeys(rs))))]
  }

  function InsertLink(ls: seq<RouteItem>, l: RouteItem): seq<RouteItem>
  {
    ls + [l.(id := Some(NextKey(LinkKeys(ls))))]
  }

  /** Inserting a record stores it under a fresh key and keeps the key
      column unique, whatever id the record carried before. */
  lemma InsertUserKeepsKeys(us: seq<User>, u: User)
    ensures KeysUnique(UserKeys(us)) ==> KeysUnique(UserKeys(InsertUser(us, u)))
  {
    KeyColumnAppend(us, [u.(id := Some(NextKey(UserKeys(us))))], (u: User) => u.id);
    KeyColumnSingle(u.(id := Some(NextKey(UserKeys(us)))), (u: User) => u.id);
    if KeysUnique(UserKeys(us)) {
      FreshKeyKeepsUnique(UserKeys(us));
    }
  }

  lemma InsertItemKeepsKeys(its: seq<Item>, it: Item)
    ensures KeysUnique(ItemKeys(its)) ==> KeysUnique(ItemKeys(InsertItem(its, it)))
  {
    KeyColumnAppend(its, [it.(id := Some(NextKey(ItemKeys(its))))], (it: Item) => it.id);
    KeyColumnSingle(it.(id := Some(NextKey(ItemKeys(its)))), (it: Item) => it.id);
    if KeysUnique(ItemKeys(its)) {
      FreshKeyKeepsUnique(ItemKeys(its));
    }
  }

  lemma InsertRouteKeepsKeys(rs: seq<RouteSet>, r: RouteSet)
    ensures KeysUnique(RouteKeys(rs)) ==> KeysUnique(RouteKeys(InsertRoute(rs, r)))
  {
    KeyColumnAppend(rs, [r.(id := Some(NextKey(RouteKeys(rs))))], (r: RouteSet) => r.id);
    KeyColumnSingle(r.(id := Some(NextKey(RouteKeys(rs)))), (r: RouteSet) => r.id);
    if KeysUnique(RouteKeys(rs)) {
      FreshKeyKeepsUnique(RouteKeys(rs));
    }
  }

  lemma InsertLinkKeepsKeys(ls: seq<RouteItem>, l: RouteItem)
    ensures KeysUnique(LinkKeys(ls)) ==> KeysUnique(LinkKeys(InsertLink(ls, l)))
  {
    KeyColumnAppend(ls, [l.(id := Some(NextKey(LinkKeys(ls))))], (l: RouteItem) => l.id);
    KeyColumnSingle(l.(id := Some(NextKey(LinkKeys(ls)))), (l: RouteItem) => l.id);
    if KeysUnique(LinkKeys(ls)) {
      FreshKeyKeepsUnique(LinkKeys(ls));
    }
  }

  /** The schema puts no constraint on (route_id, item_id) or
      (route_id, position): a store linking one item twice at the same
      position of one route is valid. */
  lemma DuplicateLinksAllowed()
    ensures Valid(Store([], [], [], [RouteItem(Some(1), 1, 5, 1), RouteItem(Some(2), 1, 5, 1)]))
  {
  }
}
