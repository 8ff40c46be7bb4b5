/** The assignment engine: the admin screen that splits all items into
    linked and available ones, and the full-replace rewrite of a route's
    RouteItem rows from a comma-separated order. */
module Assign {
  import opened Wrappers
  import opened Text
  import opened Models
  import opened Http

  /** The RouteItem rows of route `rid`, in storage order. */
  function LinksOf(links: seq<RouteItem>, rid: int): (r: seq<RouteItem>)
    ensures |r| <= |links|
  {
    if |links| == 0 then []
    else (if links[0].routeId == rid then [links[0]] else []) + LinksOf(links[1..], rid)
  }

  /** The RouteItem rows of every other route, in storage order. */
  function OtherLinks(links: seq<RouteItem>, rid: int): (r: seq<RouteItem>)
    ensures |r| <= |links|
  {
    if |links| == 0 then []
    else (if links[0].routeId != rid then [links[0]] else []) + OtherLinks(links[1..], rid)
  }

  /** LinksOf and OtherLinks select by route and nothing else. */
  lemma {:induction false} LinksOfMembers(links: seq<RouteItem>, rid: int)
    ensures forall x :: x in LinksOf(links, rid) <==> x in links && x.routeId == rid
    ensures forall x :: x in OtherLinks(links, rid) <==> x in links && x.routeId != rid
  {
    if |links| > 0 {
      LinksOfMembers(links[1..], rid);
      assert links == [links[0]] + links[1..];
    }
  }

  lemma {:induction false} LinksOfAppend(a: seq<RouteItem>, b: seq<RouteItem>, rid: int)
    ensures LinksOf(a + b, rid) == LinksOf(a, rid) + LinksOf(b, rid)
    ensures OtherLinks(a + b, rid) == OtherLinks(a, rid) + OtherLinks(b, rid)
  {
    if |a| > 0 {
      assert (a + b)[0] == a[0] && (a + b)[1..] == a[1..] + b;
      LinksOfAppend(a[1..], b, rid);
    } else {
      assert a + b == b;
    }
  }

  /** Keeping only other routes' rows keeps the key column unique. */
  lemma {:induction false} OtherLinksKeepKeys(links: seq<RouteItem>, rid: int)
    requires KeysUnique(LinkKeys(links))
    ensures KeysUnique(LinkKeys(OtherLinks(links, rid)))
  {
    if |links| > 0 {
      var tail := links[1..];
      assert links == [links[0]] + tail;
      LinkKeysCons(links[0], tail);
      KeysUniqueCons(links[0].id, LinkKeys(tail));
      OtherLinksKeepKeys(tail, rid);
      var rest := OtherLinks(tail, rid);
      if links[0].routeId != rid {
        LinksOfMembers(tail, rid);
        forall y | y in rest
          ensures y.id != links[0].id
        {
          LinkKeyStored(tail, y);
        }
        ConsKeysUnique(links[0], rest);
        assert OtherLinks(links, rid) == [links[0]] + rest;
      } else {
        assert OtherLinks(links, rid) == rest;
      }
    }
  }

  lemma ConsKeysUnique(x: RouteItem, rest: seq<RouteItem>)
    requires x.id.Some?
    requires KeysUnique(LinkKeys(rest))
    requires forall y :: y in rest ==> y.id != x.id
    ensures KeysUnique(LinkKeys([x] + rest))
  {
    var r := [x] + rest;
    LinkKeysCons(x, rest);
    forall i, j | 0 <= i < j < |r|
      ensures r[i].id != r[j].id
    {
      assert r[j] == rest[j - 1];
      if i > 0 {
        assert r[i] == rest[i - 1];
        assert LinkKeys(rest)[i - 1] != LinkKeys(rest)[j - 1];
      }
    }
  }

  /** The first row whose key is `k`, as `session.get(Table, k)`. */
  function FindByKey<T>(rows: seq<T>, key: T -> Option<int>, k: int): (r: Option<T>)
    ensures r.Some? ==> r.value in rows && key(r.value) == Some(k)
    ensures r.None? <==> forall i :: 0 <= i < |rows| ==> key(rows[i]) != Some(k)
  {
    if |rows| == 0 then None
    else if key(rows[0]) == Some(k) then Some(rows[0])
    else FindByKey(rows[1..], key, k)
  }

  /** `session.get(Item, k)`. */
  function FindItem(items: seq<Item>, k: int): (r: Option<Item>)
    ensures r.Some? ==> r.value in items && r.value.id == Some(k)
    ensures r.None? <==> forall i :: 0 <= i < |items| ==> items[i].id != Some(k)
  {
    FindByKey(items, (it: Item) => it.id, k)
  }

  /** `session.get(RouteSet, k)`. */
  function FindRouteById(routes: seq<RouteSet>, k: int): (r: Option<RouteSet>)
    ensures r.Some? ==> r.value in routes && r.value.id == Some(k)
    ensures r.None? <==> forall i :: 0 <= i < |routes| ==> routes[i].id != Some(k)
  {
    FindByKey(routes, (r: RouteSet) => r.id, k)
  }

  /** The item ids of some RouteItem rows, in order. */
  function ItemIdsOf(rows: seq<RouteItem>): seq<int>
  {
    seq(|rows|, i requires 0 <= i < |rows| => rows[i].itemId)
  }

  /** The positions of some RouteItem rows, in order. */
  function PositionsOf(rows: seq<RouteItem>): seq<int>
  {
    seq(|rows|, i requires 0 <= i < |rows| => rows[i].position)
  }

  /** `start, start + 1, ..., start + n - 1`. */
  function Range(start: int, n: nat): seq<int>
  {
    seq(n, i requires 0 <= i < n => start + i)
  }

  /** Each row's item looked up by key; None where the row dangles. */
  function LookupItems(items: seq<Item>, rows: seq<RouteItem>): seq<Option<Item>>
  {
    seq(|rows|, i requires 0 <= i < |rows| => FindItem(items, rows[i].itemId))
  }

  /** The item ids of rows stored one after the other. */
  lemma ItemIdsOfAppend(a: seq<RouteItem>, b: seq<RouteItem>)
    ensures ItemIdsOf(a + b) == ItemIdsOf(a) + ItemIdsOf(b)
  {
  }

  /** The positions of rows stored one after the other. */
  lemma PositionsOfAppend(a: seq<RouteItem>, b: seq<RouteItem>)
    ensures PositionsOf(a + b) == PositionsOf(a) + PositionsOf(b)
  {
  }

  /** A range is its first value followed by the range one further on. */
  lemma RangeCons(start: int, n: nat)
    ensures [start] + Range(start + 1, n) == Range(start, n + 1)
  {
  }

  /** An item counts as linked when it has a key listed among `ids`;
      `None not in ids` holds, so an item without a key is never linked. */
  predicate Linked(it: Item, ids: seq<int>)
  {
    it.id.Some? && it.id.value in ids
  }

  /** `[it for it in items if it.id not in ids]`. */
  function Available(items: seq<Item>, ids: seq<int>): seq<Item>
  {
    if |items| == 0 then []
    else (if Linked(items[0], ids) then [] else [items[0]]) + Available(items[1..], ids)
  }

  /** The complement of Available: the items whose key is in `ids`. It
      only serves to state that the `not in` filter loses nothing; the
      assign page's own linked list is LookupItems over the route's rows. */
  function LinkedItems(items: seq<Item>, ids: seq<int>): seq<Item>
  {
    if |items| == 0 then []
    else (if Linked(items[0], ids) then [items[0]] else []) + LinkedItems(items[1..], ids)
  }

  /** `a` is `b` with some elements left out, the rest in their order. */
  predicate IsSubsequence<T(==)>(a: seq<T>, b: seq<T>)
    decreases |b|
  {
    if |a| == 0 then true
    else if |b| == 0 then false
    else (a[0] == b[0] && IsSubsequence(a[1..], b[1..])) || IsSubsequence(a, b[1..])
  }

  /** An item is available exactly when it is not linked. */
  lemma {:induction false} AvailableMembers(items: seq<Item>, ids: seq<int>)
    ensures forall it :: it in Available(items, ids) <==> it in items && !Linked(it, ids)
  {
    if |items| > 0 {
      AvailableMembers(items[1..], ids);
      assert items == [items[0]] + items[1..];
    }
  }

  /** Available and LinkedItems together hold each item exactly as often
      as the item list does. */
  lemma {:induction false} AvailablePartition(items: seq<Item>, ids: seq<int>)
    ensures multiset(Available(items, ids)) + multiset(LinkedItems(items, ids)) == multiset(items)
  {
    if |items| > 0 {
      var x, rest := items[0], items[1..];
      AvailablePartition(rest, ids);
      assert items == [x] + rest;
      if Linked(x, ids) {
        assert Available(items, ids) == Available(rest, ids);
        assert LinkedItems(items, ids) == [x] + LinkedItems(rest, ids);
      } else {
        assert Available(items, ids) == [x] + Available(rest, ids);
        assert LinkedItems(items, ids) == LinkedItems(rest, ids);
      }
    }
  }

  /** Available keeps the item list's order. */
  lemma {:induction false} AvailableKeepsOrder(items: seq<Item>, ids: seq<int>)
    ensures IsSubsequence(Available(items, ids), items)
  {
    if |items| > 0 {
      AvailableKeepsOrder(items[1..], ids);
      var rest := Available(items[1..], ids);
      if !Linked(items[0], ids) {
        assert Available(items, ids) == [items[0]] + rest;
        assert ([items[0]] + rest)[1..] == rest;
      } else {
        assert Available(items, ids) == rest;
      }
    }
  }

  /** What the assign screen shows for route `rid`: the items of its rows
      in row order, then every item whose key no row names. */
  function AssignLists(s: Store, rid: int): (r: (seq<Option<Item>>, seq<Item>))
    ensures |r.0| == |LinksOf(s.links, rid)|
    ensures forall i :: 0 <= i < |r.0| ==> r.0[i] == FindItem(s.items, LinksOf(s.links, rid)[i].itemId)
    ensures forall it :: it in r.1 <==> it in s.items && !Linked(it, ItemIdsOf(LinksOf(s.links, rid)))
  {
    var rows := LinksOf(s.links, rid);
    AvailableMembers(s.items, ItemIdsOf(rows));
    (LookupItems(s.items, rows), Available(s.items, ItemIdsOf(rows)))
  }

  /** `GET /admin/routes/{rid}/assign`. A key outside the 64-bit
      INTEGER range makes the lookup raise: a 500. */
  function GetAssign(s: Store, cookies: Cookies, rid: int): (r: Response)
    ensures !IsAuthenticated(cookies) ==> r == ToLogin
    ensures IsAuthenticated(cookies) && !IsInt64(rid) ==> r == Failure(500)
    ensures IsAuthenticated(cookies) && IsInt64(rid) ==> r.Page? && r.view.AssignPage?
    ensures IsAuthenticated(cookies) && IsInt64(rid) ==> r.view.assignRoute == FindRouteById(s.routes, rid)
  {
    if !IsAuthenticated(cookies) then ToLogin
    else if !IsInt64(rid) then Failure(500)
    else
      var lists := AssignLists(s, rid);
      Page(AssignPage(FindRouteById(s.routes, rid), lists.0, lists.1))
  }

  /** Some row of route `rid` names item key `key`. */
  predicate NamedBy(links: seq<RouteItem>, rid: int, key: int)
  {
    exists i :: 0 <= i < |links| && links[i].routeId == rid && links[i].itemId == key
  }

  /** On the assign screen every item is shown as available or is named by
      one of the route's rows, never both, and the available ones keep the
      item table's order. */
  lemma AssignScreenPartitions(s: Store, cookies: Cookies, rid: int)
    requires IsAuthenticated(cookies) && IsInt64(rid)
    ensures var v := GetAssign(s, cookies, rid).view;
      && (forall it :: it in s.items ==>
            (it in v.available <==> !(it.id.Some? && NamedBy(s.links, rid, it.id.value))))
      && IsSubsequence(v.available, s.items)
  {
    var ids := ItemIdsOf(LinksOf(s.links, rid));
    AvailableKeepsOrder(s.items, ids);
    AvailableMembers(s.items, ids);
    forall key
      ensures key in ids <==> NamedBy(s.links, rid, key)
    {
      LinkedIdsNamed(s.links, rid, key);
    }
  }

  /** The ids the screen treats as linked are those some row of the route
      names. */
  lemma {:induction false} LinkedIdsNamed(links: seq<RouteItem>, rid: int, key: int)
    ensures key in ItemIdsOf(LinksOf(links, rid)) <==> NamedBy(links, rid, key)
  {
    if |links| > 0 {
      var tail := links[1..];
      LinkedIdsNamed(tail, rid, key);
      var head := if links[0].routeId == rid then [links[0]] else [];
      assert LinksOf(links, rid) == head + LinksOf(tail, rid);
      ItemIdsOfAppend(head, LinksOf(tail, rid));
      assert ItemIdsOf(head) == if links[0].routeId == rid then [links[0].itemId] else [];
      if NamedBy(tail, rid, key) {
        var i :| 0 <= i < |tail| && tail[i].routeId == rid && tail[i].itemId == key;
        assert links[i + 1] == tail[i];
      }
      if NamedBy(links, rid, key) {
        var i :| 0 <= i < |links| && links[i].routeId == rid && links[i].itemId == key;
        if i > 0 {
          assert tail[i - 1] == links[i];
        }
      }
    }
  }

  /** `parse(t)` for every token, or None when `parse` rejects some
      token. */
  function ParseAll(tokens: seq<string>, parse: string -> Option<int>): (r: Option<seq<int>>)
    ensures r.Some? ==> |r.value| == |tokens|
    ensures r.Some? ==> forall i :: 0 <= i < |tokens| ==> parse(tokens[i]) == Some(r.value[i])
    ensures r.None? <==> exists i :: 0 <= i < |tokens| && parse(tokens[i]).None?
  {
    if |tokens| == 0 then Some([])
    else
      var head := parse(tokens[0]);
      var tail := ParseAll(tokens[1..], parse);
      if head.None? then None
      else if tail.None? then
        var i :| 0 <= i < |tokens[1..]| && parse(tokens[1..][i]).None?;
        assert parse(tokens[i + 1]).None?;
        None
      else Some([head.value] + tail.value)
  }

  /** The ids of the form field `order`: `int(t)` for each piece `t` of
      `order.split(",")`; None when `int()` rejects a piece. */
  function ParseOrder(order: string): (r: Option<seq<int>>)
    ensures r.Some? ==> |r.value| == |Split(order, ',')|
  {
    ParseAll(Split(order, ','), ParseInt)
  }

  /** `int()` rejects some token of `tokens`. */
  predicate SomeTokenRejected(tokens: seq<string>)
  {
    exists i :: 0 <= i < |tokens| && ParseInt(tokens[i]).None?
  }

  /** An order is rejected exactly when `int()` rejects one of its
      comma-separated tokens; an accepted order gives each token's int. */
  lemma OrderRejectedIff(order: string)
    ensures ParseOrder(order).None? <==> SomeTokenRejected(Split(order, ','))
    ensures ParseOrder(order).Some? ==>
              forall i :: 0 <= i < |Split(order, ',')| ==> ParseInt(Split(order, ',')[i]) == Some(ParseOrder(order).value[i])
  {
    var tokens := Split(order, ',');
    var parse: string -> Option<int> := ParseInt;
    var r := ParseAll(tokens, parse);
    assert ParseOrder(order) == r;
    if r.None? {
      var i :| 0 <= i < |tokens| && parse(tokens[i]).None?;
      assert ParseInt(tokens[i]).None?;
    } else {
      forall i | 0 <= i < |tokens|
        ensures ParseInt(tokens[i]) == Some(r.value[i])
      {
        assert parse(tokens[i]) == Some(r.value[i]);
      }
    }
  }

  /** An order whose first token starts with a separator control
      (`"\x1c5"`, say) fails after the delete: the answer is a 500 and
      the route is left without rows. */
  lemma SeparatorPaddedOrderFails(s: Store, cookies: Cookies, rid: int, c: char, order: string)
    requires IsAuthenticated(cookies) && '\U{1C}' <= c <= '\U{1F}'
    ensures PostAssign(s, cookies, rid, [c] + order).1 == Failure(500)
    ensures IsInt64(rid) ==> LinksOf(PostAssign(s, cookies, rid, [c] + order).0.links, rid) == []
  {
    SplitPrefix([c], order, ',');
    var tokens := Split([c] + order, ',');
    SeparatorPaddingRejected(c, Split(order, ',')[0]);
    assert ParseInt(tokens[0]).None?;
    OrderRejectedIff([c] + order);
  }

  /** An order the insert loop can commit: every token parses and every
      id fits the 64-bit INTEGER column. */
  predicate StorableOrder(order: string)
  {
    ParseOrder(order).Some? && AllInt64(ParseOrder(order).value)
  }

  /** An id `int()` accepts but the 64-bit INTEGER column cannot hold
      (`"9223372036854775808"`, say) fails at the second commit: a 500
      with the route left without rows. */
  lemma OutOfRangeIdRefused(s: Store, cookies: Cookies, rid: int, id: int)
    requires IsAuthenticated(cookies) && IsInt64(rid)
    requires !IsInt64(id) && WithinStrDigits(id)
    ensures PostAssign(s, cookies, rid, IntToString(id)).1 == Failure(500)
    ensures LinksOf(PostAssign(s, cookies, rid, IntToString(id)).0.links, rid) == []
  {
    var tokens := seq(1, i requires 0 <= i < 1 => IntToString([id][i]));
    assert tokens == [IntToString(id)];
    FormOrderRoundTrip([id]);
    assert ParseOrder(IntToString(id)) == Some([id]);
  }

  /** An empty order is rejected: it splits into one empty token. */
  lemma EmptyOrderRejected()
    ensures ParseOrder("").None?
  {
    assert Split("", ',') == [""];
    assert ParseInt("").None?;
  }

  /** Ids written in decimal and joined by commas parse back to exactly
      those ids. */
  lemma FormOrderRoundTrip(ids: seq<int>)
    requires |ids| >= 1
    requires forall i :: 0 <= i < |ids| ==> WithinStrDigits(ids[i])
    ensures ParseOrder(Join(seq(|ids|, i requires 0 <= i < |ids| => IntToString(ids[i])), ',')) == Some(ids)
  {
    var tokens := seq(|ids|, i requires 0 <= i < |ids| => IntToString(ids[i]));
    forall i | 0 <= i < |tokens|
      ensures ',' !in tokens[i] && ParseInt(tokens[i]) == Some(ids[i])
    {
      ParseIntToString(ids[i]);
      IntToStringHasNoComma(ids[i]);
    }
    SplitJoin(tokens, ',');
    var r := ParseOrder(Join(tokens, ','));
    assert r.Some?;
    assert r.value == ids;
  }

  lemma IntToStringHasNoComma(n: int)
    ensures ',' !in IntToString(n)
  {
    var s := IntToString(n);
    if n < 0 {
      var t := NatToString(-n);
      assert s == "-" + t;
      assert forall k :: 1 <= k < |s| ==> s[k] == t[k - 1];
    }
    assert forall k :: 0 <= k < |s| ==> s[k] != ',';
  }

  /** The insert loop: one row per id, positions counting up from
      `position`, each row keyed when it is inserted. */
  function InsertRows(links: seq<RouteItem>, rid: int, ids: seq<int>, position: int): seq<RouteItem>
    decreases |ids|
  {
    if |ids| == 0 then links
    else InsertRows(InsertLink(links, RouteItem(None, rid, ids[0], position)), rid, ids[1..], position + 1)
  }

  /** One insert adds one row to route `rid` and leaves the other
      routes' rows alone. */
  lemma InsertOneLink(links: seq<RouteItem>, rid: int, id: int, position: int)
    ensures var r := InsertLink(links, RouteItem(None, rid, id, position));
      && OtherLinks(r, rid) == OtherLinks(links, rid)
      && ItemIdsOf(LinksOf(r, rid)) == ItemIdsOf(LinksOf(links, rid)) + [id]
      && PositionsOf(LinksOf(r, rid)) == PositionsOf(LinksOf(links, rid)) + [position]
  {
    var row := RouteItem(None, rid, id, position);
    var added := row.(id := Some(NextKey(LinkKeys(links))));
    LinksOfAppend(links, [added], rid);
    assert LinksOf([added], rid) == [added];
    assert OtherLinks([added], rid) == [];
    var own := LinksOf(links, rid);
    assert LinksOf(InsertLink(links, row), rid) == own + [added];
    ItemIdsOfAppend(own, [added]);
    PositionsOfAppend(own, [added]);
  }

  /** The insert loop keeps the key column unique. */
  lemma {:induction false} InsertRowsKeepKeys(links: seq<RouteItem>, rid: int, ids: seq<int>, position: int)
    ensures KeysUnique(LinkKeys(links)) ==> KeysUnique(LinkKeys(InsertRows(links, rid, ids, position)))
    decreases |ids|
  {
    if |ids| > 0 {
      var row := RouteItem(None, rid, ids[0], position);
      InsertLinkKeepsKeys(links, row);
      InsertRowsKeepKeys(InsertLink(links, row), rid, ids[1..], position + 1);
    }
  }

  /** The insert loop leaves the other routes' rows alone. */
  lemma {:induction false} InsertRowsKeepOthers(links: seq<RouteItem>, rid: int, ids: seq<int>, position: int)
    ensures OtherLinks(InsertRows(links, rid, ids, position), rid) == OtherLinks(links, rid)
    decreases |ids|
  {
    if |ids| > 0 {
      InsertOneLink(links, rid, ids[0], position);
      InsertRowsKeepOthers(InsertLink(links, RouteItem(None, rid, ids[0], position)), rid, ids[1..], position + 1);
    }
  }

  /** The insert loop appends the ids, in order, to the route's item ids. */
  lemma {:induction false} InsertRowsIds(links: seq<RouteItem>, rid: int, ids: seq<int>, position: int)
    ensures ItemIdsOf(LinksOf(InsertRows(links, rid, ids, position), rid)) == ItemIdsOf(LinksOf(links, rid)) + ids
    decreases |ids|
  {
    if |ids| > 0 {
      var links' := InsertLink(links, RouteItem(None, rid, ids[0], position));
      InsertOneLink(links, rid, ids[0], position);
      InsertRowsIds(links', rid, ids[1..], position + 1);
      var before := ItemIdsOf(LinksOf(links, rid));
      assert before + [ids[0]] + ids[1..] == before + ([ids[0]] + ids[1..]);
      assert [ids[0]] + ids[1..] == ids;
    }
  }

  /** The insert loop numbers the new rows `position`, `position + 1`, .... */
  lemma {:induction false} InsertRowsPositions(links: seq<RouteItem>, rid: int, ids: seq<int>, position: int)
    ensures PositionsOf(LinksOf(InsertRows(links, rid, ids, position), rid))
              == PositionsOf(LinksOf(links, rid)) + Range(position, |ids|)
    decreases |ids|
  {
    if |ids| > 0 {
      var links' := InsertLink(links, RouteItem(None, rid, ids[0], position));
      InsertOneLink(links, rid, ids[0], position);
      InsertRowsPositions(links', rid, ids[1..], position + 1);
      var before := PositionsOf(LinksOf(links, rid));
      var later := Range(position + 1, |ids| - 1);
      assert before + [position] + later == before + ([position] + later);
      RangeCons(position, |ids| - 1);
    }
  }

  /** The insert loop adds rows to route `rid` only: the route gains the
      ids in order at consecutive positions, other routes keep their rows,
      and keys stay unique. */
  lemma InsertRowsEffect(links: seq<RouteItem>, rid: int, ids: seq<int>, position: int)
    ensures var r := InsertRows(links, rid, ids, position);
      && OtherLinks(r, rid) == OtherLinks(links, rid)
      && ItemIdsOf(LinksOf(r, rid)) == ItemIdsOf(LinksOf(links, rid)) + ids
      && PositionsOf(LinksOf(r, rid)) == PositionsOf(LinksOf(links, rid)) + Range(position, |ids|)
      && (KeysUnique(LinkKeys(links)) ==> KeysUnique(LinkKeys(r)))
  {
    InsertRowsKeepKeys(links, rid, ids, position);
    InsertRowsKeepOthers(links, rid, ids, position);
    InsertRowsIds(links, rid, ids, position);
    InsertRowsPositions(links, rid, ids, position);
  }

  /** `POST /admin/routes/{rid}/assign`. A route key outside the 64-bit
      INTEGER range makes the delete raise: a 500 and nothing changed.
      Otherwise the delete of the route's rows is committed before the
      tokens are parsed, so a token `int()` rejects, or an id the second
      commit cannot bind, ends the request with a 500 and the route left
      without rows. */
  function PostAssign(s: Store, cookies: Cookies, rid: int, order: string): (r: (Store, Response))
    ensures !IsAuthenticated(cookies) ==> r == (s, ToLogin)
    ensures r.0.users == s.users && r.0.items == s.items && r.0.routes == s.routes
    ensures OtherLinks(r.0.links, rid) == OtherLinks(s.links, rid)
    ensures IsAuthenticated(cookies) && !IsInt64(rid) ==> r == (s, Failure(500))
    ensures IsAuthenticated(cookies) && IsInt64(rid) && !StorableOrder(order) ==>
              r.1 == Failure(500) && LinksOf(r.0.links, rid) == []
    ensures IsAuthenticated(cookies) && IsInt64(rid) && StorableOrder(order) ==>
              && r.1 == Redirect("/admin/routes/" + IntToString(rid) + "/assign", Found, NoCookie)
              && ItemIdsOf(LinksOf(r.0.links, rid)) == ParseOrder(order).value
              && PositionsOf(LinksOf(r.0.links, rid)) == Range(1, |Split(order, ',')|)
    ensures Valid(s) ==> Valid(r.0)
  {
    if !IsAuthenticated(cookies) then (s, ToLogin)
    else if !IsInt64(rid) then (s, Failure(500))
    else
      var cleared := OtherLinks(s.links, rid);
      ClearedRoute(s.links, rid);
      assert KeysUnique(LinkKeys(s.links)) ==> KeysUnique(LinkKeys(cleared)) by {
        if KeysUnique(LinkKeys(s.links)) { OtherLinksKeepKeys(s.links, rid); }
      }
      PostAssignTail(s, cleared, rid, order)
  }

  /** What follows the committed delete: parse, then insert and commit,
      or fail with the delete kept. */
  function PostAssignTail(s: Store, cleared: seq<RouteItem>, rid: int, order: string): (r: (Store, Response))
    requires LinksOf(cleared, rid) == [] && OtherLinks(cleared, rid) == OtherLinks(s.links, rid)
    ensures r.0.users == s.users && r.0.items == s.items && r.0.routes == s.routes
    ensures OtherLinks(r.0.links, rid) == OtherLinks(s.links, rid)
    ensures !StorableOrder(order) ==> r.1 == Failure(500) && r.0.links == cleared
    ensures StorableOrder(order) ==>
              && r.1 == Redirect("/admin/routes/" + IntToString(rid) + "/assign", Found, NoCookie)
              && ItemIdsOf(LinksOf(r.0.links, rid)) == ParseOrder(order).value
              && PositionsOf(LinksOf(r.0.links, rid)) == Range(1, |Split(order, ',')|)
    ensures KeysUnique(LinkKeys(cleared)) ==> KeysUnique(LinkKeys(r.0.links))
  {
    match ParseOrder(order)
    case None => (s.(links := cleared), Failure(500))
    case Some(ids) =>
      if !AllInt64(ids) then (s.(links := cleared), Failure(500))
      else
        InsertRowsEffect(cleared, rid, ids, 1);
        (s.(links := InsertRows(cleared, rid, ids, 1)),
         Redirect("/admin/routes/" + IntToString(rid) + "/assign", Found, NoCookie))
  }

  lemma {:induction false} ClearedRoute(links: seq<RouteItem>, rid: int)
    ensures LinksOf(OtherLinks(links, rid), rid) == []
    ensures OtherLinks(OtherLinks(links, rid), rid) == OtherLinks(links, rid)
  {
    if |links| > 0 {
      ClearedRoute(links[1..], rid);
      var head := if links[0].routeId != rid then [links[0]] else [];
      LinksOfAppend(head, OtherLinks(links[1..], rid), rid);
      assert LinksOf(head, rid) == [];
      assert OtherLinks(head, rid) == head;
    }
  }
}
