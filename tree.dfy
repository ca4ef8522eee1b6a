/** The value-level model of MenuContextBuilder (menus/services.py): every
    step of the builder as a function of the flat item list, the route
    table and the request path. The class in services.dfy computes these
    same functions step by step. */
module MenuTree {
  import opened Wrappers
  import opened Models
  import Paths

  //--------------------------------------------------------------------
  // Items by id (`_items_by_id`)
  //--------------------------------------------------------------------

  predicate UniqueIds(items: seq<MenuItem>) {
    forall i, j :: 0 <= i < j < |items| ==> items[i].id != items[j].id
  }

  /** The dict comprehension `{item.id: item for item in items}`; a later
      item with the same id overwrites an earlier one. */
  function ById(items: seq<MenuItem>): (m: map<ItemId, MenuItem>)
    ensures forall x :: x in items ==> x.id in m
  {
    if items == [] then map[]
    else
      var last := items[|items| - 1];
      ById(items[..|items| - 1])[last.id := last]
  }

  /** Every entry is an item of the list, filed under its own id. */
  lemma {:induction false} ByIdEntries(items: seq<MenuItem>)
    ensures forall id :: id in ById(items) ==> ById(items)[id] in items && ById(items)[id].id == id
  {
    if items != [] {
      var init := items[..|items| - 1];
      ByIdEntries(init);
      forall id | id in ById(items)
        ensures ById(items)[id] in items && ById(items)[id].id == id
      {
        if id != items[|items| - 1].id {
          assert ById(items)[id] == ById(init)[id];
          assert ById(init)[id] in init;
        }
      }
    }
  }

  /** With distinct ids every item is found under its own id. */
  lemma {:induction false} ByIdFindsEach(items: seq<MenuItem>)
    requires UniqueIds(items)
    ensures forall x :: x in items ==> ById(items)[x.id] == x
  {
    if items != [] {
      var init := items[..|items| - 1];
      assert UniqueIds(init);
      ByIdFindsEach(init);
      forall x | x in items
        ensures ById(items)[x.id] == x
      {
        if x != items[|items| - 1] {
          var i :| 0 <= i < |items| && items[i] == x;
          assert x in init;
        }
      }
    }
  }

  //--------------------------------------------------------------------
  // Grouping and sorting (`_children_map`)
  //--------------------------------------------------------------------

  /** The items whose parent is `p`, in list order: what the append loop
      collects under key `p`. */
  function Under(items: seq<MenuItem>, p: Parent): (r: seq<MenuItem>)
    ensures forall x :: x in r <==> x in items && x.parentId == p
  {
    if items == [] then []
    else
      var last := items[|items| - 1];
      Under(items[..|items| - 1], p) + (if last.parentId == p then [last] else [])
  }

  /** The keys the append loop creates: every parent id that occurs. */
  function Parents(items: seq<MenuItem>): set<Parent> {
    set x | x in items :: x.parentId
  }

  /** The sort key `(order, id)`, compared lexicographically. */
  predicate KeyLe(a: MenuItem, b: MenuItem) {
    a.order < b.order || (a.order == b.order && a.id <= b.id)
  }

  predicate SortedByKey(s: seq<MenuItem>) {
    forall i, j :: 0 <= i < j < |s| ==> KeyLe(s[i], s[j])
  }

  /** Insert `x` in front of the first element it does not follow. */
  function Insert(x: MenuItem, s: seq<MenuItem>): (r: seq<MenuItem>)
    ensures multiset(r) == multiset(s) + multiset{x}
  {
    if s == [] then [x]
    else if KeyLe(x, s[0]) then [x] + s
    else
      assert s == [s[0]] + s[1..];
      [s[0]] + Insert(x, s[1..])
  }

  lemma {:induction false} InsertSorted(x: MenuItem, s: seq<MenuItem>)
    requires SortedByKey(s)
    ensures SortedByKey(Insert(x, s))
  {
    if s != [] && !KeyLe(x, s[0]) {
      var rest := Insert(x, s[1..]);
      InsertSorted(x, s[1..]);
      forall k | 0 <= k < |rest|
        ensures KeyLe(s[0], rest[k])
      {
        assert rest[k] in multiset(rest);
        if rest[k] != x {
          assert rest[k] in multiset(s[1..]);
          assert rest[k] in s[1..];
        }
      }
      assert Insert(x, s) == [s[0]] + rest;
    }
  }

  /** `list.sort(key=lambda x: (x.order, x.id))`: a sorted permutation
      (an insertion sort, stable as Python's is). */
  function SortItems(s: seq<MenuItem>): (r: seq<MenuItem>)
    ensures multiset(r) == multiset(s)
    ensures SortedByKey(r)
  {
    if s == [] then []
    else
      assert s == [s[0]] + s[1..];
      var rest := SortItems(s[1..]);
      InsertSorted(s[0], rest);
      Insert(s[0], rest)
  }

  /** Sorting a list already in `(order, id)` order leaves it as it is. */
  lemma {:induction false} SortSorted(s: seq<MenuItem>)
    requires SortedByKey(s)
    ensures SortItems(s) == s
  {
    if s != [] {
      SortSorted(s[1..]);
      assert s == [s[0]] + s[1..];
    }
  }

  /** What the append loop of `__init__` leaves in `_children_map`: under
      every parent id that occurs, its items in list order. */
  function Grouped(items: seq<MenuItem>): map<Parent, seq<MenuItem>> {
    map p | p in Parents(items) :: Under(items, p)
  }

  /** Appending an item adds its parent to the keys and nothing else. */
  lemma {:induction false} ParentsAppend(xs: seq<MenuItem>, x: MenuItem)
    ensures Parents(xs + [x]) == Parents(xs) + {x.parentId}
  {
    var ys := xs + [x];
    forall p ensures p in Parents(ys) <==> p in Parents(xs) + {x.parentId} {
      if p in Parents(ys) {
        var z :| z in ys && z.parentId == p;
        if z != x {
          assert z in xs;
        }
      }
      if p in Parents(xs) {
        var z :| z in xs && z.parentId == p;
        assert z in ys;
      }
      if p == x.parentId {
        assert x in ys;
      }
    }
  }

  /** One more turn of the append loop: the item goes at the end of its
      parent's list, which starts out empty (`defaultdict(list)`). */
  lemma {:induction false} GroupedAppend(xs: seq<MenuItem>, x: MenuItem)
    ensures Grouped(xs + [x]) ==
      Grouped(xs)[x.parentId := (if x.parentId in Grouped(xs) then Grouped(xs)[x.parentId] else []) + [x]]
  {
    var ys := xs + [x];
    var g := Grouped(xs);
    var q := x.parentId;
    var h := g[q := (if q in g then g[q] else []) + [x]];
    assert ys[..|ys| - 1] == xs;
    ParentsAppend(xs, x);
    if q !in Parents(xs) {
      UnderUnnamed(xs, q);
    }
    forall p | p in Parents(ys)
      ensures Under(ys, p) == h[p]
    {
      UnderSnoc(xs, x, p);
    }
    assert Grouped(ys).Keys == h.Keys;
  }

  /** One more item lands at the end of its parent's group only. */
  lemma {:induction false} UnderSnoc(xs: seq<MenuItem>, x: MenuItem, p: Parent)
    ensures Under(xs + [x], p) == Under(xs, p) + (if x.parentId == p then [x] else [])
  {
    assert (xs + [x])[..|xs|] == xs;
  }

  /** The sort loop of `__init__`: every list sorted by `(order, id)`. */
  function SortedGroups(groups: map<Parent, seq<MenuItem>>): (r: map<Parent, seq<MenuItem>>)
    ensures r.Keys == groups.Keys
    ensures forall p :: p in r ==> SortedByKey(r[p]) && multiset(r[p]) == multiset(groups[p])
  {
    map p | p in groups :: SortItems(groups[p])
  }

  /** `_children_map` once both loops of `__init__` have run. */
  function ChildrenMapOf(items: seq<MenuItem>): map<Parent, seq<MenuItem>> {
    SortedGroups(Grouped(items))
  }

  /** With distinct ids an item is collected under its parent exactly once. */
  lemma {:induction false} UnderOnce(items: seq<MenuItem>, p: Parent)
    requires UniqueIds(items)
    ensures forall y :: multiset(Under(items, p))[y] == if y in items && y.parentId == p then 1 else 0
  {
    if items != [] {
      var init := items[..|items| - 1];
      var last := items[|items| - 1];
      assert items == init + [last];
      assert UniqueIds(init);
      UnderOnce(init, p);
    }
  }

  /** A parent no item names collects nothing. */
  lemma UnderUnnamed(items: seq<MenuItem>, p: Parent)
    requires p !in Parents(items)
    ensures Under(items, p) == []
  {
  }

  /** `_children_map`: a key for exactly the parent ids that occur; under
      each, every item with that parent exactly once and nothing else,
      sorted by `(order, id)`. */
  lemma {:induction false} ChildrenMapExact(items: seq<MenuItem>)
    requires UniqueIds(items)
    ensures forall p :: p in ChildrenMapOf(items) <==> exists x :: x in items && x.parentId == p
    ensures forall p, y :: p in ChildrenMapOf(items) ==>
      multiset(ChildrenMapOf(items)[p])[y] == if y in items && y.parentId == p then 1 else 0
    ensures forall p :: p in ChildrenMapOf(items) ==> SortedByKey(ChildrenMapOf(items)[p])
  {
    forall p | p in ChildrenMapOf(items)
      ensures forall y :: multiset(ChildrenMapOf(items)[p])[y] == if y in items && y.parentId == p then 1 else 0
    {
      UnderOnce(items, p);
    }
  }

  //--------------------------------------------------------------------
  // Resolved links (`_build_url_map`)
  //--------------------------------------------------------------------

  /** The url map the loop builds, or the NoReverseMatch of the first item
      (in list order) whose named route is unknown. */
  function ResolveAll(items: seq<MenuItem>, routes: Routes): (r: Result<map<ItemId, string>, NoReverseMatch>)
    ensures r.Success? ==> forall x :: x in items ==> x.id in r.value
  {
    if items == [] then Success(map[])
    else
      var init := items[..|items| - 1];
      var last := items[|items| - 1];
      match ResolveAll(init, routes)
      case Failure(e) => Failure(e)
      case Success(m) =>
        match GetLink(last, routes)
        case Failure(e) => Failure(e)
        case Success(u) => Success(m[last.id := u])
  }

  /** Once a prefix fails, the whole list fails with the same error. */
  lemma {:induction false} ResolveAllStopsAtFailure(items: seq<MenuItem>, routes: Routes, j: nat)
    requires j <= |items| && ResolveAll(items[..j], routes).Failure?
    ensures ResolveAll(items, routes) == ResolveAll(items[..j], routes)
    decreases |items| - j
  {
    if j < |items| {
      assert items[..j + 1][..j] == items[..j];
      ResolveAllStopsAtFailure(items, routes, j + 1);
    } else {
      assert items[..j] == items;
    }
  }

  /** The url map exists exactly when every item's link resolves... */
  lemma {:induction false} ResolveAllSucceeds(items: seq<MenuItem>, routes: Routes)
    ensures ResolveAll(items, routes).Success? <==>
      forall i :: 0 <= i < |items| ==> GetLink(items[i], routes).Success?
  {
    if items != [] {
      var init := items[..|items| - 1];
      var last := items[|items| - 1];
      ResolveAllSucceeds(init, routes);
      var r := ResolveAll(items, routes);
      assert r.Success? <==> ResolveAll(init, routes).Success? && GetLink(last, routes).Success?;
      assert (forall i :: 0 <= i < |items| ==> GetLink(items[i], routes).Success?) <==>
        (forall i :: 0 <= i < |init| ==> GetLink(init[i], routes).Success?) && GetLink(last, routes).Success? by {
        assert forall i :: 0 <= i < |init| ==> init[i] == items[i];
      }
    }
  }

  /** ...and then holds, under each id, the `get_link()` of the item the
      id map keeps for it. */
  lemma {:induction false} ResolveAllLinks(items: seq<MenuItem>, routes: Routes)
    requires ResolveAll(items, routes).Success?
    ensures ResolveAll(items, routes).value.Keys == ById(items).Keys
    ensures forall id :: id in ById(items) ==>
      GetLink(ById(items)[id], routes) == Success(ResolveAll(items, routes).value[id])
  {
    if items != [] {
      var init := items[..|items| - 1];
      var last := items[|items| - 1];
      var m := ResolveAll(init, routes).value;
      ResolveAllLinks(init, routes);
      var u := GetLink(last, routes).value;
      assert ResolveAll(items, routes).value == m[last.id := u];
      assert ById(items) == ById(init)[last.id := last];
    }
  }

  /** On failure the error is that of the first item that does not resolve. */
  lemma {:induction false} ResolveAllFirstError(items: seq<MenuItem>, routes: Routes)
    requires ResolveAll(items, routes).Failure?
    ensures exists i :: (0 <= i < |items| && GetLink(items[i], routes) == Failure(ResolveAll(items, routes).error)
      && forall j :: 0 <= j < i ==> GetLink(items[j], routes).Success?)
  {
    var init := items[..|items| - 1];
    var e := ResolveAll(items, routes).error;
    assert forall i :: 0 <= i < |init| ==> init[i] == items[i];
    if ResolveAll(init, routes).Failure? {
      ResolveAllFirstError(init, routes);
      var i :| 0 <= i < |init| && GetLink(init[i], routes) == Failure(e)
        && (forall j :: 0 <= j < i ==> GetLink(init[j], routes).Success?);
      assert GetLink(items[i], routes) == Failure(e);
    } else {
      ResolveAllSucceeds(init, routes);
      assert GetLink(items[|items| - 1], routes) == Failure(e);
    }
  }

  //--------------------------------------------------------------------
  // The active item (`_detect_active_item_id`)
  //--------------------------------------------------------------------

  predicate Matches(urls: map<ItemId, string>, x: MenuItem, target: string)
    requires x.id in urls
  {
    Paths.NormalizePath(urls[x.id]) == target
  }

  /** The id of the first item whose normalised url is `target`. */
  function FirstMatch(items: seq<MenuItem>, urls: map<ItemId, string>, target: string): (r: Option<ItemId>)
    requires forall x :: x in items ==> x.id in urls
  {
    if items == [] then None
    else if Matches(urls, items[0], target) then Some(items[0].id)
    else FirstMatch(items[1..], urls, target)
  }

  /** No request, no active item; otherwise the first match of the
      normalised request path. */
  function ActiveOf(items: seq<MenuItem>, urls: map<ItemId, string>, path: Option<string>): Option<ItemId>
    requires forall x :: x in items ==> x.id in urls
  {
    if path.None? then None else FirstMatch(items, urls, Paths.NormalizePath(path.value))
  }

  /** `FirstMatch` finds nothing exactly when no item matches, and
      otherwise the first matching item in list order. */
  lemma {:induction false} FirstMatchSpec(items: seq<MenuItem>, urls: map<ItemId, string>, target: string)
    requires forall x :: x in items ==> x.id in urls
    ensures FirstMatch(items, urls, target).None? <==>
      forall i :: 0 <= i < |items| ==> !Matches(urls, items[i], target)
    ensures FirstMatch(items, urls, target).Some? ==>
      exists i :: (0 <= i < |items| && items[i].id == FirstMatch(items, urls, target).value
        && Matches(urls, items[i], target)
        && forall j :: 0 <= j < i ==> !Matches(urls, items[j], target))
  {
    FirstMatchNone(items, urls, target);
    FirstMatchFirst(items, urls, target);
  }

  /** `FirstMatch` finds nothing exactly when no item matches. */
  lemma {:induction false} FirstMatchNone(items: seq<MenuItem>, urls: map<ItemId, string>, target: string)
    requires forall x :: x in items ==> x.id in urls
    ensures FirstMatch(items, urls, target).None? <==>
      forall i :: 0 <= i < |items| ==> !Matches(urls, items[i], target)
  {
    if items != [] {
      if Matches(urls, items[0], target) {
        assert !(forall i :: 0 <= i < |items| ==> !Matches(urls, items[i], target));
      } else {
        var rest := items[1..];
        assert forall x :: x in rest ==> x in items;
        FirstMatchNone(rest, urls, target);
        if FirstMatch(rest, urls, target).None? {
          forall i | 0 <= i < |items|
            ensures !Matches(urls, items[i], target)
          {
            if i > 0 {
              assert items[i] == rest[i - 1];
            }
          }
        } else {
          var k :| 0 <= k < |rest| && Matches(urls, rest[k], target);
          assert items[k + 1] == rest[k];
        }
      }
    }
  }

  /** A match `FirstMatch` finds is the first matching item. */
  lemma {:induction false} FirstMatchFirst(items: seq<MenuItem>, urls: map<ItemId, string>, target: string)
    requires forall x :: x in items ==> x.id in urls
    ensures FirstMatch(items, urls, target).Some? ==>
      exists i :: (0 <= i < |items| && items[i].id == FirstMatch(items, urls, target).value
        && Matches(urls, items[i], target)
        && forall j :: 0 <= j < i ==> !Matches(urls, items[j], target))
  {
    if items != [] {
      if Matches(urls, items[0], target) {
        assert items[0].id == FirstMatch(items, urls, target).value;
      } else {
        var rest := items[1..];
        assert forall x :: x in rest ==> x in items;
        FirstMatchFirst(rest, urls, target);
        if FirstMatch(rest, urls, target).Some? {
          var i :| 0 <= i < |rest| && rest[i].id == FirstMatch(rest, urls, target).value
            && Matches(urls, rest[i], target)
            && (forall j :: 0 <= j < i ==> !Matches(urls, rest[j], target));
          assert items[i + 1] == rest[i];
          forall j | 0 <= j < i + 1
            ensures !Matches(urls, items[j], target)
          {
            if j > 0 {
              assert items[j] == rest[j - 1];
            }
          }
        }
      }
    }
  }


  /** `_detect_active_item_id`: no request, no active item; with one, the
      first item whose normalised url equals the normalised request path,
      or none if no url does. */
  lemma {:induction false} ActiveSpec(items: seq<MenuItem>, urls: map<ItemId, string>, path: Option<string>)
    requires forall x :: x in items ==> x.id in urls
    ensures path.None? ==> ActiveOf(items, urls, path).None?
    ensures path.Some? ==>
      (ActiveOf(items, urls, path).None? <==>
        forall i :: 0 <= i < |items| ==> Paths.NormalizePath(urls[items[i].id]) != Paths.NormalizePath(path.value))
    ensures path.Some? && ActiveOf(items, urls, path).Some? ==>
      exists i :: (0 <= i < |items| && items[i].id == ActiveOf(items, urls, path).value
        && Paths.NormalizePath(urls[items[i].id]) == Paths.NormalizePath(path.value)
        && forall j :: 0 <= j < i ==> Paths.NormalizePath(urls[items[j].id]) != Paths.NormalizePath(path.value))
  {
    if path.Some? {
      FirstMatchSpec(items, urls, Paths.NormalizePath(path.value));
    }
  }

  //--------------------------------------------------------------------
  // Walking parent links (`_collect_ancestor_ids`)
  //--------------------------------------------------------------------

  /** One step up: the parent of a loaded item; a missing id or the root
      leads nowhere. */
  function ParentOf(byId: map<ItemId, MenuItem>, p: Parent): Parent {
    if p.Some? && p.value in byId then byId[p.value].parentId else None
  }

  /** `k` steps up from `p`. */
  function Up(byId: map<ItemId, MenuItem>, p: Parent, k: nat): Parent
    decreases k
  {
    if k == 0 then p else Up(byId, ParentOf(byId, p), k - 1)
  }

  /** The parent links have no cycle: from every loaded item, climbing
      more links than there are items leaves the loaded set. */
  ghost predicate Acyclic(byId: map<ItemId, MenuItem>) {
    forall id :: id in byId ==> Up(byId, Some(id), |byId| + 1) == None
  }

  /** The ids visited by the `while parent_id:` loop starting at `p` with
      `fuel` more steps: every id reached, the last one maybe dangling. */
  function Chain(byId: map<ItemId, MenuItem>, p: Parent, fuel: nat): set<ItemId>
    decreases fuel
  {
    if p.None? then {}
    else {p.value} + (if fuel == 0 then {} else Chain(byId, ParentOf(byId, p), fuel - 1))
  }

  /** `_ancestor_ids`: empty without an active item, otherwise the chain
      above its parent. */
  function AncestorsOf(byId: map<ItemId, MenuItem>, active: Option<ItemId>): set<ItemId> {
    if active.None? then {} else Chain(byId, ParentOf(byId, active), |byId|)
  }

  //--------------------------------------------------------------------
  // Depth below the root, the measure of the node recursion
  //--------------------------------------------------------------------

  /** The number of links climbed from `p` before leaving the loaded set. */
  function Height(byId: map<ItemId, MenuItem>, p: Parent, fuel: nat): (h: nat)
    ensures h <= fuel
    decreases fuel
  {
    if p.None? || fuel == 0 then 0 else 1 + Height(byId, ParentOf(byId, p), fuel - 1)
  }

  lemma {:induction false} UpOfNone(byId: map<ItemId, MenuItem>, k: nat)
    ensures Up(byId, None, k) == None
  {
    if k > 0 {
      UpOfNone(byId, k - 1);
    }
  }

  lemma {:induction false} UpAdd(byId: map<ItemId, MenuItem>, p: Parent, i: nat, j: nat)
    ensures Up(byId, p, i + j) == Up(byId, Up(byId, p, i), j)
    decreases i
  {
    if i > 0 {
      UpAdd(byId, ParentOf(byId, p), i - 1, j);
    }
  }

  /** Once the walk has left the loaded set it stays out. */
  lemma {:induction false} UpStaysNone(byId: map<ItemId, MenuItem>, p: Parent, k: nat, m: nat)
    requires Up(byId, p, k) == None && k <= m
    ensures Up(byId, p, m) == None
  {
    UpAdd(byId, p, k, m - k);
    UpOfNone(byId, m - k);
  }

  lemma {:induction false} HeightStable(byId: map<ItemId, MenuItem>, p: Parent, f: nat, g: nat)
    requires Up(byId, p, f) == None && f <= g
    ensures Height(byId, p, g) == Height(byId, p, f)
    decreases f
  {
    if p.Some? && f > 0 {
      HeightStable(byId, ParentOf(byId, p), f - 1, g - 1);
    }
  }

  /** A loaded item stands one level below its parent. */
  lemma {:induction false} HeightChild(byId: map<ItemId, MenuItem>, y: ItemId)
    requires Acyclic(byId) && y in byId
    ensures Height(byId, Some(y), |byId| + 1) == 1 + Height(byId, byId[y].parentId, |byId| + 1)
  {
    var n := |byId|;
    assert Up(byId, Some(y), n + 1) == Up(byId, byId[y].parentId, n);
    HeightStable(byId, byId[y].parentId, n, n + 1);
  }

  /** The ids `Chain` collects are those reached by climbing at most
      `f` links. */
  lemma {:induction false} ChainSteps(byId: map<ItemId, MenuItem>, p: Parent, f: nat)
    ensures forall x: ItemId :: x in Chain(byId, p, f) <==> exists k :: 0 <= k <= f && Up(byId, p, k) == Some(x)
    decreases f
  {
    if p.None? {
      forall k: nat
        ensures Up(byId, p, k) == None
      {
        UpOfNone(byId, k);
      }
    } else if f == 0 {
      assert Up(byId, p, 0) == p;
      assert Chain(byId, p, f) == {p.value};
      assert forall x: ItemId :: x in Chain(byId, p, f) <==> exists k :: 0 <= k <= f && Up(byId, p, k) == Some(x);
    } else {
      var q := ParentOf(byId, p);
      ChainSteps(byId, q, f - 1);
      assert Chain(byId, p, f) == {p.value} + Chain(byId, q, f - 1);
      forall x: ItemId | x in Chain(byId, p, f)
        ensures exists k :: 0 <= k <= f && Up(byId, p, k) == Some(x)
      {
        if x == p.value {
          assert 0 <= 0 <= f && Up(byId, p, 0) == Some(x);
        } else {
          var k :| 0 <= k <= f - 1 && Up(byId, q, k) == Some(x);
          assert 0 <= k + 1 <= f && Up(byId, p, k + 1) == Some(x);
        }
      }
      forall x: ItemId, k | 0 <= k <= f && Up(byId, p, k) == Some(x)
        ensures x in Chain(byId, p, f)
      {
        if k > 0 {
          assert 0 <= k - 1 <= f - 1 && Up(byId, q, k - 1) == Some(x);
        }
      }
      assert forall x: ItemId :: x in Chain(byId, p, f) <==> exists k :: 0 <= k <= f && Up(byId, p, k) == Some(x);
    }
  }

  /** Returning to `p` after `k` links, the walk returns to it again and
      again. */
  lemma {:induction false} CycleRepeats(byId: map<ItemId, MenuItem>, p: Parent, k: nat, m: nat)
    requires k >= 1 && Up(byId, p, k) == p
    ensures exists j :: j >= m && Up(byId, p, j) == p
    decreases m
  {
    if m == 0 {
      assert Up(byId, p, 0) == p;
    } else {
      CycleRepeats(byId, p, k, m - 1);
      var j :| j >= m - 1 && Up(byId, p, j) == p;
      UpAdd(byId, p, j, k);
      assert Up(byId, p, j + k) == p;
    }
  }

  /** On acyclic links every walk is over after `|byId| + 1` links. */
  lemma {:induction false} WalkEnds(byId: map<ItemId, MenuItem>, a: ItemId, k: nat)
    requires Acyclic(byId) && k >= |byId| + 1
    ensures Up(byId, Some(a), k) == None
  {
    if a in byId {
      UpStaysNone(byId, Some(a), |byId| + 1, k);
    } else {
      assert Up(byId, Some(a), 1) == Up(byId, None, 0);
      UpStaysNone(byId, Some(a), 1, k);
    }
  }

  /** `x` is reached from `a` by climbing one or more parent links. */
  ghost predicate Above(byId: map<ItemId, MenuItem>, a: ItemId, x: ItemId) {
    exists k: nat :: 1 <= k && Up(byId, Some(a), k) == Some(x)
  }

  lemma {:induction false} AncestorsSteps(byId: map<ItemId, MenuItem>, a: ItemId)
    requires Acyclic(byId)
    ensures forall x :: x in AncestorsOf(byId, Some(a)) <==> Above(byId, a, x)
  {
    var n := |byId|;
    var q := ParentOf(byId, Some(a));
    assert q == Up(byId, Some(a), 1);
    ChainSteps(byId, q, n);
    forall x: ItemId
      ensures x in AncestorsOf(byId, Some(a)) <==> Above(byId, a, x)
    {
      if x in AncestorsOf(byId, Some(a)) {
        var k :| 0 <= k <= n && Up(byId, q, k) == Some(x);
        UpAdd(byId, Some(a), 1, k);
        assert Up(byId, Some(a), 1 + k) == Some(x);
      }
      if Above(byId, a, x) {
        var k: nat :| 1 <= k && Up(byId, Some(a), k) == Some(x);
        if k > n + 1 {
          WalkEnds(byId, a, k);
          assert false;
        } else {
          UpAdd(byId, Some(a), 1, k - 1);
          assert 0 <= k - 1 <= n && Up(byId, q, k - 1) == Some(x);
        }
      }
    }
  }

  /** `_collect_ancestor_ids` on acyclic links: empty without an active
      item; otherwise exactly the ids reached by climbing one or more
      links from it (the last one possibly a parent id no item has), and
      never the active id itself. */
  lemma {:induction false} AncestorsExact(byId: map<ItemId, MenuItem>, active: Option<ItemId>)
    requires Acyclic(byId)
    ensures active.None? ==> AncestorsOf(byId, active) == {}
    ensures active.Some? ==> forall x :: x in AncestorsOf(byId, active) <==> Above(byId, active.value, x)
    ensures active.Some? ==> active.value !in AncestorsOf(byId, active)
  {
    if active.Some? {
      var a := active.value;
      AncestorsSteps(byId, a);
      if a in AncestorsOf(byId, active) {
        var k: nat :| 1 <= k && Up(byId, active, k) == active;
        CycleRepeats(byId, active, k, |byId| + 1);
        var j :| j >= |byId| + 1 && Up(byId, active, j) == active;
        WalkEnds(byId, a, j);
        assert false;
      }
    }
  }

  //--------------------------------------------------------------------
  // Nodes (`_build_nodes`)
  //--------------------------------------------------------------------

  /** One emitted node dict; field names follow the template contract. */
  datatype MenuNode = MenuNode(
    id: ItemId,
    title: string,
    url: string,
    isActive: bool,
    isAncestor: bool,
    showChildren: bool,
    hasChildren: bool,
    children: seq<MenuNode>)

  /** The dict `build` returns. */
  datatype MenuTree = MenuTree(slug: string, title: string, nodes: seq<MenuNode>)

  /** Everything `_build_nodes` reads from the builder. */
  datatype Index = Index(
    byId: map<ItemId, MenuItem>,
    children: map<Parent, seq<MenuItem>>,
    urls: map<ItemId, string>,
    active: Option<ItemId>,
    ancestors: set<ItemId>)

  /** `y` is listed under `p` and is the loaded item with its id. */
  predicate Placed(ix: Index, y: MenuItem, p: Parent) {
    y.parentId == p && y.id in ix.byId && ix.byId[y.id] == y
  }

  /** What the recursion needs of an index: acyclic links, and every
      listed child really has the parent it is listed under. */
  ghost predicate Coherent(ix: Index) {
    && Acyclic(ix.byId)
    && forall p, y :: p in ix.children && y in ix.children[p] ==> Placed(ix, y, p)
  }

  /** `_children_map.get(p, [])`. */
  function ChildrenOf(ix: Index, p: Parent): seq<MenuItem> {
    if p in ix.children then ix.children[p] else []
  }

  /** `_should_expand`: only with an active item, and only for it and its
      ancestors. */
  function Expand(active: Option<ItemId>, ancestors: set<ItemId>, id: ItemId): bool {
    active.Some? && (id == active.value || id in ancestors)
  }

  function Measure(ix: Index, p: Parent): nat {
    |ix.byId| + 1 - Height(ix.byId, p, |ix.byId| + 1)
  }

  /** `_build_nodes(p)`: one node per child of `p`, in list order. */
  function Nodes(ix: Index, p: Parent): (r: seq<MenuNode>)
    requires Coherent(ix)
    ensures Mirrors(r, ChildrenOf(ix, p))
    decreases Measure(ix, p), 1
  {
    NodeList(ix, ChildrenOf(ix, p), p)
  }

  /** The loop of `_build_nodes(p)` over the children `cs` of `p`. */
  function NodeList(ix: Index, cs: seq<MenuItem>, p: Parent): (r: seq<MenuNode>)
    requires Coherent(ix)
    requires forall y :: y in cs ==> Placed(ix, y, p)
    ensures Mirrors(r, cs)
    decreases Measure(ix, p), 0, |cs|
  {
    if cs == [] then []
    else
      var y := cs[|cs| - 1];
      assert y in cs && Placed(ix, y, p);
      HeightChild(ix.byId, y.id);
      NodeList(ix, cs[..|cs| - 1], p) + [NodeFor(ix, y)]
  }

  /** One more turn of the loop of `_build_nodes` appends the node of
      the next child. */
  lemma {:induction false} NodeListStep(ix: Index, cs: seq<MenuItem>, p: Parent, i: nat)
    requires Coherent(ix)
    requires forall y :: y in cs ==> Placed(ix, y, p)
    requires i < |cs|
    ensures cs[i].id in ix.byId && ix.byId[cs[i].id] == cs[i]
    ensures NodeList(ix, cs[..i + 1], p) == NodeList(ix, cs[..i], p) + [NodeFor(ix, cs[i])]
  {
    assert cs[i] in cs && Placed(ix, cs[i], p);
    assert cs[..i + 1][..i] == cs[..i];
    assert cs[..i + 1][i] == cs[i];
  }

  /** The dict appended for item `y`: its children are one node per
      child of `y` when it is expanded, and none otherwise. */
  function NodeFor(ix: Index, y: MenuItem): (r: MenuNode)
    requires Coherent(ix)
    requires y.id in ix.byId && ix.byId[y.id] == y
    ensures r.id == y.id
    ensures r.showChildren ==> Mirrors(r.children, ChildrenOf(ix, Some(y.id)))
    ensures !r.showChildren ==> r.children == []
    decreases Measure(ix, Some(y.id)), 2
  {
    var show := Expand(ix.active, ix.ancestors, y.id);
    MenuNode(
      y.id,
      y.title,
      if y.id in ix.urls then ix.urls[y.id] else "#",
      ix.active == Some(y.id),
      y.id in ix.ancestors,
      show,
      ChildrenOf(ix, Some(y.id)) != [],
      if show then Nodes(ix, Some(y.id)) else [])
  }

  //--------------------------------------------------------------------
  // What every emitted node satisfies
  //--------------------------------------------------------------------

  /** Every node of a node tree, each before its descendants. */
  function FlatNode(n: MenuNode): (r: seq<MenuNode>)
    decreases n
  {
    [n] + Flat(n.children)
  }

  function Flat(ns: seq<MenuNode>): (r: seq<MenuNode>)
    decreases ns
  {
    if ns == [] then [] else FlatNode(ns[0]) + Flat(ns[1..])
  }

  lemma {:induction false} FlatAppend(a: seq<MenuNode>, b: seq<MenuNode>)
    ensures Flat(a + b) == Flat(a) + Flat(b)
  {
    if a == [] {
      assert a + b == b;
    } else {
      assert (a + b)[0] == a[0];
      assert (a + b)[1..] == a[1..] + b;
      FlatAppend(a[1..], b);
    }
  }

  /** Every node of the list is listed. */
  lemma {:induction false} FlatHasEach(ns: seq<MenuNode>)
    ensures forall n :: n in ns ==> n in Flat(ns)
  {
    if ns != [] {
      FlatHasEach(ns[1..]);
      forall n | n in ns
        ensures n in Flat(ns)
      {
        if n != ns[0] {
          assert n in ns[1..];
        }
      }
    }
  }

  /** The children of a listed node are listed too. */
  lemma {:induction false} FlatNodeClosed(n: MenuNode)
    ensures forall m, c :: m in FlatNode(n) && c in m.children ==> c in FlatNode(n)
    decreases n, 1
  {
    FlatHasEach(n.children);
    FlatClosed(n.children);
  }

  lemma {:induction false} FlatClosed(ns: seq<MenuNode>)
    ensures forall m, c :: m in Flat(ns) && c in m.children ==> c in Flat(ns)
    decreases ns, 0
  {
    if ns != [] {
      FlatNodeClosed(ns[0]);
      FlatClosed(ns[1..]);
    }
  }

  /** The nodes stand for the items `cs`, one for one and in order. */
  predicate Mirrors(ns: seq<MenuNode>, cs: seq<MenuItem>) {
    |ns| == |cs| && forall i :: 0 <= i < |ns| ==> ns[i].id == cs[i].id
  }

  /** Every link climbed from `id` leads to a loaded item, up to the root:
      the item hangs below the root through loaded items only. */
  ghost predicate Rooted(byId: map<ItemId, MenuItem>, id: ItemId) {
    forall k: nat :: Up(byId, Some(id), k).Some? ==> Up(byId, Some(id), k).value in byId
  }

  lemma {:induction false} RootedChild(byId: map<ItemId, MenuItem>, y: ItemId)
    requires y in byId
    requires byId[y].parentId.None? || Rooted(byId, byId[y].parentId.value)
    ensures Rooted(byId, y)
  {
    var p := byId[y].parentId;
    forall k: nat | Up(byId, Some(y), k).Some?
      ensures Up(byId, Some(y), k).value in byId
    {
      if k > 0 {
        assert Up(byId, Some(y), k) == Up(byId, p, k - 1);
        if p.None? {
          UpOfNone(byId, k - 1);
        }
      }
    }
  }

  /** An item whose parent id names no loaded item is not rooted. */
  lemma {:induction false} DanglingNotRooted(byId: map<ItemId, MenuItem>, y: ItemId)
    requires y in byId && byId[y].parentId.Some? && byId[y].parentId.value !in byId
    ensures !Rooted(byId, y)
  {
    assert Up(byId, Some(y), 1) == Up(byId, byId[y].parentId, 0);
  }

  /** What the dict emitted for an item says, and what it holds. */
  ghost predicate NodeOk(ix: Index, n: MenuNode) {
    && n.id in ix.byId
    && n.title == ix.byId[n.id].title
    && (n.id in ix.urls ==> n.url == ix.urls[n.id])
    && (n.isActive <==> ix.active == Some(n.id))
    && (n.isAncestor <==> n.id in ix.ancestors)
    && (n.showChildren <==> n.isActive || n.isAncestor)
    && (n.hasChildren <==> ChildrenOf(ix, Some(n.id)) != [])
    && (n.showChildren ==> Mirrors(n.children, ChildrenOf(ix, Some(n.id))))
    && (!n.showChildren ==> n.children == [])
    && Rooted(ix.byId, n.id)
  }

  /** `_build_nodes(p)` emits one node per child of `p`, in the sorted
      order, and every node below satisfies `NodeOk`. */
  lemma {:induction false} NodesOk(ix: Index, p: Parent)
    requires Coherent(ix)
    requires ix.active.None? ==> ix.ancestors == {}
    requires p.None? || Rooted(ix.byId, p.value)
    ensures Mirrors(Nodes(ix, p), ChildrenOf(ix, p))
    ensures forall n :: n in Flat(Nodes(ix, p)) ==> NodeOk(ix, n)
    decreases Measure(ix, p), 1
  {
    NodeListOk(ix, ChildrenOf(ix, p), p);
  }

  lemma {:induction false} NodeListOk(ix: Index, cs: seq<MenuItem>, p: Parent)
    requires Coherent(ix)
    requires forall y :: y in cs ==> Placed(ix, y, p)
    requires ix.active.None? ==> ix.ancestors == {}
    requires p.None? || Rooted(ix.byId, p.value)
    ensures Mirrors(NodeList(ix, cs, p), cs)
    ensures forall n :: n in Flat(NodeList(ix, cs, p)) ==> NodeOk(ix, n)
    decreases Measure(ix, p), 0, |cs|
  {
    if cs != [] {
      var y := cs[|cs| - 1];
      var init := cs[..|cs| - 1];
      assert y in cs && Placed(ix, y, p);
      HeightChild(ix.byId, y.id);
      NodeListOk(ix, init, p);
      RootedChild(ix.byId, y.id);
      NodeForOk(ix, y);
      var n := NodeFor(ix, y);
      assert NodeList(ix, cs, p) == NodeList(ix, init, p) + [n];
      FlatAppend(NodeList(ix, init, p), [n]);
      assert Flat([n]) == FlatNode(n) by {
        assert [n][1..] == [];
      }
    }
  }

  lemma {:induction false} NodeForOk(ix: Index, y: MenuItem)
    requires Coherent(ix)
    requires y.id in ix.byId && ix.byId[y.id] == y
    requires ix.active.None? ==> ix.ancestors == {}
    requires Rooted(ix.byId, y.id)
    ensures forall n :: n in FlatNode(NodeFor(ix, y)) ==> NodeOk(ix, n)
    decreases Measure(ix, Some(y.id)), 2
  {
    var n := NodeFor(ix, y);
    if n.showChildren {
      NodesOk(ix, Some(y.id));
    }
  }

  //--------------------------------------------------------------------
  // No node is emitted twice
  //--------------------------------------------------------------------

  /** `x` is `y` or lies below it. */
  ghost predicate AtOrBelow(byId: map<ItemId, MenuItem>, x: ItemId, y: ItemId) {
    exists k: nat :: Up(byId, Some(x), k) == Some(y)
  }

  predicate DistinctIds(ns: seq<MenuNode>) {
    forall i, j :: 0 <= i < j < |ns| ==> ns[i].id != ns[j].id
  }

  /** Every children list names each item once. */
  predicate ListsDistinct(ix: Index) {
    forall p :: p in ix.children ==> UniqueIds(ix.children[p])
  }

  /** On acyclic links no walk of one or more steps comes back. */
  lemma {:induction false} NoCycleAt(byId: map<ItemId, MenuItem>, a: ItemId, d: nat)
    requires Acyclic(byId) && d >= 1
    ensures Up(byId, Some(a), d) != Some(a)
  {
    if Up(byId, Some(a), d) == Some(a) {
      CycleRepeats(byId, Some(a), d, |byId| + 1);
      var j :| j >= |byId| + 1 && Up(byId, Some(a), j) == Some(a);
      WalkEnds(byId, a, j);
      assert false;
    }
  }

  /** Two different items with the same parent have no item below both. */
  lemma {:induction false} SiblingsDisjoint(byId: map<ItemId, MenuItem>, x: ItemId, c: ItemId, y: ItemId)
    requires Acyclic(byId)
    requires c in byId && y in byId && c != y
    requires byId[c].parentId == byId[y].parentId
    ensures !(AtOrBelow(byId, x, c) && AtOrBelow(byId, x, y))
  {
    if AtOrBelow(byId, x, c) && AtOrBelow(byId, x, y) {
      var k1: nat :| Up(byId, Some(x), k1) == Some(c);
      var k2: nat :| Up(byId, Some(x), k2) == Some(y);
      if k1 < k2 {
        SiblingStep(byId, x, c, y, k1, k2);
      } else if k2 < k1 {
        SiblingStep(byId, x, y, c, k2, k1);
      }
    }
  }

  /** The case `k1 < k2` of SiblingsDisjoint. */
  lemma {:induction false} SiblingStep(byId: map<ItemId, MenuItem>, x: ItemId, c: ItemId, y: ItemId, k1: nat, k2: nat)
    requires Acyclic(byId)
    requires c in byId && y in byId
    requires byId[c].parentId == byId[y].parentId
    requires k1 < k2 && Up(byId, Some(x), k1) == Some(c)
    ensures Up(byId, Some(x), k2) != Some(y)
  {
    var d := k2 - k1;
    var q := byId[c].parentId;
    UpAdd(byId, Some(x), k1, d);
    UpAdd(byId, Some(c), 1, d - 1);
    assert Up(byId, Some(c), 1) == q;
    if q.None? {
      UpOfNone(byId, d - 1);
    } else if Up(byId, Some(c), d) == Some(y) {
      UpAdd(byId, Some(c), d, 1);
      UpAdd(byId, Some(c), 1, d);
      assert Up(byId, q, d) == q;
      NoCycleAt(byId, q.value, d);
      assert false;
    }
  }

  lemma {:induction false} NodesBelow(ix: Index, p: Parent)
    requires Coherent(ix)
    ensures forall n :: n in Flat(Nodes(ix, p)) ==>
      exists y :: y in ChildrenOf(ix, p) && AtOrBelow(ix.byId, n.id, y.id)
    decreases Measure(ix, p), 1
  {
    assert forall y :: y in ChildrenOf(ix, p) ==> Placed(ix, y, p);
    NodeListBelow(ix, ChildrenOf(ix, p), p);
  }

  /** Every node of the list for `cs` lies at or below one of `cs`. */
  lemma {:induction false} NodeListBelow(ix: Index, cs: seq<MenuItem>, p: Parent)
    requires Coherent(ix)
    requires forall y :: y in cs ==> Placed(ix, y, p)
    ensures forall n :: n in Flat(NodeList(ix, cs, p)) ==>
      exists y :: y in cs && AtOrBelow(ix.byId, n.id, y.id)
    decreases Measure(ix, p), 0, |cs|
  {
    if cs != [] {
      var init := cs[..|cs| - 1];
      var y := cs[|cs| - 1];
      assert y in cs;
      assert forall z :: z in init ==> z in cs;
      HeightChild(ix.byId, y.id);
      NodeListBelow(ix, init, p);
      NodeForBelow(ix, y);
      var node := NodeFor(ix, y);
      FlatAppend(NodeList(ix, init, p), [node]);
      assert Flat([node]) == FlatNode(node) by {
        assert [node][1..] == [];
      }
    }
  }

  /** Every node of the subtree for `y` is `y` or lies below it. */
  lemma {:induction false} NodeForBelow(ix: Index, y: MenuItem)
    requires Coherent(ix)
    requires y.id in ix.byId && ix.byId[y.id] == y
    ensures forall n :: n in FlatNode(NodeFor(ix, y)) ==> AtOrBelow(ix.byId, n.id, y.id)
    decreases Measure(ix, Some(y.id)), 2
  {
    var node := NodeFor(ix, y);
    assert Up(ix.byId, Some(y.id), 0) == Some(y.id);
    if node.showChildren {
      NodesBelow(ix, Some(y.id));
      forall n | n in Flat(node.children)
        ensures AtOrBelow(ix.byId, n.id, y.id)
      {
        var c :| c in ChildrenOf(ix, Some(y.id)) && AtOrBelow(ix.byId, n.id, c.id);
        assert Placed(ix, c, Some(y.id));
        var k: nat :| Up(ix.byId, Some(n.id), k) == Some(c.id);
        UpAdd(ix.byId, Some(n.id), k, 1);
        assert Up(ix.byId, Some(n.id), k + 1) == Some(y.id);
      }
    }
  }

  lemma {:induction false} NodesDistinct(ix: Index, p: Parent)
    requires Coherent(ix) && ListsDistinct(ix)
    ensures DistinctIds(Flat(Nodes(ix, p)))
    decreases Measure(ix, p), 1
  {
    assert forall y :: y in ChildrenOf(ix, p) ==> Placed(ix, y, p);
    NodeListDistinct(ix, ChildrenOf(ix, p), p);
  }

  lemma {:induction false} NodeListDistinct(ix: Index, cs: seq<MenuItem>, p: Parent)
    requires Coherent(ix) && ListsDistinct(ix)
    requires forall y :: y in cs ==> Placed(ix, y, p)
    requires UniqueIds(cs)
    ensures DistinctIds(Flat(NodeList(ix, cs, p)))
    decreases Measure(ix, p), 0, |cs|
  {
    if cs != [] {
      var init := cs[..|cs| - 1];
      var y := cs[|cs| - 1];
      assert y in cs;
      assert forall z :: z in init ==> z in cs;
      HeightChild(ix.byId, y.id);
      NodeListDistinct(ix, init, p);
      NodeForDistinct(ix, y);
      LastBranchApart(ix, cs, p);
      var node := NodeFor(ix, y);
      var a, b := Flat(NodeList(ix, init, p)), FlatNode(node);
      FlatAppend(NodeList(ix, init, p), [node]);
      assert Flat([node]) == b by {
        assert [node][1..] == [];
      }
      DistinctConcat(a, b);
    }
  }

  lemma {:induction false} DistinctConcat(a: seq<MenuNode>, b: seq<MenuNode>)
    requires DistinctIds(a) && DistinctIds(b)
    requires forall n, m :: n in a && m in b ==> n.id != m.id
    ensures DistinctIds(a + b)
  {
    forall i, j | 0 <= i < j < |a + b|
      ensures (a + b)[i].id != (a + b)[j].id
    {
      if i < |a| && j >= |a| {
        assert (a + b)[i] in a && (a + b)[j] in b;
      }
    }
  }

  /** The subtree of the last child shares no id with those before it. */
  lemma {:induction false} LastBranchApart(ix: Index, cs: seq<MenuItem>, p: Parent)
    requires Coherent(ix)
    requires forall y :: y in cs ==> Placed(ix, y, p)
    requires UniqueIds(cs) && cs != []
    ensures var y := cs[|cs| - 1];
      y.id in ix.byId && ix.byId[y.id] == y &&
      forall n, m :: n in Flat(NodeList(ix, cs[..|cs| - 1], p)) && m in FlatNode(NodeFor(ix, y)) ==> n.id != m.id
  {
    var init := cs[..|cs| - 1];
    var y := cs[|cs| - 1];
    assert y in cs;
    assert forall z :: z in init ==> z in cs;
    NodeListBelow(ix, init, p);
    NodeForBelow(ix, y);
    forall n, m | n in Flat(NodeList(ix, init, p)) && m in FlatNode(NodeFor(ix, y))
      ensures n.id != m.id
    {
      var c :| c in init && AtOrBelow(ix.byId, n.id, c.id);
      EarlierSiblingApart(ix, cs, p, c, n.id);
    }
  }

  /** No item is below both an earlier child `c` of `p` and the last one. */
  lemma EarlierSiblingApart(ix: Index, cs: seq<MenuItem>, p: Parent, c: MenuItem, x: ItemId)
    requires Coherent(ix)
    requires forall y :: y in cs ==> Placed(ix, y, p)
    requires UniqueIds(cs) && cs != []
    requires c in cs[..|cs| - 1] && AtOrBelow(ix.byId, x, c.id)
    ensures !AtOrBelow(ix.byId, x, cs[|cs| - 1].id)
  {
    var init := cs[..|cs| - 1];
    var y := cs[|cs| - 1];
    var ci :| 0 <= ci < |init| && init[ci] == c;
    assert cs[ci] == c;
    assert y in cs && c in cs;
    assert Placed(ix, c, p) && Placed(ix, y, p);
    SiblingsDisjoint(ix.byId, x, c.id, y.id);
  }

  lemma {:induction false} NodeForDistinct(ix: Index, y: MenuItem)
    requires Coherent(ix) && ListsDistinct(ix)
    requires y.id in ix.byId && ix.byId[y.id] == y
    ensures DistinctIds(FlatNode(NodeFor(ix, y)))
    decreases Measure(ix, Some(y.id)), 2
  {
    var node := NodeFor(ix, y);
    if node.showChildren {
      NodesDistinct(ix, Some(y.id));
      NodesBelow(ix, Some(y.id));
      forall n | n in Flat(node.children)
        ensures n.id != y.id
      {
        var c :| c in ChildrenOf(ix, Some(y.id)) && AtOrBelow(ix.byId, n.id, c.id);
        assert Placed(ix, c, Some(y.id));
        var k: nat :| Up(ix.byId, Some(n.id), k) == Some(c.id);
        UpAdd(ix.byId, Some(n.id), k, 1);
        if n.id == y.id {
          NoCycleAt(ix.byId, y.id, k + 1);
        }
      }
      var rest := Flat(node.children);
      assert FlatNode(node) == [node] + rest;
      forall j | 0 <= j < |rest|
        ensures node.id != rest[j].id
      {
        assert rest[j] in rest;
      }
    }
  }

  //--------------------------------------------------------------------
  // The whole builder (`__init__` followed by `build`)
  //--------------------------------------------------------------------

  /** What the model assumes of one menu's rows: distinct primary keys
      (guaranteed by the database) and parent links without a cycle (an
      assumption; the source only hangs when the active item is on or
      below a cycle, but the model leaves out every cyclic row set). */
  ghost predicate WellFormedRows(items: seq<MenuItem>) {
    UniqueIds(items) && Acyclic(ById(items))
  }

  /** `_resolve_menu_title`. */
  function MenuTitle(items: seq<MenuItem>, slug: string): string {
    if items != [] then items[0].menu.title else slug
  }

  function IndexOf(items: seq<MenuItem>, urls: map<ItemId, string>, path: Option<string>): Index
    requires forall x :: x in items ==> x.id in urls
  {
    var byId := ById(items);
    var active := ActiveOf(items, urls, path);
    Index(byId, ChildrenMapOf(items), urls, active, AncestorsOf(byId, active))
  }

  lemma {:induction false} IndexCoherent(items: seq<MenuItem>, urls: map<ItemId, string>, path: Option<string>)
    requires WellFormedRows(items)
    requires forall x :: x in items ==> x.id in urls
    ensures Coherent(IndexOf(items, urls, path))
  {
    var ix := IndexOf(items, urls, path);
    ByIdFindsEach(items);
    forall p, y | p in ix.children && y in ix.children[p]
      ensures Placed(ix, y, p)
    {
      assert multiset(ix.children[p]) == multiset(Under(items, p));
      assert y in multiset(Under(items, p));
    }
  }

  /** An element at two positions is counted twice. */
  lemma {:induction false} TwiceCounted(cs: seq<MenuItem>, i: nat, j: nat)
    requires i < j < |cs| && cs[i] == cs[j]
    ensures multiset(cs)[cs[i]] >= 2
  {
    assert cs == cs[..j] + cs[j..];
    assert cs[i] in cs[..j] && cs[j] in cs[j..];
  }

  /** A list holding each item of `items` under `p` once has distinct ids. */
  lemma {:induction false} CountedOnceDistinct(cs: seq<MenuItem>, items: seq<MenuItem>, p: Parent)
    requires UniqueIds(items)
    requires forall y :: multiset(cs)[y] == if y in items && y.parentId == p then 1 else 0
    ensures UniqueIds(cs)
  {
    forall i, j | 0 <= i < j < |cs|
      ensures cs[i].id != cs[j].id
    {
      if cs[i].id == cs[j].id {
        assert cs[i] in multiset(cs) && cs[j] in multiset(cs);
        var a :| 0 <= a < |items| && items[a] == cs[i];
        var b :| 0 <= b < |items| && items[b] == cs[j];
        assert a == b;
        TwiceCounted(cs, i, j);
        assert false;
      }
    }
  }

  /** With distinct primary keys, no children list names an item twice. */
  lemma {:induction false} IndexListsDistinct(items: seq<MenuItem>, urls: map<ItemId, string>, path: Option<string>)
    requires UniqueIds(items)
    requires forall x :: x in items ==> x.id in urls
    ensures ListsDistinct(IndexOf(items, urls, path))
  {
    forall p | p in ChildrenMapOf(items)
      ensures UniqueIds(ChildrenMapOf(items)[p])
    {
      UnderOnce(items, p);
      CountedOnceDistinct(SortItems(Under(items, p)), items, p);
    }
  }

  /** `MenuContextBuilder(slug, request).build()` on the rows `items`:
      the NoReverseMatch raised during construction, or the menu dict. */
  function BuildTree(slug: string, items: seq<MenuItem>, routes: Routes, path: Option<string>): Result<MenuTree, NoReverseMatch>
    requires WellFormedRows(items)
  {
    match ResolveAll(items, routes)
    case Failure(e) => Failure(e)
    case Success(urls) =>
      IndexCoherent(items, urls, path);
      Success(MenuTree(slug, MenuTitle(items, slug), Nodes(IndexOf(items, urls, path), None)))
  }

  //--------------------------------------------------------------------
  // Properties of the whole builder
  //--------------------------------------------------------------------

  /** A parent's list in the builder is the sorted list of its items. */
  lemma {:induction false} ChildrenOfIndex(items: seq<MenuItem>, urls: map<ItemId, string>, path: Option<string>, q: Parent)
    requires forall x :: x in items ==> x.id in urls
    ensures ChildrenOf(IndexOf(items, urls, path), q) == SortItems(Under(items, q))
  {
    if q !in Parents(items) {
      UnderUnnamed(items, q);
    }
  }

  /** The sorted list of `q`'s items is non-empty exactly when some item
      has parent `q`. */
  lemma {:induction false} SortedUnderNonEmpty(items: seq<MenuItem>, q: Parent)
    ensures SortItems(Under(items, q)) != [] <==> exists x :: x in items && x.parentId == q
  {
    var u := Under(items, q);
    var r := SortItems(u);
    assert |r| == |multiset(r)| == |multiset(u)| == |u|;
    if u != [] {
      assert u[0] in u;
    }
  }

  /** Construction fails exactly when some item's link does not resolve,
      and then with the error of the first such item in list order. */
  lemma {:induction false} BuildTreeFails(slug: string, items: seq<MenuItem>, routes: Routes, path: Option<string>)
    requires WellFormedRows(items)
    ensures BuildTree(slug, items, routes, path).Failure? <==>
      exists i :: 0 <= i < |items| && GetLink(items[i], routes).Failure?
    ensures BuildTree(slug, items, routes, path).Failure? ==>
      exists i :: (0 <= i < |items| && GetLink(items[i], routes) == Failure(BuildTree(slug, items, routes, path).error)
        && forall j :: 0 <= j < i ==> GetLink(items[j], routes).Success?)
  {
    ResolveAllSucceeds(items, routes);
    if ResolveAll(items, routes).Failure? {
      ResolveAllFirstError(items, routes);
    }
  }

  /** The dict returned: the slug, the first row's menu title or else the
      slug, and one top-level node per root item in `(order, id)` order. */
  lemma {:induction false} BuildTreeShape(slug: string, items: seq<MenuItem>, routes: Routes, path: Option<string>)
    requires WellFormedRows(items)
    requires BuildTree(slug, items, routes, path).Success?
    ensures BuildTree(slug, items, routes, path).value.slug == slug
    ensures items == [] ==> BuildTree(slug, items, routes, path).value == MenuTree(slug, slug, [])
    ensures items != [] ==> BuildTree(slug, items, routes, path).value.title == items[0].menu.title
    ensures Mirrors(BuildTree(slug, items, routes, path).value.nodes, SortItems(Under(items, None)))
  {
    var urls := ResolveAll(items, routes).value;
    var ix := IndexOf(items, urls, path);
    IndexCoherent(items, urls, path);
    NodesOk(ix, None);
    ChildrenOfIndex(items, urls, path, None);
  }

  /** Every node, at any depth, stands for an item of the menu: its title,
      its resolved `get_link()` (never the `'#'` fallback), `has_children`
      exactly when some item names it as parent, its children shown only
      on the expanded branch and then all of them, in `(order, id)` order. */
  lemma {:induction false} BuildTreeNodes(slug: string, items: seq<MenuItem>, routes: Routes, path: Option<string>)
    requires WellFormedRows(items)
    requires BuildTree(slug, items, routes, path).Success?
    ensures var t := BuildTree(slug, items, routes, path).value;
      forall n :: n in Flat(t.nodes) ==>
        exists x :: x in items && x.id == n.id && x.title == n.title && GetLink(x, routes) == Success(n.url)
    ensures var t := BuildTree(slug, items, routes, path).value;
      forall n :: n in Flat(t.nodes) ==>
        (n.hasChildren <==> exists x :: x in items && x.parentId == Some(n.id))
    ensures var t := BuildTree(slug, items, routes, path).value;
      forall n :: n in Flat(t.nodes) ==>
        (n.showChildren <==> n.isActive || n.isAncestor)
        && (n.showChildren ==> Mirrors(n.children, SortItems(Under(items, Some(n.id)))))
        && (!n.showChildren ==> n.children == [])
  {
    var urls := ResolveAll(items, routes).value;
    var ix := IndexOf(items, urls, path);
    var t := BuildTree(slug, items, routes, path).value;
    IndexCoherent(items, urls, path);
    NodesOk(ix, None);
    ResolveAllLinks(items, routes);
    ByIdEntries(items);
    forall n | n in Flat(t.nodes)
      ensures exists x :: x in items && x.id == n.id && x.title == n.title && GetLink(x, routes) == Success(n.url)
      ensures n.hasChildren <==> exists x :: x in items && x.parentId == Some(n.id)
      ensures n.showChildren ==> Mirrors(n.children, SortItems(Under(items, Some(n.id))))
    {
      assert NodeOk(ix, n);
      var x := ix.byId[n.id];
      assert x in items && x.id == n.id;
      ChildrenOfIndex(items, urls, path, Some(n.id));
      SortedUnderNonEmpty(items, Some(n.id));
    }
  }

  /** The flags: no request, no active node and nothing expanded; with
      one, `is_active` marks the item `_detect_active_item_id` picks and
      `is_ancestor` the ids strictly above it, never both at once. */
  lemma {:induction false} BuildTreeFlags(slug: string, items: seq<MenuItem>, routes: Routes, path: Option<string>)
    requires WellFormedRows(items)
    requires BuildTree(slug, items, routes, path).Success?
    ensures var t := BuildTree(slug, items, routes, path).value;
      var active := ActiveOf(items, ResolveAll(items, routes).value, path);
      forall n :: n in Flat(t.nodes) ==>
        (n.isActive <==> active == Some(n.id))
        && (n.isAncestor <==> active.Some? && Above(ById(items), active.value, n.id))
        && !(n.isActive && n.isAncestor)
    ensures var t := BuildTree(slug, items, routes, path).value;
      path.None? ==> forall n :: n in Flat(t.nodes) ==>
        !n.isActive && !n.isAncestor && !n.showChildren && n.children == []
  {
    var urls := ResolveAll(items, routes).value;
    var ix := IndexOf(items, urls, path);
    IndexCoherent(items, urls, path);
    NodesOk(ix, None);
    AncestorsExact(ix.byId, ix.active);
    ActiveSpec(items, urls, path);
  }

  /** An item whose parent id is no item of the menu is in no node: it
      is grouped under that id and never reached from the root. */
  lemma {:induction false} BuildTreeDropsDangling(slug: string, items: seq<MenuItem>, routes: Routes, path: Option<string>, x: MenuItem)
    requires WellFormedRows(items)
    requires BuildTree(slug, items, routes, path).Success?
    requires x in items && x.parentId.Some?
    requires forall z :: z in items ==> z.id != x.parentId.value
    ensures forall n :: n in Flat(BuildTree(slug, items, routes, path).value.nodes) ==> n.id != x.id
  {
    var urls := ResolveAll(items, routes).value;
    var ix := IndexOf(items, urls, path);
    IndexCoherent(items, urls, path);
    NodesOk(ix, None);
    ByIdFindsEach(items);
    ByIdEntries(items);
    assert x.parentId.value !in ix.byId;
    DanglingNotRooted(ix.byId, x.id);
  }

  /** No item is emitted twice, so at most one node is active. */
  lemma {:induction false} BuildTreeOneActive(slug: string, items: seq<MenuItem>, routes: Routes, path: Option<string>)
    requires WellFormedRows(items)
    requires BuildTree(slug, items, routes, path).Success?
    ensures DistinctIds(Flat(BuildTree(slug, items, routes, path).value.nodes))
    ensures var ns := Flat(BuildTree(slug, items, routes, path).value.nodes);
      forall i, j :: 0 <= i < j < |ns| ==> !(ns[i].isActive && ns[j].isActive)
  {
    var urls := ResolveAll(items, routes).value;
    var ix := IndexOf(items, urls, path);
    IndexCoherent(items, urls, path);
    IndexListsDistinct(items, urls, path);
    NodesDistinct(ix, None);
    NodesOk(ix, None);
    var ns := Flat(Nodes(ix, None));
    forall i, j | 0 <= i < j < |ns|
      ensures !(ns[i].isActive && ns[j].isActive)
    {
      assert ns[i] in ns && ns[j] in ns;
      assert NodeOk(ix, ns[i]) && NodeOk(ix, ns[j]);
    }
  }
}
