/** The stateful part of menus/services.py: the request-scoped memo of
    `fetch_menu_items` and the `MenuContextBuilder` object, whose methods
    fill its maps step by step. Each method is proved to compute the
    matching function of the MenuTree module, whose properties are proved
    there. */
module Services {
  import opened Wrappers
  import opened Models
  import opened MenuTree
  import Paths

  //--------------------------------------------------------------------
  // The database and the request
  //--------------------------------------------------------------------

  /** The menu rows as the ORM query returns them (one query per call),
      keyed by menu slug, with a counter of the queries issued. */
  class Store {
    const rows: map<string, seq<MenuItem>>
    var queries: nat

    /** `MenuItem.objects.filter(menu__slug=slug)`: no rows for an unknown slug. */
    function Rows(slug: string): seq<MenuItem> {
      if slug in rows then rows[slug] else []
    }

    /** What the model assumes of the stored rows: primary keys are
        distinct, which the database guarantees, and the parent links of a
        menu form no cycle, which nothing in the source enforces. */
    ghost predicate Valid() {
      forall slug :: slug in rows ==> WellFormedRows(rows[slug])
    }

    lemma {:induction false} RowsWellFormed(slug: string)
      requires Valid()
      ensures WellFormedRows(Rows(slug))
    {
      if slug !in rows {
        assert ById([]) == map[];
      }
    }

    constructor (rows: map<string, seq<MenuItem>>)
      ensures this.rows == rows && queries == 0
    {
      this.rows := rows;
      queries := 0;
    }

    /** One SQL query. */
    method Query(slug: string) returns (items: seq<MenuItem>)
      modifies this`queries
      ensures items == Rows(slug)
      ensures queries == old(queries) + 1
    {
      items := Rows(slug);
      queries := queries + 1;
    }
  }

  /** An HTTP request: its path, and the `_menu_cache` attribute that
      `fetch_menu_items` hangs on it (absent until first needed). */
  class Request {
    const path: string
    var menuCache: Option<map<string, seq<MenuItem>>>

    constructor (path: string)
      ensures this.path == path && menuCache.None?
    {
      this.path := path;
      menuCache := None;
    }

    /** Every cached list is what the store would return for its slug. */
    ghost predicate CacheAgrees(store: Store)
      reads this
    {
      menuCache.Some? ==> forall slug :: slug in menuCache.value ==> menuCache.value[slug] == store.Rows(slug)
    }
  }

  /** The list `fetch_menu_items` returns given the cache as it was: the
      cached list on a hit, the store's rows otherwise. */
  function Fetched(cache: Option<map<string, seq<MenuItem>>>, slug: string, rows: seq<MenuItem>): seq<MenuItem> {
    if cache.Some? && slug in cache.value then cache.value[slug] else rows
  }

  /** `_ensure_request_cache`: none without a request; otherwise the
      request's cache, created empty the first time. */
  method EnsureRequestCache(request: Request?) returns (cache: Option<map<string, seq<MenuItem>>>)
    modifies request
    ensures request == null ==> cache.None?
    ensures request != null ==> cache.Some? && request.menuCache == cache
    ensures request != null && old(request.menuCache).Some? ==> cache == old(request.menuCache)
    ensures request != null && old(request.menuCache).None? ==> cache == Some(map[])
  {
    if request == null {
      return None;
    }
    if request.menuCache.None? {
      request.menuCache := Some(map[]);
    }
    cache := request.menuCache;
  }

  /** `fetch_menu_items`: with a request, a slug already cached costs no
      query and returns the cached list; anything else costs exactly one
      query, and with a request its result is cached under the slug. */
  method FetchMenuItems(slug: string, request: Request?, store: Store) returns (items: seq<MenuItem>)
    modifies store`queries, request
    ensures var before := if request == null then None else old(request.menuCache);
      items == Fetched(before, slug, store.Rows(slug))
    ensures var before := if request == null then None else old(request.menuCache);
      store.queries == old(store.queries) + (if before.Some? && slug in before.value then 0 else 1)
    ensures request != null ==>
      var base := if old(request.menuCache).Some? then old(request.menuCache.value) else map[];
      request.menuCache == Some(if slug in base then base else base[slug := items])
    ensures request != null && old(request.CacheAgrees(store)) ==> request.CacheAgrees(store)
  {
    var cache := EnsureRequestCache(request);
    if cache.Some? && slug in cache.value {
      return cache.value[slug];
    }
    items := store.Query(slug);
    if cache.Some? {
      request.menuCache := Some(cache.value[slug := items]);
    }
  }

  /** Two fetches of the same menu during one fresh request: one query,
      the same list twice. */
  method FetchTwice(slug: string, request: Request, store: Store) returns (first: seq<MenuItem>, second: seq<MenuItem>)
    requires request.menuCache.None?
    modifies store`queries, request
    ensures first == second == store.Rows(slug)
    ensures store.queries == old(store.queries) + 1
  {
    first := FetchMenuItems(slug, request, store);
    second := FetchMenuItems(slug, request, store);
  }

  //--------------------------------------------------------------------
  // The builder
  //--------------------------------------------------------------------

  /** The append loop of `__init__`: each item is appended to the list
      of its parent id, a missing list starting empty. */
  method GroupByParent(items: seq<MenuItem>) returns (m: map<Parent, seq<MenuItem>>)
    ensures m == Grouped(items)
  {
    m := map[];
    var i := 0;
    while i < |items|
      invariant 0 <= i <= |items|
      invariant m == Grouped(items[..i])
    {
      var x := items[i];
      assert items[..i + 1] == items[..i] + [x];
      GroupedAppend(items[..i], x);
      var current := if x.parentId in m then m[x.parentId] else [];
      m := m[x.parentId := current + [x]];
      i := i + 1;
    }
    assert items[..i] == items;
  }

  /** The sort loop of `__init__`: every list sorted by `(order, id)`. */
  method SortGroups(groups: map<Parent, seq<MenuItem>>) returns (m: map<Parent, seq<MenuItem>>)
    ensures m == SortedGroups(groups)
  {
    m := groups;
    var todo := groups.Keys;
    while todo != {}
      invariant todo <= groups.Keys && m.Keys == groups.Keys
      invariant forall p :: p in todo ==> m[p] == groups[p]
      invariant forall p :: p in groups && p !in todo ==> m[p] == SortItems(groups[p])
      decreases todo
    {
      var p :| p in todo;
      m := m[p := SortItems(m[p])];
      todo := todo - {p};
    }
  }

  /** Both loops of `__init__` over `_children_map`. */
  method ChildrenLists(items: seq<MenuItem>) returns (m: map<Parent, seq<MenuItem>>)
    ensures m == ChildrenMapOf(items)
  {
    var groups := GroupByParent(items);
    m := SortGroups(groups);
  }

  /** `MenuContextBuilder`. `Create` plays `__init__`, whose
      NoReverseMatch becomes a `Failure`; the other methods are those of
      the class. */
  class MenuContextBuilder {
    const menuSlug: string
    const request: Request?
    const routes: Routes
    var items: seq<MenuItem>
    var itemsById: map<ItemId, MenuItem>
    var childrenMap: map<Parent, seq<MenuItem>>
    var urls: map<ItemId, string>
    var activeItemId: Option<ItemId>
    var ancestorIds: set<ItemId>

    /** `request.path`, or nothing without a request. */
    function Path(): Option<string> {
      if request == null then None else Some(request.path)
    }

    /** What `_build_nodes` reads. */
    function Ix(): Index
      reads this
    {
      Index(itemsById, childrenMap, urls, activeItemId, ancestorIds)
    }

    /** The fields once `__init__` has finished. */
    ghost predicate Valid()
      reads this
    {
      && WellFormedRows(items)
      && itemsById == ById(items)
      && childrenMap == ChildrenMapOf(items)
      && ResolveAll(items, routes) == Success(urls)
      && activeItemId == ActiveOf(items, urls, Path())
      && ancestorIds == AncestorsOf(itemsById, activeItemId)
    }

    /** The part of `__init__` before `_build_url_map`: the fetch, the id
        map and the two loops over the children lists. */
    constructor Load(slug: string, request: Request?, store: Store, routes: Routes)
      requires store.Valid()
      requires request != null ==> request.CacheAgrees(store)
      modifies store`queries, request
      ensures menuSlug == slug && this.request == request && this.routes == routes
      ensures items == store.Rows(slug) && WellFormedRows(items)
      ensures itemsById == ById(items) && childrenMap == ChildrenMapOf(items)
      ensures urls == map[] && activeItemId.None? && ancestorIds == {}
      ensures var before := if request == null then None else old(request.menuCache);
        store.queries == old(store.queries) + (if before.Some? && slug in before.value then 0 else 1)
      ensures request != null ==> request.CacheAgrees(store) && request.menuCache.Some? && slug in request.menuCache.value
    {
      var fetched := FetchMenuItems(slug, request, store);
      assert fetched == store.Rows(slug);
      store.RowsWellFormed(slug);
      var sorted := ChildrenLists(fetched);
      menuSlug := slug;
      this.request := request;
      this.routes := routes;
      items := fetched;
      itemsById := ById(fetched);
      childrenMap := sorted;
      urls := map[];
      activeItemId := None;
      ancestorIds := {};
    }

    /** The fields `Load` fills. */
    ghost predicate Loaded()
      reads this
    {
      && WellFormedRows(items)
      && itemsById == ById(items)
      && childrenMap == ChildrenMapOf(items)
    }

    /** The rest of `__init__`: `_build_url_map` (which may raise), then
        `_detect_active_item_id` and `_collect_ancestor_ids`. */
    method Resolve() returns (o: Outcome<NoReverseMatch>)
      requires Loaded()
      modifies this`urls, this`activeItemId, this`ancestorIds
      ensures o.Fail? <==> ResolveAll(items, routes).Failure?
      ensures o.Fail? ==> ResolveAll(items, routes) == Failure(o.error)
      ensures o.Pass? ==> Valid()
    {
      var u := BuildUrlMap();
      if u.Failure? {
        return Fail(u.error);
      }
      urls := u.value;
      var active := DetectActiveItemId();
      activeItemId := active;
      ActiveSpec(items, urls, Path());
      if active.Some? {
        ByIdEntries(items);
      }
      var ancestors := CollectAncestorIds();
      ancestorIds := ancestors;
      return Pass;
    }

    /** `MenuContextBuilder(slug, request)`: fails with the NoReverseMatch
        of `_build_url_map`, or yields a builder whose fields hold the
        id map, the sorted children lists, the url map, the active item
        and its ancestors. */
    static method Create(slug: string, request: Request?, store: Store, routes: Routes)
      returns (r: Result<MenuContextBuilder, NoReverseMatch>)
      requires store.Valid()
      requires request != null ==> request.CacheAgrees(store)
      modifies store`queries, request
      ensures r.Failure? <==> ResolveAll(store.Rows(slug), routes).Failure?
      ensures r.Failure? ==> ResolveAll(store.Rows(slug), routes) == Failure(r.error)
      ensures r.Success? ==> fresh(r.value) && r.value.Valid()
      ensures r.Success? ==> r.value.menuSlug == slug && r.value.request == request && r.value.routes == routes
      ensures r.Success? ==> r.value.items == store.Rows(slug)
      ensures var before := if request == null then None else old(request.menuCache);
        store.queries == old(store.queries) + (if before.Some? && slug in before.value then 0 else 1)
      ensures request != null ==> request.CacheAgrees(store) && request.menuCache.Some? && slug in request.menuCache.value
    {
      var b := new MenuContextBuilder.Load(slug, request, store, routes);
      var o := b.Resolve();
      if o.Fail? {
        return Failure(o.error);
      }
      return Success(b);
    }

    /** `_build_url_map`: the NoReverseMatch of the first item whose link
        does not resolve, or every item's link under its id. */
    method BuildUrlMap() returns (r: Result<map<ItemId, string>, NoReverseMatch>)
      ensures r == ResolveAll(items, routes)
    {
      var m: map<ItemId, string> := map[];
      var i := 0;
      while i < |items|
        invariant 0 <= i <= |items|
        invariant ResolveAll(items[..i], routes) == Success(m)
      {
        var item := items[i];
        assert items[..i + 1][..i] == items[..i];
        var link := GetLink(item, routes);
        if link.Failure? {
          assert ResolveAll(items[..i + 1], routes) == Failure(link.error);
          ResolveAllStopsAtFailure(items, routes, i + 1);
          return Failure(link.error);
        }
        m := m[item.id := link.value];
        i := i + 1;
      }
      assert items[..i] == items;
      return Success(m);
    }

    /** `_detect_active_item_id`: the first item (in the order the url map
        was filled) whose normalised url is the normalised request path. */
    method DetectActiveItemId() returns (a: Option<ItemId>)
      requires forall x :: x in items ==> x.id in urls
      ensures a == ActiveOf(items, urls, Path())
    {
      if request == null {
        return None;
      }
      var current := Paths.NormalizePath(request.path);
      var i := 0;
      while i < |items|
        invariant 0 <= i <= |items|
        invariant FirstMatch(items[i..], urls, current) == FirstMatch(items, urls, current)
      {
        var item := items[i];
        assert items[i..][1..] == items[i + 1..];
        if Paths.NormalizePath(urls[item.id]) == current {
          return Some(item.id);
        }
        i := i + 1;
      }
      return None;
    }

    /** `_collect_ancestor_ids`: the `while parent_id:` walk up from the
        active item's parent, stopping after a parent id no item has. */
    method CollectAncestorIds() returns (s: set<ItemId>)
      requires Acyclic(itemsById)
      requires activeItemId.Some? ==> activeItemId.value in itemsById
      ensures s == AncestorsOf(itemsById, activeItemId)
    {
      if activeItemId.None? {
        return {};
      }
      var a := activeItemId.value;
      var n := |itemsById|;
      s := {};
      var parentId := itemsById[a].parentId;
      ghost var k: nat := 0;
      while parentId.Some?
        invariant k <= n
        invariant parentId == Up(itemsById, Some(a), k + 1)
        invariant s + Chain(itemsById, parentId, n - k) == Chain(itemsById, Up(itemsById, Some(a), 1), n)
        decreases n - k
      {
        var p := parentId.value;
        s := s + {p};
        if p !in itemsById {
          break;
        }
        assert k < n by {
          UpStaysNone(itemsById, Some(a), n + 1, n + 1);
        }
        parentId := itemsById[p].parentId;
        UpAdd(itemsById, Some(a), k + 1, 1);
        k := k + 1;
      }
    }

    /** `_build_nodes(parent_id)`: one node per child, in the sorted
        order, recursing only where `_should_expand` says so. */
    method BuildNodes(p: Parent) returns (ns: seq<MenuNode>)
      requires Coherent(Ix())
      ensures ns == Nodes(Ix(), p)
      decreases Measure(Ix(), p)
    {
      var ix := Ix();
      var cs := ChildrenOf(ix, p);
      ns := [];
      var i := 0;
      while i < |cs|
        invariant 0 <= i <= |cs|
        invariant ns == NodeList(ix, cs[..i], p)
      {
        var y := cs[i];
        assert y in cs && Placed(ix, y, p);
        var show := Expand(ix.active, ix.ancestors, y.id);
        var childNodes := [];
        if show {
          HeightChild(ix.byId, y.id);
          childNodes := BuildNodes(Some(y.id));
        }
        var node := MenuNode(
          y.id,
          y.title,
          if y.id in ix.urls then ix.urls[y.id] else "#",
          ix.active == Some(y.id),
          y.id in ix.ancestors,
          show,
          ChildrenOf(ix, Some(y.id)) != [],
          childNodes);
        assert node == NodeFor(ix, y);
        NodeListStep(ix, cs, p, i);
        ns := ns + [node];
        i := i + 1;
      }
      assert cs[..i] == cs;
    }

    /** `build`: the slug, the menu title and the nodes under the root. */
    method Build() returns (t: MenuTree)
      requires Valid()
      ensures Success(t) == BuildTree(menuSlug, items, routes, Path())
    {
      IndexCoherent(items, urls, Path());
      var nodes := BuildNodes(None);
      t := MenuTree(menuSlug, MenuTitle(items, menuSlug), nodes);
    }
  }

  /** `MenuContextBuilder(slug, request).build()`: construction and build
      together, with one query unless the request already holds the menu. */
  method BuildMenu(slug: string, request: Request?, store: Store, routes: Routes)
    returns (r: Result<MenuTree, NoReverseMatch>)
    requires store.Valid()
    requires request != null ==> request.CacheAgrees(store)
    modifies store`queries, request
    ensures r == BuildTree(slug, store.Rows(slug), routes, if request == null then None else Some(request.path))
    ensures var before := if request == null then None else old(request.menuCache);
      store.queries == old(store.queries) + (if before.Some? && slug in before.value then 0 else 1)
    ensures request != null ==> request.CacheAgrees(store) && request.menuCache.Some? && slug in request.menuCache.value
  {
    var b := MenuContextBuilder.Create(slug, request, store, routes);
    if b.Failure? {
      return Failure(b.error);
    }
    var t := b.value.Build();
    return Success(t);
  }

  /** Two menus built on one fresh request (a template drawing the same
      menu twice): one query in all, and the same tree both times. */
  method BuildTwice(slug: string, request: Request, store: Store, routes: Routes)
    returns (first: Result<MenuTree, NoReverseMatch>, second: Result<MenuTree, NoReverseMatch>)
    requires store.Valid()
    requires request.menuCache.None?
    modifies store`queries, request
    ensures first == second == BuildTree(slug, store.Rows(slug), routes, Some(request.path))
    ensures store.queries == old(store.queries) + 1
  {
    first := BuildMenu(slug, request, store, routes);
    second := BuildMenu(slug, request, store, routes);
  }
}
