# Smart Menu tree builder, modelled in Dafny

This project models the menu builder of the Django app `menus` together with the small pieces of logic it relies on.

- **Rows.** A menu is a flat list of `MenuItem` rows. Each row has an id, an optional parent id, a title, an `order` and either a named route or an explicit url.
- **Request cache.** `fetch_menu_items` loads the rows of one menu in a single query. With a request object, it memoises them on the request.
- **Builder.** `MenuContextBuilder` turns the rows into a nested tree of node records:
  - it groups the rows by parent and sorts each group by `(order, id)`;
  - it resolves every row's link;
  - it picks the active row by comparing normalised paths;
  - it collects the active row's ancestors;
  - it emits the nodes, expanding only the active branch.
- **Link validation.** `MenuItem.clean` checks that a row names exactly one kind of link.
- **Host list.** `AppSettings.allowed_hosts` parses the comma-separated host list of the settings.

Modules and files:

- `wrappers.dfy` (`Wrappers`): `Option`, `Result` and `Outcome`.
- `models.dfy` (`Models`): the `Menu` and `MenuItem` records, `clean`, `reverse` as a route table, and `get_link`.
- `paths.dfy` (`Paths`): `_normalize_path` and its properties.
- `hosts.dfy` (`Hosts`): `allowed_hosts` and its properties.
- `tree.dfy` (`MenuTree`): the builder as pure functions of the row list, the route table and the request path, and every property of the emitted tree.
  - `ChildrenMapOf`: the children map.
  - `ResolveAll`: the url map.
  - `ActiveOf`: the active item.
  - `AncestorsOf`: the ancestor set.
  - `Nodes`, `NodeList` and `NodeFor`: the recursion of `_build_nodes`.
  - `BuildTree`: construction followed by `build`.
- `services.dfy` (`Services`): the stateful part.
  - a `Store` class standing for the database, with a query counter;
  - a `Request` class holding the `_menu_cache` attribute;
  - `FetchMenuItems`, which mutates that cache;
  - the `MenuContextBuilder` class, whose fields are the builder's maps and whose methods run the source's loops.
  - Each method is proved to compute the matching `MenuTree` function, so the tree properties carry over to it.
- `examples.dfy` (`Examples`): the menu of `menus/tests.py` with the route table of `config/urls.py`, and the tree built for a request to `/docs/api/`.

Modelling choices:

- **Ids** are positive integers, which is what the truthiness tests `if not self._active_item_id` and `while parent_id:` assume.
- **What the model assumes of the rows** is stated in `WellFormedRows` and required by `Store.Valid`:
  - primary keys are distinct, which the database guarantees;
  - parent links have no cycle. This is an assumption of the model: the self-referencing `parent` key of `MenuItem` and the admin do not prevent a cycle. The source hangs only when the active item is on a cycle or below one, because `_collect_ancestor_ids` then never leaves the loop. With no request, or with an active item outside every cycle, the source still returns a tree: rows on or below a cycle never hang under the root, so `_build_nodes` does not reach them. The model leaves out all rows with a cycle, those inputs included.
- **`reverse`** is a finite map from route name to path. An unknown name fails with `NoReverseMatch`.
- **`urlsplit`** is modelled only as far as it finds the path: the text before the first `?` or `#`. `PathLike` names the inputs on which this is exact: empty, or starting with a single `/`, and holding no tab, carriage return or line feed (`urlsplit` deletes those three before splitting; `TabIsNotPathLike` shows a value where the model and `urlsplit` part ways).
- **Construction can fail.** A `NoReverseMatch` raised during `__init__` becomes the `Failure` case of `MenuContextBuilder.Create` and of `BuildTree`.
- **Rows under a missing parent are dropped.** The append loop files a row whose parent id matches no row under that missing id, so `_build_nodes(None)` never reaches it. `BuildTreeDropsDangling` proves that such a row appears in no node.

## Model

| member | source | states |
|---|---|---|
| Models.Clean | menus/models.py:61-67 | fails with MissingLink exactly when both link fields are empty, with BothLinks exactly when both are set, and passes exactly when one of them is set |
| Models.Reverse | menus/models.py:72 | succeeds exactly for a known route name, with that route's path; otherwise fails with NoReverseMatch carrying the name |
| Models.GetLink | menus/models.py:69-73 | an empty named route gives the explicit url verbatim; a non-empty one gives the result of `reverse` on it |
| Models.NamedRouteWins | menus/models.py:71-73 | with a named route set, changing the explicit url does not change the link |
| Models.ValidItemLink | menus/models.py:61-73 | on a row that passes `clean`, an explicit url is returned verbatim; a named route succeeds exactly when it is in the route table |
| Paths.PathPart | menus/services.py:137 | the result is a prefix of the value without `?` or `#`, and it stops at the end or at the first mark |
| Paths.RStripSlashes | menus/services.py:140 | the result is a prefix with no trailing slash, and everything removed is slashes |
| Paths.NormalizePath | menus/services.py:134-141 | an empty value gives "/"; every result is "/" or has no trailing slash |
| Paths.NormalizeRoot | menus/services.py:139 | "/" is left unchanged |
| Paths.TrailingSlashIgnored | menus/services.py:138-140 | for any value other than "/", one added trailing slash does not change the result |
| Paths.DocsApiEquivalent | menus/services.py:134-141 | "/docs/api/" and "/docs/api" normalise to the same path |
| Paths.NormalizeDropsSlash | menus/services.py:139-140 | a path without marks that ends in exactly one slash loses just that slash |
| Paths.QueryAndFragmentIgnored | menus/services.py:137-138 | anything from the first `?` or `#` on takes no part in the result |
| Paths.PathPartAppend | menus/services.py:137 | cutting a concatenation stops inside the first part when it holds a mark, and continues into the second part otherwise |
| Paths.SamePathPart | menus/services.py:135-141 | two non-empty values with the same path part normalise alike |
| Paths.NormalizeAbsolute | menus/services.py:134-141 | a path-like value normalises to a non-empty path starting with "/" |
| Paths.TabIsNotPathLike | menus/services.py:136-140 | "/docs\t/" is not path-like, and the model keeps its tab where `urlsplit` would delete it |
| Paths.RStripAppendSlash | menus/services.py:140 | `rstrip("/")` ignores one more trailing slash: it strips all of them, not just one |
| Hosts.TrimLeft | config/settings_env.py:37 | the result is empty or starts with a non-whitespace character |
| Hosts.TrimRight | config/settings_env.py:37 | the result is empty, or starts with the input's first character and ends in non-whitespace |
| Hosts.TrimLeftSlice | config/settings_env.py:37 | TrimLeft removes exactly a whitespace prefix |
| Hosts.TrimRightSlice | config/settings_env.py:37 | TrimRight removes exactly a whitespace suffix |
| Hosts.Strip | config/settings_env.py:37 | the result is empty or has non-whitespace at both ends |
| Hosts.StripIsSlice | config/settings_env.py:37-38 | strip adds no character, and it gives "" exactly for blank strings |
| Hosts.Split | config/settings_env.py:40 | `split(sep)` gives at least one piece, and no piece holds the separator |
| Hosts.JoinSplit | config/settings_env.py:40 | joining the pieces with the separator gives back the input |
| Hosts.Kept | config/settings_env.py:40 | every kept piece is stripped and non-empty |
| Hosts.AllowedHosts | config/settings_env.py:35-40 | every returned host is stripped and non-empty |
| Hosts.BlankGivesNoHosts | config/settings_env.py:37-39 | an empty or whitespace-only setting gives no hosts |
| Hosts.HostsHaveNoComma | config/settings_env.py:40 | no returned host contains a comma |
| Hosts.HostsAreStrippedPieces | config/settings_env.py:37-40 | the hosts are the stripped, non-empty pieces of the raw setting split on ",", in order: stripping the whole value first changes nothing |
| Hosts.KeptSplitIgnoresLeadingSpaces | config/settings_env.py:37-40 | leading whitespace does not change the kept pieces |
| Hosts.KeptSplitIgnoresTrailingSpaces | config/settings_env.py:37-40 | trailing whitespace does not change the kept pieces |
| Hosts.SplitAppend | config/settings_env.py:40 | text without a separator appended to the input extends the last piece |
| Hosts.SplitPrepend | config/settings_env.py:40 | text without a separator in front of the input extends the first piece |
| Hosts.BlankAgreesWithComprehension | config/settings_env.py:37-40 | the early return for a blank setting agrees with the comprehension, which also gives [] |
| Hosts.ExampleHosts | config/settings_env.py:35-40 | " a, ,b " gives ["a", "b"] |
| MenuTree.Grouped | menus/services.py:54-56 | the append loop's `_children_map`: under each parent id that occurs, its rows in list order (definition; GroupedAppend and ChildrenMapExact state its properties) |
| MenuTree.SortedGroups | menus/services.py:57-58 | the same keys, each list sorted by `(order, id)` and a permutation of the original |
| MenuTree.ChildrenMapOf | menus/services.py:54-58 | `_children_map` after both loops (definition; ChildrenMapExact states its keys, contents and order) |
| MenuTree.FirstMatch | menus/services.py:110-113 | the first row whose normalised url is the target (definition; FirstMatchSpec states it) |
| MenuTree.ActiveOf | menus/services.py:106-113 | `_detect_active_item_id` (definition; ActiveSpec states it) |
| MenuTree.Chain | menus/services.py:119-125 | the ids the `while parent_id:` loop visits (definition; ChainSteps states it) |
| MenuTree.AncestorsOf | menus/services.py:115-126 | `_collect_ancestor_ids` (definition; AncestorsExact states it) |
| MenuTree.Expand | menus/services.py:128-131 | `_should_expand` (definition; BuildTreeNodes and BuildTreeFlags state that exactly the active item and its ancestors expand, and nothing without a request) |
| MenuTree.Nodes | menus/services.py:76-94 | `_build_nodes(p)`: one node per child of `p`, in list order |
| MenuTree.NodeList | menus/services.py:78-94 | the loop of `_build_nodes` gives one node per listed child, in order |
| MenuTree.NodeListStep | menus/services.py:78-93 | one more turn of the loop appends the next child's node |
| MenuTree.NodeFor | menus/services.py:79-93 | the node of row `y` has its id; when expanded its children are one node per child of `y` in order, otherwise none |
| MenuTree.MenuTitle | menus/services.py:71-74 | `_resolve_menu_title` (definition; BuildTreeShape states it) |
| MenuTree.BuildTree | menus/services.py:49-74 | construction followed by `build` (definition; the BuildTree lemmas state its properties) |
| MenuTree.ById | menus/services.py:53 | every row's id is a key of the id map |
| MenuTree.ByIdEntries | menus/services.py:53 | every entry of the id map is a row filed under its own id |
| MenuTree.ByIdFindsEach | menus/services.py:53 | with distinct ids, every row is the entry under its id |
| MenuTree.Under | menus/services.py:55-56 | the group of `p` holds exactly the rows whose parent id is `p` |
| MenuTree.Insert | menus/services.py:58 | inserting adds exactly that element |
| MenuTree.InsertSorted | menus/services.py:58 | inserting into a sorted list keeps it sorted by `(order, id)` |
| MenuTree.SortItems | menus/services.py:58 | the result is a permutation of the input, sorted by `(order, id)` |
| MenuTree.SortSorted | menus/services.py:58 | sorting a list already in order leaves it unchanged |
| MenuTree.ParentsAppend | menus/services.py:55-56 | one more row adds its parent id to the keys and nothing else |
| MenuTree.GroupedAppend | menus/services.py:55-56 | one more turn of the append loop puts the row at the end of its parent's list, which starts out empty |
| MenuTree.UnderOnce | menus/services.py:55-56 | with distinct ids, each row occurs in its parent's group once and in no other group |
| MenuTree.ChildrenMapExact | menus/services.py:54-58 | a parent id is a key exactly when some row names it; under it, each row with that parent occurs once and no other row occurs; each list is sorted by `(order, id)` |
| MenuTree.ChildrenOfIndex | menus/services.py:78 | `_children_map.get(p, [])` is the sorted list of the rows under `p` |
| MenuTree.SortedUnderNonEmpty | menus/services.py:90 | the list of `q` is non-empty exactly when some row has parent `q` |
| MenuTree.IndexListsDistinct | menus/services.py:54-58 | with distinct ids, no children list names a row twice |
| MenuTree.ResolveAll | menus/services.py:96-104 | on success, every row's id is in the url map |
| MenuTree.ResolveAllSucceeds | menus/services.py:96-104 | the url map exists exactly when every row's link resolves |
| MenuTree.ResolveAllLinks | menus/services.py:96-104 | the url map has the keys of the id map, and under each id the `get_link()` of that row |
| MenuTree.ResolveAllFirstError | menus/services.py:98-103 | on failure, the error is that of the first row in list order whose link fails |
| MenuTree.ResolveAllStopsAtFailure | menus/services.py:101-103 | once a prefix fails, the whole list fails with the same error |
| MenuTree.FirstMatchSpec | menus/services.py:110-113 | there is no match exactly when no row's normalised url equals the target; otherwise the match is the first matching row in list order |
| MenuTree.ActiveSpec | menus/services.py:106-113 | no request gives no active item; with a request, the active item is the first row whose normalised url equals the normalised request path, or none exactly when no url does |
| MenuTree.ChainSteps | menus/services.py:119-125 | the walk from `p` with `f` steps of fuel visits exactly the ids `k` links above `p`, for `k <= f` |
| MenuTree.AncestorsSteps | menus/services.py:115-126 | on acyclic links, the ancestor set of `a` is the set of ids one or more links above `a`, a final dangling parent id included |
| MenuTree.AncestorsExact | menus/services.py:115-126 | on acyclic links: no active item gives no ancestors; otherwise the set is exactly the ids strictly above the active item, and it never holds the active id |
| MenuTree.WalkEnds | menus/services.py:120-125 | on acyclic links, every walk ends within one step more than there are rows |
| MenuTree.NoCycleAt | menus/services.py:120-125 | on acyclic links, no walk of one or more steps returns to where it started |
| MenuTree.HeightChild | menus/services.py:81 | a child sits lower than its parent, so the recursion of `_build_nodes` ends |
| MenuTree.NodesOk | menus/services.py:76-94 | every node below `p` has its row's id and title, its resolved url, the active and ancestor flags, `show_children` exactly for the active item and its ancestors, `has_children` exactly when its list is non-empty, and its children mirroring its sorted list when shown and empty otherwise |
| MenuTree.DanglingNotRooted | menus/services.py:78 | a row under a missing parent is not below the root |
| MenuTree.SiblingsDisjoint | menus/services.py:78-81 | on acyclic links, two different rows with the same parent have no row below both |
| MenuTree.NodesDistinct | menus/services.py:76-94 | with distinct ids in every children list, no id occurs twice in the nodes below `p` |
| MenuTree.IndexCoherent | menus/services.py:53-58 | every listed child is the row its id maps to, under the parent it is listed for |
| MenuTree.BuildTreeFails | menus/services.py:60-104 | construction fails exactly when some row's link does not resolve, and then with the error of the first such row |
| MenuTree.BuildTreeShape | menus/services.py:64-74 | the tree carries the slug; no rows give the slug as title and no nodes; otherwise the title is the first row's menu title; the top level has one node per root row, in `(order, id)` order |
| MenuTree.BuildTreeNodes | menus/services.py:76-131 | every node at any depth has the id and title of a row and that row's `get_link()` as url, so '#' is never used; `has_children` holds exactly when some row names the node as parent; `show_children` holds exactly for active or ancestor nodes; shown children are all of its rows in `(order, id)` order, and hidden ones are [] |
| MenuTree.BuildTreeFlags | menus/services.py:87-131 | `is_active` marks exactly the item `_detect_active_item_id` picks; `is_ancestor` marks exactly the ids strictly above it; never both at once; without a request nothing is active, marked or expanded |
| MenuTree.BuildTreeOneActive | menus/services.py:76-94 | no row is emitted twice, so at most one node is active |
| MenuTree.BuildTreeDropsDangling | menus/services.py:54-78 | a row whose parent id matches no row appears in no node |
| Services.Store.Query | menus/services.py:34-38 | returns the menu's rows and counts one query |
| Services.Store.RowsWellFormed | menus/services.py:34-38 | the rows of any slug, an unknown one included, satisfy `WellFormedRows`, the model's assumption about the rows |
| Services.Fetched | menus/services.py:30-38 | the list `fetch_menu_items` returns (definition; FetchMenuItems states it) |
| Services.EnsureRequestCache | menus/services.py:15-22 | no request gives no cache; with a request, the existing cache is returned, or an empty one is created and attached |
| Services.FetchMenuItems | menus/services.py:25-43 | a cache hit returns the cached list at no query; otherwise one query, the store's rows, and with a request the result cached under the slug; a cache that agrees with the store keeps agreeing |
| Services.FetchTwice | menus/tests.py:44-49 | two fetches on a fresh request cost one query and return the same list |
| Services.GroupByParent | menus/services.py:54-56 | the append loop leaves, under each parent id, its rows in list order |
| Services.SortGroups | menus/services.py:57-58 | the sort loop sorts every list of the map and changes nothing else |
| Services.ChildrenLists | menus/services.py:54-58 | both loops give `_children_map` as ChildrenMapOf states it |
| Services.MenuContextBuilder.Load | menus/services.py:49-58 | sets the slug, request and routes, the rows of the fetch, the id map and the sorted children map; counts the fetch's query |
| Services.MenuContextBuilder.Resolve | menus/services.py:60-62 | fails exactly as `_build_url_map` does, with its error; otherwise fills the url map, the active item and the ancestors |
| Services.MenuContextBuilder.Create | menus/services.py:49-62 | fails exactly when the menu's rows have a link that does not resolve, with that error; otherwise a fresh builder with all fields filled; one query unless the request already caches the menu, after which the request caches it and still agrees with the store |
| Services.MenuContextBuilder.BuildUrlMap | menus/services.py:96-104 | the loop computes ResolveAll: every link under its id, or the first NoReverseMatch |
| Services.MenuContextBuilder.DetectActiveItemId | menus/services.py:106-113 | the loop with early return computes ActiveOf |
| Services.MenuContextBuilder.CollectAncestorIds | menus/services.py:115-126 | the `while parent_id:` loop computes AncestorsOf |
| Services.MenuContextBuilder.BuildNodes | menus/services.py:76-94 | the recursive append loop computes Nodes |
| Services.MenuContextBuilder.Build | menus/services.py:64-74 | `build` yields the tree BuildTree describes |
| Services.BuildMenu | menus/tests.py:66-69 | construction then `build` gives BuildTree on the store's rows; exactly one query on a request that does not yet cache the menu and none on one that does; afterwards the request caches the menu and agrees with the store |
| Services.BuildTwice | menus/services.py:30-41 | two menus built on one fresh request cost one query in all and give the same tree |
| Examples.ExampleLinks | menus/tests.py:11-42 | the test rows resolve, through the site's routes, to "/", "/docs/", "/docs/api/", "/docs/api/v1/" and "/contacts/" |
| Examples.ExampleWellFormed | menus/tests.py:11-42 | the test rows have distinct ids and no cycle |
| Examples.ExampleActive | menus/tests.py:52-54 | for the request `/docs/api/`, API is the active item |
| Examples.ExampleAncestors | menus/tests.py:52-58 | with API active, Документация is its only ancestor |
| Examples.ExampleRoots | menus/tests.py:56 | the roots are Главная, Документация, Контакты, in order |
| Examples.ExampleBranch | menus/tests.py:61-64 | Документация's list is [API], and API's list is [v1] |
| Examples.ExampleNodes | menus/tests.py:51-64 | the node of each id has that row's title; Документация is an expanded ancestor listing [API]; API is active and expanded, listing [v1]; Контакты is not expanded |
| Examples.ExampleTree | menus/tests.py:51-64 | the first top-level node titled Документация is an expanded ancestor; its first child API is active and expanded; API's first child is v1 |

## Left out

- The ORM query (menus/services.py:34-38) is the abstract `Store`. The model does not enforce the ordering `(parent_id, order, id)`. Nothing in the builder depends on that ordering except two things, and the model keeps the store's order for both: which of two rows with the same normalised url becomes active, and which `NoReverseMatch` is raised when several rows fail to resolve (the first in list order, `ResolveAllFirstError`).
- `select_related`, the `has_children` property (menus/models.py:75-77), the admin, the template tag and template rendering are not modelled. They are database access or presentation.
- `reverse` is a route table, and `urlsplit` is only its path-cutting step. Scheme and network-location parsing, the deletion of tab, carriage return and line feed, and the stripping of leading control characters and spaces are not modelled: a value starting with "//" or "http:", or holding one of those characters, is handled as if it were a plain path. This is exact only on `PathLike` values.
- The pydantic settings class and its loading from the environment and `.env` file are not modelled, because they are I/O. Only the `allowed_hosts` property is.
- Python's `None` path and the empty string take the same branch of `_normalize_path`, so the model's total function on strings covers both. A missing request is a null `Request?`.
- Hosts.IsSpace: `str.strip()` is modelled with the characters `str.isspace` accepts, written out. The model does not follow the Unicode database beyond that list.
- Services.MenuContextBuilder.DetectActiveItemId: it walks the rows in list order and looks each url up, while the source walks the url dict in insertion order. Under distinct ids the two orders are the same, and distinct ids are a precondition.
- Services.FetchMenuItems: the cache is a value held by the request, not a dict object shared with callers. The model does not capture a caller mutating the returned list, which would also change the cached one. The builder never does.
- Acyclic parent links and distinct ids are preconditions (`WellFormedRows`, `Store.Valid`). No row set with a cycle is modelled: neither the hang of `_collect_ancestor_ids` when the active item is on or below a cycle, nor the tree the source returns when it is not.
- `children.sort` sorts each list in place. The model states the sorted lists as a new map (`SortGroups`), because Python lists are not shared between the groups.
