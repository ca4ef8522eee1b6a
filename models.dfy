/** The Menu and MenuItem records (menus/models.py) and the two pieces of
    logic they carry: link validation (`clean`) and link selection
    (`get_link`). */
module Models {
  import opened Wrappers

  /** Primary keys are positive, so a present id is always truthy. */
  type ItemId = x: int | x > 0 witness 1

  /** The parent reference of an item; None is the root level. */
  type Parent = Option<ItemId>

  datatype Menu = Menu(title: string, slug: string)

  datatype MenuItem = MenuItem(
    id: ItemId,
    menu: Menu,
    parentId: Parent,
    title: string,
    namedUrl: string,  // route name for `reverse`, "" when unused
    url: string,       // explicit path, "" when unused
    order: nat)

  /** Django's URL resolver as a table from route name to path. */
  type Routes = map<string, string>

  datatype ValidationError = MissingLink | BothLinks

  /** Raised by `reverse` for a route name the table does not know. */
  datatype NoReverseMatch = NoReverseMatch(name: string)

  /** `MenuItem.clean`: an item must name exactly one kind of link. */
  function Clean(item: MenuItem): (r: Outcome<ValidationError>)
    ensures r == Fail(MissingLink) <==> item.namedUrl == [] && item.url == []
    ensures r == Fail(BothLinks) <==> item.namedUrl != [] && item.url != []
    ensures r == Pass <==> (item.namedUrl != []) != (item.url != [])
  {
    if item.namedUrl == [] && item.url == [] then Fail(MissingLink)
    else if item.namedUrl != [] && item.url != [] then Fail(BothLinks)
    else Pass
  }

  /** `reverse(name)`. */
  function Reverse(routes: Routes, name: string): (r: Result<string, NoReverseMatch>)
    ensures r.Success? <==> name in routes
    ensures r.Success? ==> r.value == routes[name]
    ensures r.Failure? ==> r.error == NoReverseMatch(name)
  {
    if name in routes then Success(routes[name]) else Failure(NoReverseMatch(name))
  }

  /** `MenuItem.get_link`: a named route wins over the explicit url. */
  function GetLink(item: MenuItem, routes: Routes): (r: Result<string, NoReverseMatch>)
    ensures item.namedUrl == [] ==> r == Success(item.url)
    ensures item.namedUrl != [] ==> r == Reverse(routes, item.namedUrl)
  {
    if item.namedUrl != [] then Reverse(routes, item.namedUrl) else Success(item.url)
  }

  /** When a route name is set, the explicit url is ignored entirely. */
  lemma {:induction false} NamedRouteWins(item: MenuItem, other: string, routes: Routes)
    requires item.namedUrl != []
    ensures GetLink(item.(url := other), routes) == GetLink(item, routes)
  {
  }

  /** On an item that passes `clean`, the link is exactly the one field set:
      the verbatim url, or the resolved route (which can still fail). */
  lemma {:induction false} ValidItemLink(item: MenuItem, routes: Routes)
    requires Clean(item) == Pass
    ensures item.url != [] ==> GetLink(item, routes) == Success(item.url)
    ensures item.namedUrl != [] ==>
      (GetLink(item, routes).Success? <==> item.namedUrl in routes)
  {
  }
}
