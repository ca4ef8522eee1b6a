/** The menu of menus/tests.py, the route table of config/urls.py, and the
    tree the builder gives for a request to `/docs/api/`. */
module Examples {
  import opened Wrappers
  import opened Models
  import opened MenuTree
  import Paths

  const TestMenu := Menu("Test menu", "test_menu")

  const Home := MenuItem(1, TestMenu, None, "Главная", "home", "", 1)
  const Docs := MenuItem(2, TestMenu, None, "Документация", "", "/docs/", 2)
  const Api := MenuItem(3, TestMenu, Some(2), "API", "", "/docs/api/", 1)
  const V1 := MenuItem(4, TestMenu, Some(3), "v1", "", "/docs/api/v1/", 1)
  const Contacts := MenuItem(5, TestMenu, None, "Контакты", "contacts", "", 3)

  /** The rows in the order of the query (`parent_id`, `order`, `id`),
      root rows first. */
  const Rows := [Home, Docs, Contacts, Api, V1]

  const SiteRoutes: Routes := map[
    "home" := "/",
    "contacts" := "/contacts/",
    "docs" := "/docs/",
    "docs_api" := "/docs/api/",
    "docs_api_v1" := "/docs/api/v1/",
    "docs_faq" := "/docs/faq/",
    "docs_releases" := "/docs/releases/",
    "pricing" := "/pricing/"]

  /** The prefixes of `Rows` that the from-the-end recursions visit. */
  lemma {:induction false} RowsPrefixes()
    ensures Rows[..4] == [Home, Docs, Contacts, Api]
    ensures Rows[..4][..3] == [Home, Docs, Contacts]
    ensures Rows[..4][..3][..2] == [Home, Docs]
    ensures Rows[..4][..3][..2][..1] == [Home]
    ensures Rows[..4][..3][..2][..1][..0] == []
  {
  }

  function ExampleById(): map<ItemId, MenuItem> {
    map[1 := Home, 2 := Docs, 3 := Api, 4 := V1, 5 := Contacts]
  }

  lemma {:induction false} ExampleIds()
    ensures ById(Rows) == ExampleById()
  {
    RowsPrefixes();
    assert ById([Home]) == map[1 := Home];
    assert ById([Home, Docs]) == map[1 := Home, 2 := Docs];
    assert ById([Home, Docs, Contacts]) == map[1 := Home, 2 := Docs, 5 := Contacts];
    assert ById([Home, Docs, Contacts, Api]) == map[1 := Home, 2 := Docs, 5 := Contacts, 3 := Api];
  }

  lemma {:induction false} ExampleAcyclic()
    ensures Acyclic(ExampleById())
  {
    var byId := ExampleById();
    ExampleSize();
    ExampleClimb();
    forall id | id in byId
      ensures Up(byId, Some(id), |byId| + 1) == None
    {
      UpStaysNone(byId, Some(id), 3, |byId| + 1);
    }
  }

  lemma {:induction false} ExampleSize()
    ensures |ExampleById()| == 5
  {
    assert ExampleById().Keys == {1, 2, 3, 4, 5};
  }

  /** Three links up from any test row leave the menu. */
  lemma {:induction false} ExampleClimb()
    ensures forall id :: id in ExampleById() ==> Up(ExampleById(), Some(id), 3) == None
  {
    var byId := ExampleById();
    UpOfNone(byId, 2);
    UpOfNone(byId, 1);
    assert ParentOf(byId, Some(1)) == None;
    assert ParentOf(byId, Some(2)) == None;
    assert ParentOf(byId, Some(5)) == None;
    assert ParentOf(byId, Some(3)) == Some(2);
    assert ParentOf(byId, Some(4)) == Some(3);
    assert Up(byId, Some(2), 3) == Up(byId, None, 2);
    assert Up(byId, Some(3), 3) == Up(byId, None, 1);
    assert Up(byId, Some(4), 3) == None;
  }


  lemma {:induction false} ExampleWellFormed()
    ensures WellFormedRows(Rows)
  {
    ExampleIds();
    ExampleAcyclic();
  }

  function ExampleUrls(): map<ItemId, string> {
    map[1 := "/", 2 := "/docs/", 3 := "/docs/api/", 4 := "/docs/api/v1/", 5 := "/contacts/"]
  }

  /** `_build_url_map` on the test rows: the named routes resolve through
      the site's table. */
  lemma {:induction false} ExampleLinks()
    ensures ResolveAll(Rows, SiteRoutes) == Success(ExampleUrls())
  {
    RowsPrefixes();
    assert GetLink(Home, SiteRoutes) == Success("/");
    assert GetLink(Contacts, SiteRoutes) == Success("/contacts/");
    assert ResolveAll([Home], SiteRoutes) == Success(map[1 := "/"]);
    assert ResolveAll([Home, Docs], SiteRoutes) == Success(map[1 := "/", 2 := "/docs/"]);
    assert ResolveAll([Home, Docs, Contacts], SiteRoutes) == Success(map[1 := "/", 2 := "/docs/", 5 := "/contacts/"]);
    assert ResolveAll([Home, Docs, Contacts, Api], SiteRoutes)
      == Success(map[1 := "/", 2 := "/docs/", 5 := "/contacts/", 3 := "/docs/api/"]);
    assert ResolveAll(Rows, SiteRoutes)
      == Success(map[1 := "/", 2 := "/docs/", 5 := "/contacts/", 3 := "/docs/api/", 4 := "/docs/api/v1/"]);
    assert map[1 := "/", 2 := "/docs/", 5 := "/contacts/", 3 := "/docs/api/", 4 := "/docs/api/v1/"] == ExampleUrls();
  }

  /** The normalised urls of the rows and of the request path. */
  lemma {:induction false} NormalisedDocs()
    ensures Paths.NormalizePath("/docs/") == "/docs"
  {
    var s := "/docs/";
    assert forall i :: 0 <= i < |s| ==> !Paths.IsQueryOrFragmentMark(s[i]);
    Paths.NormalizeDropsSlash(s);
  }

  lemma {:induction false} NormalisedContacts()
    ensures Paths.NormalizePath("/contacts/") == "/contacts"
  {
    var s := "/contacts/";
    assert forall i :: 0 <= i < |s| ==> !Paths.IsQueryOrFragmentMark(s[i]);
    Paths.NormalizeDropsSlash(s);
  }

  lemma {:induction false} NormalisedApi()
    ensures Paths.NormalizePath("/docs/api/") == "/docs/api"
  {
    var s := "/docs/api/";
    assert forall i :: 0 <= i < |s| ==> !Paths.IsQueryOrFragmentMark(s[i]);
    Paths.NormalizeDropsSlash(s);
  }

  /** Only API's url matches the request path `/docs/api/`. */
  lemma {:induction false} HomeMisses()
    ensures !Matches(ExampleUrls(), Home, "/docs/api")
  {
    Paths.NormalizeRoot();
    assert ExampleUrls()[1] == "/";
  }

  lemma {:induction false} DocsMisses()
    ensures !Matches(ExampleUrls(), Docs, "/docs/api")
  {
    NormalisedDocs();
    assert ExampleUrls()[2] == "/docs/";
    var d, t := "/docs", "/docs/api";
    assert |d| == 5 && |t| == 9;
  }

  lemma {:induction false} ContactsMisses()
    ensures !Matches(ExampleUrls(), Contacts, "/docs/api")
  {
    NormalisedContacts();
    assert ExampleUrls()[5] == "/contacts/";
    var c, t := "/contacts", "/docs/api";
    assert c[1] == 'c' && t[1] == 'd';
  }

  lemma {:induction false} ApiMatches()
    ensures Matches(ExampleUrls(), Api, "/docs/api")
  {
    NormalisedApi();
    assert ExampleUrls()[3] == "/docs/api/";
  }

  /** Which row `FirstMatch` picks depends only on which rows match. */
  lemma {:induction false} FirstMatchOfRows(urls: map<ItemId, string>, target: string)
    requires forall x :: x in Rows ==> x.id in urls
    requires !Matches(urls, Home, target) && !Matches(urls, Docs, target)
    requires !Matches(urls, Contacts, target) && Matches(urls, Api, target)
    ensures FirstMatch(Rows, urls, target) == Some(3)
  {
    var r1, r2, r3 := Rows[1..], Rows[2..], Rows[3..];
    assert r3[0] == Api;
    assert FirstMatch(r3, urls, target) == Some(3);
    assert r2[0] == Contacts && r2[1..] == r3;
    assert FirstMatch(r2, urls, target) == Some(3);
    assert r1[0] == Docs && r1[1..] == r2;
    assert FirstMatch(r1, urls, target) == Some(3);
  }

  /** API is the first row whose url normalises to `/docs/api`. */
  lemma {:induction false} ExampleFirstMatch()
    ensures FirstMatch(Rows, ExampleUrls(), "/docs/api") == Some(3)
  {
    HomeMisses();
    DocsMisses();
    ContactsMisses();
    ApiMatches();
    FirstMatchOfRows(ExampleUrls(), "/docs/api");
  }

  /** `_detect_active_item_id` for the request `/docs/api/`. */
  lemma {:induction false} ExampleActive()
    ensures ActiveOf(Rows, ExampleUrls(), Some("/docs/api/")) == Some(3)
  {
    NormalisedApi();
    ExampleFirstMatch();
  }

  /** The root rows in list order. */
  lemma {:induction false} ExampleRootRows()
    ensures Under(Rows, None) == [Home, Docs, Contacts]
  {
    RowsPrefixes();
    assert [Home][..0] == [];
    assert Under([Home], None) == [Home];
    assert Under([Home, Docs], None) == [Home, Docs];
    assert Under([Home, Docs, Contacts], None) == [Home, Docs, Contacts];
  }

  /** The root rows, sorted by `(order, id)`. */
  lemma {:induction false} ExampleRoots()
    ensures SortItems(Under(Rows, None)) == [Home, Docs, Contacts]
  {
    ExampleRootRows();
    RootsSorted();
    SortSorted([Home, Docs, Contacts]);
  }

  lemma {:induction false} RootsSorted()
    ensures SortedByKey([Home, Docs, Contacts])
  {
    var s := [Home, Docs, Contacts];
    assert s[0].order == 1 && s[1].order == 2 && s[2].order == 3;
  }

  /** The child lists of Документация and of API. */
  lemma {:induction false} ExampleBranch()
    ensures SortItems(Under(Rows, Some(2))) == [Api]
    ensures SortItems(Under(Rows, Some(3))) == [V1]
  {
    RowsPrefixes();
    assert [Home][..0] == [];
    assert Under([Home], Some(2)) == [];
    assert Under([Home], Some(3)) == Under([], Some(3));
    assert Under([Home, Docs], Some(2)) == [] && Under([Home, Docs], Some(3)) == [];
    assert Under([Home, Docs, Contacts], Some(2)) == [] && Under([Home, Docs, Contacts], Some(3)) == [];
    assert Under([Home, Docs, Contacts, Api], Some(2)) == [Api];
    assert Under(Rows, Some(2)) == [Api];
    assert Under([Home, Docs, Contacts, Api], Some(3)) == [];
    assert Under(Rows, Some(3)) == [V1];
    SortSorted([Api]);
    SortSorted([V1]);
  }

  /** With API active, Документация is its one ancestor. */
  lemma {:induction false} ExampleAncestors()
    ensures AncestorsOf(ById(Rows), Some(3)) == {2}
    ensures forall x: ItemId :: Above(ById(Rows), 3, x) <==> x == 2
  {
    ExampleIds();
    ExampleAcyclic();
    var byId := ExampleById();
    assert |byId| == 5 by {
      assert byId.Keys == {1, 2, 3, 4, 5};
    }
    assert ParentOf(byId, Some(3)) == Some(2);
    assert ParentOf(byId, Some(2)) == None;
    assert Chain(byId, None, 3) == {};
    assert Chain(byId, Some(2), 4) == {2};
    AncestorsExact(byId, Some(3));
  }

  /** The tree built for the request `/docs/api/`. */
  function ExampleMenu(): MenuTree {
    ExampleWellFormed();
    ExampleLinks();
    var r := BuildTree(TestMenu.slug, Rows, SiteRoutes, Some("/docs/api/"));
    BuildTreeFails(TestMenu.slug, Rows, SiteRoutes, Some("/docs/api/"));
    r.value
  }

  /** Looking a row up by id. */
  lemma {:induction false} RowWithId(x: MenuItem)
    requires x in Rows
    ensures x.id == 1 ==> x == Home
    ensures x.id == 2 ==> x == Docs
    ensures x.id == 3 ==> x == Api
    ensures x.id == 4 ==> x == V1
    ensures x.id == 5 ==> x == Contacts
  {
  }

  /** Each node's title is the title of the row with its id. */
  lemma {:induction false} ExampleTitles(n: MenuNode)
    requires n in Flat(ExampleMenu().nodes)
    ensures n.id == 1 ==> n.title == "Главная"
    ensures n.id == 2 ==> n.title == "Документация"
    ensures n.id == 3 ==> n.title == "API"
    ensures n.id == 4 ==> n.title == "v1"
  {
    var slug := TestMenu.slug;
    var path := Some("/docs/api/");
    ExampleWellFormed();
    ExampleLinks();
    BuildTreeFails(slug, Rows, SiteRoutes, path);
    BuildTreeNodes(slug, Rows, SiteRoutes, path);
    var x :| x in Rows && x.id == n.id && x.title == n.title && GetLink(x, SiteRoutes) == Success(n.url);
    RowWithId(x);
  }

  /** API is active, Документация its ancestor, Контакты neither. */
  lemma {:induction false} ExampleFlags(n: MenuNode)
    requires n in Flat(ExampleMenu().nodes)
    ensures n.isActive <==> n.id == 3
    ensures n.isAncestor <==> n.id == 2
  {
    var slug := TestMenu.slug;
    var path := Some("/docs/api/");
    ExampleWellFormed();
    ExampleLinks();
    BuildTreeFails(slug, Rows, SiteRoutes, path);
    BuildTreeFlags(slug, Rows, SiteRoutes, path);
    ExampleActive();
    ExampleAncestors();
  }

  /** The expanded nodes list their children in `(order, id)` order. */
  lemma {:induction false} ExampleShown(n: MenuNode)
    requires n in Flat(ExampleMenu().nodes)
    ensures n.showChildren <==> n.id == 2 || n.id == 3
    ensures n.id == 2 ==> Mirrors(n.children, [Api])
    ensures n.id == 3 ==> Mirrors(n.children, [V1])
  {
    var slug := TestMenu.slug;
    var path := Some("/docs/api/");
    ExampleWellFormed();
    ExampleLinks();
    BuildTreeFails(slug, Rows, SiteRoutes, path);
    BuildTreeNodes(slug, Rows, SiteRoutes, path);
    ExampleFlags(n);
    ExampleBranch();
  }

  /** What each node of the example tree is, by id. */
  lemma {:induction false} ExampleNodes(n: MenuNode)
    requires n in Flat(ExampleMenu().nodes)
    ensures n.id == 1 ==> n.title == "Главная"
    ensures n.id == 2 ==> n.title == "Документация" && n.isAncestor && n.showChildren && Mirrors(n.children, [Api])
    ensures n.id == 3 ==> n.title == "API" && n.isActive && n.showChildren && Mirrors(n.children, [V1])
    ensures n.id == 4 ==> n.title == "v1"
    ensures n.id == 5 ==> !n.showChildren
  {
    ExampleTitles(n);
    ExampleFlags(n);
    ExampleShown(n);
  }

  /** The top level: Главная, Документация, Контакты. */
  lemma {:induction false} ExampleTop()
    ensures ExampleMenu().title == "Test menu"
    ensures Mirrors(ExampleMenu().nodes, [Home, Docs, Contacts])
  {
    var slug := TestMenu.slug;
    var path := Some("/docs/api/");
    ExampleWellFormed();
    ExampleLinks();
    BuildTreeFails(slug, Rows, SiteRoutes, path);
    BuildTreeShape(slug, Rows, SiteRoutes, path);
    ExampleRoots();
  }

  /** `test_builder_marks_active_and_expands_branch`: the first top-level
      node titled Документация is an expanded ancestor, its first child
      API is active and expanded, and the first child of API is v1. */
  lemma {:induction false} ExampleTree()
    ensures var t := ExampleMenu();
      && t.title == "Test menu"
      && |t.nodes| == 3
      && t.nodes[0].title != "Документация"
      && t.nodes[1].title == "Документация"
      && t.nodes[1].isAncestor && t.nodes[1].showChildren
      && |t.nodes[1].children| == 1
      && t.nodes[1].children[0].title == "API"
      && t.nodes[1].children[0].isActive && t.nodes[1].children[0].showChildren
      && |t.nodes[1].children[0].children| == 1
      && t.nodes[1].children[0].children[0].title == "v1"
      && !t.nodes[2].showChildren
  {
    var t := ExampleMenu();
    ExampleTop();
    FlatHasEach(t.nodes);
    FlatClosed(t.nodes);
    var home, docs, contacts := t.nodes[0], t.nodes[1], t.nodes[2];
    assert home in t.nodes && docs in t.nodes && contacts in t.nodes;
    ExampleNodes(home);
    ExampleNodes(docs);
    ExampleNodes(contacts);
    var api := docs.children[0];
    assert api in docs.children;
    ExampleNodes(api);
    var v1 := api.children[0];
    assert v1 in api.children;
    ExampleNodes(v1);
  }
}
