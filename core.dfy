/**
 * The objects of the client-side router: the views with their enter and
 * exit hooks, the parts of the browser the router writes to, and the
 * `Router`, whose constructor prepares the route table in place and whose
 * `ChangeRoute` method is `changeRoute`, proved to do what
 * `Navigation.Transition` describes.
 */
module Core {
  import opened Wrappers
  import opened Urls
  import opened Patterns
  import opened Navigation

  /** `title || document.title`: a missing or empty title gives way to the document's. */
  function ViewTitle(title: Option<string>, documentTitle: string): (t: string)
    ensures title.Some? && title.value != "" ==> t == title.value
    ensures title.None? || title.value == "" ==> t == documentTitle
  {
    if title.Some? && title.value != "" then title.value else documentTitle
  }

  /** The document title, the history, the location and a record of the hooks and callbacks run. */
  class Browser {
    var title: string
    var url: string
    var departure: Option<string>
    var calls: seq<Call>

    constructor(title: string, url: string)
      ensures this.title == title && this.url == url && departure.None? && calls == []
    {
      this.title := title;
      this.url := url;
      departure := None;
      calls := [];
    }
  }

  /** A view: an element of the page that is displayed while its route is current. */
  class View {
    const id: string
    const title: string
    var visible: bool

    /** The element starts hidden. */
    constructor(id: string, title: Option<string>, documentTitle: string)
      ensures this.id == id && this.title == ViewTitle(title, documentTitle) && !visible
    {
      this.id := id;
      this.title := ViewTitle(title, documentTitle);
      visible := false;
    }

    /** `inside()`: display the element and give the document this view's title. */
    method Inside(page: Browser)
      modifies this, page
      ensures visible && page.title == title
      ensures page.url == old(page.url) && page.departure == old(page.departure) && page.calls == old(page.calls)
    {
      visible := true;
      page.title := title;
    }

    /** `outside()`: hide the element. */
    method Outside()
      modifies this
      ensures !visible
    {
      visible := false;
    }
  }

  /** The view of a route: the view class as registered, then the view object the router made from it. */
  datatype ViewSlot = ViewClass(id: string, title: Option<string>) | ViewObject(view: View)

  /** A route record: `{path, regex, view}`; `regex` is absent until the router compiles it. */
  datatype RouteEntry = RouteEntry(path: string, regex: Option<Pattern>, view: ViewSlot)

  /** A route record as the router leaves it: normalised path, its matcher, a view object. */
  predicate Ready(e: RouteEntry) {
    && ResolveURL(e.path) == e.path
    && e.regex == Some(Compile(e.path))
    && e.view.ViewObject?
  }

  /** What the navigation logic needs of a prepared route record. */
  function ToRoute(e: RouteEntry): (r: Route)
    requires Ready(e)
    ensures r.path == e.path && r.regex == Compile(e.path) && r.title == e.view.view.title
  {
    Route(e.path, e.regex.value, e.view.view.title)
  }

  function ToRoutes(es: seq<RouteEntry>): (rs: seq<Route>)
    requires forall i :: 0 <= i < |es| ==> Ready(es[i])
    ensures |rs| == |es|
    ensures forall i :: 0 <= i < |es| ==> rs[i] == ToRoute(es[i])
  {
    if es == [] then [] else [ToRoute(es[0])] + ToRoutes(es[1..])
  }

  /** `e` is the route record `orig` once the router has prepared it, with `documentTitle` as the fallback title. */
  predicate PreparedFrom(e: RouteEntry, orig: RouteEntry, documentTitle: string)
    requires orig.view.ViewClass?
  {
    && e.path == ResolveURL(orig.path)
    && e.regex == Some(Compile(e.path))
    && e.view.ViewObject?
    && e.view.view.id == orig.view.id
    && e.view.view.title == ViewTitle(orig.view.title, documentTitle)
  }

  /** A prepared record is ready: its path is already normalised. */
  lemma PreparedIsReady(e: RouteEntry, orig: RouteEntry, documentTitle: string)
    requires orig.view.ViewClass? && PreparedFrom(e, orig, documentTitle)
    ensures Ready(e)
  {
    ResolveURLIdempotent(orig.path);
  }

  /** One turn of the constructor's loop: normalise the path, compile it, and make the view object. */
  method Prepare(orig: RouteEntry, documentTitle: string) returns (e: RouteEntry)
    requires orig.view.ViewClass?
    ensures PreparedFrom(e, orig, documentTitle)
    ensures fresh(e.view.view) && !e.view.view.visible
  {
    var path := ResolveURL(orig.path);
    var view := new View(orig.view.id, orig.view.title, documentTitle);
    e := RouteEntry(path, Some(Compile(path)), ViewObject(view));
  }

  /** One turn of the constructor's loop: record `i` is prepared in place; the others are left alone. */
  method PrepareAt(table: array<RouteEntry>, i: nat, documentTitle: string)
    requires i < table.Length && table[i].view.ViewClass?
    modifies table
    ensures forall j :: 0 <= j < table.Length && j != i ==> table[j] == old(table[j])
    ensures PreparedFrom(table[i], old(table[i]), documentTitle)
    ensures fresh(table[i].view.view) && !table[i].view.view.visible
  {
    var entry := Prepare(table[i], documentTitle);
    table[i] := entry;
  }

  function ViewsOf(es: seq<RouteEntry>): set<View> {
    set i | 0 <= i < |es| && es[i].view.ViewObject? :: es[i].view.view
  }

  /**
   * The loop of the `Router` constructor: in place and in order, each route
   * record becomes the prepared record of its original, with a new hidden
   * view of its own.
   */
  method PrepareAll(table: array<RouteEntry>, documentTitle: string)
    requires forall i :: 0 <= i < table.Length ==> table[i].view.ViewClass?
    modifies table
    ensures forall i :: 0 <= i < table.Length ==>
      && PreparedFrom(table[i], old(table[i]), documentTitle)
      && fresh(table[i].view.view) && !table[i].view.view.visible
    ensures forall i, j :: 0 <= i < j < table.Length ==>
      table[i].view.ViewObject? && table[j].view.ViewObject? && table[i].view.view != table[j].view.view
  {
    ghost var orig := table[..];
    var i := 0;
    while i < table.Length
      invariant 0 <= i <= table.Length
      invariant forall j :: i <= j < table.Length ==> table[j] == orig[j]
      invariant forall j :: 0 <= j < i ==>
        && PreparedFrom(table[j], orig[j], documentTitle)
        && fresh(table[j].view.view) && !table[j].view.view.visible
      invariant forall j, k :: 0 <= j < k < i ==>
        table[j].view.ViewObject? && table[k].view.ViewObject? && table[j].view.view != table[k].view.view
    {
      PrepareAt(table, i, documentTitle);
      i := i + 1;
    }
  }

  ghost function VisibleOf(es: seq<RouteEntry>): (vs: seq<bool>)
    requires forall i :: 0 <= i < |es| ==> es[i].view.ViewObject?
    reads ViewsOf(es)
    ensures |vs| == |es|
    ensures forall i :: 0 <= i < |es| ==> vs[i] == es[i].view.view.visible
  {
    seq(|es|, i requires 0 <= i < |es| && es[i].view.ViewObject? reads ViewsOf(es) => es[i].view.view.visible)
  }

  class Router {
    const routes: array<RouteEntry>
    var route: Option<nat>
    var previous: Option<nat>
    var pathname: string
    var search: string
    var hash: string
    var params: map<string, string>
    var queries: Queries

    /** Every route record is prepared, and each has a view of its own. */
    ghost predicate Prepared()
      reads routes
    {
      && (forall i :: 0 <= i < routes.Length ==> Ready(routes[i]))
      && (forall i, j :: 0 <= i < j < routes.Length ==> routes[i].view.view != routes[j].view.view)
    }

    ghost predicate Valid()
      reads this, routes
    {
      && Prepared()
      && (route.Some? ==> route.value < routes.Length)
    }

    function Table(): (t: seq<Route>)
      requires Prepared()
      reads routes
      ensures |t| == routes.Length
    {
      ToRoutes(routes[..])
    }

    function Views(): set<View>
      reads routes
    {
      ViewsOf(routes[..])
    }

    function Fields(): Nav
      reads this
    {
      Nav(route, previous, pathname, search, hash, params, queries)
    }

    ghost function Display(page: Browser): Screen
      requires Prepared()
      reads routes, Views(), page
    {
      Screen(VisibleOf(routes[..]), page.title, page.url, page.departure, page.calls)
    }

    /**
     * `new Router(routes)`: in place and in order, each route record gets its
     * normalised path, the matcher compiled from that path and a new view
     * object made from its view class. No route is current yet and every view
     * is hidden.
     */
    constructor(table: array<RouteEntry>, page: Browser)
      requires forall i :: 0 <= i < table.Length ==> table[i].view.ViewClass?
      requires forall i :: 0 <= i < table.Length ==> PlainPath(ResolveURL(table[i].path))
      modifies table
      ensures routes == table && Valid()
      ensures Fields() == Nav(None, None, "", "", "", map[], map[])
      ensures forall i :: 0 <= i < table.Length ==> PreparedFrom(routes[i], old(table[i]), page.title)
      ensures forall i :: 0 <= i < table.Length ==> fresh(routes[i].view.view)
      ensures forall i :: 0 <= i < table.Length ==> !Display(page).shown[i]
    {
      PrepareAll(table, page.title);
      routes := table;
      route := None;
      previous := None;
      pathname := "";
      search := "";
      hash := "";
      params := map[];
      queries := map[];
      new;
      forall i | 0 <= i < table.Length ensures Ready(routes[i]) {
        PreparedIsReady(routes[i], old(table[i]), page.title);
      }
      assert forall i :: 0 <= i < table.Length ==> routes[..][i] == routes[i];
    }

    /** `view.outside()` on the view of route `i`, recorded. */
    method Leave(i: nat, page: Browser)
      requires Prepared() && i < routes.Length
      modifies Views(), page
      ensures Table() == old(Table()) && Fields() == old(Fields())
      ensures Display(page) == Hide(old(Display(page)), i)
    {
      var view := routes[i].view.view;
      assert routes[..][i] == routes[i];
      view.Outside();
      page.calls := page.calls + [Outside(i)];
      forall j | 0 <= j < routes.Length && j != i
        ensures routes[j].view.view.visible == old(routes[j].view.view.visible)
      {
        assert routes[j].view.view != view;
      }
    }

    /** `view.inside()` on the view of route `i`, recorded. */
    method Enter(i: nat, page: Browser)
      requires Prepared() && i < routes.Length
      modifies Views(), page
      ensures Table() == old(Table()) && Fields() == old(Fields())
      ensures Display(page) == Show(Table(), old(Display(page)), i)
    {
      var view := routes[i].view.view;
      assert routes[..][i] == routes[i];
      assert Table()[i].title == view.title;
      view.Inside(page);
      page.calls := page.calls + [Inside(i)];
      forall j | 0 <= j < routes.Length && j != i
        ensures routes[j].view.view.visible == old(routes[j].view.view.visible)
      {
        assert routes[j].view.view != view;
      }
    }

    /**
     * The first half of `changeRoute()`: take the location's normalised
     * pathname, search and hash, remember the current route as the previous
     * one, and settle on the first route that accepts the pathname, or on the
     * first route at its own path.
     */
    method Arrive(loc: Location)
      requires Prepared() && routes.Length > 0
      modifies this
      ensures Prepared() && Table() == old(Table())
      ensures Fields() == Visit(Table(), ArrivalFor(Table(), loc).0, ArrivalFor(Table(), loc).1, loc.search, loc.hash, old(route))
    {
      var r, path := Locate(ResolveURL(loc.pathname));
      previous := route;
      Move(r, path, loc.search, loc.hash);
    }

    /**
     * `routes.find(route => pathname.match(route.regex))`, falling back on
     * the first route and its own path when no route accepts the pathname.
     */
    method Locate(pathname: string) returns (r: nat, path: string)
      requires Prepared() && routes.Length > 0
      ensures r < routes.Length
      ensures (r, path) == Arrival(Table(), pathname)
    {
      var found := FirstMatch(Regexes(Table()), pathname);
      if found.Some? {
        r, path := found.value, pathname;
      } else {
        assert routes[..][0] == routes[0];
        r, path := 0, routes[0].path;
      }
    }

    /** Settle on route `r` at the given address, keeping `previous`. */
    method Move(r: nat, path: string, search: string, hash: string)
      requires Prepared() && r < routes.Length
      modifies this
      ensures Fields() == Visit(Table(), r, path, search, hash, old(previous))
    {
      assert routes[..][r] == routes[r];
      var q := GetQueries(search);
      var ps := GetParams(routes[r].regex.value, path);
      VisitIs(Table(), r, path, search, hash, previous, ps, q);
      this.pathname, this.search, this.hash := path, search, hash;
      queries, route, params := q, Some(r), ps;
    }

    /** Settle on route `r` at the given address and display its view. */
    method TakeOver(r: nat, path: string, search: string, hash: string, page: Browser)
      requires Prepared() && r < routes.Length
      modifies this, Views(), page
      ensures Table() == old(Table())
      ensures Fields() == Visit(Table(), r, path, search, hash, old(previous))
      ensures Display(page) == Show(Table(), old(Display(page)), r)
    {
      ghost var before := Display(page);
      Move(r, path, search, hash);
      assert Display(page) == before;
      Enter(r, page);
    }

    /** Blocked with a redirection: move to the route that accepts `next`, or leave the application for it. */
    method Redirect(next: string, page: Browser)
      requires Prepared() && Consistent(Table(), Fields())
      modifies this, Views(), page
      ensures Table() == old(Table())
      ensures (Fields(), Display(page)) == Redirection(Table(), old(Fields()), old(Display(page)), next)
    {
      ghost var table := Table();
      ghost var before := Display(page);
      ghost var out := Redirection(table, Fields(), before, next);
      var target := ParseURL(next);
      var nextPathname := ResolveURL(target.pathname);
      var found := FirstMatch(Regexes(Table()), nextPathname);
      if found.Some? {
        assert out == (Visit(table, found.value, nextPathname, target.search, target.hash, previous), Show(table, before, found.value));
        TakeOver(found.value, nextPathname, target.search, target.hash, page);
      } else {
        assert out == (Fields(), before.(departure := Some(next)));
        page.departure := Some(next);
        assert VisibleOf(routes[..]) == before.shown;
      }
    }

    /** The security gate for the route arrived at, and what each of its answers leads to. */
    method Guard(gate: Gate, page: Browser)
      requires Prepared() && Consistent(Table(), Fields())
      modifies this, Views(), page
      ensures Table() == old(Table())
      ensures (Fields(), Display(page)) == Gatekeep(Table(), old(Fields()), old(Display(page)), gate)
    {
      if !gate.blocked {
        Enter(route.value, page);
      } else if Truthy(gate.next) {
        Redirect(gate.next.value, page);
      } else {
        assert routes[..][route.value] == routes[route.value];
        page.title := routes[route.value].view.view.title;
      }
    }

    /**
     * The part of `changeRoute()` that runs only when the route changed:
     * the previous route's view exits, the security gate decides, and
     * `onroute` is called with the final route.
     */
    method SwitchRoute(security: Security, onroute: bool, page: Browser)
      requires Prepared() && Consistent(Table(), Fields())
      requires previous.Some? ==> previous.value < routes.Length
      modifies this, Views(), page
      ensures Prepared() && Table() == old(Table())
      ensures (Fields(), Display(page)) == RouteChange(Table(), old(Fields()), old(Display(page)), security, onroute)
    {
      Depart(page);
      var gate := RouteSecurity(security, route.value);
      Guard(gate, page);
      Announce(onroute, page);
    }

    /** The previous route's view exits, if there was a previous route. */
    method Depart(page: Browser)
      requires Prepared() && (previous.Some? ==> previous.value < routes.Length)
      modifies Views(), page
      ensures Table() == old(Table()) && Fields() == old(Fields())
      ensures Display(page) == if previous.Some? then Hide(old(Display(page)), previous.value) else old(Display(page))
    {
      if previous.Some? {
        Leave(previous.value, page);
      }
    }

    /** `app.onroute(router.route)`, recorded, when the application installed it. */
    method Announce(onroute: bool, page: Browser)
      requires Prepared() && route.Some?
      modifies page
      ensures Table() == old(Table()) && Fields() == old(Fields())
      ensures Display(page) == if onroute then old(Display(page)).(calls := old(Display(page)).calls + [OnRoute(route.value)]) else old(Display(page))
    {
      if onroute {
        ghost var before := Display(page);
        page.calls := page.calls + [OnRoute(route.value)];
        assert VisibleOf(routes[..]) == before.shown;
      }
    }

    /** `history.replaceState(null, null, url)` with the router's address. */
    method Publish(page: Browser)
      requires Prepared()
      modifies page
      ensures Prepared() && Table() == old(Table()) && Fields() == old(Fields())
      ensures Display(page) == old(Display(page)).(url := Url(Fields()))
    {
      ghost var before := Display(page);
      page.url := pathname + search + hash;
      assert VisibleOf(routes[..]) == before.shown;
    }

    /** The rest of `changeRoute()` once the route is found: the route change, if any, and the history. */
    method Proceed(security: Security, onroute: bool, page: Browser)
      requires Prepared() && Consistent(Table(), Fields())
      requires previous.Some? ==> previous.value < routes.Length
      modifies this, Views(), page
      ensures Prepared() && Table() == old(Table())
      ensures (Fields(), Display(page)) == Settle(Table(), old(Fields()), old(Display(page)), security, onroute)
    {
      if route != previous {
        SwitchRoute(security, onroute, page);
      }
      Publish(page);
    }

    /**
     * `changeRoute()` for the location `loc`, with the application's security
     * callback and whether it installed `onroute`.
     */
    method ChangeRoute(loc: Location, security: Security, onroute: bool, page: Browser)
      requires Valid()
      modifies this, Views(), page
      ensures Valid()
      ensures (Fields(), Display(page)) == Transition(Table(), old(Fields()), old(Display(page)), loc, security, onroute)
      ensures OnlyCurrentShown(old(Display(page)).shown, old(route)) ==> OnlyCurrentShown(Display(page).shown, route)
    {
      if routes.Length == 0 {
        return;
      }
      ghost var table := Table();
      ghost var st := Fields();
      ghost var sc := Display(page);
      Arrive(loc);
      assert VisibleOf(routes[..]) == sc.shown;
      Proceed(security, onroute, page);
      if OnlyCurrentShown(sc.shown, st.route) {
        OnlyCurrentShownPreserved(table, st, sc, loc, security, onroute);
      }
    }
  }
}
