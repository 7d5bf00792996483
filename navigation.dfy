/**
 * What one run of `changeRoute` does, as a function of the route table, the
 * router's fields, what the page shows and the location it was called for.
 * The `Router` class carries out the same steps on its fields and the view
 * objects; this module states and proves what those steps amount to.
 */
module Navigation {
  import opened Wrappers
  import opened Urls
  import opened Patterns

  /** A registered route once the router is set up: its normalised path, its matcher and its view's title. */
  datatype Route = Route(path: string, regex: Pattern, title: string)

  /** The security callback's answer: whether the route is blocked, and where to go instead. */
  datatype Gate = Gate(blocked: bool, next: Option<string>)

  /** `app.security`, when the application installed one; it is given the route by its position in the table. */
  type Security = Option<nat -> Gate>

  /** A hook or callback the router invoked, with the position of the route it concerned. */
  datatype Call = Outside(route: nat) | Inside(route: nat) | OnRoute(route: nat)

  /** The router's fields: `route`, `previous_route`, `pathname`, `search`, `hash`, `params` and `queries`. */
  datatype Nav = Nav(
    route: Option<nat>,
    previous: Option<nat>,
    pathname: string,
    search: string,
    hash: string,
    params: map<string, string>,
    queries: Queries)

  /**
   * What the page shows: which views are displayed, the document title, the
   * address last written with `history.replaceState`, the address of the
   * last hard redirect, and the hooks and callbacks invoked so far.
   */
  datatype Screen = Screen(
    shown: seq<bool>,
    title: string,
    url: string,
    departure: Option<string>,
    calls: seq<Call>)

  /** `routeSecurity(route)`: the callback's answer, or "released" when there is no callback. */
  function RouteSecurity(security: Security, r: nat): (g: Gate)
    ensures security.None? ==> !g.blocked && g.next.None?
    ensures security.Some? ==> g == security.value(r)
  {
    match security
    case None => Gate(false, None)
    case Some(check) => check(r)
  }

  /** JavaScript truthiness of `next`: present and not the empty string. */
  predicate Truthy(next: Option<string>)
    ensures next.None? ==> !Truthy(next)
    ensures next.Some? ==> (Truthy(next) <==> |next.value| > 0)
  {
    next.Some? && next.value != ""
  }

  /** The matchers of the table, in route order: what `routes.find` walks through. */
  function Regexes(table: seq<Route>): (ps: seq<Pattern>)
    ensures |ps| == |table|
    ensures forall i :: 0 <= i < |table| ==> ps[i] == table[i].regex
  {
    if table == [] then [] else [table[0].regex] + Regexes(table[1..])
  }

  /** The address `history.replaceState` receives. */
  function Url(nav: Nav): (u: string)
    ensures |u| == |nav.pathname| + |nav.search| + |nav.hash|
    ensures nav.pathname <= u
  {
    nav.pathname + nav.search + nav.hash
  }

  /** For well-formed parts, the address written to the history parses back into them. */
  lemma UrlParsesBack(nav: Nav)
    requires WellFormed(Location(nav.pathname, nav.search, nav.hash))
    ensures ParseURL(Url(nav)) == Location(nav.pathname, nav.search, nav.hash)
  {
    UnparseParse(Location(nav.pathname, nav.search, nav.hash));
  }

  /** The fields that are derived from others hold what they are derived from. */
  predicate Consistent(table: seq<Route>, nav: Nav) {
    && nav.route.Some?
    && nav.route.value < |table|
    && nav.queries == GetQueries(nav.search)
    && nav.params == GetParams(table[nav.route.value].regex, nav.pathname)
  }

  /** The router's fields after it has settled on route `r` at the given address. */
  function Visit(table: seq<Route>, r: nat, pathname: string, search: string, hash: string, previous: Option<nat>): (nav: Nav)
    requires r < |table|
    ensures Consistent(table, nav) && nav.route == Some(r) && nav.previous == previous
  {
    Nav(Some(r), previous, pathname, search, hash, GetParams(table[r].regex, pathname), GetQueries(search))
  }

  /** The visit of a route is its fields with the params and queries read from the address. */
  lemma VisitIs(table: seq<Route>, r: nat, pathname: string, search: string, hash: string, previous: Option<nat>,
                params: map<string, string>, queries: Queries)
    requires r < |table|
    requires params == GetParams(table[r].regex, pathname) && queries == GetQueries(search)
    ensures Visit(table, r, pathname, search, hash, previous) == Nav(Some(r), previous, pathname, search, hash, params, queries)
  {
  }

  /** Some route of the table accepts the pathname. */
  predicate Known(table: seq<Route>, pathname: string) {
    exists j :: 0 <= j < |table| && Match(table[j].regex, pathname).Some?
  }

  /**
   * The route and pathname chosen for a normalised pathname: the first route
   * that accepts it, or else the first route of the table at that route's own path.
   */
  function Arrival(table: seq<Route>, pathname: string): (a: (nat, string))
    requires |table| > 0
    ensures a.0 < |table|
    ensures Known(table, pathname) ==> a.1 == pathname && Match(table[a.0].regex, pathname).Some?
    ensures Known(table, pathname) ==> forall j :: 0 <= j < a.0 ==> Match(table[j].regex, pathname).None?
    ensures !Known(table, pathname) ==> a == (0, table[0].path)
  {
    match FirstMatch(Regexes(table), pathname)
    case Some(r) => (r, pathname)
    case None => (0, table[0].path)
  }

  /** `view.outside()` on the view of route `i`. */
  function Hide(sc: Screen, i: nat): (out: Screen)
    requires i < |sc.shown|
    ensures out.shown == sc.shown[i := false]
  {
    sc.(shown := sc.shown[i := false], calls := sc.calls + [Outside(i)])
  }

  /** `view.inside()` on the view of route `i`: the view is displayed and its title becomes the document's. */
  function Show(table: seq<Route>, sc: Screen, i: nat): (out: Screen)
    requires i < |sc.shown| == |table|
    ensures out.shown == sc.shown[i := true] && out.title == table[i].title
  {
    sc.(shown := sc.shown[i := true], title := table[i].title, calls := sc.calls + [Inside(i)])
  }

  /**
   * A blocked route's redirection to `next`: the first route that accepts
   * the normalised pathname of `next` takes over with the address of `next`,
   * and when no route does, the browser is sent to `next`.
   */
  function Redirection(table: seq<Route>, arrived: Nav, sc: Screen, next: string): (out: (Nav, Screen))
    requires Consistent(table, arrived) && |sc.shown| == |table|
    ensures Consistent(table, out.0) && out.0.previous == arrived.previous
    ensures |out.1.shown| == |sc.shown| && out.1.url == sc.url
  {
    var target := ParseURL(next);
    var pathname := ResolveURL(target.pathname);
    match FirstMatch(Regexes(table), pathname)
    case Some(r2) =>
      (Visit(table, r2, pathname, target.search, target.hash, arrived.previous), Show(table, sc, r2))
    case None => (arrived, sc.(departure := Some(next)))
  }

  /**
   * The three outcomes of the security gate for the route the router has
   * arrived at: released, blocked with a redirect, or blocked.
   */
  function Gatekeep(table: seq<Route>, arrived: Nav, sc: Screen, gate: Gate): (out: (Nav, Screen))
    requires Consistent(table, arrived) && |sc.shown| == |table|
    ensures Consistent(table, out.0) && out.0.previous == arrived.previous
    ensures |out.1.shown| == |sc.shown| && out.1.url == sc.url
  {
    var r := arrived.route.value;
    if !gate.blocked then (arrived, Show(table, sc, r))
    else if Truthy(gate.next) then Redirection(table, arrived, sc, gate.next.value)
    else (arrived, sc.(title := table[r].title))
  }

  /**
   * What a change of route adds once the router has arrived: the view left
   * behind exits, the security gate decides, and `onroute` is told the
   * route the router ends on.
   */
  function RouteChange(table: seq<Route>, arrived: Nav, sc: Screen, security: Security, onroute: bool): (out: (Nav, Screen))
    requires Consistent(table, arrived) && |sc.shown| == |table|
    requires arrived.previous.Some? ==> arrived.previous.value < |table|
    ensures Consistent(table, out.0) && out.0.previous == arrived.previous
    ensures |out.1.shown| == |sc.shown| && out.1.url == sc.url
  {
    var left := if arrived.previous.Some? then Hide(sc, arrived.previous.value) else sc;
    var (nav, gated) := Gatekeep(table, arrived, left, RouteSecurity(security, arrived.route.value));
    var told := if onroute then gated.(calls := gated.calls + [OnRoute(nav.route.value)]) else gated;
    (nav, told)
  }

  /**
   * `changeRoute`. With an empty table nothing changes. Otherwise the router
   * always ends on a route of the table, remembers the route it left, keeps
   * its derived fields consistent and writes its address to the history.
   */
  function Transition(table: seq<Route>, st: Nav, sc: Screen, loc: Location, security: Security, onroute: bool): (out: (Nav, Screen))
    requires |sc.shown| == |table|
    requires st.route.Some? ==> st.route.value < |table|
    ensures |table| == 0 ==> out == (st, sc)
    ensures |table| > 0 ==> Consistent(table, out.0) && out.0.previous == st.route && out.1.url == Url(out.0)
    ensures |out.1.shown| == |sc.shown|
  {
    if |table| == 0 then (st, sc)
    else
      var (r, pathname) := Arrival(table, ResolveURL(loc.pathname));
      Settle(table, Visit(table, r, pathname, loc.search, loc.hash, st.route), sc, security, onroute)
  }

  /**
   * What follows the arrival: when the route changed, the exit, the gate and
   * `onroute`; in any case the address written to the history.
   */
  function Settle(table: seq<Route>, arrived: Nav, sc: Screen, security: Security, onroute: bool): (out: (Nav, Screen))
    requires Consistent(table, arrived) && |sc.shown| == |table|
    requires arrived.previous.Some? ==> arrived.previous.value < |table|
    ensures Consistent(table, out.0) && out.0.previous == arrived.previous && out.1.url == Url(out.0)
    ensures |out.1.shown| == |sc.shown|
    ensures arrived.route == arrived.previous ==> out == (arrived, sc.(url := Url(arrived)))
  {
    if arrived.route == arrived.previous then (arrived, sc.(url := Url(arrived)))
    else
      var (nav, changed) := RouteChange(table, arrived, sc, security, onroute);
      (nav, changed.(url := Url(nav)))
  }

  /** The route `changeRoute` arrives at before the security gate, for the location it was called with. */
  function ArrivalFor(table: seq<Route>, loc: Location): (a: (nat, string))
    requires |table| > 0
    ensures a.0 < |table|
    ensures var p := ResolveURL(loc.pathname);
      Known(table, p) ==> a.1 == p && Match(table[a.0].regex, p).Some?
    ensures !Known(table, ResolveURL(loc.pathname)) ==> a == (0, table[0].path)
  {
    Arrival(table, ResolveURL(loc.pathname))
  }

  /** Where a blocked route's redirection leads: the normalised pathname of `next`. */
  function NextPathname(next: string): (p: string)
    ensures NoDoubleSlash(p)
    ensures ResolveURL(p) == p
  {
    ResolveURLIdempotent(ParseURL(next).pathname);
    ResolveURL(ParseURL(next).pathname)
  }

  /** At most one view is displayed, and only the view of the current route. */
  predicate OnlyCurrentShown(shown: seq<bool>, route: Option<nat>) {
    forall i :: 0 <= i < |shown| && shown[i] ==> route == Some(i)
  }

  /** The `outside()` call for the route left behind, if there was one. */
  function Exits(previous: Option<nat>): seq<Call> {
    if previous.Some? then [Outside(previous.value)] else []
  }

  /**
   * Re-entering the current route is quiet: no hook runs, the security
   * callback and `onroute` play no part, and only the fields and the
   * address are rewritten.
   */
  lemma {:induction false} SameRouteIsQuiet(table: seq<Route>, st: Nav, sc: Screen, loc: Location, security: Security, onroute: bool)
    requires |sc.shown| == |table| > 0
    requires st.route == Some(ArrivalFor(table, loc).0)
    ensures var out := Transition(table, st, sc, loc, security, onroute);
      && out.1 == sc.(url := Url(out.0))
      && out.0.route == st.route
      && out.0.pathname == ArrivalFor(table, loc).1
      && out == Transition(table, st, sc, loc, None, false)
  {
  }

  /**
   * Unless a blocked route redirects within the application, the router
   * stays where it arrived: at the first route that accepts the normalised
   * pathname, or at the first route and its path when none does, with the
   * search and hash of the location.
   */
  lemma {:induction false} StaysOnArrival(table: seq<Route>, st: Nav, sc: Screen, loc: Location, security: Security, onroute: bool)
    requires |sc.shown| == |table| > 0
    requires st.route.Some? ==> st.route.value < |table|
    requires var gate := RouteSecurity(security, ArrivalFor(table, loc).0);
      st.route == Some(ArrivalFor(table, loc).0) || !gate.blocked || !Truthy(gate.next)
        || !Known(table, NextPathname(gate.next.value))
    ensures var out := Transition(table, st, sc, loc, security, onroute);
      && out.0.route == Some(ArrivalFor(table, loc).0)
      && out.0.pathname == ArrivalFor(table, loc).1
      && out.0.search == loc.search
      && out.0.hash == loc.hash
  {
  }

  /** A redirection to an address some route accepts moves the router there and displays that route's view. */
  lemma RedirectionInApp(table: seq<Route>, arrived: Nav, sc: Screen, next: string)
    requires Consistent(table, arrived) && |sc.shown| == |table|
    requires Known(table, NextPathname(next))
    ensures var out := Redirection(table, arrived, sc, next);
      var r := out.0.route.value;
      && out.0.pathname == NextPathname(next)
      && out.0.search == ParseURL(next).search
      && out.0.hash == ParseURL(next).hash
      && Match(table[r].regex, NextPathname(next)).Some?
      && (forall j :: 0 <= j < r ==> Match(table[j].regex, NextPathname(next)).None?)
      && out.1 == Show(table, sc, r)
  {
    var found := FirstMatch(Regexes(table), NextPathname(next));
    assert found.Some?;
  }

  /**
   * A blocked route whose `next` leads to a route of the table hands over
   * to that route: every field is taken from `next`, and its view enters.
   */
  lemma {:induction false} BlockedRedirectInApp(table: seq<Route>, st: Nav, sc: Screen, loc: Location, security: Security, onroute: bool)
    requires |sc.shown| == |table| > 0
    requires st.route.Some? ==> st.route.value < |table|
    requires st.route != Some(ArrivalFor(table, loc).0)
    requires var gate := RouteSecurity(security, ArrivalFor(table, loc).0);
      gate.blocked && Truthy(gate.next) && Known(table, NextPathname(gate.next.value))
    ensures var next := RouteSecurity(security, ArrivalFor(table, loc).0).next.value;
      var out := Transition(table, st, sc, loc, security, onroute);
      var r := out.0.route.value;
      && out.0.pathname == NextPathname(next)
      && out.0.search == ParseURL(next).search
      && out.0.hash == ParseURL(next).hash
      && Match(table[r].regex, NextPathname(next)).Some?
      && (forall j :: 0 <= j < r ==> Match(table[j].regex, NextPathname(next)).None?)
      && out.1.shown[r]
      && out.1.title == table[r].title
      && out.1.departure == sc.departure
  {
    var (r, pathname) := ArrivalFor(table, loc);
    var arrived := Visit(table, r, pathname, loc.search, loc.hash, st.route);
    var left := if st.route.Some? then Hide(sc, st.route.value) else sc;
    var gate := RouteSecurity(security, r);
    var moved := Redirection(table, arrived, left, gate.next.value);
    assert Gatekeep(table, arrived, left, gate) == moved;
    RedirectionInApp(table, arrived, left, gate.next.value);
    RouteChangeAfterGate(table, arrived, sc, security, onroute);
  }

  /** `onroute` and the history leave the fields, the views, the title and the departure as the gate left them. */
  lemma RouteChangeAfterGate(table: seq<Route>, arrived: Nav, sc: Screen, security: Security, onroute: bool)
    requires Consistent(table, arrived) && |sc.shown| == |table|
    requires arrived.previous.Some? ==> arrived.previous.value < |table|
    ensures var left := if arrived.previous.Some? then Hide(sc, arrived.previous.value) else sc;
      var gated := Gatekeep(table, arrived, left, RouteSecurity(security, arrived.route.value));
      var out := RouteChange(table, arrived, sc, security, onroute);
      && out.0 == gated.0
      && out.1.shown == gated.1.shown && out.1.title == gated.1.title && out.1.departure == gated.1.departure
  {
  }

  /**
   * A blocked route whose `next` leads nowhere in the table sends the browser
   * away to `next`; the router stays on the blocked route and no view enters.
   */
  lemma {:induction false} BlockedHardRedirect(table: seq<Route>, st: Nav, sc: Screen, loc: Location, security: Security, onroute: bool)
    requires |sc.shown| == |table| > 0
    requires st.route.Some? ==> st.route.value < |table|
    requires OnlyCurrentShown(sc.shown, st.route)
    requires st.route != Some(ArrivalFor(table, loc).0)
    requires var gate := RouteSecurity(security, ArrivalFor(table, loc).0);
      gate.blocked && Truthy(gate.next) && !Known(table, NextPathname(gate.next.value))
    ensures var out := Transition(table, st, sc, loc, security, onroute);
      && out.0.route == Some(ArrivalFor(table, loc).0)
      && out.1.departure == RouteSecurity(security, ArrivalFor(table, loc).0).next
      && out.1.title == sc.title
      && (forall i :: 0 <= i < |out.1.shown| ==> !out.1.shown[i])
  {
    var (r, pathname) := ArrivalFor(table, loc);
    var arrived := Visit(table, r, pathname, loc.search, loc.hash, st.route);
    var left := if st.route.Some? then Hide(sc, st.route.value) else sc;
    var next := RouteSecurity(security, r).next.value;
    LeavingHidesAll(sc, st.route);
    assert FirstMatch(Regexes(table), NextPathname(next)).None?;
    assert Gatekeep(table, arrived, left, RouteSecurity(security, r)) == (arrived, left.(departure := Some(next)));
    RouteChangeAfterGate(table, arrived, sc, security, onroute);
  }

  /**
   * A blocked route without anywhere to go shows no view, but the document
   * takes the blocked view's title.
   */
  lemma {:induction false} BlockedWithoutNext(table: seq<Route>, st: Nav, sc: Screen, loc: Location, security: Security, onroute: bool)
    requires |sc.shown| == |table| > 0
    requires st.route.Some? ==> st.route.value < |table|
    requires OnlyCurrentShown(sc.shown, st.route)
    requires st.route != Some(ArrivalFor(table, loc).0)
    requires var gate := RouteSecurity(security, ArrivalFor(table, loc).0);
      gate.blocked && !Truthy(gate.next)
    ensures var out := Transition(table, st, sc, loc, security, onroute);
      && out.0.route == Some(ArrivalFor(table, loc).0)
      && out.1.title == table[ArrivalFor(table, loc).0].title
      && out.1.departure == sc.departure
      && (forall i :: 0 <= i < |out.1.shown| ==> !out.1.shown[i])
  {
    var (r, pathname) := ArrivalFor(table, loc);
    var arrived := Visit(table, r, pathname, loc.search, loc.hash, st.route);
    var left := if st.route.Some? then Hide(sc, st.route.value) else sc;
    LeavingHidesAll(sc, st.route);
    assert Gatekeep(table, arrived, left, RouteSecurity(security, r)) == (arrived, left.(title := table[r].title));
  }

  /** A released route's view enters and gives the document its title. */
  lemma {:induction false} Released(table: seq<Route>, st: Nav, sc: Screen, loc: Location, security: Security, onroute: bool)
    requires |sc.shown| == |table| > 0
    requires st.route.Some? ==> st.route.value < |table|
    requires st.route != Some(ArrivalFor(table, loc).0)
    requires !RouteSecurity(security, ArrivalFor(table, loc).0).blocked
    ensures var out := Transition(table, st, sc, loc, security, onroute);
      && out.0.route == Some(ArrivalFor(table, loc).0)
      && out.1.shown[ArrivalFor(table, loc).0]
      && out.1.title == table[ArrivalFor(table, loc).0].title
      && out.1.departure == sc.departure
  {
  }

  /** Leaving the only displayed view leaves no view displayed. */
  lemma LeavingHidesAll(sc: Screen, previous: Option<nat>)
    requires previous.Some? ==> previous.value < |sc.shown|
    requires OnlyCurrentShown(sc.shown, previous)
    ensures var left := if previous.Some? then Hide(sc, previous.value) else sc;
      && (forall i :: 0 <= i < |left.shown| ==> !left.shown[i])
      && left.calls == sc.calls + Exits(previous)
  {
  }

  /** On a page where no view is displayed, `inside()` on route `i` displays that view alone. */
  lemma ShowAlone(table: seq<Route>, sc: Screen, i: nat)
    requires i < |sc.shown| == |table|
    requires forall j :: 0 <= j < |sc.shown| ==> !sc.shown[j]
    ensures OnlyCurrentShown(Show(table, sc, i).shown, Some(i))
  {
  }

  /** Behind a hidden page, the gate displays at most the final route's view and calls its `inside()` exactly then. */
  lemma GatekeepShowsFinal(table: seq<Route>, arrived: Nav, sc: Screen, gate: Gate)
    requires Consistent(table, arrived) && |sc.shown| == |table|
    requires forall i :: 0 <= i < |sc.shown| ==> !sc.shown[i]
    ensures var out := Gatekeep(table, arrived, sc, gate);
      var f := out.0.route.value;
      && OnlyCurrentShown(out.1.shown, out.0.route)
      && out.1.calls == sc.calls + (if out.1.shown[f] then [Inside(f)] else [])
  {
    var r := arrived.route.value;
    if !gate.blocked {
      ShowAlone(table, sc, r);
    } else if Truthy(gate.next) {
      var pathname := NextPathname(gate.next.value);
      match FirstMatch(Regexes(table), pathname)
      case Some(r2) =>
        ShowAlone(table, sc, r2);
      case None =>
        assert Redirection(table, arrived, sc, gate.next.value).1.shown == sc.shown;
    }
  }

  /**
   * When the route changes, the view left behind exits first, then the
   * final route's view enters exactly when it ends up displayed, and
   * `onroute` is told the final route once, last.
   */
  lemma {:induction false} RouteChangeCalls(table: seq<Route>, st: Nav, sc: Screen, loc: Location, security: Security, onroute: bool)
    requires |sc.shown| == |table| > 0
    requires st.route.Some? ==> st.route.value < |table|
    requires OnlyCurrentShown(sc.shown, st.route)
    requires st.route != Some(ArrivalFor(table, loc).0)
    ensures var out := Transition(table, st, sc, loc, security, onroute);
      var f := out.0.route.value;
      out.1.calls == sc.calls + Exits(st.route)
        + (if out.1.shown[f] then [Inside(f)] else [])
        + (if onroute then [OnRoute(f)] else [])
  {
    var (r, pathname) := ArrivalFor(table, loc);
    var arrived := Visit(table, r, pathname, loc.search, loc.hash, st.route);
    var left := if st.route.Some? then Hide(sc, st.route.value) else sc;
    LeavingHidesAll(sc, st.route);
    GatekeepShowsFinal(table, arrived, left, RouteSecurity(security, r));
  }

  /** `changeRoute` keeps at most one view displayed, the current route's. */
  lemma {:induction false} OnlyCurrentShownPreserved(table: seq<Route>, st: Nav, sc: Screen, loc: Location, security: Security, onroute: bool)
    requires |sc.shown| == |table|
    requires st.route.Some? ==> st.route.value < |table|
    requires OnlyCurrentShown(sc.shown, st.route)
    ensures var out := Transition(table, st, sc, loc, security, onroute);
      OnlyCurrentShown(out.1.shown, out.0.route)
  {
    if |table| > 0 {
      var (r, pathname) := ArrivalFor(table, loc);
      if st.route != Some(r) {
        var arrived := Visit(table, r, pathname, loc.search, loc.hash, st.route);
        var left := if st.route.Some? then Hide(sc, st.route.value) else sc;
        LeavingHidesAll(sc, st.route);
        GatekeepShowsFinal(table, arrived, left, RouteSecurity(security, r));
      }
    }
  }
}
