# Client-side router of a single-page application, in Dafny

This project models the router of a small single-page application framework
(`src/public/js/core.js`). The model covers five parts of it:

- **URL helpers.**
  - `resolveURL` normalises a path.
  - `regexURL` turns a route path with `[name]` placeholders into an
    anchored regular expression.
  - `parseURL` splits a URL into pathname, search and hash.
  - `getParams` reads the placeholders' values out of a pathname.
  - `getQueries` turns the search string into a key/value map.
- **The security hook.** `routeSecurity` asks the application's optional
  security callback whether a route is blocked, and where to go instead.
- **The `Router` constructor.** It prepares the registered route records in
  place and in order: it normalises each record's path, compiles its matcher
  and replaces its view class with a new view object.
- **`changeRoute`.** This is the navigation step that runs on every page
  load, history move and in-app link:
  - it reads the location;
  - it picks the first route whose matcher accepts the normalised pathname,
    or falls back on the first route;
  - when the route changed, it hides the previous view and consults the
    security hook. The route is then released (its view is shown), blocked
    with a redirection (in-app if a route accepts the target, a hard
    redirect otherwise), or blocked without one (only the document title
    changes);
  - it calls `onroute` when the route changed;
  - it writes the address back with `history.replaceState`.
- **The `View` class.**
  - Its constructor hides the element and takes `title || document.title`.
  - `inside()` shows the element and sets the document title.
  - `outside()` hides the element.

The project is split into these modules:

- **`Builtins`**: the JavaScript built-ins the helpers rely on
  (`indexOf`, `split`, `Object.fromEntries`).
- **`Urls`**: `resolveURL`, `parseURL` and `getQueries`.
- **`Patterns`**: `regexURL` as a tokenizer into a small pattern language,
  with a deterministic matcher. The model proves that the matcher accepts a
  pathname exactly when the pathname is the route path with every slot
  filled by a non-empty run of word characters or `-` (`CompiledMatch`, relating `Match` to
  `Denotes`).
- **`RouteShapes`**: what these facts mean for route tables of common shapes.
- **`Navigation`**: `changeRoute` as a function (`Transition`) on the
  router's fields and what the page shows.
- **`Core`**: the `View`, `Browser` and `Router` classes.

`Router.ChangeRoute` updates the router's fields and the view objects in
place, and is proved to produce exactly what `Transition` describes.

## Modelling decisions

- **Routes are identified by their position in the table.** The source
  compares route records by reference. Distinct positions hold distinct
  records: the constructor replaces each record's `view` class with
  `new view()` (`core.js:226`), so a record listed twice would meet an
  object instead of a class the second time, and `new` would throw. Comparing
  positions is therefore the same test.
- **`regexURL` is modelled by the tokens it produces.** A `Lit` token stands
  for a literal character. A `Param` token stands for a `([\w\-]+)` group
  that came from `[name]`. The bracket scan is greedy, as `\[[^\/]+\]` is:
  - a placeholder ends at the LAST `]` before the next `/`;
  - so `[a]-[b]` is a single placeholder named `a]-[b`
    (`RouteShapes.GreedyBracket`);
  - a consequence is that each path segment holds at most one placeholder
    (`Patterns.CompileOneParamPerSegment`).

  The comment at `core.js:11` speaks of replacing each `[...]` with a group.
  The greedy `\[[^\/]+\]` makes that at most one group per segment, and the
  model follows the expression.
- **Regular expressions are not modelled; the matched language is.** The
  model takes as its premise that, for a path whose literal characters carry
  no regular-expression meaning (`Patterns.PlainPath`), the language of the
  anchored expression `^…([\w\-]+)…$` is `Denotes(Compile(path), ·)`: each
  literal matches itself and each group matches a non-empty word run. This
  premise is not proved, because no regular-expression engine is modelled.
  The `Router` constructor requires `PlainPath` of every normalised path.
- **`matchAll` meets the same brackets as `replace`.** `getParams` reads its
  keys with a second scan, `route.path.matchAll(/\[([^\/]+)\]/g)`. That scan
  is modelled as `Patterns.BracketNames`, and `Patterns.ParamNamesOfCompile`
  proves that its names are the slots of `Compile(path)`, in order.
- **Lengths are counted in UTF-16 code units.** `url.length > 2` in
  `resolveURL` counts UTF-16 code units, so a character outside the Basic
  Multilingual Plane counts twice (`Urls.Utf16Length`).
- **`next` is checked with JavaScript truthiness.** In `else if (next)`, an
  absent or empty `next` counts as "blocked without redirection"
  (`Navigation.Truthy`).
- **Effects go to a `Browser` object.** It records:
  - the document title;
  - the address last passed to `history.replaceState`;
  - the address of a hard redirect (`app.redirect(next)`);
  - the sequence of `outside`/`inside`/`onroute` calls, each with its route.

  The page element of a view is modelled as its `visible` flag.
- **The security callback and `onroute` are parameters.** `app.security` is
  a function of the route's position, or absent. `app.onroute` is a flag
  saying whether one is installed.
- **The source calls `new view()` with no arguments.** The subclasses in an
  application pass an element id and a title to `View`'s constructor. The
  route record's view class is therefore modelled as that id and title.

## Model

| member | source | states |
|---|---|---|
| Builtins.IndexOf | src/public/js/core.js:21 | `indexOf` gives -1 exactly when the character is absent, and otherwise the position of its first occurrence |
| Builtins.IndexOfAfterPrefix | src/public/js/core.js:28 | the first occurrence of a character that a prefix lacks sits right after that prefix |
| Builtins.Split | src/public/js/core.js:53-54 | `split` always yields at least one piece |
| Builtins.SplitPieces | src/public/js/core.js:53-54 | no piece of a `split` contains the separator |
| Builtins.JoinSplit | src/public/js/core.js:53-54 | joining the pieces of a `split` with the separator gives back the string |
| Builtins.SplitJoin | src/public/js/core.js:53-54 | splitting a join of separator-free pieces gives back the pieces |
| Builtins.SplitCons | src/public/js/core.js:54 | a string that starts with a separator-free part followed by the separator splits into that part, then the pieces of the rest |
| Builtins.SplitHead | src/public/js/core.js:54 | a string without the separator is one piece; otherwise the first piece is everything before the first separator |
| Builtins.SplitFirst | src/public/js/core.js:54 | the first piece is the text before the first separator |
| Builtins.SplitAppend | src/public/js/core.js:53 | splitting `a` + separator + `b` gives the pieces of `a` followed by the pieces of `b` |
| Builtins.FromEntriesKeys | src/public/js/core.js:44 | the keys of `Object.fromEntries` are exactly the keys of the entries |
| Builtins.FromEntries | src/public/js/core.js:44 | the last entry's key always holds the last entry's value |
| Builtins.FromEntriesAppend | src/public/js/core.js:54 | the map of two entry lists, one after the other, is the map of the first overridden by the map of the second |
| Builtins.FromEntriesLastWins | src/public/js/core.js:54 | a key that several entries share holds the value of the last of them |
| Urls.Collapse | src/public/js/core.js:3 | collapsing leaves no `//`, never lengthens the path and keeps its first and last characters |
| Urls.CollapseFixpoint | src/public/js/core.js:3 | a path without `//` is left as it is |
| Urls.CollapseAbsorbs | src/public/js/core.js:3 | an extra `/` next to a `/` makes no difference to the result |
| Urls.Utf16Length | src/public/js/core.js:4 | `length` counts between one and two code units per character |
| Urls.Utf16LengthAppend | src/public/js/core.js:4 | the length of a concatenation is the sum of the lengths |
| Urls.ResolveURL | src/public/js/core.js:2-7 | the result has no `//`. It is the collapsed path, minus one trailing `/` when the collapsed path is longer than 2 UTF-16 code units, and such a result never ends in `/` |
| Urls.ResolveURLIdempotent | src/public/js/core.js:2-7 | normalising twice is normalising once |
| Urls.TrailingSlashDropped | src/public/js/core.js:4-5 | a trailing `/` after a path of 2 or more UTF-16 code units is dropped |
| Urls.ShortPathsKept | src/public/js/core.js:4-5 | every path without `//` of at most 2 UTF-16 code units is kept as it is, so `/` keeps its slash |
| Urls.SurrogatePairCounted | src/public/js/core.js:4-5 | a character outside the Basic Multilingual Plane counts twice, so `"\u{1F600}/"` loses its trailing slash |
| Urls.CutAtFirst | src/public/js/core.js:21-33 | cutting at the first occurrence of a character: the two parts rebuild the string, the first part lacks the character, and the second part is empty exactly when the character is absent and otherwise starts with it |
| Urls.CutAtFirstUnique | src/public/js/core.js:21-33 | the cut is the only way to split a string that way |
| Urls.ParseURL | src/public/js/core.js:16-35 | pathname, search and hash concatenate back to the URL. The pathname contains neither `?` nor `#`; the search contains no `#` and is empty or starts with `?`; the hash is empty or starts with `#` |
| Urls.UnparseParse | src/public/js/core.js:16-35 | parsing the concatenation of a well-formed pathname, search and hash gives back those three parts |
| Urls.PathOnly | src/public/js/core.js:16-35 | a URL without `?` and `#` is all pathname, with empty search and hash |
| Urls.QueryEntry | src/public/js/core.js:54 | the entry of a query piece: the key never contains `=`; the value is absent exactly when the piece has no `=`, in which case the key is the whole piece; a present value has no `=` |
| Urls.EntryShape | src/public/js/core.js:54 | a piece with a value is its key, `=`, its value, then nothing or text that starts with `=` |
| Urls.QueryEntrySplit | src/public/js/core.js:54 | the entry's key and value are the first two pieces of `query.split("=")`, the only ones `Object.fromEntries` reads |
| Urls.EntryOfPair | src/public/js/core.js:54 | `k=v`, followed by nothing or by text starting with `=`, has key `k` and value `v` |
| Urls.SplitPair | src/public/js/core.js:54 | `k=v=…` splits into `k`, then `v`, then the rest |
| Urls.Pieces | src/public/js/core.js:53 | a string is a piece exactly when it is a non-empty piece of `search.split("?")` |
| Urls.NonEmpty | src/public/js/core.js:53 | the filter keeps exactly the non-empty strings |
| Urls.NonEmptyAppend | src/public/js/core.js:53 | filtering a concatenation filters each part and keeps their order |
| Urls.PiecesAppend | src/public/js/core.js:53 | the pieces on either side of a `?` follow each other: none is lost and none is reordered |
| Urls.QueryEntries | src/public/js/core.js:54 | `queries.map(query => query.split("="))`: one entry per piece, in order, each the entry of its piece |
| Urls.QueryEntriesAppend | src/public/js/core.js:54 | the entries of two lists of pieces are the entries of each, in order |
| Urls.GetQueries | src/public/js/core.js:52-55 | no query key contains `=` |
| Urls.QueriesAppend | src/public/js/core.js:52-55 | the queries on the right of a `?` override those on its left with the same key |
| Urls.BarePiece | src/public/js/core.js:52-55 | a one-piece search without a leading `?` has that piece's entry |
| Urls.TwoPieces | src/public/js/core.js:52-55 | `?a=1?b=2` yields both keys; when the two pieces share a key, the second one's value wins |
| Urls.EmptySearch | src/public/js/core.js:52-55 | an empty search has no queries |
| Urls.PiecesOfSearch | src/public/js/core.js:53 | the pieces of a search are non-empty and contain no `?` |
| Urls.OnePiece | src/public/js/core.js:53 | `?q` with `q` free of `?` has the single piece `q` |
| Urls.SinglePiece | src/public/js/core.js:52-55 | the queries of `?q` are the one entry of `q` |
| Urls.KeyWithoutValue | src/public/js/core.js:52-55 | `?k` without `=` maps `k` to an absent value |
| Urls.KeyValue | src/public/js/core.js:52-55 | `?k=v` maps `k` to `v`. `&` is no separator, and anything from a second `=` onwards is dropped |
| Urls.QueriesKeys | src/public/js/core.js:52-55 | the keys of the queries are the keys of the pieces of the search |
| Urls.QueriesLastWins | src/public/js/core.js:54 | a key repeated in the search holds the value of its last piece |
| Patterns.SegmentEnd | src/public/js/core.js:11 | the length of the first path segment: it stops at the first `/` or at the end |
| Patterns.WordChar | src/public/js/core.js:11 | a character of `[\w\-]` is never `/`, `?`, `#`, `[` or `]` |
| Patterns.WordRun | src/public/js/core.js:11 | a value a `([\w\-]+)` group captures is non-empty and holds no `/`, `?` or `#` |
| Patterns.Zip | src/public/js/core.js:44 | `keys.map((key, i) => [key, values[i]])` pairs each key with the value at its position |
| Patterns.ZipKeys | src/public/js/core.js:44 | the keys of the zipped pairs, as a set, are exactly the keys it was made from |
| Patterns.SegmentEndSlashFree | src/public/js/core.js:11 | the first segment holds no `/` |
| Patterns.SegmentEndUnique | src/public/js/core.js:11 | any `/`-free prefix that ends at a `/` or at the end is the first segment |
| Patterns.LastClose | src/public/js/core.js:11 | the `]` the greedy scan stops at lies inside the range it searches |
| Patterns.LastCloseIsLast | src/public/js/core.js:11 | no `]` lies after that one within the range, and when none is found there is none at all |
| Patterns.Bracket | src/public/js/core.js:11 | a placeholder opens with `[`, encloses at least one character and closes inside the first segment |
| Patterns.BracketInSegment | src/public/js/core.js:11 | a placeholder contains no `/`, and the closing `]` is the last one in its segment |
| Patterns.Compile | src/public/js/core.js:10-11 | every placeholder name is non-empty and free of `/` |
| Patterns.CompileSource | src/public/js/core.js:10-11 | the tokens spell the route path back out: each placeholder is `[name]` of its text |
| Patterns.CompileOneParamPerSegment | src/public/js/core.js:10-11 | the greedy scan never puts a second placeholder before the next `/`: each path segment holds at most one placeholder |
| Patterns.ParamNames | src/public/js/core.js:42 | there are no more placeholder names than tokens |
| Patterns.ParamNamesAppend | src/public/js/core.js:42 | the names of a concatenation are the names of its parts, in order |
| Patterns.ParamNamesOfToken | src/public/js/core.js:42 | a literal has no name, and a slot has its own |
| Patterns.BracketNames | src/public/js/core.js:42 | the `matchAll` scan yields at most one name per character of the path |
| Patterns.ParamNamesOfCompile | src/public/js/core.js:42 | the names `matchAll` reads off the path are the slots of the compiled pattern, in order |
| Patterns.Match | src/public/js/core.js:10-13 | a successful match yields one value per placeholder |
| Patterns.MatchSound | src/public/js/core.js:10-13 | the values of a match are runs of word characters or `-`, and filling them into the placeholders rebuilds the pathname |
| Patterns.MatchComplete | src/public/js/core.js:10-13 | every pathname obtained by filling word runs into a pattern with one placeholder per segment is matched, with those values |
| Patterns.CompiledMatch | src/public/js/core.js:10-13 | a compiled route accepts a pathname exactly when the pathname is the path with each placeholder replaced by a word run |
| Patterns.FillSegmentEnd | src/public/js/core.js:11-12 | when no placeholder precedes the first `/`, the filled pathname's first segment ends where the literal run ends |
| Patterns.NoCloseNoParam | src/public/js/core.js:11 | a first segment without `]` yields no placeholder before the first `/` |
| Patterns.GetParams | src/public/js/core.js:39-49 | without a match the params are empty; with one, their keys are exactly the placeholder names |
| Patterns.ParamsOfFilledPath | src/public/js/core.js:39-49 | a pathname filled with word runs gets those runs back as params. A name used twice holds the later value |
| Patterns.FirstMatch | src/public/js/core.js:82 | `find` gives the first pattern that accepts the pathname, none before it does, and none at all when it finds nothing |
| RouteShapes.Lits | src/public/js/core.js:10-12 | a bracket-free text compiles to one literal per character |
| RouteShapes.CompileAfterPlain | src/public/js/core.js:11 | a bracket-free prefix compiles to literals, whatever follows |
| RouteShapes.CompileParamSegment | src/public/js/core.js:11 | `[name]` followed by `/` or the end is one placeholder |
| RouteShapes.CompileSlotRoute | src/public/js/core.js:11 | `/task/[id]`-shaped paths compile to literals and one trailing placeholder |
| RouteShapes.SlotRouteMatch | src/public/js/core.js:10-13 | `a[name]` accepts exactly the pathnames made of `a` and a non-empty word run; so `/task/[id]` accepts `/task/42` and rejects `/task/42/extra` |
| RouteShapes.SlotRouteParams | src/public/js/core.js:39-49 | for such a pathname the params map `name` to the run |
| RouteShapes.GreedyBracket | src/public/js/core.js:11 | two placeholders in one segment become one whose name spans both |
| RouteShapes.FillLits | src/public/js/core.js:10-12 | a literal pattern has no placeholders and spells its text |
| RouteShapes.PlainPathMatch | src/public/js/core.js:10-13 | a route without placeholders accepts exactly its own path |
| RouteShapes.EarlierRouteWins | src/public/js/core.js:82 | a placeholder route registered first wins over any later route, even one naming the pathname literally |
| Navigation.RouteSecurity | src/public/js/core.js:58-66 | without a callback, the route is released with no `next`; with one, its answer is the callback's |
| Navigation.Truthy | src/public/js/core.js:102 | an absent `next` and the empty string are falsy; any other string is truthy |
| Navigation.Url | src/public/js/core.js:131 | the address written to the history starts with the pathname and is exactly as long as pathname, search and hash together; for well-formed parts it parses back into them (`UrlParsesBack`) |
| Navigation.UrlParsesBack | src/public/js/core.js:131 | for well-formed parts, parsing the address written to the history gives back the pathname, search and hash |
| Navigation.Visit | src/public/js/core.js:76-89 | the settled fields are consistent: the queries are those of the search, and the params are those of the route's matcher on the pathname |
| Navigation.Arrival | src/public/js/core.js:82-87 | the first route that accepts the pathname, at that pathname; if none does, the first route at its own path |
| Navigation.Hide | src/public/js/core.js:92-93 | `outside()` hides exactly the left route's view |
| Navigation.Show | src/public/js/core.js:99-101 | `inside()` shows exactly that view and sets its title |
| Navigation.ArrivalFor | src/public/js/core.js:76-87 | the route `changeRoute` arrives at for a location: the first route accepting the normalised pathname, at that pathname; if none does, the first route at its own path |
| Navigation.NextPathname | src/public/js/core.js:105-106 | the normalised pathname of a redirection target has no `//` and is left as it is by `resolveURL` |
| Navigation.Redirection | src/public/js/core.js:102-122 | a redirection keeps the fields consistent, keeps the previous route and does not touch the history |
| Navigation.Gatekeep | src/public/js/core.js:96-125 | each of the gate's three outcomes keeps the fields consistent and the previous route |
| Navigation.RouteChange | src/public/js/core.js:91-129 | the route-change branch keeps the fields consistent and the previous route |
| Navigation.Settle | src/public/js/core.js:91-132 | after it, the history holds the router's address. An unchanged route only rewrites that address |
| Navigation.Transition | src/public/js/core.js:69-133 | an empty table changes nothing. Otherwise the router ends on a route of the table with consistent fields, the route it left as previous route, and its address in the history |
| Navigation.SameRouteIsQuiet | src/public/js/core.js:91 | arriving at the current route runs no hook and no callback; the result does not depend on the security callback or `onroute`, and only the fields and the address change |
| Navigation.StaysOnArrival | src/public/js/core.js:76-89 | unless an in-app redirection applies, the router ends on the route found for the location, with the location's search and hash |
| Navigation.RedirectionInApp | src/public/js/core.js:103-118 | when some route accepts the target's pathname, the first such route takes over, with the target's pathname, search and hash, and its view is shown |
| Navigation.BlockedRedirectInApp | src/public/js/core.js:102-119 | a blocked route whose `next` some route accepts ends on that route, at `next`'s address, showing its view and title, with no hard redirect |
| Navigation.RouteChangeAfterGate | src/public/js/core.js:127-128 | `onroute` changes neither the fields nor what the page shows |
| Navigation.BlockedHardRedirect | src/public/js/core.js:120-122 | when no route accepts `next`, the browser is sent to `next` and no view is shown |
| Navigation.BlockedWithoutNext | src/public/js/core.js:123-125 | blocked without a redirection: the title becomes the blocked route's, but no view is shown and there is no redirect |
| Navigation.Released | src/public/js/core.js:99-101 | a released new route shows its view and title |
| Navigation.LeavingHidesAll | src/public/js/core.js:92-93 | hiding the previous view leaves no view shown and records one `outside()` call |
| Navigation.ShowAlone | src/public/js/core.js:100 | showing one view on an empty page makes it the only one shown |
| Navigation.GatekeepShowsFinal | src/public/js/core.js:96-125 | after the gate, only the final route's view can be shown, and `inside()` ran for it exactly when it is shown |
| Navigation.RouteChangeCalls | src/public/js/core.js:91-129 | a route change runs `outside()` of the previous view, then `inside()` of the final view if it is shown, then `onroute` with the final route |
| Navigation.OnlyCurrentShownPreserved | src/public/js/core.js:69-133 | if at most the current route's view was shown before `changeRoute`, the same holds after it |
| Core.ViewTitle | src/public/js/core.js:253 | `title \|\| document.title`: a missing or empty title gives way to the document's |
| Core.View.constructor | src/public/js/core.js:250-253 | the view keeps its id and its title (or the document's), and its element starts hidden |
| Core.View.Inside | src/public/js/core.js:260-263 | the element is displayed, and the document title becomes the view's; nothing else on the page changes |
| Core.View.Outside | src/public/js/core.js:266-268 | the element is hidden |
| Core.ToRoute | src/public/js/core.js:224-226 | a prepared record carries its path, its compiled matcher and its view's title |
| Core.ToRoutes | src/public/js/core.js:223-227 | the route table is the prepared records, position by position |
| Core.PreparedIsReady | src/public/js/core.js:224-225 | a prepared record's path is already normalised and its matcher is the compiled path |
| Core.Prepare | src/public/js/core.js:224-226 | one record: normalised path, matcher compiled from that path, and a new hidden view made from the view class |
| Core.PrepareAt | src/public/js/core.js:224-226 | one turn of the loop: record `i` becomes the prepared form of its original, with a new hidden view, and no other record changes |
| Core.PrepareAll | src/public/js/core.js:223-227 | every record is replaced in place by the prepared form of its original, each with a new view distinct from all others |
| Core.Router.constructor | src/public/js/core.js:211-230 | the router starts with no route, empty address, params and queries, and a prepared table whose views are all hidden |
| Core.Router.Leave | src/public/js/core.js:93 | the left route's view is hidden and its `outside()` recorded; fields and table are unchanged |
| Core.Router.Enter | src/public/js/core.js:100 | the route's view is shown with its title, and its `inside()` recorded |
| Core.Router.Locate | src/public/js/core.js:82-87 | the route and pathname the lookup settles on are those of `Arrival` |
| Core.Router.Move | src/public/js/core.js:111-116 | the fields become those of the route at the given address, with the previous route kept |
| Core.Router.Arrive | src/public/js/core.js:76-89 | the fields become those of the route found for the location, with the old route as previous |
| Core.Router.TakeOver | src/public/js/core.js:111-117 | the redirect target's route becomes current and its view is shown |
| Core.Router.Redirect | src/public/js/core.js:102-122 | the fields and the page change as `Redirection` says |
| Core.Router.Guard | src/public/js/core.js:96-125 | the fields and the page change as `Gatekeep` says |
| Core.Router.Depart | src/public/js/core.js:92-93 | the previous route's view, if there is one, is hidden and its exit recorded; the fields do not change |
| Core.Router.Announce | src/public/js/core.js:127-128 | when `onroute` is installed, its call with the current route is recorded; the fields and the views do not change |
| Core.Router.SwitchRoute | src/public/js/core.js:91-129 | the fields and the page change as `RouteChange` says |
| Core.Router.Publish | src/public/js/core.js:131-132 | the history receives pathname, search and hash; nothing else changes |
| Core.Router.Proceed | src/public/js/core.js:91-132 | the fields and the page change as `Settle` says |
| Core.Router.ChangeRoute | src/public/js/core.js:69-133 | the fields and the page change exactly as `Transition` says; the table stays prepared, and "only the current route's view is shown" is preserved |

## Left out

- `navigate(url)`, `redirect(url)` and `scrollHash` (core.js:136-150) are left out. They push a history entry, set `window.location.href` and scroll the page. In the model, `redirect` is the `departure` recorded on the `Browser`.
- `Router.routing()` (core.js:233-245) is left out. It installs event listeners: `popstate` and `DOMContentLoaded` call `changeRoute`, which is modelled; a click on a `[data-link]` element calls `navigate`, which is left out as said above.
- The `Application` class (core.js:153-207) is left out. Its getters only read the router's fields, and its `views` registry (`window.app.views[id] = this`) is global bookkeeping that nothing in the core reads.
- Asynchronous execution is not modelled. `changeRoute`, `inside` and `outside` are `async` but await nothing, so the model runs them in order.
- Concurrent navigations are not modelled.
- Regular expressions beyond those `regexURL` builds are not modelled: a route path whose literal characters are regular-expression metacharacters is outside the model.
- Core.Router.constructor: requires every normalised route path to be free of regular-expression metacharacters (`Patterns.PlainPath`). The source accepts any path, but then the real matcher treats such characters as operators, which the token matcher does not model.
- The DOM is modelled as one `visible` flag per view. The element's style and `document.querySelector` are left out.
- The security callback and `onroute` are left out as code, because they belong to the application. The model takes the callback's answer as a function of the route's position and records the `onroute` call.
- `src/application.js`, `src/launch.js`, `src/utilities/utilities.js` and `src/services/logger.js` are not part of this model. They are the server side.
- `src/public/js/application.js` is not part of this model. It is one application's route table and views.
