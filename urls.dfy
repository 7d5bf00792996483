/**
 * The URL helpers of the client-side router: path normalisation
 * (`resolveURL`), splitting a URL into pathname, search and hash
 * (`parseURL`) and reading the query map out of the search (`getQueries`).
 */
module Urls {
  import opened Wrappers
  import opened Builtins

  /** No two `/` stand next to each other. */
  predicate NoDoubleSlash(s: string) {
    forall i :: 0 <= i < |s| - 1 ==> s[i] != '/' || s[i + 1] != '/'
  }

  /** `url.replace(/\/{2,}/g, "/")`: every run of two or more `/` becomes a single `/`. */
  function Collapse(s: string): (r: string)
    ensures NoDoubleSlash(r)
    ensures |r| <= |s|
    ensures s != [] ==> r != [] && r[0] == s[0] && r[|r| - 1] == s[|s| - 1]
    decreases |s|
  {
    if |s| <= 1 then s
    else if s[0] == '/' && s[1] == '/' then Collapse(s[1..])
    else [s[0]] + Collapse(s[1..])
  }

  /** A string without doubled slashes is left as it is. */
  lemma {:induction false} CollapseFixpoint(s: string)
    requires NoDoubleSlash(s)
    ensures Collapse(s) == s
    decreases |s|
  {
    if |s| > 1 {
      assert NoDoubleSlash(s[1..]);
      CollapseFixpoint(s[1..]);
      assert s == [s[0]] + s[1..];
    }
  }

  /**
   * Doubling a slash does not change the outcome. With `CollapseFixpoint`
   * this pins `Collapse` down: it maps `s` to the one string without
   * doubled slashes that `s` reduces to by dropping one of two adjacent `/`.
   */
  lemma {:induction false} CollapseAbsorbs(s: string, i: nat)
    requires 0 < i <= |s| && s[i - 1] == '/'
    ensures Collapse(s[..i] + ['/'] + s[i..]) == Collapse(s)
    decreases i
  {
    var t := s[..i] + ['/'] + s[i..];
    if i == 1 {
      assert t == ['/'] + s;
      assert t[1..] == s;
    } else {
      assert t[0] == s[0] && t[1] == s[1];
      assert t[1..] == s[1..][..i - 1] + ['/'] + s[1..][i - 1..];
      CollapseAbsorbs(s[1..], i - 1);
    }
  }

  /**
   * `s.length` in JavaScript: the number of UTF-16 code units, two for a
   * character outside the Basic Multilingual Plane.
   */
  function Utf16Length(s: string): (n: nat)
    ensures |s| <= n <= 2 * |s|
  {
    if s == [] then 0
    else (if s[0] as int < 0x1_0000 then 1 else 2) + Utf16Length(s[1..])
  }

  /** The length of a concatenation is the sum of the lengths. */
  lemma {:induction false} Utf16LengthAppend(a: string, b: string)
    ensures Utf16Length(a + b) == Utf16Length(a) + Utf16Length(b)
  {
    if a == [] {
      assert a + b == b;
    } else {
      assert (a + b)[0] == a[0] && (a + b)[1..] == a[1..] + b;
      Utf16LengthAppend(a[1..], b);
    }
  }

  /**
   * `resolveURL`: collapse runs of `/`, then, when the collapsed string is
   * longer than two UTF-16 code units, drop one final `/`.
   */
  function ResolveURL(url: string): (r: string)
    ensures NoDoubleSlash(r)
    ensures r == Collapse(url) || r + "/" == Collapse(url)
    ensures Utf16Length(Collapse(url)) <= 2 ==> r == Collapse(url)
    ensures Utf16Length(Collapse(url)) > 2 ==> Utf16Length(r) >= 2 && r[|r| - 1] != '/'
  {
    var c := Collapse(url);
    if Utf16Length(c) > 2 && c[|c| - 1] == '/' then
      assert c == c[..|c| - 1] + "/";
      Utf16LengthAppend(c[..|c| - 1], "/");
      c[..|c| - 1]
    else c
  }

  /** Normalising a normalised path changes nothing. */
  lemma {:induction false} ResolveURLIdempotent(url: string)
    ensures ResolveURL(ResolveURL(url)) == ResolveURL(url)
  {
    var r := ResolveURL(url);
    CollapseFixpoint(r);
  }

  /** A path without doubled slashes and at least two code units long loses one trailing slash. */
  lemma TrailingSlashDropped(p: string)
    requires NoDoubleSlash(p + "/") && Utf16Length(p) >= 2
    ensures ResolveURL(p + "/") == p
  {
    CollapseFixpoint(p + "/");
    Utf16LengthAppend(p, "/");
    assert (p + "/")[..|p|] == p;
  }

  /** A path without doubled slashes and at most two code units long is kept as it is, final slash included. */
  lemma ShortPathsKept(p: string)
    requires NoDoubleSlash(p) && Utf16Length(p) <= 2
    ensures ResolveURL(p) == p
  {
    CollapseFixpoint(p);
  }

  /** A character outside the Basic Multilingual Plane counts twice: `"\u{1F600}/"` loses its slash. */
  lemma SurrogatePairCounted()
    ensures ResolveURL("\U{1F600}/") == "\U{1F600}"
  {
    var p := "\U{1F600}";
    assert Utf16Length(p) == 2;
    assert p + "/" == "\U{1F600}/";
    TrailingSlashDropped(p);
  }

  /** The three parts of a URL: `location.pathname`, `location.search`, `location.hash`. */
  datatype Location = Location(pathname: string, search: string, hash: string)

  /** The shape `parseURL` gives its parts. */
  predicate WellFormed(loc: Location) {
    && '?' !in loc.pathname && '#' !in loc.pathname
    && (loc.search == [] || loc.search[0] == '?') && '#' !in loc.search
    && (loc.hash == [] || loc.hash[0] == '#')
  }

  /**
   * `url.indexOf(c)` followed by the two slices at that index: the text
   * before the first `c`, and the rest from that `c` on (empty when there
   * is no `c`).
   */
  function CutAtFirst(s: string, c: char): (r: (string, string))
    ensures r.0 + r.1 == s
    ensures c !in r.0
    ensures r.1 == [] || r.1[0] == c
    ensures r.1 == [] <==> c !in s
    ensures r.1 == [] ==> r.0 == s
  {
    var i := IndexOf(s, c);
    if i == -1 then (s, "")
    else
      assert s[..i] + s[i..] == s;
      (s[..i], s[i..])
  }

  /** The cut falls at the first `c`, wherever the text holds one. */
  lemma CutAtFirstUnique(pre: string, post: string, c: char)
    requires c !in pre && (post == [] || post[0] == c)
    ensures CutAtFirst(pre + post, c) == (pre, post)
  {
    if post == [] {
      assert pre + post == pre;
    } else {
      IndexOfAfterPrefix(pre, c, post[1..]);
      assert pre + post == pre + [c] + post[1..];
    }
  }

  /**
   * `parseURL`: the hash runs from the first `#` to the end; the search runs
   * from the first `?` before it; the pathname is what precedes them. A part
   * that is absent is the empty string.
   */
  function ParseURL(url: string): (loc: Location)
    ensures loc.pathname + loc.search + loc.hash == url
    ensures WellFormed(loc)
  {
    var (rest, hash) := CutAtFirst(url, '#');
    var (pathname, search) := CutAtFirst(rest, '?');
    NotInEither(pathname, search, '#');
    Location(pathname, search, hash)
  }

  lemma NotInEither(a: string, b: string, c: char)
    requires c !in a + b
    ensures c !in a && c !in b
  {
  }

  /** Conversely, `parseURL` takes apart exactly what was put together. */
  lemma {:induction false} UnparseParse(loc: Location)
    requires WellFormed(loc)
    ensures ParseURL(loc.pathname + loc.search + loc.hash) == loc
  {
    var rest := loc.pathname + loc.search;
    assert '#' !in rest;
    CutAtFirstUnique(rest, loc.hash, '#');
    CutAtFirstUnique(loc.pathname, loc.search, '?');
  }

  /** A URL without `?` or `#`, such as `/a/b`, is all pathname. */
  lemma PathOnly(url: string)
    requires '?' !in url && '#' !in url
    ensures ParseURL(url) == Location(url, "", "")
  {
    var loc := Location(url, "", "");
    UnparseParse(loc);
    assert loc.pathname + loc.search + loc.hash == url;
  }

  /** A query value: the text after `=`, or `None` for JavaScript's `undefined`. */
  type Queries = map<string, Option<string>>

  /**
   * `query.split("=")` read as an entry by `Object.fromEntries`, which takes
   * the first two pieces: the key is the text before the first `=`, the
   * value the text between the first and the second `=` (or the end), and
   * there is no value when the piece holds no `=`. `QueryEntrySplit` ties
   * this to `Split`.
   */
  function QueryEntry(q: string): (e: (string, Option<string>))
    ensures '=' !in e.0
    ensures e.1.None? <==> '=' !in q
    ensures e.1.None? ==> e.0 == q
    ensures e.1.Some? ==> '=' !in e.1.value
  {
    var cut := CutAtFirst(q, '=');
    if cut.1 == [] then (cut.0, None)
    else
      (cut.0, Some(CutAtFirst(cut.1[1..], '=').0))
  }

  /** `key`, `=`, `value` and what follows, read back by position. */
  lemma EntryParts(q: string, key: string, tail: string, value: string, after: string)
    requires q == key + tail && tail != [] && tail[0] == '=' && tail[1..] == value + after
    requires after == [] || after[0] == '='
    ensures q == key + "=" + value + after
    ensures '=' in q
    ensures |key| + 1 + |value| <= |q| && q[..|key| + 1 + |value|] == key + "=" + value
    ensures |q| > |key| + 1 + |value| ==> q[|key| + 1 + |value|] == '='
  {
    assert tail == ['='] + (value + after);
    assert q == (key + "=" + value) + after;
    assert q[|key|] == '=';
  }

  /** An entry with a value spells its piece as key, `=`, value and nothing or another `=`. */
  lemma EntryShape(q: string, k: string, v: string)
    requires QueryEntry(q) == (k, Some(v))
    ensures |k| + 1 + |v| <= |q| && q == k + "=" + v + q[|k| + 1 + |v|..]
    ensures |q| > |k| + 1 + |v| ==> q[|k| + 1 + |v|] == '='
  {
    var cut := CutAtFirst(q, '=');
    var rest := CutAtFirst(cut.1[1..], '=');
    EntryParts(q, cut.0, cut.1, rest.0, rest.1);
    assert q[|k| + 1 + |v|..] == rest.1;
  }

  /** The key and the value are the first two pieces of `q.split("=")`. */
  lemma QueryEntrySplit(q: string)
    ensures QueryEntry(q).1.None? ==> Split(q, '=') == [q]
    ensures QueryEntry(q).1.Some? ==>
      && |Split(q, '=')| >= 2
      && Split(q, '=')[0] == QueryEntry(q).0
      && Split(q, '=')[1] == QueryEntry(q).1.value
  {
    var cut := CutAtFirst(q, '=');
    if cut.1 == [] {
      SplitHead(q, '=');
    } else {
      var rest := CutAtFirst(cut.1[1..], '=');
      EntryParts(q, cut.0, cut.1, rest.0, rest.1);
      SplitPair(cut.0, rest.0, rest.1);
    }
  }

  /** `k=v` followed by nothing or by another `=` is read as the entry `k`, `v`. */
  lemma EntryOfPair(k: string, v: string, rest: string)
    requires '=' !in k && '=' !in v
    requires rest == [] || rest[0] == '='
    ensures QueryEntry(k + "=" + v + rest) == (k, Some(v))
  {
    var q := k + "=" + v + rest;
    assert q == k + (['='] + (v + rest));
    CutAtFirstUnique(k, ['='] + (v + rest), '=');
    assert (['='] + (v + rest))[1..] == v + rest;
    CutAtFirstUnique(v, rest, '=');
  }

  /** `search.split("?").filter(result => result != "")`. */
  function Pieces(search: string): (ps: seq<string>)
    ensures forall x :: x in ps <==> x in Split(search, '?') && x != ""
  {
    NonEmpty(Split(search, '?'))
  }

  /** `filter(result => result != "")`: the non-empty strings, in their order. */
  function NonEmpty(ps: seq<string>): (r: seq<string>)
    ensures forall k :: 0 <= k < |r| ==> r[k] != "" && r[k] in ps
    ensures forall x :: x in r <==> x in ps && x != ""
  {
    if ps == [] then []
    else if ps[0] == "" then NonEmpty(ps[1..])
    else [ps[0]] + NonEmpty(ps[1..])
  }

  function QueryEntries(pieces: seq<string>): (es: seq<(string, Option<string>)>)
    ensures |es| == |pieces|
    ensures forall k :: 0 <= k < |pieces| ==> es[k] == QueryEntry(pieces[k])
  {
    if pieces == [] then [] else [QueryEntry(pieces[0])] + QueryEntries(pieces[1..])
  }

  /** `getQueries`: the entries of the non-empty `?`-separated pieces of the search. */
  function GetQueries(search: string): (q: Queries)
    ensures forall k :: k in q ==> '=' !in k
  {
    var es := QueryEntries(Pieces(search));
    FromEntriesKeys(es);
    FromEntries(es)
  }

  /** Filtering a concatenation filters each part, and keeps their order. */
  lemma {:induction false} NonEmptyAppend(a: seq<string>, b: seq<string>)
    ensures NonEmpty(a + b) == NonEmpty(a) + NonEmpty(b)
  {
    if a == [] {
      assert a + b == b;
    } else {
      assert (a + b)[0] == a[0] && (a + b)[1..] == a[1..] + b;
      NonEmptyAppend(a[1..], b);
    }
  }

  /** The pieces on either side of a `?` follow each other, none lost and none reordered. */
  lemma PiecesAppend(a: string, b: string)
    ensures Pieces(a + "?" + b) == Pieces(a) + Pieces(b)
  {
    assert a + "?" + b == a + ['?'] + b;
    SplitAppend(a, '?', b);
    NonEmptyAppend(Split(a, '?'), Split(b, '?'));
  }

  /** The queries on the right of a `?` override those on its left with the same key. */
  lemma QueriesAppend(a: string, b: string)
    ensures GetQueries(a + "?" + b) == GetQueries(a) + GetQueries(b)
  {
    var pa, pb := Pieces(a), Pieces(b);
    PiecesAppend(a, b);
    QueryEntriesAppend(pa, pb);
    FromEntriesAppend(QueryEntries(pa), QueryEntries(pb));
  }

  lemma {:induction false} QueryEntriesAppend(x: seq<string>, y: seq<string>)
    ensures QueryEntries(x + y) == QueryEntries(x) + QueryEntries(y)
  {
    if x == [] {
      assert x + y == y;
    } else {
      assert (x + y)[0] == x[0] && (x + y)[1..] == x[1..] + y;
      QueryEntriesAppend(x[1..], y);
      ConsAppend(QueryEntry(x[0]), QueryEntries(x[1..]), QueryEntries(y));
    }
  }

  /** A search of one bare piece, without a leading `?`, has that piece's entry. */
  lemma BarePiece(q: string)
    requires q != [] && '?' !in q
    ensures GetQueries(q) == map[QueryEntry(q).0 := QueryEntry(q).1]
  {
    SplitHead(q, '?');
    assert Pieces(q) == NonEmpty([q]);
    assert [q][1..] == [];
    assert NonEmpty([q]) == [q] + NonEmpty([]);
    var es := QueryEntries([q]);
    assert es == [QueryEntry(q)];
    assert es[..0] == [];
    assert FromEntries(es) == FromEntries(es[..0])[es[0].0 := es[0].1];
  }

  /** `?a=1?b=2` yields both keys; when the two pieces share a key, the second one's value wins. */
  lemma TwoPieces(a: string, b: string)
    requires a != [] && b != [] && '?' !in a && '?' !in b
    ensures GetQueries("?" + a + "?" + b)
      == map[QueryEntry(a).0 := QueryEntry(a).1][QueryEntry(b).0 := QueryEntry(b).1]
  {
    var ea, eb := QueryEntry(a), QueryEntry(b);
    QueriesAppend("?" + a, b);
    SinglePiece(a);
    BarePiece(b);
    UnionSingleton(map[ea.0 := ea.1], eb.0, eb.1);
  }

  /** An empty search has no queries. */
  lemma {:induction false} EmptySearch()
    ensures GetQueries("") == map[]
  {
    assert Split("", '?') == [""];
    assert Pieces("") == [];
  }

  /** The pieces of a search are non-empty and hold no `?`: there is no splitting on `&`. */
  lemma {:induction false} PiecesOfSearch(search: string)
    ensures forall k :: 0 <= k < |Pieces(search)| ==> Pieces(search)[k] != "" && '?' !in Pieces(search)[k]
  {
    var ps := Pieces(search);
    var parts := Split(search, '?');
    SplitPieces(search, '?');
    forall k | 0 <= k < |ps| ensures '?' !in ps[k] {
      var j :| 0 <= j < |parts| && parts[j] == ps[k];
    }
  }

  /** The keys of the query map are the keys of the pieces of the search. */
  lemma {:induction false} QueriesKeys(search: string)
    ensures var ps := Pieces(search);
      GetQueries(search).Keys == set k | 0 <= k < |ps| :: QueryEntry(ps[k]).0
  {
    var ps := Pieces(search);
    var es := QueryEntries(ps);
    FromEntriesKeys(es);
    assert (set k | 0 <= k < |es| :: es[k].0) == set k | 0 <= k < |ps| :: QueryEntry(ps[k]).0;
  }

  /** A key that several pieces share holds the value of the last of them. */
  lemma {:induction false} QueriesLastWins(search: string, k: nat)
    requires k < |Pieces(search)| && LastWithKey(QueryEntries(Pieces(search)), k)
    ensures var e := QueryEntry(Pieces(search)[k]);
      e.0 in GetQueries(search) && GetQueries(search)[e.0] == e.1
  {
    FromEntriesLastWins(QueryEntries(Pieces(search)), k);
  }

  /** `?q` splits into the one piece `q`. */
  lemma OnePiece(q: string)
    requires q != [] && '?' !in q
    ensures Pieces("?" + q) == [q]
  {
    SplitCons("", '?', q);
    assert "" + ['?'] + q == "?" + q;
    SplitHead(q, '?');
    var parts := Split("?" + q, '?');
    assert parts == ["", q];
    assert parts[1..] == [q] && [q][1..] == [];
    assert NonEmpty(parts) == NonEmpty([q]);
    assert NonEmpty([q]) == [q] + NonEmpty([]);
  }

  /** A search of one piece, `?q`, has exactly the entry that `q` reads as. */
  lemma SinglePiece(q: string)
    requires q != [] && '?' !in q
    ensures GetQueries("?" + q) == map[QueryEntry(q).0 := QueryEntry(q).1]
  {
    OnePiece(q);
    var es := QueryEntries([q]);
    assert es == [QueryEntry(q)];
    assert es[..0] == [];
    assert FromEntries(es) == FromEntries(es[..0])[es[0].0 := es[0].1];
  }

  /** A piece without `=` gives its key the value `undefined`: `?b` yields `b` without a value. */
  lemma KeyWithoutValue(k: string)
    requires k != [] && '?' !in k && '=' !in k
    ensures GetQueries("?" + k) == map[k := None]
  {
    SinglePiece(k);
  }

  /**
   * `key=value` gives the key that value; neither `&` nor a later `=` ends
   * the piece, and what follows a second `=` is dropped: `?a=1&b=2` has the
   * one key `a`, holding `1&b`.
   */
  lemma KeyValue(k: string, v: string, rest: string)
    requires '?' !in k + v + rest && '=' !in k && '=' !in v
    requires rest == [] || rest[0] == '='
    ensures GetQueries("?" + k + "=" + v + rest) == map[k := Some(v)]
  {
    var q := k + "=" + v + rest;
    assert "?" + k + "=" + v + rest == "?" + q;
    EntryOfPair(k, v, rest);
    assert '?' !in q;
    SinglePiece(q);
  }

  /** `k=v` followed by nothing or by another `=` splits into `k`, `v` and what follows. */
  lemma SplitPair(k: string, v: string, rest: string)
    requires '=' !in k && '=' !in v
    requires rest == [] || rest[0] == '='
    ensures |Split(k + "=" + v + rest, '=')| >= 2
    ensures Split(k + "=" + v + rest, '=')[0] == k
    ensures Split(k + "=" + v + rest, '=')[1] == v
  {
    assert k + "=" + v + rest == k + ['='] + (v + rest);
    SplitCons(k, '=', v + rest);
    SplitFirst(v, rest, '=');
  }
}
