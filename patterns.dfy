/**
 * Route patterns. `regexURL` turns a route path such as `/task/[id]` into the
 * regular expression `^\/task\/([\w\-]+)$`, and `getParams` reads the named
 * parameters back out of a matching pathname. Here the expression is
 * represented by the sequence of tokens it is built from: each `[name]`
 * becomes a parameter slot that accepts a non-empty run of word characters
 * or hyphens, and every other character stands for itself.
 */
module Patterns {
  import opened Wrappers
  import opened Builtins

  datatype Token = Lit(c: char) | Param(name: string)

  type Pattern = seq<Token>

  /** `[\w\-]`: an ASCII letter, a digit, `_` or `-`. */
  predicate WordChar(c: char)
    ensures WordChar(c) ==> c != '/' && c != '?' && c != '#' && c != '[' && c != ']'
  {
    || 'a' <= c <= 'z' || 'A' <= c <= 'Z' || '0' <= c <= '9' || c == '_' || c == '-'
  }

  /** What `([\w\-]+)` accepts: never a `/`, `?` or `#`, so a value stays within its segment of the pathname. */
  predicate WordRun(v: string)
    ensures WordRun(v) ==> v != [] && '/' !in v && '?' !in v && '#' !in v
  {
    |v| > 0 && forall k :: 0 <= k < |v| ==> WordChar(v[k])
  }

  predicate AllWordRuns(vs: seq<string>) {
    forall k :: 0 <= k < |vs| ==> WordRun(vs[k])
  }

  /** The end of the path segment that starts `s`: the position of its first `/`, or `|s|`. */
  function SegmentEnd(s: string): (n: nat)
    ensures n <= |s|
    ensures n < |s| ==> s[n] == '/'
  {
    if s == [] || s[0] == '/' then 0 else 1 + SegmentEnd(s[1..])
  }

  /** No `/` comes before the end of the first segment. */
  lemma {:induction false} SegmentEndSlashFree(s: string)
    ensures forall k :: 0 <= k < SegmentEnd(s) ==> s[k] != '/'
  {
    if s != [] && s[0] != '/' {
      SegmentEndSlashFree(s[1..]);
      assert forall k :: 1 <= k < SegmentEnd(s) ==> s[k] == s[1..][k - 1];
    }
  }

  /** `SegmentEnd` is the only position before which there is no `/` and at which there is one or the end. */
  lemma {:induction false} SegmentEndUnique(s: string, n: nat)
    requires n <= |s|
    requires forall k :: 0 <= k < n ==> s[k] != '/'
    requires n < |s| ==> s[n] == '/'
    ensures SegmentEnd(s) == n
  {
    if n > 0 {
      assert forall k :: 0 <= k < n - 1 ==> s[1..][k] == s[k + 1];
      SegmentEndUnique(s[1..], n - 1);
    }
  }

  /** The last `]` at a position in `[2, hi)`, if any. */
  function LastClose(s: string, hi: nat): (r: Option<nat>)
    requires hi <= |s|
    ensures r.Some? ==> 2 <= r.value < hi && s[r.value] == ']'
    decreases hi
  {
    if hi <= 2 then None
    else if s[hi - 1] == ']' then Some(hi - 1)
    else LastClose(s, hi - 1)
  }

  /** `LastClose` finds the last `]`: there is none after it, and none at all when it finds nothing. */
  lemma {:induction false} LastCloseIsLast(s: string, hi: nat)
    requires hi <= |s|
    ensures LastClose(s, hi).Some? ==> forall k :: LastClose(s, hi).value < k < hi ==> s[k] != ']'
    ensures LastClose(s, hi).None? ==> forall k :: 2 <= k < hi ==> s[k] != ']'
    decreases hi
  {
    if hi > 2 && s[hi - 1] != ']' {
      LastCloseIsLast(s, hi - 1);
    }
  }

  /**
   * Where `\[[^\/]+\]` ends when it is tried at the start of `s`: the `[^\/]+`
   * is greedy, so the match runs to the last `]` before the end of the
   * segment, and it needs at least one character between the brackets.
   */
  function Bracket(s: string): (r: Option<nat>)
    ensures r.Some? ==> 2 <= r.value < SegmentEnd(s) && s[0] == '[' && s[r.value] == ']'
  {
    if s != [] && s[0] == '[' then LastClose(s, SegmentEnd(s)) else None
  }

  /** A bracket closes within its segment, at the segment's last `]`. */
  lemma BracketInSegment(s: string)
    requires Bracket(s).Some?
    ensures forall k :: 0 <= k <= Bracket(s).value ==> s[k] != '/'
    ensures forall k :: Bracket(s).value < k < SegmentEnd(s) ==> s[k] != ']'
  {
    SegmentEndSlashFree(s);
    LastCloseIsLast(s, SegmentEnd(s));
  }

  /** A segment whose first `j + 1` characters hold no `/` goes on into what follows them. */
  lemma SegmentEndAfter(s: string, j: nat)
    requires j < |s| && forall k :: 0 <= k <= j ==> s[k] != '/'
    ensures SegmentEnd(s) == j + 1 + SegmentEnd(s[j + 1..])
  {
    var rest := s[j + 1..];
    var n := SegmentEnd(rest);
    SegmentEndSlashFree(rest);
    assert forall k :: j + 1 <= k < j + 1 + n ==> s[k] == rest[k - j - 1];
    SegmentEndUnique(s, j + 1 + n);
  }

  /** A character the regular-expression syntax gives a meaning of its own. */
  predicate Meta(c: char) {
    c in "\\^$.|?*+()[]{}"
  }

  /**
   * A route path whose literal characters, outside its `[name]` slots, are
   * not regular-expression metacharacters: `regexURL` escapes only `/`, so
   * only for such paths does every other character match itself.
   */
  predicate PlainPath(path: string) {
    var p := Compile(path);
    forall k :: 0 <= k < |p| ==> p[k].Lit? ==> !Meta(p[k].c)
  }

  /** The path text a token stands for: the character itself, or `[name]`. */
  function TokenSource(t: Token): string {
    match t
    case Lit(c) => [c]
    case Param(name) => "[" + name + "]"
  }

  /** The path a pattern was compiled from. */
  function Source(p: Pattern): string {
    if p == [] then "" else TokenSource(p[0]) + Source(p[1..])
  }

  /**
   * `regexURL(path)`: the global `\[[^\/]+\]` replacement read left to right.
   * Every parameter name is non-empty and lies within one segment.
   */
  function Compile(path: string): (p: Pattern)
    ensures forall k :: 0 <= k < |p| && p[k].Param? ==> p[k].name != [] && '/' !in p[k].name
    decreases |path|
  {
    if path == [] then []
    else match Bracket(path)
      case Some(j) =>
        var name := path[1..j];
        BracketInSegment(path);
        assert forall k :: 0 <= k < |name| ==> name[k] == path[k + 1];
        [Param(name)] + Compile(path[j + 1..])
      case None =>
        [Lit(path[0])] + Compile(path[1..])
  }

  lemma SourceCons(t: Token, p: Pattern)
    ensures Source([t] + p) == TokenSource(t) + Source(p)
  {
    assert ([t] + p)[1..] == p;
  }

  lemma SourceOfParamStep(path: string, j: nat)
    requires Bracket(path) == Some(j)
    requires Source(Compile(path[j + 1..])) == path[j + 1..]
    ensures Source(Compile(path)) == path
  {
    var name, rest := path[1..j], path[j + 1..];
    var tail := Compile(rest);
    CompileParamStep(path, j);
    SourceCons(Param(name), tail);
    BracketText(path, j);
  }

  /** A bracket at the head of the path becomes one slot, and compiling goes on after it. */
  lemma CompileParamStep(path: string, j: nat)
    requires Bracket(path) == Some(j)
    ensures Compile(path) == [Param(path[1..j])] + Compile(path[j + 1..])
  {
  }

  /** A string that opens with `[` and holds `]` at `j` is its bracketed name and what follows. */
  lemma BracketText(s: string, j: nat)
    requires 2 <= j < |s| && s[0] == '[' && s[j] == ']'
    ensures s == "[" + s[1..j] + "]" + s[j + 1..]
  {
    assert s == s[..1] + s[1..j] + s[j..j + 1] + s[j + 1..];
  }

  lemma SourceOfLitStep(path: string)
    requires path != [] && Bracket(path).None?
    requires Source(Compile(path[1..])) == path[1..]
    ensures Source(Compile(path)) == path
  {
    var tail := Compile(path[1..]);
    CompileLitStep(path);
    SourceCons(Lit(path[0]), tail);
    assert path == [path[0]] + path[1..];
  }

  /** A character that does not open a bracket is a literal, and compiling goes on after it. */
  lemma CompileLitStep(path: string)
    requires path != [] && Bracket(path).None?
    ensures Compile(path) == [Lit(path[0])] + Compile(path[1..])
  {
  }

  /** The compiled pattern loses nothing of the path it was compiled from. */
  lemma {:induction false} CompileSource(path: string)
    ensures Source(Compile(path)) == path
    decreases |path|
  {
    if path != [] {
      match Bracket(path)
      case Some(j) =>
        CompileSource(path[j + 1..]);
        SourceOfParamStep(path, j);
      case None =>
        CompileSource(path[1..]);
        SourceOfLitStep(path);
    }
  }

  /** The names of the parameter slots, left to right. */
  function ParamNames(p: Pattern): (names: seq<string>)
    ensures |names| <= |p|
  {
    if p == [] then []
    else if p[0].Param? then [p[0].name] + ParamNames(p[1..])
    else ParamNames(p[1..])
  }

  /** A literal has no slot name, a slot has its own, and a concatenation has the names of its parts in order. */
  lemma {:induction false} ParamNamesAppend(p: Pattern, q: Pattern)
    ensures ParamNames(p + q) == ParamNames(p) + ParamNames(q)
  {
    if p == [] {
      assert p + q == q;
    } else {
      assert (p + q)[0] == p[0] && (p + q)[1..] == p[1..] + q;
      ParamNamesAppend(p[1..], q);
    }
  }

  lemma ParamNamesOfToken(t: Token)
    ensures ParamNames([t]) == if t.Param? then [t.name] else []
  {
    assert [t][1..] == [];
  }

  /**
   * `Array.from(path.matchAll(/\[([^\/]+)\]/g)).map(result => result[1])`:
   * the group of every match, left to right. A match is tried at each
   * position in turn and, once found, the search resumes after it.
   */
  function BracketNames(path: string): (names: seq<string>)
    ensures |names| <= |path|
    decreases |path|
  {
    if path == [] then []
    else match Bracket(path)
      case Some(j) => [path[1..j]] + BracketNames(path[j + 1..])
      case None => BracketNames(path[1..])
  }

  /**
   * The names `getParams` reads off the path are the slots of the compiled
   * pattern, in order: `matchAll` and `regexURL`'s `replace` run the same
   * expression over the same path, so they meet the same brackets.
   */
  lemma {:induction false} ParamNamesOfCompile(path: string)
    ensures ParamNames(Compile(path)) == BracketNames(path)
    decreases |path|
  {
    if path != [] {
      match Bracket(path)
      case Some(j) =>
        var tail := Compile(path[j + 1..]);
        CompileParamStep(path, j);
        ParamNamesOfCompile(path[j + 1..]);
        assert ([Param(path[1..j])] + tail)[1..] == tail;
      case None =>
        var tail := Compile(path[1..]);
        CompileLitStep(path);
        ParamNamesOfCompile(path[1..]);
        assert ([Lit(path[0])] + tail)[1..] == tail;
    }
  }

  /** The pattern with its slots filled in by `vals`, left to right: the strings the pattern denotes. */
  function Fill(p: Pattern, vals: seq<string>): string
    requires |vals| == |ParamNames(p)|
  {
    if p == [] then ""
    else match p[0]
      case Lit(c) => [c] + Fill(p[1..], vals)
      case Param(_) => vals[0] + Fill(p[1..], vals[1..])
  }

  /** The tokens before the next `/` literal are literals. */
  predicate NoParamBeforeSlash(p: Pattern) {
    p == [] || p[0] == Lit('/') || (p[0].Lit? && NoParamBeforeSlash(p[1..]))
  }

  /** At most one parameter slot per `/`-separated segment. */
  predicate OneParamPerSegment(p: Pattern) {
    p == [] || ((p[0].Param? ==> NoParamBeforeSlash(p[1..])) && OneParamPerSegment(p[1..]))
  }

  /** A path segment that holds no `]` compiles to literals only. */
  lemma {:induction false} NoCloseNoParam(s: string)
    requires forall k :: 0 <= k < SegmentEnd(s) ==> s[k] != ']'
    ensures NoParamBeforeSlash(Compile(s))
    decreases |s|
  {
    if s != [] && s[0] != '/' {
      assert Bracket(s).None?;
      assert forall k :: 0 <= k < SegmentEnd(s[1..]) ==> s[1..][k] == s[k + 1];
      NoCloseNoParam(s[1..]);
      CompileLitStep(s);
    }
  }

  /**
   * Because `[^\/]+` is greedy, a bracket takes in everything up to the last
   * `]` of its segment, so no segment yields two parameter slots.
   */
  lemma {:induction false} CompileOneParamPerSegment(path: string)
    ensures OneParamPerSegment(Compile(path))
    decreases |path|
  {
    if path != [] {
      match Bracket(path)
      case Some(j) =>
        var rest := path[j + 1..];
        BracketInSegment(path);
        SegmentEndAfter(path, j);
        assert forall k :: 0 <= k < SegmentEnd(rest) ==> rest[k] != ']' by {
          assert forall k :: 0 <= k < SegmentEnd(rest) ==> rest[k] == path[k + j + 1];
        }
        NoCloseNoParam(rest);
        CompileOneParamPerSegment(rest);
        CompileParamStep(path, j);
        assert Compile(path)[1..] == Compile(rest);
      case None =>
        CompileOneParamPerSegment(path[1..]);
        CompileLitStep(path);
        assert Compile(path)[1..] == Compile(path[1..]);
    }
  }

  /** The number of literals, none of them `/`, before the first `/` literal or slot. */
  function LitRun(p: Pattern): (n: nat)
    ensures n <= |p|
  {
    if p == [] || p[0] == Lit('/') || p[0].Param? then 0 else 1 + LitRun(p[1..])
  }

  /**
   * The regular expression of a pattern applied to a pathname: the values
   * of the slots when it matches, `None` when it does not. A slot's value
   * ends where the segment's remaining literals begin.
   */
  function Match(p: Pattern, s: string): (r: Option<seq<string>>)
    ensures r.Some? ==> |r.value| == |ParamNames(p)|
    decreases |p|
  {
    if p == [] then (if s == [] then Some([]) else None)
    else match p[0]
      case Lit(c) =>
        if s != [] && s[0] == c then Match(p[1..], s[1..]) else None
      case Param(_) =>
        var k := SegmentEnd(s) - LitRun(p[1..]);
        if k < 1 || !WordRun(s[..k]) then None
        else match Match(p[1..], s[k..])
          case None => None
          case Some(vs) => Some([s[..k]] + vs)
  }

  /** What the matcher accepts is the pattern with its slots filled in by the captured word runs. */
  lemma {:induction false} MatchSound(p: Pattern, s: string, vals: seq<string>)
    requires Match(p, s) == Some(vals)
    ensures |vals| == |ParamNames(p)| && AllWordRuns(vals) && Fill(p, vals) == s
    decreases |p|
  {
    if p != [] {
      match p[0]
      case Lit(c) =>
        MatchLitStep(p, s);
        MatchSound(p[1..], s[1..], vals);
        FillLitStep(p, vals);
        assert s == [c] + s[1..];
      case Param(_) =>
        var k := SegmentEnd(s) - LitRun(p[1..]);
        MatchParamStep(p, s, k);
        var v, vs := s[..k], Match(p[1..], s[k..]).value;
        assert vals == [v] + vs;
        MatchSound(p[1..], s[k..], vs);
        FillParamStep(p, vals);
        assert vals[1..] == vs;
        assert s == v + s[k..];
    }
  }

  /** A literal at the head of the pattern must be the head of the pathname. */
  lemma MatchLitStep(p: Pattern, s: string)
    requires p != [] && p[0].Lit? && Match(p, s).Some?
    ensures s != [] && s[0] == p[0].c && Match(p, s) == Match(p[1..], s[1..])
  {
  }

  /** A slot at the head of the pattern captures the word run that leaves room for the segment's literals. */
  lemma MatchParamStep(p: Pattern, s: string, k: int)
    requires p != [] && p[0].Param? && Match(p, s).Some?
    requires k == SegmentEnd(s) - LitRun(p[1..])
    ensures 1 <= k <= |s| && WordRun(s[..k]) && Match(p[1..], s[k..]).Some?
    ensures Match(p, s).value == [s[..k]] + Match(p[1..], s[k..]).value
  {
  }

  lemma FillLitStep(p: Pattern, vals: seq<string>)
    requires p != [] && p[0].Lit? && |vals| == |ParamNames(p)|
    ensures |vals| == |ParamNames(p[1..])| && Fill(p, vals) == [p[0].c] + Fill(p[1..], vals)
  {
  }

  lemma FillParamStep(p: Pattern, vals: seq<string>)
    requires p != [] && p[0].Param? && |vals| == |ParamNames(p)|
    ensures |vals| >= 1 && |vals[1..]| == |ParamNames(p[1..])|
    ensures Fill(p, vals) == vals[0] + Fill(p[1..], vals[1..])
  {
  }

  /** The segment of a filled-in pattern ends after the literals that precede its next `/`. */
  lemma {:induction false} FillSegmentEnd(p: Pattern, vals: seq<string>)
    requires NoParamBeforeSlash(p) && |vals| == |ParamNames(p)|
    ensures SegmentEnd(Fill(p, vals)) == LitRun(p)
    decreases |p|
  {
    if p != [] && p[0] != Lit('/') {
      var t := Fill(p[1..], vals);
      FillSegmentEnd(p[1..], vals);
      assert Fill(p, vals) == [p[0].c] + t;
      assert Fill(p, vals)[1..] == t;
    }
  }

  /** A word run in front of a string lengthens its first segment by its own length. */
  lemma SegmentEndAfterRun(v: string, t: string)
    requires WordRun(v)
    ensures SegmentEnd(v + t) == |v| + SegmentEnd(t)
  {
    var n := SegmentEnd(t);
    SegmentEndSlashFree(t);
    assert forall k :: 0 <= k < |v| ==> (v + t)[k] == v[k];
    assert forall k :: |v| <= k < |v| + n ==> (v + t)[k] == t[k - |v|];
    SegmentEndUnique(v + t, |v| + n);
  }

  /**
   * The matcher finds every way the pattern denotes the pathname: with at
   * most one slot per segment, the slot values are the only ones there are.
   */
  lemma {:induction false} MatchComplete(p: Pattern, vals: seq<string>, s: string)
    requires OneParamPerSegment(p) && |vals| == |ParamNames(p)| && AllWordRuns(vals)
    requires Fill(p, vals) == s
    ensures Match(p, s) == Some(vals)
    decreases |p|
  {
    if p != [] {
      match p[0]
      case Lit(c) =>
        assert s == [c] + Fill(p[1..], vals);
        assert s[1..] == Fill(p[1..], vals);
        MatchComplete(p[1..], vals, s[1..]);
      case Param(_) =>
        var v, rest := vals[0], vals[1..];
        var t := Fill(p[1..], rest);
        assert s == v + t;
        assert WordRun(v);
        FillSegmentEnd(p[1..], rest);
        SegmentEndAfterRun(v, t);
        var k := SegmentEnd(s) - LitRun(p[1..]);
        assert k == |v|;
        assert s[..k] == v && s[k..] == t;
        assert AllWordRuns(rest) by {
          assert forall i :: 0 <= i < |rest| ==> rest[i] == vals[i + 1];
        }
        MatchComplete(p[1..], rest, t);
        assert vals == [v] + rest;
    }
  }

  /** The pathname is the pattern with every slot filled in by a non-empty run of word characters or hyphens. */
  ghost predicate Denotes(p: Pattern, s: string) {
    exists vals :: |vals| == |ParamNames(p)| && AllWordRuns(vals) && Fill(p, vals) == s
  }

  /**
   * A compiled route path accepts a pathname exactly when the pathname is the
   * path with every `[name]` replaced by a word run, and nothing longer or
   * shorter: the expression is anchored at both ends.
   */
  lemma {:induction false} CompiledMatch(path: string, s: string)
    ensures Match(Compile(path), s).Some? <==> Denotes(Compile(path), s)
  {
    var p := Compile(path);
    if Match(p, s).Some? {
      MatchSound(p, s, Match(p, s).value);
    }
    if Denotes(p, s) {
      var vals :| |vals| == |ParamNames(p)| && AllWordRuns(vals) && Fill(p, vals) == s;
      CompileOneParamPerSegment(path);
      MatchComplete(p, vals, s);
    }
  }

  function Zip(keys: seq<string>, vals: seq<string>): (es: seq<(string, string)>)
    requires |keys| == |vals|
    ensures |es| == |keys|
    ensures forall k :: 0 <= k < |es| ==> es[k] == (keys[k], vals[k])
  {
    if keys == [] then [] else [(keys[0], vals[0])] + Zip(keys[1..], vals[1..])
  }

  /** The keys of a zip, as a set, are the keys it was made from. */
  lemma ZipKeys(keys: seq<string>, vals: seq<string>)
    requires |keys| == |vals|
    ensures var es := Zip(keys, vals);
      (set i | 0 <= i < |es| :: es[i].0) == set i | 0 <= i < |keys| :: keys[i]
  {
    var es := Zip(keys, vals);
    assert forall i :: 0 <= i < |es| ==> es[i].0 == keys[i];
  }

  /**
   * `getParams`: when the pathname matches, each slot name maps to its
   * capture (`Object.fromEntries(keys.map((key, i) => [key, values[i]]))`);
   * otherwise the map is empty.
   */
  function GetParams(p: Pattern, pathname: string): (params: map<string, string>)
    ensures Match(p, pathname).None? ==> params == map[]
    ensures Match(p, pathname).Some? ==>
      params.Keys == set i | 0 <= i < |ParamNames(p)| :: ParamNames(p)[i]
  {
    match Match(p, pathname)
    case None => map[]
    case Some(vs) =>
      var names := ParamNames(p);
      var es := Zip(names, vs);
      FromEntriesKeys(es);
      ZipKeys(names, vs);
      FromEntries(es)
  }

  /**
   * The parameters of a pathname that fills the slots of a compiled path
   * with `vals`: exactly the slot names are keys, and a name used twice
   * takes the value of its later slot.
   */
  lemma {:induction false} ParamsOfFilledPath(path: string, vals: seq<string>, k: nat)
    requires |vals| == |ParamNames(Compile(path))| && AllWordRuns(vals)
    requires k < |vals| && LastWithKey(Zip(ParamNames(Compile(path)), vals), k)
    ensures var params := GetParams(Compile(path), Fill(Compile(path), vals));
      var names := ParamNames(Compile(path));
      && params.Keys == (set i | 0 <= i < |names| :: names[i])
      && params[names[k]] == vals[k]
  {
    var p := Compile(path);
    var names := ParamNames(p);
    CompileOneParamPerSegment(path);
    MatchComplete(p, vals, Fill(p, vals));
    var es := Zip(names, vals);
    FromEntriesKeys(es);
    FromEntriesLastWins(es, k);
    assert (set i | 0 <= i < |es| :: es[i].0) == (set i | 0 <= i < |names| :: names[i]);
  }

  /**
   * `routes.find(route => pathname.match(route.regex))`: the first pattern
   * that accepts the pathname, or `None` when none does.
   */
  function FirstMatch(patterns: seq<Pattern>, pathname: string): (r: Option<nat>)
    ensures r.Some? ==> r.value < |patterns| && Match(patterns[r.value], pathname).Some?
    ensures r.Some? ==> forall j :: 0 <= j < r.value ==> Match(patterns[j], pathname).None?
    ensures r.None? ==> forall j :: 0 <= j < |patterns| ==> Match(patterns[j], pathname).None?
  {
    if patterns == [] then None
    else if Match(patterns[0], pathname).Some? then Some(0)
    else match FirstMatch(patterns[1..], pathname)
      case None => None
      case Some(i) => Some(i + 1)
  }
}
