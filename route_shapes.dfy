/**
 * The two shapes the route paths of an application take: a plain path such
 * as `/settings`, and a plain prefix followed by one `[name]` slot such as
 * `/task/[id]`. For each, what the compiled matcher accepts and which
 * parameters `getParams` reads, derived from the general lemmas about
 * compiling and matching.
 */
module RouteShapes {
  import opened Wrappers
  import opened Builtins
  import opened Patterns

  /** The pattern of a path without brackets: one literal per character. */
  function Lits(s: string): (p: Pattern)
    ensures |p| == |s|
    ensures forall k :: 0 <= k < |s| ==> p[k] == Lit(s[k])
  {
    if s == [] then [] else [Lit(s[0])] + Lits(s[1..])
  }

  /** Text without a `[` compiles to its own characters. */
  lemma {:induction false} CompileAfterPlain(a: string, b: string)
    requires '[' !in a
    ensures Compile(a + b) == Lits(a) + Compile(b)
  {
    if a != [] {
      assert (a + b)[0] == a[0];
      assert (a + b)[1..] == a[1..] + b;
      assert Bracket(a + b).None?;
      CompileLitStep(a + b);
      CompileAfterPlain(a[1..], b);
      assert Lits(a) == [Lit(a[0])] + Lits(a[1..]);
    } else {
      assert a + b == b;
    }
  }

  /** A bracket that closes at the end of its segment becomes one slot. */
  lemma CompileParamSegment(name: string, post: string)
    requires name != [] && '/' !in name
    requires post == [] || post[0] == '/'
    ensures Compile("[" + name + "]" + post) == [Param(name)] + Compile(post)
  {
    var s := "[" + name + "]" + post;
    var n := |name|;
    assert s[0] == '[' && s[n + 1] == ']';
    assert forall k :: 1 <= k <= n ==> s[k] == name[k - 1];
    assert forall k :: n + 2 <= k < |s| ==> s[k] == post[k - n - 2];
    SegmentEndUnique(s, n + 2);
    assert LastClose(s, n + 2) == Some(n + 1);
    assert Bracket(s) == Some(n + 1);
    CompileParamStep(s, n + 1);
    assert s[1..n + 1] == name;
    assert s[n + 2..] == post;
  }

  /** A bracketed name on its own compiles to one slot. */
  lemma CompileBracket(name: string)
    requires name != [] && '/' !in name
    ensures Compile("[" + name + "]") == [Param(name)]
  {
    CompileParamSegment(name, "");
    assert "[" + name + "]" + "" == "[" + name + "]";
  }

  /** A plain prefix and a bracketed name compile to the prefix's literals and one slot. */
  lemma CompileSlotRoute(a: string, name: string)
    requires '[' !in a && name != [] && '/' !in name
    ensures Compile(a + "[" + name + "]") == Lits(a) + [Param(name)]
  {
    var tail := "[" + name + "]";
    assert a + "[" + name + "]" == a + tail;
    CompileAfterPlain(a, tail);
    CompileBracket(name);
  }

  lemma {:induction false} NamesLitsThenParam(a: string, name: string)
    ensures ParamNames(Lits(a) + [Param(name)]) == [name]
  {
    var p := Lits(a) + [Param(name)];
    if a == [] {
      assert p == [Param(name)];
      assert p[1..] == [];
    } else {
      NamesLitsThenParam(a[1..], name);
      assert p[1..] == Lits(a[1..]) + [Param(name)];
    }
  }

  lemma {:induction false} FillLitsThenParam(a: string, name: string, v: string)
    requires ParamNames(Lits(a) + [Param(name)]) == [name]
    ensures Fill(Lits(a) + [Param(name)], [v]) == a + v
  {
    var p := Lits(a) + [Param(name)];
    if a == [] {
      assert p == [Param(name)];
      assert p[1..] == [];
    } else {
      assert p[1..] == Lits(a[1..]) + [Param(name)];
      NamesLitsThenParam(a[1..], name);
      FillLitsThenParam(a[1..], name, v);
      assert a + v == [a[0]] + (a[1..] + v);
    }
  }

  lemma OneSlotFilled(a: string, name: string, vs: seq<string>, s: string)
    requires |vs| == |ParamNames(Lits(a) + [Param(name)])| && AllWordRuns(vs)
    requires Fill(Lits(a) + [Param(name)], vs) == s
    ensures |a| <= |s| && s[..|a|] == a && WordRun(s[|a|..])
  {
    NamesLitsThenParam(a, name);
    FillLitsThenParam(a, name, vs[0]);
    assert vs == [vs[0]];
    assert s == a + vs[0];
    assert s[|a|..] == vs[0];
  }

  lemma PrefixRunDenoted(a: string, name: string, s: string)
    requires |a| <= |s| && s[..|a|] == a && WordRun(s[|a|..])
    ensures Denotes(Lits(a) + [Param(name)], s)
  {
    var v := s[|a|..];
    NamesLitsThenParam(a, name);
    FillLitsThenParam(a, name, v);
    assert s == s[..|a|] + s[|a|..];
    assert AllWordRuns([v]);
  }

  /**
   * A route path made of a plain prefix and one slot, such as `/task/[id]`,
   * accepts exactly the pathnames that start with the prefix and go on
   * with a non-empty run of word characters or hyphens to the end: so
   * `/task/42` is a task, while `/task/42/extra` (a `/` in the run) and
   * `/task/` (an empty run) are not.
   */
  lemma SlotRouteMatch(a: string, name: string, s: string)
    requires '[' !in a && name != [] && '/' !in name
    ensures Match(Compile(a + "[" + name + "]"), s).Some? <==> |a| <= |s| && s[..|a|] == a && WordRun(s[|a|..])
  {
    var p := Lits(a) + [Param(name)];
    CompileSlotRoute(a, name);
    CompiledMatch(a + "[" + name + "]", s);
    if Denotes(p, s) {
      var vs :| |vs| == |ParamNames(p)| && AllWordRuns(vs) && Fill(p, vs) == s;
      OneSlotFilled(a, name, vs, s);
    }
    if |a| <= |s| && s[..|a|] == a && WordRun(s[|a|..]) {
      PrefixRunDenoted(a, name, s);
    }
  }

  /** On a pathname it accepts, such a route has the one parameter `name`, holding the run after the prefix. */
  lemma SlotRouteParams(a: string, name: string, s: string)
    requires '[' !in a && name != [] && '/' !in name
    requires |a| <= |s| && s[..|a|] == a && WordRun(s[|a|..])
    ensures GetParams(Compile(a + "[" + name + "]"), s) == map[name := s[|a|..]]
  {
    var path := a + "[" + name + "]";
    var v := s[|a|..];
    CompileSlotRoute(a, name);
    NamesLitsThenParam(a, name);
    FillLitsThenParam(a, name, v);
    assert s == a + v;
    assert AllWordRuns([v]);
    ParamsOfFilledPath(path, [v], 0);
  }

  /**
   * `[^\/]+` is greedy: two brackets in one segment become a single slot
   * whose name runs from the first `[` to the last `]`.
   */
  lemma GreedyBracket(a: string, n1: string, m: string, n2: string)
    requires '[' !in a && n1 != [] && '/' !in n1 + m + n2
    ensures Compile(a + "[" + n1 + "]" + m + "[" + n2 + "]") == Lits(a) + [Param(n1 + "]" + m + "[" + n2)]
  {
    var name := n1 + "]" + m + "[" + n2;
    assert a + "[" + n1 + "]" + m + "[" + n2 + "]" == a + "[" + name + "]";
    assert '/' !in name;
    CompileSlotRoute(a, name);
  }

  lemma {:induction false} FillLits(a: string)
    ensures ParamNames(Lits(a)) == [] && Fill(Lits(a), []) == a
  {
    if a != [] {
      FillLits(a[1..]);
      assert Lits(a)[1..] == Lits(a[1..]);
    }
  }

  /** A route path without brackets, such as `/settings`, accepts itself and nothing else. */
  lemma PlainPathMatch(a: string, s: string)
    requires '[' !in a
    ensures Match(Compile(a), s).Some? <==> s == a
  {
    CompileAfterPlain(a, "");
    assert a + "" == a;
    assert Compile("") == [];
    FillLits(a);
    CompiledMatch(a, s);
    if s == a {
      assert AllWordRuns([]);
    }
  }

  /**
   * First match, not best match: a slot route registered before a plain
   * route that spells one of its pathnames, as `/[x]` before `/settings`,
   * takes that pathname.
   */
  lemma EarlierRouteWins(a: string, x: string, w: string, later: seq<Pattern>)
    requires '[' !in a && x != [] && '/' !in x && WordRun(w)
    ensures FirstMatch([Compile(a + "[" + x + "]")] + later, a + w) == Some(0)
  {
    var s := a + w;
    assert s[..|a|] == a && s[|a|..] == w;
    SlotRouteMatch(a, x, s);
    assert ([Compile(a + "[" + x + "]")] + later)[0] == Compile(a + "[" + x + "]");
  }
}
