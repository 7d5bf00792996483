/**
 * The JavaScript built-ins the router relies on, on strings of characters:
 * `String.prototype.indexOf`, `String.prototype.split` with a one-character
 * separator and `Object.fromEntries`.
 */
module Builtins {

  /** `s.indexOf(c)`: the position of the first `c` in `s`, or -1 when there is none. */
  function IndexOf(s: string, c: char): (i: int)
    ensures -1 <= i < |s|
    ensures i == -1 <==> c !in s
    ensures 0 <= i ==> s[i] == c && c !in s[..i]
  {
    if s == [] then -1
    else if s[0] == c then 0
    else
      var j := IndexOf(s[1..], c);
      if j == -1 then -1
      else
        assert s[..j + 1] == [s[0]] + s[1..][..j];
        j + 1
  }

  /** The first occurrence of `c` is the only one before the end of `pre + [c]`. */
  lemma {:induction false} IndexOfAfterPrefix(pre: string, c: char, post: string)
    requires c !in pre
    ensures IndexOf(pre + [c] + post, c) == |pre|
  {
    var s := pre + [c] + post;
    assert s[|pre|] == c;
  }

  /** Inverse of `Split`: glue the pieces together with `d` between them (`parts.join(d)`). */
  function Join(parts: seq<string>, d: char): string
    requires |parts| >= 1
  {
    if |parts| == 1 then parts[0] else parts[0] + [d] + Join(parts[1..], d)
  }

  /**
   * `s.split(d)`: the pieces of `s` between the occurrences of `d`. There is
   * always at least one piece; `"".split(d)` is `[""]`.
   */
  function Split(s: string, d: char): (parts: seq<string>)
    ensures |parts| >= 1
    decreases |s|
  {
    var i := IndexOf(s, d);
    if i == -1 then [s] else [s[..i]] + Split(s[i + 1..], d)
  }

  /** No piece of `s.split(d)` contains `d`. */
  lemma {:induction false} SplitPieces(s: string, d: char)
    ensures forall k :: 0 <= k < |Split(s, d)| ==> d !in Split(s, d)[k]
    decreases |s|
  {
    var i := IndexOf(s, d);
    if i != -1 {
      SplitPieces(s[i + 1..], d);
      var rest := Split(s[i + 1..], d);
      assert Split(s, d) == [s[..i]] + rest;
    }
  }

  /** Joining the pieces with the separator gives back the string that was split. */
  lemma {:induction false} JoinSplit(s: string, d: char)
    ensures Join(Split(s, d), d) == s
    decreases |s|
  {
    var i := IndexOf(s, d);
    if i != -1 {
      var rest := Split(s[i + 1..], d);
      var parts := Split(s, d);
      assert parts == [s[..i]] + rest;
      assert parts[0] == s[..i] && parts[1..] == rest;
      assert Join(parts, d) == s[..i] + [d] + Join(rest, d);
      JoinSplit(s[i + 1..], d);
      assert s == s[..i] + [d] + s[i + 1..];
    }
  }

  /** Splitting undoes joining pieces that do not contain the separator. */
  lemma {:induction false} SplitJoin(parts: seq<string>, d: char)
    requires |parts| >= 1
    requires forall k :: 0 <= k < |parts| ==> d !in parts[k]
    ensures Split(Join(parts, d), d) == parts
  {
    if |parts| == 1 {
      assert Join(parts, d) == parts[0];
    } else {
      var tail := Join(parts[1..], d);
      var s := Join(parts, d);
      assert s == parts[0] + [d] + tail;
      IndexOfAfterPrefix(parts[0], d, tail);
      assert s[..|parts[0]|] == parts[0];
      assert s[|parts[0]| + 1..] == tail;
      SplitJoin(parts[1..], d);
    }
  }

  /** Splitting text that opens with a separator-free `pre` and a separator peels off `pre`. */
  lemma SplitCons(pre: string, d: char, post: string)
    requires d !in pre
    ensures Split(pre + [d] + post, d) == [pre] + Split(post, d)
  {
    var s := pre + [d] + post;
    IndexOfAfterPrefix(pre, d, post);
    assert s[..|pre|] == pre;
    assert s[|pre| + 1..] == post;
  }

  /** The first piece of `s.split(d)` is the text before the first `d`. */
  lemma {:induction false} SplitHead(s: string, d: char)
    ensures d !in s ==> Split(s, d) == [s]
    ensures d in s ==>
      && |Split(s, d)| >= 2
      && Split(s, d)[0] == s[..IndexOf(s, d)]
      && Split(s, d)[1..] == Split(s[IndexOf(s, d) + 1..], d)
  {
  }

  /** The first piece is the text before the first `d`, followed by `d` or by the end. */
  lemma SplitFirst(pre: string, post: string, d: char)
    requires d !in pre && (post == [] || post[0] == d)
    ensures Split(pre + post, d)[0] == pre
  {
    var s := pre + post;
    if post == [] {
      assert s == pre;
    } else {
      assert s == pre + [d] + post[1..];
      IndexOfAfterPrefix(pre, d, post[1..]);
      assert s[..|pre|] == pre;
    }
  }

  /** A string cut at one separator splits into the pieces of its two sides, in order. */
  lemma {:induction false} SplitAppend(a: string, d: char, b: string)
    ensures Split(a + [d] + b, d) == Split(a, d) + Split(b, d)
    decreases |a|
  {
    if d !in a {
      SplitCons(a, d, b);
      SplitHead(a, d);
    } else {
      var i := IndexOf(a, d);
      var a1, a2 := a[..i], a[i + 1..];
      assert a == a1 + [d] + a2;
      assert a + [d] + b == a1 + [d] + (a2 + [d] + b);
      SplitAppend(a2, d, b);
      SplitAppendStep(a1, a2, d, b);
    }
  }

  /** The inductive step of `SplitAppend`: a separator-free head peels off on both sides. */
  lemma SplitAppendStep(a1: string, a2: string, d: char, b: string)
    requires d !in a1
    requires Split(a2 + [d] + b, d) == Split(a2, d) + Split(b, d)
    ensures Split(a1 + [d] + (a2 + [d] + b), d) == Split(a1 + [d] + a2, d) + Split(b, d)
  {
    SplitCons(a1, d, a2 + [d] + b);
    SplitCons(a1, d, a2);
    ConsAppend(a1, Split(a2, d), Split(b, d));
  }

  /** Map algebra for the proofs about `Object.fromEntries`: a union with a one-key map is an update. */
  lemma UnionSingleton<K, V>(m: map<K, V>, k: K, v: V)
    ensures m + map[k := v] == m[k := v]
  {
  }

  /** Sequence algebra for the proofs about `split`: re-associating a concatenation behind a head. */
  lemma ConsAppend<T>(x: T, p: seq<T>, q: seq<T>)
    ensures [x] + (p + q) == [x] + p + q
  {
  }

  /** No entry after position `k` has the same key as entry `k`. */
  predicate LastWithKey<V>(entries: seq<(string, V)>, k: nat)
    requires k < |entries|
  {
    forall j :: k < j < |entries| ==> entries[j].0 != entries[k].0
  }

  /** `Object.fromEntries(entries)`: later entries overwrite earlier ones with the same key. */
  function FromEntries<V>(entries: seq<(string, V)>): (m: map<string, V>)
    ensures entries != [] ==> entries[|entries| - 1].0 in m && m[entries[|entries| - 1].0] == entries[|entries| - 1].1
  {
    if entries == [] then map[]
    else FromEntries(entries[..|entries| - 1])[entries[|entries| - 1].0 := entries[|entries| - 1].1]
  }

  /** The keys of `Object.fromEntries(entries)` are exactly the keys of the entries. */
  lemma {:induction false} FromEntriesKeys<V>(entries: seq<(string, V)>)
    ensures FromEntries(entries).Keys == set k | 0 <= k < |entries| :: entries[k].0
  {
    if entries != [] {
      var n := |entries| - 1;
      var init := entries[..n];
      FromEntriesKeys(init);
      var keys := set k | 0 <= k < |entries| :: entries[k].0;
      var initKeys := set k | 0 <= k < n :: init[k].0;
      forall key | key in keys ensures key in initKeys + {entries[n].0} {
        var k :| 0 <= k < |entries| && entries[k].0 == key;
        if k < n { assert init[k].0 == key; }
      }
      forall key | key in initKeys ensures key in keys {
        var k :| 0 <= k < n && init[k].0 == key;
        assert entries[k].0 == key;
      }
      assert keys == initKeys + {entries[n].0};
    }
  }

  /** A key that occurs several times takes the value of its last entry. */
  lemma {:induction false} FromEntriesLastWins<V>(entries: seq<(string, V)>, k: nat)
    requires k < |entries| && LastWithKey(entries, k)
    ensures entries[k].0 in FromEntries(entries)
    ensures FromEntries(entries)[entries[k].0] == entries[k].1
  {
    var n := |entries| - 1;
    if k < n {
      var init := entries[..n];
      assert init[k] == entries[k];
      assert LastWithKey(init, k) by {
        forall j | k < j < |init| ensures init[j].0 != init[k].0 {
          assert init[j] == entries[j];
        }
      }
      FromEntriesLastWins(init, k);
      assert entries[n].0 != entries[k].0;
    }
  }

  /** The entries of two lists, one after the other: the second list's keys override the first's. */
  lemma {:induction false} FromEntriesAppend<V>(x: seq<(string, V)>, y: seq<(string, V)>)
    ensures FromEntries(x + y) == FromEntries(x) + FromEntries(y)
    decreases |y|
  {
    if y == [] {
      assert x + y == x;
    } else {
      var n := |y| - 1;
      assert (x + y)[..|x + y| - 1] == x + y[..n];
      assert (x + y)[|x + y| - 1] == y[n];
      FromEntriesAppend(x, y[..n]);
    }
  }
}
