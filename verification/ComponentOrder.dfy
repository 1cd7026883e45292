/**
 Model of the first half of src/util/component.c: registering the components a
 program needs and putting them into an order in which dependencies come first.
 */
module ComponentOrder {
  import opened Sequences

  type Comp = nat

  /** The component descriptors of a program and their dependency lists. */
  datatype Graph = Graph(deps: map<Comp, seq<Comp>>) {
    predicate Valid() {
      forall c <- deps.Keys :: forall i :: 0 <= i < |deps[c]| ==> deps[c][i] in deps
    }
  }

  ghost predicate Known(g: Graph, s: seq<Comp>) { forall i :: 0 <= i < |s| ==> s[i] in g.deps }

  /** All dependencies of `c` are in `s` (`allDependencies`). */
  predicate Met(g: Graph, c: Comp, s: seq<Comp>)
    requires c in g.deps
  {
    forall i :: 0 <= i < |g.deps[c]| ==> g.deps[c][i] in s
  }

  /** `s` is closed under dependencies. */
  ghost predicate Closed(g: Graph, s: set<Comp>) {
    forall c, i :: c in s && c in g.deps && 0 <= i < |g.deps[c]| ==> g.deps[c][i] in s
  }

  ghost function Elements(s: seq<Comp>): set<Comp> { set c | c in s }

  /** Every component comes after all its dependencies. */
  ghost predicate Topological(g: Graph, s: seq<Comp>) {
    && Known(g, s)
    && forall i {:trigger Met(g, s[i], s[..i])} :: 0 <= i < |s| ==> Met(g, s[i], s[..i])
  }

  /** The path leads from its element `i` to a dependency of it. */
  ghost predicate Step(g: Graph, p: seq<Comp>, i: nat)
    requires i < |p| - 1
  {
    p[i] in g.deps && p[i + 1] in g.deps[p[i]]
  }

  /** A path along dependencies that ends where it began. */
  ghost predicate Cycle(g: Graph, p: seq<Comp>) {
    && |p| >= 2 && p[0] == p[|p| - 1]
    && forall i :: 0 <= i < |p| - 1 ==> Step(g, p, i)
  }

  ghost predicate Acyclic(g: Graph, s: set<Comp>) {
    forall p: seq<Comp> :: Cycle(g, p) ==> p[0] !in s
  }

  // --------------------------------------------------------------- counting

  lemma {:induction false} DistinctFit(s: seq<Comp>, u: set<Comp>)
    requires NoDup(s) && forall i :: 0 <= i < |s| ==> s[i] in u
    ensures |s| <= |u|
  {
    if s != [] {
      var n := |s| - 1;
      forall i | 0 <= i < n
        ensures s[..n][i] in u - {s[n]}
      {
        assert s[i] != s[n];
      }
      DistinctFit(s[..n], u - {s[n]});
    }
  }

  /** Pigeonhole: a long walk in a small set meets an element again. */
  lemma {:induction false} Repeats(s: seq<Comp>, u: set<Comp>) returns (i: nat, j: nat)
    requires |s| > |u| && forall k :: 0 <= k < |s| ==> s[k] in u
    ensures i < j < |s| && s[i] == s[j]
  {
    if NoDup(s) {
      DistinctFit(s, u);
      assert false;
    }
    i, j :| 0 <= i < j < |s| && s[i] == s[j];
  }

  // ----------------------------------------------------------------- cycles

  /** `c` depends on a member of `s`. */
  ghost predicate Waits(g: Graph, s: set<Comp>, c: Comp) {
    c in g.deps && exists i :: 0 <= i < |g.deps[c]| && g.deps[c][i] in s
  }

  /** Each member of `stuck` waits for another one. */
  ghost predicate Stuck(g: Graph, stuck: set<Comp>) {
    stuck != {} && forall c {:trigger Waits(g, stuck, c)} :: c in stuck ==> Waits(g, stuck, c)
  }

  lemma {:induction false} Walk(g: Graph, stuck: set<Comp>, n: nat) returns (p: seq<Comp>)
    requires Stuck(g, stuck)
    ensures |p| == n + 1 && forall i :: 0 <= i < |p| ==> p[i] in stuck
    ensures forall i :: 0 <= i < n ==> Step(g, p, i)
  {
    if n == 0 {
      var c :| c in stuck;
      p := [c];
    } else {
      var q := Walk(g, stuck, n - 1);
      assert Waits(g, stuck, q[n - 1]);
      var i :| 0 <= i < |g.deps[q[n - 1]]| && g.deps[q[n - 1]][i] in stuck;
      p := q + [g.deps[q[n - 1]][i]];
      forall i | 0 <= i < n
        ensures Step(g, p, i)
      {
        if i < n - 1 { assert Step(g, q, i); }
      }
    }
  }

  /** If no component can be placed next, there is a cycle among those left. */
  lemma StuckMeansCycle(g: Graph, stuck: set<Comp>) returns (p: seq<Comp>)
    requires Stuck(g, stuck)
    ensures Cycle(g, p) && p[0] in stuck
  {
    var w := Walk(g, stuck, |stuck|);
    var i, j := Repeats(w, stuck);
    p := w[i..j + 1];
    forall k | 0 <= k < |p| - 1
      ensures Step(g, p, k)
    {
      assert Step(g, w, i + k);
    }
  }

  /** On a cycle no component can come after all its dependencies. */
  lemma {:induction false} OrderBreaksCycle(g: Graph, s: seq<Comp>, p: seq<Comp>, k: nat, n: nat)
    requires Topological(g, s) && NoDup(s) && Cycle(g, p)
    requires k < |s| && n < |p| && p[n] == s[k]
    ensures false
    decreases k
  {
    var next := if n < |p| - 1 then n + 1 else 1;
    var from := if n < |p| - 1 then n else 0;
    assert p[from] == s[k] && Step(g, p, from);
    assert Met(g, s[k], s[..k]);
    var i :| 0 <= i < |g.deps[s[k]]| && g.deps[s[k]][i] == p[next];
    var j :| 0 <= j < k && s[..k][j] == p[next];
    OrderBreaksCycle(g, s, p, j, next);
  }

  lemma OrderMeansAcyclic(g: Graph, s: seq<Comp>)
    requires Topological(g, s) && NoDup(s)
    ensures Acyclic(g, Elements(s))
  {
    forall p: seq<Comp> | Cycle(g, p)
      ensures p[0] !in Elements(s)
    {
      if p[0] in s {
        var k :| 0 <= k < |s| && s[k] == p[0];
        OrderBreaksCycle(g, s, p, k, 0);
      }
    }
  }

  // ------------------------------------------------------------------ ordering

  /** `s` is the least closed set that contains the roots. */
  ghost predicate Least(g: Graph, roots: set<Comp>, s: set<Comp>) {
    roots <= s && Closed(g, s) && forall t: set<Comp> :: roots <= t && Closed(g, t) ==> s <= t
  }

  lemma SameElements(s: seq<Comp>, t: seq<Comp>)
    requires multiset(s) == multiset(t)
    ensures Elements(s) == Elements(t)
  {
    forall c: Comp
      ensures c in s <==> c in t
    {
      assert c in s <==> c in multiset(s);
      assert c in t <==> c in multiset(t);
    }
  }

  /** Each component of `all` is once in `list` or once in `tmp`. */
  ghost predicate Split(g: Graph, all: seq<Comp>, list: seq<Comp>, tmp: seq<Comp>) {
    && Known(g, list) && Known(g, tmp) && NoDup(list) && NoDup(tmp)
    && (forall i, j {:trigger list[i], tmp[j]} :: 0 <= i < |list| && 0 <= j < |tmp| ==> list[i] != tmp[j])
    && multiset(list) + multiset(tmp) == multiset(all)
  }

  /** `a` is in front of `b` in `all`. */
  ghost predicate Before(all: seq<Comp>, a: Comp, b: Comp) {
    exists m, n {:trigger all[m], all[n]} :: 0 <= m < n < |all| && all[m] == a && all[n] == b
  }

  /** Each component of `list` was the first one of `all` that could be placed at its turn. */
  ghost predicate FirstPossible(g: Graph, all: seq<Comp>, list: seq<Comp>) {
    forall i, c {:trigger Before(all, c, list[i])} ::
      0 <= i < |list| && c in g.deps && Before(all, c, list[i]) && c !in list[..i] ==> !Met(g, c, list[..i])
  }

  /** `tmp` keeps the order of `all`. */
  ghost predicate InOrder(all: seq<Comp>, tmp: seq<Comp>) {
    forall i, j :: 0 <= i < j < |tmp| ==> Before(all, tmp[i], tmp[j])
  }

  lemma NotBothBefore(all: seq<Comp>, a: Comp, b: Comp)
    requires NoDup(all) && Before(all, a, b)
    ensures !Before(all, b, a)
  {
  }

  /** Placing the first component possible. */
  lemma PlacedFirst(g: Graph, all: seq<Comp>, list: seq<Comp>, tmp: seq<Comp>, l: nat)
    requires NoDup(all) && Split(g, all, list, tmp) && InOrder(all, tmp) && FirstPossible(g, all, list)
    requires l < |tmp| && forall k :: 0 <= k < l ==> !Met(g, tmp[k], list)
    ensures FirstPossible(g, all, list + [tmp[l]]) && InOrder(all, Without(tmp, l))
  {
    SameElements(list + tmp, all);
    var s := list + [tmp[l]];
    forall i, c | 0 <= i < |s| && c in g.deps && Before(all, c, s[i]) && c !in s[..i]
      ensures !Met(g, c, s[..i])
    {
      if i < |list| {
        assert s[..i] == list[..i] && s[i] == list[i];
      } else {
        assert s[..i] == list;
        assert c in Elements(all);
        assert c in list + tmp;
        var k :| 0 <= k < |tmp| && tmp[k] == c;
        NotBothBefore(all, c, tmp[l]);
        assert k < l;
      }
    }
  }

  /** A list that is in order already stays as it is. */
  lemma {:induction false} FirstPossibleKeepsOrder(g: Graph, all: seq<Comp>, list: seq<Comp>, k: nat)
    requires NoDup(all) && NoDup(list) && Topological(g, all) && FirstPossible(g, all, list)
    requires multiset(list) == multiset(all) && k <= |all|
    ensures |list| == |all| && list[..k] == all[..k]
  {
    assert |list| == |multiset(list)| && |all| == |multiset(all)|;
    SameElements(list, all);
    if k > 0 {
      var n := k - 1;
      FirstPossibleKeepsOrder(g, all, list, n);
      assert list[n] in Elements(all);
      var m :| 0 <= m < |all| && all[m] == list[n];
      assert forall i :: 0 <= i < n ==> list[..n][i] == all[..n][i];
      assert n < m ==> Before(all, all[n], list[n]);
      assert all[n] !in all[..n] && Met(g, all[n], all[..n]);
      assert list[..k] == list[..n] + [list[n]] && all[..k] == all[..n] + [all[n]];
    }
  }

  lemma AllWait(g: Graph, all: seq<Comp>, list: seq<Comp>, tmp: seq<Comp>)
    requires Closed(g, Elements(all)) && Known(g, tmp) && tmp != []
    requires multiset(list) + multiset(tmp) == multiset(all)
    requires forall k :: 0 <= k < |tmp| ==> !Met(g, tmp[k], list)
    ensures Stuck(g, Elements(tmp)) && Elements(tmp) <= Elements(all)
  {
    SameElements(list + tmp, all);
    forall c | c in Elements(tmp)
      ensures Waits(g, Elements(tmp), c)
    {
      var k :| 0 <= k < |tmp| && tmp[k] == c;
      var i :| 0 <= i < |g.deps[c]| && g.deps[c][i] !in list;
      assert c in list + tmp && c in Elements(all);
      assert g.deps[c][i] in Elements(all);
      assert g.deps[c][i] in list + tmp;
    }
    assert tmp[0] in Elements(tmp);
  }

  lemma MovedElements(all: seq<Comp>, list: seq<Comp>, tmp: seq<Comp>, l: nat)
    requires l < |tmp| && multiset(list) + multiset(tmp) == multiset(all)
    ensures multiset(list + [tmp[l]]) + multiset(Without(tmp, l)) == multiset(all)
  {
    assert tmp == tmp[..l] + [tmp[l]] + tmp[l + 1..];
  }

  lemma Moved(g: Graph, all: seq<Comp>, list: seq<Comp>, tmp: seq<Comp>, l: nat)
    requires l < |tmp| && Split(g, all, list, tmp)
    ensures Split(g, all, list + [tmp[l]], Without(tmp, l))
  {
    MovedElements(all, list, tmp, l);
  }

  lemma Appended(g: Graph, list: seq<Comp>, c: Comp)
    requires Topological(g, list) && c in g.deps && Met(g, c, list)
    ensures Topological(g, list + [c])
  {
    var s := list + [c];
    forall i | 0 <= i < |s|
      ensures s[i] in g.deps && Met(g, s[i], s[..i])
    {
      assert s[..i] == list[..i];
      assert list[..|list|] == list;
    }
  }

  /** Where sequentializing stands: `list` is in order, `tmp` is still to be placed. */
  ghost predicate Placing(g: Graph, all: seq<Comp>, list: seq<Comp>, tmp: seq<Comp>) {
    Split(g, all, list, tmp) && Topological(g, list) && FirstPossible(g, all, list) && InOrder(all, tmp)
  }

  lemma PlacingBegins(g: Graph, all: seq<Comp>)
    requires Known(g, all) && NoDup(all)
    ensures Placing(g, all, [], all)
  {
    assert forall i, j :: 0 <= i < j < |all| ==> Before(all, all[i], all[j]);
  }

  lemma PlacingGoesOn(g: Graph, all: seq<Comp>, list: seq<Comp>, tmp: seq<Comp>, l: nat)
    requires NoDup(all) && Placing(g, all, list, tmp)
    requires l < |tmp| && tmp[l] in g.deps && Met(g, tmp[l], list)
    requires forall k :: 0 <= k < l ==> tmp[k] in g.deps && !Met(g, tmp[k], list)
    ensures Placing(g, all, list + [tmp[l]], Without(tmp, l))
  {
    hide Split, Topological, FirstPossible, InOrder, NoDup;
    Moved(g, all, list, tmp, l);
    PlacedFirst(g, all, list, tmp, l);
    Appended(g, list, tmp[l]);
  }

  lemma PlacingEnds(g: Graph, all: seq<Comp>, list: seq<Comp>)
    requires NoDup(all) && Placing(g, all, list, [])
    ensures Known(g, list) && NoDup(list) && Topological(g, list) && multiset(list) == multiset(all)
    ensures FirstPossible(g, all, list)
    ensures Topological(g, all) ==> list == all
  {
    hide FirstPossible;
    if Topological(g, all) {
      FirstPossibleKeepsOrder(g, all, list, |all|);
      assert list[..|list|] == list && all[..|all|] == all;
    }
  }

  lemma PlacingIsStuck(g: Graph, all: seq<Comp>, list: seq<Comp>, tmp: seq<Comp>)
    requires Closed(g, Elements(all)) && Placing(g, all, list, tmp) && tmp != []
    requires forall k :: 0 <= k < |tmp| ==> tmp[k] in g.deps && !Met(g, tmp[k], list)
    ensures Stuck(g, Elements(tmp)) && Elements(tmp) <= Elements(all)
  {
    hide FirstPossible, InOrder, Topological;
    AllWait(g, all, list, tmp);
  }

  lemma PlacingKnown(g: Graph, all: seq<Comp>, list: seq<Comp>, tmp: seq<Comp>)
    requires Placing(g, all, list, tmp)
    ensures Known(g, tmp)
  {
  }

  // ----------------------------------------------------------- the component list

  class Components {
    const g: Graph
    /** The list of all components. */
    var list: seq<Comp>

    ghost predicate Valid()
      reads this
    {
      g.Valid() && Known(g, list) && NoDup(list)
    }

    constructor (g: Graph)
      requires g.Valid()
      ensures this.g == g && Valid() && list == []
    {
      this.g := g;
      list := [];
    }

    /** `exists`. */
    method Exists(c: Comp) returns (found: bool)
      ensures found <==> c in list
    {
      for i := 0 to |list|
        invariant c !in list[..i]
      {
        if list[i] == c {
          return true;
        }
      }
      return false;
    }

    /** `COMP_register`: registering a component twice ends the program. */
    method Register(c: Comp)
      requires Valid() && c in g.deps && c !in list
      modifies this
      ensures Valid() && list == old(list) + [c]
    {
      list := list + [c];
    }

    /** `fixDependencies`: the list grows while it is iterated over. */
    method FixDependencies()
      requires Valid()
      modifies this
      ensures Valid() && old(list) <= list
      ensures Closed(g, Elements(list))
      ensures forall s: set<Comp> :: Elements(old(list)) <= s && Closed(g, s) ==> Elements(list) <= s
    {
      ghost var roots := list;
      var i := 0;
      DistinctFit(list, g.deps.Keys);
      while i < |list|
        invariant Valid() && roots <= list && i <= |list| <= |g.deps.Keys|
        invariant forall k :: 0 <= k < i ==> Met(g, list[k], list)
        invariant forall s: set<Comp> :: Elements(roots) <= s && Closed(g, s) ==> Elements(list) <= s
        decreases |g.deps.Keys| - i
      {
        var c := list[i];
        var j := 0;
        while j < |g.deps[c]|
          invariant j <= |g.deps[c]|
          invariant Valid() && roots <= list && i < |list| <= |g.deps.Keys| && list[i] == c
          invariant forall k :: 0 <= k < i ==> Met(g, list[k], list)
          invariant forall k :: 0 <= k < j ==> g.deps[c][k] in list
          invariant forall s: set<Comp> :: Elements(roots) <= s && Closed(g, s) ==> Elements(list) <= s
        {
          var d := g.deps[c][j];
          var found := Exists(d);
          if !found {
            ghost var before := list;
            forall s: set<Comp> | Elements(roots) <= s && Closed(g, s)
              ensures d in s
            {
              assert c in Elements(list);
            }
            Register(d);
            DistinctFit(list, g.deps.Keys);
            assert Elements(list) == Elements(before) + {d};
          }
          j := j + 1;
        }
        i := i + 1;
      }
      forall c, k | c in Elements(list) && c in g.deps && 0 <= k < |g.deps[c]|
        ensures g.deps[c][k] in Elements(list)
      {
        var n :| 0 <= n < |list| && list[n] == c;
        assert Met(g, list[n], list);
      }
    }

    /**
     `sequentialize`: move components whose dependencies are all in the list from
     a temporary list, always the first one possible. If none is left to move
     although the temporary list is not empty, the program ends with an error;
     then every component left waits for another one.
     */
    method Sequentialize() returns (ok: bool, ghost left: set<Comp>)
      requires Valid() && Closed(g, Elements(list))
      modifies this
      ensures ok ==> Valid() && Topological(g, list) && multiset(list) == multiset(old(list))
      ensures ok ==> FirstPossible(g, old(list), list)
      ensures ok && Topological(g, old(list)) ==> list == old(list)
      ensures !ok ==> Stuck(g, left) && left <= Elements(old(list))
    {
      hide Placing, FirstPossible, Stuck, Closed;
      ghost var all := list;
      var tmp := list;
      PlacingBegins(g, all);
      list := [];
      left := {};
      while tmp != []
        invariant Placing(g, all, list, tmp)
        decreases |tmp|
      {
        PlacingKnown(g, all, list, tmp);
        var l := 0;
        while l < |tmp| && !Met(g, tmp[l], list)
          invariant l <= |tmp|
          invariant forall k :: 0 <= k < l ==> !Met(g, tmp[k], list)
        {
          l := l + 1;
        }
        if l == |tmp| {
          left := Elements(tmp);
          PlacingIsStuck(g, all, list, tmp);
          return false, left;
        }
        PlacingGoesOn(g, all, list, tmp, l);
        list := list + [tmp[l]];
        tmp := Without(tmp, l);
      }
      PlacingEnds(g, all, list);
      return true, left;
    }

    /**
     `COMP_fixup`. It succeeds exactly when the registered components and all they
     depend on, directly or not, have no dependency cycle. The list then holds
     just these, each once and behind everything it depends on.
     */
    method Fixup() returns (ok: bool, ghost closure: set<Comp>)
      requires Valid()
      modifies this
      ensures Least(g, Elements(old(list)), closure)
      ensures ok <==> Acyclic(g, closure)
      ensures ok ==> Valid() && Elements(list) == closure && Topological(g, list)
    {
      ghost var roots := Elements(list);
      FixDependencies();
      ghost var all := list;
      closure := Elements(all);
      ghost var left;
      ok, left := Sequentialize();
      if ok {
        SameElements(list, all);
        OrderMeansAcyclic(g, list);
      } else {
        var p := StuckMeansCycle(g, left);
        assert p[0] in closure;
      }
    }
  }
}
