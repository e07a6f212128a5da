/** The walk `ParentReplacer::getAllDependenciesOfPackage` makes, without
    the list it threads through: a depth-first walk in pre-order that marks
    a name before descending and never lists a visited name again. */
module DependencyWalk {
  import opened Packages
  import opened PackageOrder

  /** The packages the walk over `deps` lists, in order, and the visited
      names afterwards, starting from the visited names `v`. */
  function Below(g: Graph, deps: seq<nat>, v: set<string>): (r: (seq<nat>, set<string>))
    requires ValidGraph(g) && InGraph(g, deps)
    ensures InGraph(g, r.0)
    ensures v <= r.1 <= v + AllNames(g)
    decreases |AllNames(g) - v|, |deps|
  {
    if deps == [] then ([], v)
    else
      var d := deps[0];
      var n := g[d].name;
      if n in v then Below(g, deps[1..], v)
      else
        Shrinks(AllNames(g), v, n);
        var r1 := Below(g, g[d].dependencies, v + {n});
        Fewer(AllNames(g), v, r1.1);
        var r2 := Below(g, deps[1..], r1.1);
        InGraphConcat(g, [d], r1.0);
        InGraphConcat(g, [d] + r1.0, r2.0);
        ([d] + r1.0 + r2.0, r2.1)
  }

  /** One step of the walk over a first package not visited yet. */
  lemma BelowUnfold(g: Graph, deps: seq<nat>, v: set<string>)
    requires ValidGraph(g) && InGraph(g, deps)
    requires deps != [] && g[deps[0]].name !in v
    ensures var r1 := Below(g, g[deps[0]].dependencies, v + {g[deps[0]].name});
      var r2 := Below(g, deps[1..], r1.1);
      Below(g, deps, v) == ([deps[0]] + r1.0 + r2.0, r2.1)
  {
  }

  /** The names of `[d] + a + b`. */
  lemma NamesOfPre(g: Graph, d: nat, a: seq<nat>, b: seq<nat>)
    requires d < |g| && InGraph(g, a) && InGraph(g, b)
    ensures InGraph(g, [d] + a)
    ensures NamesOf(g, [d] + a + b) == {g[d].name} + NamesOf(g, a) + NamesOf(g, b)
  {
    NamesOfConcat(g, [d], a);
    NamesOfConcat(g, [d] + a, b);
    assert NamesOf(g, [d]) == {g[d].name};
  }

  /** The names visited by the end are those visited before and those of
      the listed packages. */
  lemma {:induction false} BelowVisited(g: Graph, deps: seq<nat>, v: set<string>)
    requires ValidGraph(g) && InGraph(g, deps)
    ensures Below(g, deps, v).1 == v + NamesOf(g, Below(g, deps, v).0)
    decreases |AllNames(g) - v|, |deps|
  {
    if deps != [] {
      var d := deps[0];
      var n := g[d].name;
      if n in v {
        BelowVisited(g, deps[1..], v);
      } else {
        Shrinks(AllNames(g), v, n);
        var r1 := Below(g, g[d].dependencies, v + {n});
        Fewer(AllNames(g), v, r1.1);
        var r2 := Below(g, deps[1..], r1.1);
        var o := [d] + r1.0 + r2.0;
        BelowUnfold(g, deps, v);
        assert r1.1 == v + {n} + NamesOf(g, r1.0) by {
          BelowVisited(g, g[d].dependencies, v + {n});
        }
        assert r2.1 == r1.1 + NamesOf(g, r2.0) by {
          BelowVisited(g, deps[1..], r1.1);
        }
        assert NamesOf(g, o) == {n} + NamesOf(g, r1.0) + NamesOf(g, r2.0) by {
          NamesOfPre(g, d, r1.0, r2.0);
        }
      }
    }
  }

  /** No listed package carries a name visited before the walk. */
  lemma {:induction false} BelowAllNew(g: Graph, deps: seq<nat>, v: set<string>)
    requires ValidGraph(g) && InGraph(g, deps)
    ensures AllNew(g, Below(g, deps, v).0, v)
    decreases |AllNames(g) - v|, |deps|
  {
    if deps != [] {
      var d := deps[0];
      var n := g[d].name;
      if n in v {
        BelowAllNew(g, deps[1..], v);
      } else {
        Shrinks(AllNames(g), v, n);
        var r1 := Below(g, g[d].dependencies, v + {n});
        Fewer(AllNames(g), v, r1.1);
        var r2 := Below(g, deps[1..], r1.1);
        assert AllNew(g, r1.0, v) by {
          BelowAllNew(g, g[d].dependencies, v + {n});
        }
        assert AllNew(g, r2.0, v) by {
          BelowAllNew(g, deps[1..], r1.1);
        }
        AllNewConcat(g, [d], r1.0, v);
        AllNewConcat(g, [d] + r1.0, r2.0, v);
        BelowUnfold(g, deps, v);
      }
    }
  }

  lemma AllNewConcat(g: Graph, a: seq<nat>, b: seq<nat>, v: set<string>)
    requires InGraph(g, a) && InGraph(g, b) && AllNew(g, a, v) && AllNew(g, b, v)
    ensures InGraph(g, a + b) && AllNew(g, a + b, v)
  {
    InGraphConcat(g, a, b);
    forall k | 0 <= k < |a + b| ensures g[(a + b)[k]].name !in v {
      if k >= |a| {
        assert (a + b)[k] == b[k - |a|];
      } else {
        assert (a + b)[k] == a[k];
      }
    }
  }

  /** Each name is listed at most once. */
  lemma {:induction false} BelowDistinct(g: Graph, deps: seq<nat>, v: set<string>)
    requires ValidGraph(g) && InGraph(g, deps)
    ensures DistinctNames(g, Below(g, deps, v).0)
    decreases |AllNames(g) - v|, |deps|
  {
    if deps != [] {
      var d := deps[0];
      var n := g[d].name;
      if n in v {
        BelowDistinct(g, deps[1..], v);
      } else {
        Shrinks(AllNames(g), v, n);
        var r1 := Below(g, g[d].dependencies, v + {n});
        Fewer(AllNames(g), v, r1.1);
        var r2 := Below(g, deps[1..], r1.1);
        BelowDistinct(g, g[d].dependencies, v + {n});
        BelowDistinct(g, deps[1..], r1.1);
        BelowVisited(g, g[d].dependencies, v + {n});
        BelowAllNew(g, g[d].dependencies, v + {n});
        BelowAllNew(g, deps[1..], r1.1);
        assert AllNew(g, r1.0, {n});
        assert AllNew(g, r2.0, {n} + NamesOf(g, r1.0));
        DistinctPre(g, d, r1.0, r2.0);
        BelowUnfold(g, deps, v);
      }
    }
  }

  /** `[d] + a + b` has distinct names when each part does and they share
      none. */
  lemma DistinctPre(g: Graph, d: nat, a: seq<nat>, b: seq<nat>)
    requires d < |g| && InGraph(g, a) && InGraph(g, b)
    requires DistinctNames(g, a) && DistinctNames(g, b)
    requires AllNew(g, a, {g[d].name})
    requires AllNew(g, b, {g[d].name} + NamesOf(g, a))
    ensures InGraph(g, [d] + a + b)
    ensures DistinctNames(g, [d] + a + b)
  {
    assert NamesOf(g, [d]) == {g[d].name};
    DistinctConcat(g, [d], a);
    NamesOfConcat(g, [d], a);
    DistinctConcat(g, [d] + a, b);
  }

  /** Two lists with distinct names and no name in common make one. */
  lemma DistinctConcat(g: Graph, a: seq<nat>, b: seq<nat>)
    requires InGraph(g, a) && InGraph(g, b)
    requires DistinctNames(g, a) && DistinctNames(g, b)
    requires AllNew(g, b, NamesOf(g, a))
    ensures InGraph(g, a + b)
    ensures DistinctNames(g, a + b)
  {
    InGraphConcat(g, a, b);
    var o := a + b;
    forall j, k | 0 <= j < k < |o| ensures g[o[j]].name != g[o[k]].name {
      if k < |a| {
        assert o[j] == a[j] && o[k] == a[k];
      } else if j < |a| {
        assert o[j] == a[j] && o[k] == b[k - |a|];
      } else {
        assert o[j] == b[j - |a|] && o[k] == b[k - |a|];
      }
    }
  }

  /** Every package of `deps` is visited by the end of the walk. */
  lemma {:induction false} BelowCovers(g: Graph, deps: seq<nat>, v: set<string>)
    requires ValidGraph(g) && InGraph(g, deps)
    ensures Covers(g, deps, Below(g, deps, v).1)
    decreases |AllNames(g) - v|, |deps|
  {
    if deps != [] {
      var d := deps[0];
      var n := g[d].name;
      var w := Below(g, deps, v).1;
      if n in v {
        BelowCovers(g, deps[1..], v);
      } else {
        Shrinks(AllNames(g), v, n);
        var r1 := Below(g, g[d].dependencies, v + {n});
        Fewer(AllNames(g), v, r1.1);
        BelowCovers(g, deps[1..], r1.1);
        BelowUnfold(g, deps, v);
      }
      forall j | 1 <= j < |deps| ensures g[deps[j]].name in w {
        assert deps[j] == deps[1..][j - 1];
      }
    }
  }

  /** The walk is closed: every dependency of a listed package is visited
      by the end. */
  lemma {:induction false} BelowClosed(g: Graph, deps: seq<nat>, v: set<string>)
    requires ValidGraph(g) && InGraph(g, deps)
    ensures Closed(g, Below(g, deps, v).0, Below(g, deps, v).1)
    decreases |AllNames(g) - v|, |deps|
  {
    if deps != [] {
      var d := deps[0];
      var n := g[d].name;
      if n in v {
        BelowClosed(g, deps[1..], v);
      } else {
        Shrinks(AllNames(g), v, n);
        var r1 := Below(g, g[d].dependencies, v + {n});
        Fewer(AllNames(g), v, r1.1);
        var r2 := Below(g, deps[1..], r1.1);
        BelowClosed(g, g[d].dependencies, v + {n});
        BelowCovers(g, g[d].dependencies, v + {n});
        BelowClosed(g, deps[1..], r1.1);
        assert Closed(g, r1.0 + r2.0, r2.1) by {
          ClosedJoin(g, r1.0, d, [], r2.1);
          ClosedMerge(g, r1.0, r2.0, r2.1);
        }
        ClosedJoin(g, [], d, r1.0 + r2.0, r2.1);
        assert [] + [d] + (r1.0 + r2.0) == [d] + r1.0 + r2.0;
        BelowUnfold(g, deps, v);
      }
    }
  }

  /** Closed parts make a closed whole. */
  lemma ClosedMerge(g: Graph, a: seq<nat>, b: seq<nat>, w: set<string>)
    requires ValidGraph(g) && InGraph(g, a) && InGraph(g, b)
    requires Closed(g, a, w) && Closed(g, b, w)
    ensures InGraph(g, a + b)
    ensures Closed(g, a + b, w)
  {
    InGraphConcat(g, a, b);
    forall k, m | 0 <= k < |a + b| && 0 <= m < |g[(a + b)[k]].dependencies|
      ensures g[g[(a + b)[k]].dependencies[m]].name in w
    {
      if k >= |a| {
        assert (a + b)[k] == b[k - |a|];
      } else {
        assert (a + b)[k] == a[k];
      }
    }
  }

  /** `[deps[0]] + a + b` is in pre-order when `a` is below `deps[0]` and
      `b` below the rest of `deps`. */
  lemma IntroducedPre(g: Graph, deps: seq<nat>, a: seq<nat>, b: seq<nat>)
    requires deps != [] && InGraph(g, deps) && InGraph(g, a) && InGraph(g, b)
    requires Introduced(g, g[deps[0]].dependencies, a)
    requires Introduced(g, deps[1..], b)
    ensures InGraph(g, [deps[0]] + a + b)
    ensures Introduced(g, deps, [deps[0]] + a + b)
  {
    IntroducedHead(g, deps, a);
    IntroducedAppend(g, deps, [deps[0]] + a, b);
  }

  /** A root followed by what is below it. */
  lemma IntroducedHead(g: Graph, deps: seq<nat>, a: seq<nat>)
    requires deps != [] && InGraph(g, deps) && InGraph(g, a)
    requires Introduced(g, g[deps[0]].dependencies, a)
    ensures InGraph(g, [deps[0]] + a)
    ensures Introduced(g, deps, [deps[0]] + a)
  {
    var d := deps[0];
    InGraphConcat(g, [d], a);
    var o := [d] + a;
    forall k | 0 <= k < |o| ensures o[k] in deps || exists j :: 0 <= j < k && o[k] in g[o[j]].dependencies {
      if k > 0 {
        assert o[k] == a[k - 1];
        if a[k - 1] in g[d].dependencies {
          assert o[0] == d;
        } else {
          var j1 :| 0 <= j1 < k - 1 && a[k - 1] in g[a[j1]].dependencies;
          assert o[j1 + 1] == a[j1];
        }
      }
    }
  }

  /** A pre-order list followed by one below the rest of the roots. */
  lemma IntroducedAppend(g: Graph, deps: seq<nat>, x: seq<nat>, b: seq<nat>)
    requires deps != [] && InGraph(g, x) && InGraph(g, b)
    requires Introduced(g, deps, x)
    requires Introduced(g, deps[1..], b)
    ensures InGraph(g, x + b)
    ensures Introduced(g, deps, x + b)
  {
    InGraphConcat(g, x, b);
    var o := x + b;
    forall k | 0 <= k < |o| ensures o[k] in deps || exists j :: 0 <= j < k && o[k] in g[o[j]].dependencies {
      if k < |x| {
        assert o[k] == x[k];
        if x[k] !in deps {
          var j :| 0 <= j < k && x[k] in g[x[j]].dependencies;
          assert o[j] == x[j];
        }
      } else {
        var k2 := k - |x|;
        assert o[k] == b[k2];
        if b[k2] !in deps[1..] {
          var j2 :| 0 <= j2 < k2 && b[k2] in g[b[j2]].dependencies;
          assert o[j2 + |x|] == b[j2];
        }
      }
    }
  }

  /** The walk lists packages in pre-order. */
  lemma {:induction false} BelowIntroduced(g: Graph, deps: seq<nat>, v: set<string>)
    requires ValidGraph(g) && InGraph(g, deps)
    ensures Introduced(g, deps, Below(g, deps, v).0)
    decreases |AllNames(g) - v|, |deps|
  {
    if deps != [] {
      var d := deps[0];
      var n := g[d].name;
      if n in v {
        BelowIntroduced(g, deps[1..], v);
        var o := Below(g, deps, v).0;
        forall k | 0 <= k < |o| && o[k] in deps[1..] ensures o[k] in deps {
        }
      } else {
        Shrinks(AllNames(g), v, n);
        var r1 := Below(g, g[d].dependencies, v + {n});
        Fewer(AllNames(g), v, r1.1);
        var r2 := Below(g, deps[1..], r1.1);
        BelowIntroduced(g, g[d].dependencies, v + {n});
        BelowIntroduced(g, deps[1..], r1.1);
        IntroducedPre(g, deps, r1.0, r2.0);
        BelowUnfold(g, deps, v);
      }
    }
  }
}
