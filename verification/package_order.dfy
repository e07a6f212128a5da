/** The order in which `Replacer::replacePackages` processes packages: a
    depth-first walk that marks a package's name before descending into its
    dependencies and processes the package after them. The schedule depends
    on the graph and the names already visited only, never on what the
    rewriting does, so it is defined here on its own and the driver is
    proved to follow it. */
module PackageOrder {
  import opened Packages

  /** The packages `replacePackages(list)` processes, in order, and the
      visited names afterwards, starting from the visited names `v`. */
  function Order(g: Graph, v: set<string>, list: seq<nat>): (r: (seq<nat>, set<string>))
    requires ValidGraph(g) && InGraph(g, list)
    ensures InGraph(g, r.0)
    ensures v <= r.1 <= v + AllNames(g)
    decreases |AllNames(g) - v|, |list|
  {
    if list == [] then ([], v)
    else
      var i := list[0];
      var n := g[i].name;
      if n in v then Order(g, v, list[1..])
      else
        Shrinks(AllNames(g), v, n);
        var r1 := Order(g, v + {n}, g[i].dependencies);
        Fewer(AllNames(g), v, r1.1);
        var r2 := Order(g, r1.1, list[1..]);
        InGraphJoin(g, r1.0, i, r2.0);
        (r1.0 + [i] + r2.0, r2.1)
  }

  /** Marking more names leaves no more names unmarked. */
  lemma Fewer(names: set<string>, v: set<string>, w: set<string>)
    requires v <= w
    ensures |names - w| <= |names - v|
  {
    var gone := (names - v) - (names - w);
    assert names - v == (names - w) + gone;
    assert (names - w) !! gone;
  }

  lemma InGraphJoin(g: Graph, a: seq<nat>, i: nat, b: seq<nat>)
    requires InGraph(g, a) && i < |g| && InGraph(g, b)
    ensures InGraph(g, a + [i] + b)
  {
    var o := a + [i] + b;
    forall k | 0 <= k < |o| ensures o[k] < |g| {
      if k < |a| {
        assert o[k] == a[k];
      } else if k > |a| {
        assert o[k] == b[k - |a| - 1];
      }
    }
  }

  lemma InGraphConcat(g: Graph, a: seq<nat>, b: seq<nat>)
    requires InGraph(g, a) && InGraph(g, b)
    ensures InGraph(g, a + b)
  {
    forall k | 0 <= k < |a + b| ensures (a + b)[k] < |g| {
      if k >= |a| {
        assert (a + b)[k] == b[k - |a|];
      }
    }
  }

  /** The names of a concatenation are those of its parts. */
  lemma {:induction false} NamesOfConcat(g: Graph, a: seq<nat>, b: seq<nat>)
    requires InGraph(g, a) && InGraph(g, b)
    ensures InGraph(g, a + b)
    ensures NamesOf(g, a + b) == NamesOf(g, a) + NamesOf(g, b)
    decreases |a|
  {
    assert InGraph(g, a + b) by {
      forall k | 0 <= k < |a + b| ensures (a + b)[k] < |g| {
        if k >= |a| {
          assert (a + b)[k] == b[k - |a|];
        }
      }
    }
    if a != [] {
      assert (a + b)[1..] == a[1..] + b;
      NamesOfConcat(g, a[1..], b);
    } else {
      assert a + b == b;
    }
  }

  /** The names of `a + [i] + b`. */
  lemma NamesOfJoin(g: Graph, a: seq<nat>, i: nat, b: seq<nat>)
    requires InGraph(g, a) && i < |g| && InGraph(g, b)
    ensures InGraph(g, a + [i])
    ensures NamesOf(g, a + [i] + b) == NamesOf(g, a) + {g[i].name} + NamesOf(g, b)
  {
    NamesOfConcat(g, a, [i]);
    NamesOfConcat(g, a + [i], b);
    assert NamesOf(g, [i]) == {g[i].name};
  }

  /** Every package of the list is visited. */
  predicate Covers(g: Graph, list: seq<nat>, w: set<string>)
    requires InGraph(g, list)
  {
    forall j :: 0 <= j < |list| ==> g[list[j]].name in w
  }

  /** Every listed package's name is visited by the end of the walk. */
  lemma {:induction false} OrderCovers(g: Graph, v: set<string>, list: seq<nat>)
    requires ValidGraph(g) && InGraph(g, list)
    ensures Covers(g, list, Order(g, v, list).1)
    decreases |AllNames(g) - v|, |list|
  {
    if list != [] {
      var i := list[0];
      var n := g[i].name;
      var w := Order(g, v, list).1;
      if n in v {
        OrderCovers(g, v, list[1..]);
      } else {
        Shrinks(AllNames(g), v, n);
        var r1 := Order(g, v + {n}, g[i].dependencies);
        Fewer(AllNames(g), v, r1.1);
        OrderCovers(g, r1.1, list[1..]);
        assert w == Order(g, r1.1, list[1..]).1;
      }
      forall j | 1 <= j < |list| ensures g[list[j]].name in w {
        assert list[j] == list[1..][j - 1];
      }
    }
  }

  /** The names of the processed packages are not in `v`. */
  predicate AllNew(g: Graph, o: seq<nat>, v: set<string>)
    requires InGraph(g, o)
  {
    forall k :: 0 <= k < |o| ==> g[o[k]].name !in v
  }

  /** The names visited by the end are those visited before and those of
      the processed packages. */
  lemma {:induction false} OrderVisited(g: Graph, v: set<string>, list: seq<nat>)
    requires ValidGraph(g) && InGraph(g, list)
    ensures Order(g, v, list).1 == v + NamesOf(g, Order(g, v, list).0)
    decreases |AllNames(g) - v|, |list|
  {
    if list != [] {
      var i := list[0];
      var n := g[i].name;
      if n in v {
        OrderVisited(g, v, list[1..]);
      } else {
        Shrinks(AllNames(g), v, n);
        var r1 := Order(g, v + {n}, g[i].dependencies);
        Fewer(AllNames(g), v, r1.1);
        var r2 := Order(g, r1.1, list[1..]);
        var o := r1.0 + [i] + r2.0;
        assert Order(g, v, list) == (o, r2.1);
        assert r1.1 == v + {n} + NamesOf(g, r1.0) by {
          OrderVisited(g, v + {n}, g[i].dependencies);
        }
        assert r2.1 == r1.1 + NamesOf(g, r2.0) by {
          OrderVisited(g, r1.1, list[1..]);
        }
        assert NamesOf(g, o) == NamesOf(g, r1.0) + {n} + NamesOf(g, r2.0) by {
          NamesOfJoin(g, r1.0, i, r2.0);
        }
      }
    }
  }

  /** No processed package carries a name visited before the walk. */
  lemma {:induction false} OrderAllNew(g: Graph, v: set<string>, list: seq<nat>)
    requires ValidGraph(g) && InGraph(g, list)
    ensures AllNew(g, Order(g, v, list).0, v)
    decreases |AllNames(g) - v|, |list|
  {
    if list != [] {
      var i := list[0];
      var n := g[i].name;
      if n in v {
        OrderAllNew(g, v, list[1..]);
      } else {
        Shrinks(AllNames(g), v, n);
        var r1 := Order(g, v + {n}, g[i].dependencies);
        Fewer(AllNames(g), v, r1.1);
        var r2 := Order(g, r1.1, list[1..]);
        OrderAllNew(g, v + {n}, g[i].dependencies);
        OrderAllNew(g, r1.1, list[1..]);
        var o := r1.0 + [i] + r2.0;
        assert Order(g, v, list).0 == o;
        forall k | 0 <= k < |o| ensures g[o[k]].name !in v {
          if k < |r1.0| {
            assert o[k] == r1.0[k];
          } else if k > |r1.0| {
            assert o[k] == r2.0[k - |r1.0| - 1];
          }
        }
      }
    }
  }

  /** `a + [i] + b` has distinct names when each part does and they share
      none. */
  lemma DistinctJoin(g: Graph, a: seq<nat>, i: nat, b: seq<nat>)
    requires InGraph(g, a) && i < |g| && InGraph(g, b)
    requires DistinctNames(g, a) && DistinctNames(g, b)
    requires g[i].name !in NamesOf(g, a)
    requires AllNew(g, b, NamesOf(g, a) + {g[i].name})
    ensures InGraph(g, a + [i] + b)
    ensures DistinctNames(g, a + [i] + b)
  {
    InGraphJoin(g, a, i, b);
    var o := a + [i] + b;
    forall j, k | 0 <= j < k < |o| ensures g[o[j]].name != g[o[k]].name {
      if k < |a| {
        assert o[j] == a[j] && o[k] == a[k];
      } else if k == |a| {
        assert o[j] == a[j];
      } else {
        assert o[k] == b[k - |a| - 1];
        if j < |a| {
          assert o[j] == a[j];
        } else if j > |a| {
          assert o[j] == b[j - |a| - 1];
        }
      }
    }
  }

  /** Each name is processed at most once. */
  lemma {:induction false} OrderDistinct(g: Graph, v: set<string>, list: seq<nat>)
    requires ValidGraph(g) && InGraph(g, list)
    ensures DistinctNames(g, Order(g, v, list).0)
    decreases |AllNames(g) - v|, |list|
  {
    if list != [] {
      var i := list[0];
      var n := g[i].name;
      if n in v {
        OrderDistinct(g, v, list[1..]);
      } else {
        Shrinks(AllNames(g), v, n);
        var r1 := Order(g, v + {n}, g[i].dependencies);
        Fewer(AllNames(g), v, r1.1);
        var r2 := Order(g, r1.1, list[1..]);
        OrderDistinct(g, v + {n}, g[i].dependencies);
        OrderDistinct(g, r1.1, list[1..]);
        OrderVisited(g, v + {n}, g[i].dependencies);
        OrderAllNew(g, v + {n}, g[i].dependencies);
        OrderAllNew(g, r1.1, list[1..]);
        assert n !in NamesOf(g, r1.0);
        assert AllNew(g, r2.0, NamesOf(g, r1.0) + {n});
        DistinctJoin(g, r1.0, i, r2.0);
        assert Order(g, v, list).0 == r1.0 + [i] + r2.0;
      }
    }
  }

  /** Every dependency of a processed package is visited. */
  predicate Closed(g: Graph, o: seq<nat>, w: set<string>)
    requires ValidGraph(g) && InGraph(g, o)
  {
    forall k, m :: 0 <= k < |o| && 0 <= m < |g[o[k]].dependencies| ==> g[g[o[k]].dependencies[m]].name in w
  }

  lemma ClosedJoin(g: Graph, a: seq<nat>, i: nat, b: seq<nat>, w: set<string>)
    requires ValidGraph(g) && InGraph(g, a) && i < |g| && InGraph(g, b)
    requires Closed(g, a, w) && Covers(g, g[i].dependencies, w) && Closed(g, b, w)
    ensures InGraph(g, a + [i] + b)
    ensures Closed(g, a + [i] + b, w)
  {
    InGraphJoin(g, a, i, b);
    var o := a + [i] + b;
    forall k, m | 0 <= k < |o| && 0 <= m < |g[o[k]].dependencies|
      ensures g[g[o[k]].dependencies[m]].name in w
    {
      if k < |a| {
        assert o[k] == a[k];
      } else if k > |a| {
        assert o[k] == b[k - |a| - 1];
      }
    }
  }

  /** The walk is closed: every dependency of a processed package was
      visited by the end (processed, or visited beforehand). */
  lemma {:induction false} OrderClosed(g: Graph, v: set<string>, list: seq<nat>)
    requires ValidGraph(g) && InGraph(g, list)
    ensures Closed(g, Order(g, v, list).0, Order(g, v, list).1)
    decreases |AllNames(g) - v|, |list|
  {
    if list != [] {
      var i := list[0];
      var n := g[i].name;
      if n in v {
        OrderClosed(g, v, list[1..]);
      } else {
        Shrinks(AllNames(g), v, n);
        var r1 := Order(g, v + {n}, g[i].dependencies);
        Fewer(AllNames(g), v, r1.1);
        var r2 := Order(g, r1.1, list[1..]);
        OrderClosed(g, v + {n}, g[i].dependencies);
        OrderCovers(g, v + {n}, g[i].dependencies);
        OrderClosed(g, r1.1, list[1..]);
        assert Closed(g, r1.0, r2.1);
        assert Covers(g, g[i].dependencies, r2.1);
        ClosedJoin(g, r1.0, i, r2.0, r2.1);
        assert Order(g, v, list) == (r1.0 + [i] + r2.0, r2.1);
      }
    }
  }

  /** In a graph laid out with dependencies after their dependents, a walk
      from packages at or after position `b` only reaches such packages. */
  lemma {:induction false} OrderAbove(g: Graph, v: set<string>, list: seq<nat>, b: nat)
    requires ValidGraph(g) && InGraph(g, list) && Topological(g)
    requires forall j :: 0 <= j < |list| ==> b <= list[j]
    ensures forall k :: 0 <= k < |Order(g, v, list).0| ==> b <= Order(g, v, list).0[k]
    decreases |AllNames(g) - v|, |list|
  {
    if list != [] {
      var i := list[0];
      var n := g[i].name;
      if n in v {
        OrderAbove(g, v, list[1..], b);
      } else {
        Shrinks(AllNames(g), v, n);
        var r1 := Order(g, v + {n}, g[i].dependencies);
        Fewer(AllNames(g), v, r1.1);
        var r2 := Order(g, r1.1, list[1..]);
        OrderAbove(g, v + {n}, g[i].dependencies, b);
        OrderAbove(g, r1.1, list[1..], b);
        var o := r1.0 + [i] + r2.0;
        assert Order(g, v, list).0 == o;
        forall k | 0 <= k < |o| ensures b <= o[k] {
          if k < |r1.0| {
            assert o[k] == r1.0[k];
          } else if k > |r1.0| {
            assert o[k] == r2.0[k - |r1.0| - 1];
          }
        }
      }
    }
  }

  /** Post-order: each dependency of the package at position `k` was
      visited beforehand or is processed before position `k`. */
  ghost predicate PostOrdered(g: Graph, v: set<string>, o: seq<nat>)
    requires ValidGraph(g) && InGraph(g, o)
  {
    forall k, m :: 0 <= k < |o| && 0 <= m < |g[o[k]].dependencies| ==>
      g[g[o[k]].dependencies[m]].name in v + NamesOf(g, o[..k])
  }

  lemma PostOrderedJoin(g: Graph, v: set<string>, a: seq<nat>, i: nat, b: seq<nat>)
    requires ValidGraph(g) && InGraph(g, a) && i < |g| && InGraph(g, b)
    requires PostOrdered(g, v, a)
    requires Covers(g, g[i].dependencies, v + NamesOf(g, a))
    requires PostOrdered(g, v + NamesOf(g, a) + {g[i].name}, b)
    ensures InGraph(g, a + [i] + b)
    ensures PostOrdered(g, v, a + [i] + b)
  {
    InGraphJoin(g, a, i, b);
    var o := a + [i] + b;
    forall k, m | 0 <= k < |o| && 0 <= m < |g[o[k]].dependencies|
      ensures g[g[o[k]].dependencies[m]].name in v + NamesOf(g, o[..k])
    {
      if k < |a| {
        assert o[k] == a[k] && o[..k] == a[..k];
      } else if k == |a| {
        assert o[..k] == a;
      } else {
        var k2 := k - |a| - 1;
        assert o[k] == b[k2];
        assert o[..k] == a + [i] + b[..k2];
        NamesOfJoin(g, a, i, b[..k2]);
      }
    }
  }

  /** A name no dependency of the list carries can be dropped from the
      names visited beforehand. */
  lemma PostOrderedDrop(g: Graph, v: set<string>, n: string, o: seq<nat>)
    requires ValidGraph(g) && InGraph(g, o)
    requires PostOrdered(g, v + {n}, o)
    requires forall k, m :: 0 <= k < |o| && 0 <= m < |g[o[k]].dependencies| ==> g[g[o[k]].dependencies[m]].name != n
    ensures PostOrdered(g, v, o)
  {
  }

  /** In an acyclic graph with one package per name, the walk is in
      post-order. (On a cycle the walk comes back to a package still in
      progress and skips it, so no order can hold there.) */
  lemma {:induction false} OrderPost(g: Graph, v: set<string>, list: seq<nat>)
    requires ValidGraph(g) && InGraph(g, list) && Topological(g) && UniqueNames(g)
    ensures PostOrdered(g, v, Order(g, v, list).0)
    decreases |AllNames(g) - v|, |list|
  {
    if list != [] {
      var i := list[0];
      var n := g[i].name;
      if n in v {
        OrderPost(g, v, list[1..]);
      } else {
        Shrinks(AllNames(g), v, n);
        var deps := g[i].dependencies;
        var r1 := Order(g, v + {n}, deps);
        Fewer(AllNames(g), v, r1.1);
        var r2 := Order(g, r1.1, list[1..]);
        PostFirstPart(g, v, i);
        OrderPost(g, r1.1, list[1..]);
        PostOrderedJoin(g, v, r1.0, i, r2.0);
        assert Order(g, v, list).0 == r1.0 + [i] + r2.0;
      }
    }
  }

  /** The walk below the package at `i`, started when its name is marked:
      in post-order without counting that name, covering the dependencies
      of `i`, and visiting exactly its own packages besides. */
  lemma PostFirstPart(g: Graph, v: set<string>, i: nat)
    requires ValidGraph(g) && Topological(g) && UniqueNames(g) && i < |g|
    requires g[i].name !in v
    ensures var r1 := Order(g, v + {g[i].name}, g[i].dependencies);
      && PostOrdered(g, v, r1.0)
      && Covers(g, g[i].dependencies, v + NamesOf(g, r1.0))
      && r1.1 == v + NamesOf(g, r1.0) + {g[i].name}
    decreases |AllNames(g) - v|, 0
  {
    var n := g[i].name;
    Shrinks(AllNames(g), v, n);
    var deps := g[i].dependencies;
    var r1 := Order(g, v + {n}, deps);
    OrderVisited(g, v + {n}, deps);
    assert PostOrdered(g, v, r1.0) by {
      OrderPost(g, v + {n}, deps);
      OrderAbove(g, v + {n}, deps, i + 1);
      AboveNotNamed(g, i, r1.0);
      PostOrderedDrop(g, v, n, r1.0);
    }
    assert Covers(g, deps, v + NamesOf(g, r1.0)) by {
      OrderCovers(g, v + {n}, deps);
      forall j | 0 <= j < |deps| ensures g[deps[j]].name in v + NamesOf(g, r1.0) {
        assert deps[j] != i;
      }
    }
  }

  /** Packages after position `i` depend on none named like the package at
      `i`, when dependencies sit after their dependents and names are
      unique. */
  lemma AboveNotNamed(g: Graph, i: nat, o: seq<nat>)
    requires ValidGraph(g) && InGraph(g, o) && Topological(g) && UniqueNames(g) && i < |g|
    requires forall k :: 0 <= k < |o| ==> i + 1 <= o[k]
    ensures forall k, m :: 0 <= k < |o| && 0 <= m < |g[o[k]].dependencies| ==> g[g[o[k]].dependencies[m]].name != g[i].name
  {
    forall k, m | 0 <= k < |o| && 0 <= m < |g[o[k]].dependencies|
      ensures g[g[o[k]].dependencies[m]].name != g[i].name
    {
      assert i < o[k] < g[o[k]].dependencies[m];
    }
  }

  /** From nothing visited, in a graph without cycles and with one package
      per name: every dependency of a processed package is processed
      before it. */
  lemma DependenciesFirst(g: Graph, list: seq<nat>)
    requires ValidGraph(g) && InGraph(g, list) && Topological(g) && UniqueNames(g)
    ensures var o := Order(g, {}, list).0;
      forall k, m :: 0 <= k < |o| && 0 <= m < |g[o[k]].dependencies| ==> g[o[k]].dependencies[m] in o[..k]
  {
    OrderPost(g, {}, list);
    var o := Order(g, {}, list).0;
    forall k, m | 0 <= k < |o| && 0 <= m < |g[o[k]].dependencies| ensures g[o[k]].dependencies[m] in o[..k] {
      var d := g[o[k]].dependencies[m];
      assert g[d].name in NamesOf(g, o[..k]);
      var j :| 0 <= j < |o[..k]| && g[o[..k][j]].name == g[d].name;
      assert o[..k][j] == d;
    }
  }
}
