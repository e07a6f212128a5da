/** `PackageFinder` and the dependency loading of `Package`: turning
    `require` slugs into packages, and collecting every package of a tree
    once. */
module PackageFinder {
  import opened Wrappers
  import opened Strings
  import opened Parsing
  import opened Packages

  /** What the finder works with: the Mozart configuration, once set, and
      for every slug whose `vendor/` directory exists, the package the
      factory creates for it (a position in the graph). */
  datatype Finder = Finder(config: Option<Settings>, installed: map<string, nat>)

  /** `getPackageBySlug`: requirements such as `php` or `ext-json` are not
      packages; a real slug needs a configuration and an installed
      package, or it is an error. */
  function GetPackageBySlug(f: Finder, slug: string): (r: Result<Option<nat>, Error>)
    ensures Slash !in slug ==> r == Success(None)
    ensures Slash in slug ==> (r.Success? <==> f.config.Some? && slug in f.installed)
    ensures r.Success? && r.value.Some? ==> Slash in slug && slug in f.installed && r.value.value == f.installed[slug]
    ensures r.Success? && r.value.None? ==> Slash !in slug
  {
    if Slash !in slug then Success(None)
    else if f.config.None? then Failure(ConfigurationError)
    else if slug !in f.installed then Failure(ConfigurationError)
    else Success(Some(f.installed[slug]))
  }

  /** The `array_map` half of `getPackagesBySlugs`: every slug looked up in
      turn, the first error ending the whole lookup. */
  function LookUpAll(f: Finder, slugs: seq<string>): (r: Result<seq<Option<nat>>, Error>)
    ensures r.Success? <==> forall i :: 0 <= i < |slugs| ==> GetPackageBySlug(f, slugs[i]).Success?
    ensures r.Success? ==> |r.value| == |slugs|
    ensures r.Success? ==> forall i :: 0 <= i < |slugs| ==> r.value[i] == GetPackageBySlug(f, slugs[i]).value
  {
    if slugs == [] then Success([])
    else
      var first :- GetPackageBySlug(f, slugs[0]);
      var rest :- LookUpAll(f, slugs[1..]);
      Success([first] + rest)
  }

  /** The `array_filter` half: the packages found, in order, without the
      `null`s. */
  function DropNulls(xs: seq<Option<nat>>): (r: seq<nat>)
    ensures forall k :: 0 <= k < |r| ==> Some(r[k]) in xs
    ensures forall i :: 0 <= i < |xs| && xs[i].Some? ==> xs[i].value in r
    ensures |r| <= |xs|
  {
    if xs == [] then []
    else (if xs[0].Some? then [xs[0].value] else []) + DropNulls(xs[1..])
  }

  /** Dropping nulls keeps the order: it works piece by piece. */
  lemma {:induction false} DropNullsAppend(a: seq<Option<nat>>, b: seq<Option<nat>>)
    ensures DropNulls(a + b) == DropNulls(a) + DropNulls(b)
  {
    if a == [] {
      assert a + b == b;
    } else {
      assert (a + b)[0] == a[0];
      assert (a + b)[1..] == a[1..] + b;
      DropNullsAppend(a[1..], b);
      var h := if a[0].Some? then [a[0].value] else [];
      assert DropNulls(a + b) == h + DropNulls(a[1..] + b);
      assert h + (DropNulls(a[1..]) + DropNulls(b)) == (h + DropNulls(a[1..])) + DropNulls(b);
    }
  }

  /** `getPackagesBySlugs` */
  function GetPackagesBySlugs(f: Finder, slugs: seq<string>): (r: Result<seq<nat>, Error>)
    ensures r.Success? <==>
      forall i :: 0 <= i < |slugs| && Slash in slugs[i] ==> f.config.Some? && slugs[i] in f.installed
    ensures r.Success? ==> forall k :: 0 <= k < |r.value| ==> FoundFor(f, slugs, r.value[k])
    ensures r.Success? ==> forall i :: 0 <= i < |slugs| && Slash in slugs[i] ==> f.installed[slugs[i]] in r.value
  {
    match LookUpAll(f, slugs)
    case Failure(e) => Failure(e)
    case Success(found) =>
      FoundComesFromSlugs(f, slugs, found);
      Success(DropNulls(found))
  }

  /** `x` is the package installed for one of the slugs. */
  ghost predicate FoundFor(f: Finder, slugs: seq<string>, x: nat) {
    exists i :: 0 <= i < |slugs| && Slash in slugs[i] && slugs[i] in f.installed && x == f.installed[slugs[i]]
  }

  lemma FoundComesFromSlugs(f: Finder, slugs: seq<string>, found: seq<Option<nat>>)
    requires LookUpAll(f, slugs) == Success(found)
    ensures forall k :: 0 <= k < |DropNulls(found)| ==> FoundFor(f, slugs, DropNulls(found)[k])
  {
    var r := DropNulls(found);
    forall k | 0 <= k < |r|
      ensures FoundFor(f, slugs, r[k])
    {
      var i :| 0 <= i < |found| && found[i] == Some(r[k]);
      assert GetPackageBySlug(f, slugs[i]).value == Some(r[k]);
    }
  }

  /** `Package::loadDependencies`: once loaded, nothing happens; otherwise
      a package with a valid Mozart section hands its configuration to the
      finder, the required packages are looked up, registered in order
      after the ones already there, and the package is flagged as loaded.
      A failed lookup registers nothing and leaves the flag down. */
  function LoadDependencies(p: Package, f: Finder): (r: Result<(Package, Finder), Error>)
    ensures p.dependenciesLoaded ==> r == Success((p, f))
    ensures !p.dependenciesLoaded && r.Success? ==>
      && r.value.0.dependenciesLoaded
      && r.value.0 == p.(dependencies := r.value.0.dependencies, dependenciesLoaded := true)
      && GetPackagesBySlugs(r.value.1, Require(p)).Success?
      && r.value.0.dependencies == p.dependencies + GetPackagesBySlugs(r.value.1, Require(p)).value
    ensures IsValidMozartConfig(p) && r.Success? && !p.dependenciesLoaded ==>
      r.value.1.config == Some(p.extra.value.mozart.value.settings)
    ensures !IsValidMozartConfig(p) && r.Success? ==> r.value.1 == f
  {
    if p.dependenciesLoaded then Success((p, f))
    else
      var f1 := if IsValidMozartConfig(p) then f.(config := Some(p.extra.value.mozart.value.settings)) else f;
      var found :- GetPackagesBySlugs(f1, Require(p));
      RegisterDependenciesAppends(p, found);
      Success((RegisterDependencies(p, found).(dependenciesLoaded := true), f1))
  }

  /** Loading twice is loading once. */
  lemma LoadTwice(p: Package, f: Finder)
    requires LoadDependencies(p, f).Success?
    ensures LoadDependencies(LoadDependencies(p, f).value.0, LoadDependencies(p, f).value.1) == LoadDependencies(p, f)
  {
  }

  /** The dependencies whose names have not been seen, in order. */
  function Unseen(g: Graph, ds: seq<nat>, seen: set<string>): (r: seq<nat>)
    requires InGraph(g, ds)
    ensures forall k :: 0 <= k < |r| ==> r[k] in ds && g[r[k]].name !in seen
    ensures forall k :: 0 <= k < |ds| && g[ds[k]].name !in seen ==> ds[k] in r
  {
    if ds == [] then []
    else (if g[ds[0]].name !in seen then [ds[0]] else []) + Unseen(g, ds[1..], seen)
  }

  /** Each queued package is an input or a dependency of a taken one. */
  ghost predicate Queued(g: Graph, packages: seq<nat>, r: seq<nat>, queue: seq<nat>)
    requires InGraph(g, r)
  {
    forall q :: q in queue ==> q in packages || exists j :: 0 <= j < |r| && q in g[r[j]].dependencies
  }

  /** Nothing is lost: every input and every dependency of a taken package
      has its name seen, or is still queued. */
  predicate Pending(g: Graph, packages: seq<nat>, r: seq<nat>, seen: set<string>, queue: seq<nat>)
    requires InGraph(g, packages) && InGraph(g, r) && ValidGraph(g)
  {
    && (forall i :: 0 <= i < |packages| ==> g[packages[i]].name in seen || packages[i] in queue)
    && (forall k, d :: 0 <= k < |r| && d in g[r[k]].dependencies ==> g[d].name in seen || d in queue)
  }

  /** The loop invariant of `FindPackages`. */
  ghost predicate Walking(g: Graph, packages: seq<nat>, r: seq<nat>, seen: set<string>, queue: seq<nat>)
    requires ValidGraph(g) && InGraph(g, packages)
  {
    && InGraph(g, queue)
    && InGraph(g, r)
    && seen == NamesOf(g, r)
    && DistinctNames(g, r)
    && Introduced(g, packages, r)
    && Queued(g, packages, r, queue)
    && Pending(g, packages, r, seen, queue)
  }

  /** Dropping a queued package whose name was seen keeps the invariant. */
  lemma SkipStep(g: Graph, packages: seq<nat>, r: seq<nat>, seen: set<string>, queue: seq<nat>)
    requires ValidGraph(g) && InGraph(g, packages)
    requires Walking(g, packages, r, seen, queue)
    requires queue != [] && queue[0] < |g| && g[queue[0]].name in seen
    ensures Walking(g, packages, r, seen, queue[1..])
  {
    var q := queue[1..];
    forall x | x in queue && x != queue[0] ensures x in q {
      var k :| 0 <= k < |queue| && queue[k] == x;
      assert q[k - 1] == x;
    }
  }

  /** Taking a new name keeps the names seen and their distinctness. */
  lemma TakeNames(g: Graph, r: seq<nat>, seen: set<string>, p: nat)
    requires InGraph(g, r) && p < |g|
    requires seen == NamesOf(g, r) && DistinctNames(g, r) && g[p].name !in seen
    ensures InGraph(g, r + [p])
    ensures NamesOf(g, r + [p]) == seen + {g[p].name}
    ensures DistinctNames(g, r + [p])
  {
    NamesOfAppend(g, r, p);
    var r1 := r + [p];
    forall j, k | 0 <= j < k < |r1| ensures g[r1[j]].name != g[r1[k]].name {
      assert r1[j] == r[j];
      if k < |r| {
        assert r1[k] == r[k];
      }
    }
  }

  /** A package taken off the queue was introduced. */
  lemma TakeIntroduced(g: Graph, packages: seq<nat>, r: seq<nat>, queue: seq<nat>)
    requires InGraph(g, r) && queue != [] && queue[0] < |g|
    requires Introduced(g, packages, r) && Queued(g, packages, r, queue)
    ensures InGraph(g, r + [queue[0]])
    ensures Introduced(g, packages, r + [queue[0]])
  {
    var p := queue[0];
    var r1 := r + [p];
    forall k | 0 <= k < |r1|
      ensures r1[k] in packages || exists j :: 0 <= j < k && r1[k] in g[r1[j]].dependencies
    {
      if k < |r| {
        assert r1[k] == r[k];
        if r[k] !in packages {
          var j :| 0 <= j < k && r[k] in g[r[j]].dependencies;
          assert r1[j] == r[j];
        }
      } else if p !in packages {
        var j :| 0 <= j < |r| && p in g[r[j]].dependencies;
        assert r1[j] == r[j];
      }
    }
  }

  /** The rest of the queue and the new package's dependencies were all
      introduced. */
  lemma TakeQueued(g: Graph, packages: seq<nat>, r: seq<nat>, queue: seq<nat>, added: seq<nat>)
    requires InGraph(g, r) && queue != [] && queue[0] < |g|
    requires Queued(g, packages, r, queue)
    requires forall k :: 0 <= k < |added| ==> added[k] in g[queue[0]].dependencies
    ensures InGraph(g, r + [queue[0]])
    ensures Queued(g, packages, r + [queue[0]], queue[1..] + added)
  {
    var r1 := r + [queue[0]];
    forall x | x in queue[1..] + added
      ensures x in packages || exists j :: 0 <= j < |r1| && x in g[r1[j]].dependencies
    {
      if x in added {
        assert r1[|r|] == queue[0];
      } else {
        assert x in queue;
        if x !in packages {
          var j :| 0 <= j < |r| && x in g[r[j]].dependencies;
          assert r1[j] == r[j];
        }
      }
    }
  }

  /** Nothing is lost: the taken package's name is now seen, and its
      dependencies are seen or queued. */
  lemma TakePending(g: Graph, packages: seq<nat>, r: seq<nat>, seen: set<string>, queue: seq<nat>)
    requires ValidGraph(g) && InGraph(g, packages) && InGraph(g, r) && InGraph(g, queue)
    requires queue != []
    requires Pending(g, packages, r, seen, queue)
    ensures InGraph(g, r + [queue[0]])
    ensures Pending(g, packages, r + [queue[0]], seen + {g[queue[0]].name},
                    queue[1..] + Unseen(g, g[queue[0]].dependencies, seen + {g[queue[0]].name}))
  {
    var p := queue[0];
    var r1 := r + [p];
    var seen1 := seen + {g[p].name};
    var q1 := queue[1..] + Unseen(g, g[p].dependencies, seen1);
    forall x | x in queue && x != p ensures x in q1 {
      var k :| 0 <= k < |queue| && queue[k] == x;
      assert q1[k - 1] == x;
    }
    forall k, d | 0 <= k < |r1| && d in g[r1[k]].dependencies
      ensures g[d].name in seen1 || d in q1
    {
      if k < |r| {
        assert r1[k] == r[k];
      }
    }
  }

  /** Taking a new name and queueing its unseen dependencies keeps the
      invariant. */
  lemma TakeStep(g: Graph, packages: seq<nat>, r: seq<nat>, seen: set<string>, queue: seq<nat>)
    requires ValidGraph(g) && InGraph(g, packages)
    requires Walking(g, packages, r, seen, queue)
    requires queue != [] && queue[0] < |g| && g[queue[0]].name !in seen
    ensures InGraph(g, r + [queue[0]])
    ensures Walking(g, packages, r + [queue[0]], seen + {g[queue[0]].name},
                    queue[1..] + Unseen(g, g[queue[0]].dependencies, seen + {g[queue[0]].name}))
  {
    var p := queue[0];
    var added := Unseen(g, g[p].dependencies, seen + {g[p].name});
    TakeNames(g, r, seen, p);
    TakeIntroduced(g, packages, r, queue);
    TakeQueued(g, packages, r, queue, added);
    TakePending(g, packages, r, seen, queue);
  }

  /** With the queue empty, the invariant says the walk is closed. */
  lemma Finished(g: Graph, packages: seq<nat>, r: seq<nat>, seen: set<string>)
    requires ValidGraph(g) && InGraph(g, packages)
    requires Walking(g, packages, r, seen, [])
    ensures forall i :: 0 <= i < |packages| ==> g[packages[i]].name in NamesOf(g, r)
    ensures forall k, d :: 0 <= k < |r| && d in g[r[k]].dependencies ==> g[d].name in NamesOf(g, r)
  {
    assert Pending(g, packages, r, seen, []);
  }

  /** The breadth-first walk of `findPackages` as a recursion on the
      queue: the packages taken, in order, when the names in `seen` are
      taken already. The head of the queue is dropped when its name was
      seen; otherwise it is taken and its dependencies with unseen names
      join the back of the queue. */
  function Walk(g: Graph, queue: seq<nat>, seen: set<string>): (r: seq<nat>)
    requires ValidGraph(g) && InGraph(g, queue)
    ensures InGraph(g, r)
    decreases |AllNames(g) - seen|, |queue|
  {
    if queue == [] then []
    else
      var p := queue[0];
      var n := g[p].name;
      if n in seen then Walk(g, queue[1..], seen)
      else
        Shrinks(AllNames(g), seen, n);
        var queue1 := queue[1..] + Unseen(g, g[p].dependencies, seen + {n});
        assert InGraph(g, queue1) by {
          forall k | 0 <= k < |queue1| ensures queue1[k] < |g| {
            if k >= |queue| - 1 {
              assert queue1[k] in g[p].dependencies;
            } else {
              assert queue1[k] == queue[k + 1];
            }
          }
        }
        var rest := Walk(g, queue1, seen + {n});
        assert InGraph(g, [p] + rest) by {
          forall k | 0 <= k < |[p] + rest| ensures ([p] + rest)[k] < |g| {
            if k > 0 {
              assert ([p] + rest)[k] == rest[k - 1];
            }
          }
        }
        [p] + rest
  }

  /** The walk takes the head of the queue when its name is unseen. */
  lemma WalkTake(g: Graph, queue: seq<nat>, seen: set<string>)
    requires ValidGraph(g) && InGraph(g, queue)
    requires queue != [] && g[queue[0]].name !in seen
    ensures InGraph(g, queue[1..] + Unseen(g, g[queue[0]].dependencies, seen + {g[queue[0]].name}))
    ensures Walk(g, queue, seen)
      == [queue[0]] + Walk(g, queue[1..] + Unseen(g, g[queue[0]].dependencies, seen + {g[queue[0]].name}),
                           seen + {g[queue[0]].name})
  {
    var q := queue[1..] + Unseen(g, g[queue[0]].dependencies, seen + {g[queue[0]].name});
    forall k | 0 <= k < |q| ensures q[k] < |g| {
      if k >= |queue| - 1 {
        assert q[k] in g[queue[0]].dependencies;
      } else {
        assert q[k] == queue[k + 1];
      }
    }
  }

  /** Taking the head of the queue moves it from the walk still to come to
      the packages taken so far. */
  lemma WalkStep(g: Graph, r: seq<nat>, queue: seq<nat>, seen: set<string>, total: seq<nat>)
    requires ValidGraph(g) && InGraph(g, queue)
    requires queue != [] && g[queue[0]].name !in seen
    requires r + Walk(g, queue, seen) == total
    ensures InGraph(g, queue[1..] + Unseen(g, g[queue[0]].dependencies, seen + {g[queue[0]].name}))
    ensures (r + [queue[0]])
      + Walk(g, queue[1..] + Unseen(g, g[queue[0]].dependencies, seen + {g[queue[0]].name}), seen + {g[queue[0]].name})
      == total
  {
    WalkTake(g, queue, seen);
    var rest := Walk(g, queue[1..] + Unseen(g, g[queue[0]].dependencies, seen + {g[queue[0]].name}), seen + {g[queue[0]].name});
    assert r + ([queue[0]] + rest) == (r + [queue[0]]) + rest;
  }

  /** The packages of `xs`, in order, keeping for each name not in `seen`
      only the first package that carries it. */
  function FirstByName(g: Graph, xs: seq<nat>, seen: set<string>): (r: seq<nat>)
    requires InGraph(g, xs)
    decreases |xs|
  {
    if xs == [] then []
    else if g[xs[0]].name in seen then FirstByName(g, xs[1..], seen)
    else [xs[0]] + FirstByName(g, xs[1..], seen + {g[xs[0]].name})
  }

  /** `a` is where `b` starts. */
  predicate IsPrefix(a: seq<nat>, b: seq<nat>) {
    |a| <= |b| && b[..|a|] == a
  }

  lemma PrefixCons(p: nat, a: seq<nat>, b: seq<nat>)
    requires IsPrefix(a, b)
    ensures IsPrefix([p] + a, [p] + b)
  {
    assert ([p] + b)[..|a| + 1] == [p] + b[..|a|];
  }

  /** Breadth first: whatever follows in the queue, the walk takes the
      packages already queued first, each name with its first package. */
  lemma {:induction false} WalkStartsWithQueue(g: Graph, q1: seq<nat>, q2: seq<nat>, seen: set<string>)
    requires ValidGraph(g) && InGraph(g, q1) && InGraph(g, q1 + q2)
    ensures IsPrefix(FirstByName(g, q1, seen), Walk(g, q1 + q2, seen))
    decreases |q1|, 1
  {
    if q1 != [] {
      if g[q1[0]].name in seen {
        StartsSkip(g, q1, q2, seen);
      } else {
        StartsTake(g, q1, q2, seen);
      }
    }
  }

  lemma {:induction false} StartsSkip(g: Graph, q1: seq<nat>, q2: seq<nat>, seen: set<string>)
    requires ValidGraph(g) && InGraph(g, q1) && InGraph(g, q1 + q2)
    requires q1 != [] && g[q1[0]].name in seen
    ensures IsPrefix(FirstByName(g, q1, seen), Walk(g, q1 + q2, seen))
    decreases |q1|, 0
  {
    var q := q1 + q2;
    assert q[0] == q1[0];
    assert q[1..] == q1[1..] + q2;
    InGraphTail(g, q1);
    InGraphTail(g, q);
    assert Walk(g, q, seen) == Walk(g, q[1..], seen);
    assert FirstByName(g, q1, seen) == FirstByName(g, q1[1..], seen);
    WalkStartsWithQueue(g, q1[1..], q2, seen);
  }

  lemma {:induction false} StartsTake(g: Graph, q1: seq<nat>, q2: seq<nat>, seen: set<string>)
    requires ValidGraph(g) && InGraph(g, q1) && InGraph(g, q1 + q2)
    requires q1 != [] && g[q1[0]].name !in seen
    ensures IsPrefix(FirstByName(g, q1, seen), Walk(g, q1 + q2, seen))
    decreases |q1|, 0
  {
    var q := q1 + q2;
    var p := q1[0];
    var n := g[p].name;
    assert q[0] == p;
    assert q[1..] == q1[1..] + q2;
    InGraphTail(g, q1);
    var added := Unseen(g, g[p].dependencies, seen + {n});
    WalkTake(g, q, seen);
    var q' := q[1..] + added;
    assert q' == q1[1..] + (q2 + added);
    WalkStartsWithQueue(g, q1[1..], q2 + added, seen + {n});
    var d1 := FirstByName(g, q1[1..], seen + {n});
    PrefixCons(p, d1, Walk(g, q', seen + {n}));
    assert FirstByName(g, q1, seen) == [p] + d1;
  }

  lemma InGraphTail(g: Graph, q: seq<nat>)
    requires q != [] && InGraph(g, q)
    ensures InGraph(g, q[1..])
  {
    forall k | 0 <= k < |q[1..]| ensures q[1..][k] < |g| {
      assert q[1..][k] == q[k + 1];
    }
  }

  /** `findPackages`: the breadth-first walk from the given packages. A
      name is taken once, with the first package that carries it; the
      result begins with the inputs, each name with its first input; each
      taken package comes after one that introduced it (or is an input);
      and the result is closed: the inputs and every dependency of a taken
      package are taken under their names. The loop ends on cyclic graphs
      too, since each round either takes a new name or shortens the
      queue. */
  method FindPackages(g: Graph, packages: seq<nat>) returns (r: seq<nat>)
    requires ValidGraph(g)
    requires InGraph(g, packages)
    ensures r == Walk(g, packages, {})
    ensures IsPrefix(FirstByName(g, packages, {}), r)
    ensures InGraph(g, r) && Found(g, packages, r)
  {
    r := [];
    var seen: set<string> := {};
    var queue := packages;
    ghost var names := AllNames(g);
    while queue != []
      invariant InGraph(g, queue)
      invariant r + Walk(g, queue, seen) == Walk(g, packages, {})
      decreases |names - seen|, |queue|
    {
      var p: nat := queue[0];
      if g[p].name in seen {
        assert Walk(g, queue, seen) == Walk(g, queue[1..], seen);
        queue := queue[1..];
        continue;
      }
      Shrinks(names, seen, g[p].name);
      var taken: seq<nat> := [p];
      WalkStep(g, r, queue, seen, Walk(g, packages, {}));
      r := r + taken;
      seen := seen + {g[p].name};
      queue := queue[1..] + Unseen(g, g[p].dependencies, seen);
    }
    assert r + [] == r;
    FoundByWalk(g, packages);
  }

  /** The walk from the inputs, started with nothing seen, has every
      property `findPackages` promises. */
  lemma FoundByWalk(g: Graph, packages: seq<nat>)
    requires ValidGraph(g) && InGraph(g, packages)
    ensures IsPrefix(FirstByName(g, packages, {}), Walk(g, packages, {}))
    ensures Found(g, packages, Walk(g, packages, {}))
  {
    WalkFound(g, packages, [], {}, packages);
    assert [] + Walk(g, packages, {}) == Walk(g, packages, {});
    assert packages + [] == packages;
    WalkStartsWithQueue(g, packages, [], {});
  }

  /** What `findPackages` promises of its result besides the order: no
      name twice; each package an input or a dependency of a package before
      it; and closed, since the name of every input and of every dependency
      of a taken package is taken. */
  ghost predicate Found(g: Graph, packages: seq<nat>, r: seq<nat>)
    requires ValidGraph(g) && InGraph(g, packages) && InGraph(g, r)
  {
    && DistinctNames(g, r)
    && Introduced(g, packages, r)
    && (forall i :: 0 <= i < |packages| ==> g[packages[i]].name in NamesOf(g, r))
    && (forall k, d :: 0 <= k < |r| && d in g[r[k]].dependencies ==> g[d].name in NamesOf(g, r))
  }

  /** From any state of the loop, what remains of the walk completes the
      packages taken so far to a result with the promised properties. */
  lemma {:induction false} WalkFound(g: Graph, packages: seq<nat>, r: seq<nat>, seen: set<string>, queue: seq<nat>)
    requires ValidGraph(g) && InGraph(g, packages)
    requires Walking(g, packages, r, seen, queue)
    ensures InGraph(g, r + Walk(g, queue, seen))
    ensures Found(g, packages, r + Walk(g, queue, seen))
    decreases |AllNames(g) - seen|, |queue|
  {
    if queue == [] {
      Finished(g, packages, r, seen);
      assert r + [] == r;
    } else {
      var p := queue[0];
      var n := g[p].name;
      if n in seen {
        SkipStep(g, packages, r, seen, queue);
        WalkFound(g, packages, r, seen, queue[1..]);
        assert Walk(g, queue, seen) == Walk(g, queue[1..], seen);
      } else {
        TakeStep(g, packages, r, seen, queue);
        Shrinks(AllNames(g), seen, n);
        WalkStep(g, r, queue, seen, r + Walk(g, queue, seen));
        WalkFound(g, packages, r + [p], seen + {n}, queue[1..] + Unseen(g, g[p].dependencies, seen + {n}));
      }
    }
  }
}
