/** The name rule of namespace mode, corrected so that moved code stays
    where it is. The code skips a bare name inside a namespace being moved,
    since it resolves through the moved namespace, and never moves a
    namespace already under `prefix\`. The corrected rule also skips a bare
    name inside a namespace that was already moved. With that, a second pass
    over the visitor's output leaves every name where the first pass put
    it. */
module PrefixVisitorStable {
  import opened Wrappers
  import opened Strings
  import opened Syntax
  import opened NameContext
  import opened PrefixVisitor
  import PrefixVisitorExamples

  /** What the first pass makes of a namespace or imported name. */
  function Image(c: Config, s: string): string {
    if ShouldPrefixNamespace(c, s) then Sep(c.prefix) + s else s
  }

  /** A namespace the first pass moved: `prefix\ns` with `ns` selected. */
  predicate WasPrefixed(c: Config, ns: string) {
    StartsWith(ns, Sep(c.prefix)) && ShouldPrefixNamespace(c, ns[|Sep(c.prefix)|..])
  }

  /** The enclosing namespace is being moved, or has been moved. */
  predicate InPrefixedNamespace(c: Config, st: State) {
    st.current.Some? && (ShouldPrefixNamespace(c, st.current.value) || WasPrefixed(c, st.current.value))
  }

  predicate ShouldSkip(c: Config, st: State, x: Name, parent: ParentKind) {
    IsPartOfNamespaceOrUseStatement(parent)
    || (Backslash !in x.str && x.kind != FullyQualified && (x.str in st.aliases || InPrefixedNamespace(c, st)))
  }

  /** `processName` with the intended skip. Outside a namespace that was
      already moved it is the rule as written. */
  function ProcessName(c: Config, st: State, x: Name, parent: ParentKind): (r: Name)
    ensures ShouldSkip(c, st, x, parent) ==> r == x
    ensures r != x ==> r == CreatePrefixedName(c, x, ResolveClassName(st, x))
    ensures !(st.current.Some? && WasPrefixed(c, st.current.value)) ==> r == PrefixVisitor.ProcessName(c, st, x, parent)
  {
    if ShouldSkip(c, st, x, parent) then x
    else
      var resolved := ResolveClassName(st, x);
      if !ShouldPrefixNamespace(c, resolved) then x
      else CreatePrefixedName(c, x, resolved)
  }

  /** The state the second pass reaches at the same point: the same alias
      names, each standing for the first pass's image of the imported name,
      inside the image of the same namespace block. */
  predicate SecondPassOf(c: Config, st: State, st2: State) {
    && st2.aliases.Keys == st.aliases.Keys
    && (forall a :: a in st.aliases ==> st2.aliases[a] == Image(c, st.aliases[a]))
    && st2.current == (if st.current.Some? then Some(Image(c, st.current.value)) else None)
  }

  /** The first segment of a name. */
  function HeadSegment(s: string): string {
    if Backslash in s then s[..IndexOfChar(s, Backslash)] else s
  }

  /** The first pass's image is a fixed point of itself: a moved name is
      never moved again. */
  lemma ImageStable(c: Config, s: string)
    requires WellFormed(c) && c.prefix != []
    ensures Image(c, Image(c, s)) == Image(c, s)
  {
    if ShouldPrefixNamespace(c, s) {
      PrefixedNeverPrefixedAgain(c, s);
    }
  }

  /** Whether the enclosing block counts as moved is the same on both
      passes. */
  lemma InPrefixedNamespaceKept(c: Config, st: State, st2: State)
    requires SecondPassOf(c, st, st2)
    ensures InPrefixedNamespace(c, st2) == InPrefixedNamespace(c, st)
  {
    if st.current.Some? && ShouldPrefixNamespace(c, st.current.value) {
      var ns := st.current.value;
      assert st2.current.value == Sep(c.prefix) + ns;
      assert (Sep(c.prefix) + ns)[|Sep(c.prefix)|..] == ns;
      assert (Sep(c.prefix) + ns)[..|Sep(c.prefix)|] == Sep(c.prefix);
      assert WasPrefixed(c, st2.current.value);
    }
  }

  /** A moved name begins with the first segment of the prefix. */
  lemma PrefixedHead(c: Config, r: string)
    ensures Backslash in Sep(c.prefix) + r
    ensures var s := Sep(c.prefix) + r; s[..IndexOfChar(s, Backslash)] == HeadSegment(c.prefix)
  {
    var s := Sep(c.prefix) + r;
    assert s[|c.prefix|] == Backslash;
    var i := IndexOfChar(s, Backslash);
    if Backslash in c.prefix {
      var k := IndexOfChar(c.prefix, Backslash);
      assert s[k] == c.prefix[k];
      assert s[..i] == c.prefix[..k];
    } else {
      assert s[..i] == c.prefix;
    }
  }

  /** The first pass moves a name or leaves it. */
  lemma ImageMovesOrKeeps(c: Config, s: string)
    ensures Image(c, s) == s || Image(c, s) == Sep(c.prefix) + s
  {
  }

  /** On the second pass a name resolves to what it resolved to on the
      first, or to that moved under `prefix\`: only an alias can have
      changed, and it changed into its image. */
  lemma ResolveSecondPass(c: Config, st: State, st2: State, x: Name)
    requires SecondPassOf(c, st, st2)
    ensures ResolveClassName(st2, x) == ResolveClassName(st, x)
      || ResolveClassName(st2, x) == Sep(c.prefix) + ResolveClassName(st, x)
  {
    if x.kind != FullyQualified {
      if Backslash !in x.str {
        if x.str in st.aliases {
          ImageMovesOrKeeps(c, st.aliases[x.str]);
        }
      } else {
        var i := IndexOfChar(x.str, Backslash);
        var head := x.str[..i];
        if head in st.aliases {
          var v := st.aliases[head];
          ImageMovesOrKeeps(c, v);
          MovedAliasResolves(c.prefix, v, x.str[i..]);
        }
      }
    }
  }

  /** Substituting a moved alias moves the substituted name. */
  lemma MovedAliasResolves(prefix: string, v: string, rest: string)
    ensures (Sep(prefix) + v) + rest == Sep(prefix) + (v + rest)
  {
  }

  /** A name the first pass left alone resolves, on the second pass, to
      something that is not selected either. */
  lemma KeptStaysKept(c: Config, st: State, st2: State, x: Name)
    requires WellFormed(c) && c.prefix != []
    requires SecondPassOf(c, st, st2)
    requires !ShouldPrefixNamespace(c, ResolveClassName(st, x))
    ensures !ShouldPrefixNamespace(c, ResolveClassName(st2, x))
  {
    ResolveSecondPass(c, st, st2, x);
    PrefixedNeverPrefixedAgain(c, ResolveClassName(st, x));
  }

  /** A name the first pass moved is left alone by the second. */
  lemma MovedStaysMoved(c: Config, st2: State, x: Name, r: string, parent: ParentKind)
    requires WellFormed(c) && c.prefix != []
    requires !IsPartOfNamespaceOrUseStatement(parent)
    requires HeadSegment(c.prefix) !in st2.aliases
    ensures ProcessName(c, st2, CreatePrefixedName(c, x, r), parent) == CreatePrefixedName(c, x, r)
  {
    var y := CreatePrefixedName(c, x, r);
    PrefixedHead(c, r);
    assert !ShouldSkip(c, st2, y, parent);
    assert ResolveClassName(st2, y) == y.str;
    PrefixedNeverPrefixedAgain(c, r);
  }

  /** Idempotence of the name rule: on the state the second pass reaches,
      the corrected rule leaves the first pass's output as it is. The only
      condition is that no alias is named like the first segment of the
      prefix, which would make a moved name resolve through that alias. */
  lemma ProcessNameTwice(c: Config, st: State, st2: State, x: Name, parent: ParentKind)
    requires WellFormed(c) && c.prefix != []
    requires SecondPassOf(c, st, st2)
    requires HeadSegment(c.prefix) !in st.aliases
    ensures ProcessName(c, st2, ProcessName(c, st, x, parent), parent) == ProcessName(c, st, x, parent)
  {
    InPrefixedNamespaceKept(c, st, st2);
    assert ShouldSkip(c, st2, x, parent) == ShouldSkip(c, st, x, parent);
    if !ShouldSkip(c, st, x, parent) {
      var r := ResolveClassName(st, x);
      if ShouldPrefixNamespace(c, r) {
        MovedStaysMoved(c, st2, x, r, parent);
      } else {
        KeptStaysKept(c, st, st2, x);
      }
    }
  }

  /** The rule as written is not idempotent: in `namespace T`, with `T`
      selected, a bare `T` is skipped; in the moved block `prefix\T` the
      same bare name is prefixed. */
  lemma AsWrittenProcessNameNotTwice(c: Config, t: string)
    requires WellFormed(c) && c.prefix != [] && Backslash !in t && ShouldPrefixNamespace(c, t)
    ensures var st := State(map[], Some(t));
      var st2 := State(map[], Some(Sep(c.prefix) + t));
      var x := Name(Plain, t);
      SecondPassOf(c, st, st2)
      && PrefixVisitor.ProcessName(c, st, x, OtherParent) == x
      && PrefixVisitor.ProcessName(c, st2, x, OtherParent) == Name(Plain, Sep(c.prefix) + t)
  {
    var st := State(map[], Some(t));
    var st2 := State(map[], Some(Sep(c.prefix) + t));
    assert Image(c, t) == Sep(c.prefix) + t;
    assert SecondPassOf(c, st, st2);
    AsWrittenSkipsInSelectedBlock(c, t);
    AsWrittenPrefixesInMovedBlock(c, t);
  }

  lemma AsWrittenSkipsInSelectedBlock(c: Config, t: string)
    requires Backslash !in t && ShouldPrefixNamespace(c, t)
    ensures PrefixVisitor.ProcessName(c, State(map[], Some(t)), Name(Plain, t), OtherParent) == Name(Plain, t)
  {
    assert IsUnqualifiedNameInPrefixedNamespace(c, State(map[], Some(t)), Name(Plain, t));
  }

  lemma AsWrittenPrefixesInMovedBlock(c: Config, t: string)
    requires WellFormed(c) && c.prefix != [] && Backslash !in t && ShouldPrefixNamespace(c, t)
    ensures PrefixVisitor.ProcessName(c, State(map[], Some(Sep(c.prefix) + t)), Name(Plain, t), OtherParent)
      == Name(Plain, Sep(c.prefix) + t)
  {
    PrefixedNeverPrefixedAgain(c, t);
    PrefixVisitorExamples.BareNameOutsideSelectedNamespace(c, State(map[], Some(Sep(c.prefix) + t)), t);
  }
}
