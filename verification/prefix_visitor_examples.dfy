/** The namespace-mode visitor on the shapes of code the rewriter is built
    for: global classes next to vendor imports, aliased imports,
    fully-qualified type names, bare names resolved through an import,
    reflection strings, and a second pass over its own output. */
module PrefixVisitorExamples {
  import opened Wrappers
  import opened Strings
  import opened Syntax
  import opened NameContext
  import opened ExistenceCheck
  import opened PrefixVisitor

  /** A global name (no backslash) that is not itself a target is never
      selected, so `use Closure;` and a bare `JsonException` stay as they
      are whatever the targets. */
  lemma GlobalNameNeverSelected(c: Config, x: string)
    requires WellFormed(c) && Backslash !in x
    requires forall i :: 0 <= i < |c.targets| ==> c.targets[i] != x
    ensures !ShouldPrefixNamespace(c, x)
    ensures forall k :: ImportedName(c, Name(k, x)) == Name(k, x)
  {
    assert x == [] || (x[0] != Backslash && x[|x| - 1] != Backslash) by {
      if x != [] { assert x[0] in x && x[|x| - 1] in x; }
    }
    TrimOfTrimmed(x, Backslash);
    ShouldPrefixMeaning(c, x);
    forall i | 0 <= i < |c.targets| ensures !MatchesTarget(x, c.targets[i]) {
      var t := c.targets[i];
      if |Sep(t)| <= |x| {
        assert x[..|Sep(t)|][|t|] == x[|t|];
        assert x[|t|] in x;
      }
    }
  }

  /** A name that already starts with `prefix\` is never prefixed again,
      neither as an import nor as a reference. */
  lemma NoDoublePrefix(c: Config, st: State, x: Name, parent: ParentKind)
    requires WellFormed(c) && c.prefix != []
    requires StartsWith(x.str, Sep(c.prefix))
    ensures ImportedName(c, x) == x
    ensures StartsWith(ResolveClassName(st, x), Sep(c.prefix)) ==> ProcessName(c, st, x, parent) == x
  {
    assert x.str == Sep(c.prefix) + x.str[|Sep(c.prefix)|..];
    PrefixedNeverPrefixedAgain(c, x.str[|Sep(c.prefix)|..]);
    var resolved := ResolveClassName(st, x);
    if StartsWith(resolved, Sep(c.prefix)) {
      assert resolved == Sep(c.prefix) + resolved[|Sep(c.prefix)|..];
      PrefixedNeverPrefixedAgain(c, resolved[|Sep(c.prefix)|..]);
    }
  }

  /** An aliased import keeps its alias, is prefixed when selected, and
      from then on the alias stands for the name as written. */
  lemma AliasedImport(c: Config, aliases: map<string, string>, n: Name, a: string)
    ensures ProcessUseItems(c, aliases, [UseItem(n, Some(a))])
      == ([UseItem(ImportedName(c, n), Some(a))], aliases[a := n.str])
  {
    var items := [UseItem(n, Some(a))];
    assert items[1..] == [];
    assert AliasOf(items[0]) == a;
    assert RecordAliases(aliases, items) == RecordAliases(aliases[a := n.str], []) == aliases[a := n.str];
    var r := ImportedItems(c, items);
    assert |r| == 1 && r[0] == UseItem(ImportedName(c, n), Some(a));
    assert r == [UseItem(ImportedName(c, n), Some(a))];
    assert ProcessUseItems(c, aliases, items) == (r, aliases[a := n.str]);
  }

  /** Leaving a `use` statement: its items are rewritten as imports and
      their aliases recorded; nothing else in the state changes. */
  lemma VisitUse(c: Config, st: State, items: seq<UseItem>, parent: ParentKind)
    ensures VisitNode(c, st, Use(items), parent)
      == (Use(ImportedItems(c, items)), st.(aliases := RecordAliases(st.aliases, items)))
  {
  }

  /** Leaving a name reference: `processName` decides, and the state is
      untouched. */
  lemma VisitNameRef(c: Config, st: State, x: Name, parent: ParentKind)
    ensures VisitNode(c, st, NameRef(x), parent) == (NameRef(ProcessName(c, st, x, parent)), st)
  {
  }

  /** A named namespace block: its statements are visited with the block
      as current namespace, then its name is rewritten on leaving. */
  lemma VisitNamedNamespace(c: Config, st: State, x: Name, stmts: seq<Node>, parent: ParentKind)
    ensures var st1 := st.(current := Some(x.str));
      var inner := VisitNodes(c, st1, stmts, OtherParent);
      VisitNode(c, st, Namespace(Some(x), stmts), parent) == (LeaveNamespace(c, Some(x), inner.0), inner.1)
  {
  }

  lemma VisitTwo(c: Config, st: State, a: Node, b: Node, parent: ParentKind)
    ensures var (a1, st1) := VisitNode(c, st, a, parent);
      var (b1, st2) := VisitNode(c, st1, b, parent);
      VisitNodes(c, st, [a, b], parent) == ([a1, b1], st2)
  {
    var (a1, st1) := VisitNode(c, st, a, parent);
    var (b1, st2) := VisitNode(c, st1, b, parent);
    assert [a, b][0] == a && [a, b][1..] == [b];
    assert [b][0] == b && [b][1..] == [];
    VisitOne(c, st1, b, parent);
    assert [a1] + [b1] == [a1, b1];
  }

  lemma VisitOne(c: Config, st: State, a: Node, parent: ParentKind)
    ensures VisitNodes(c, st, [a], parent) == ([VisitNode(c, st, a, parent).0], VisitNode(c, st, a, parent).1)
  {
    var (a1, st1) := VisitNode(c, st, a, parent);
    assert [a][0] == a && [a][1..] == [];
    assert VisitNodes(c, st1, [], parent) == ([], st1);
    assert [a1] + [] == [a1];
  }

  /** A fully-qualified name in a type position keeps its leading
      backslash: it becomes `\prefix\name` when selected and stays
      otherwise. */
  lemma FullyQualifiedReference(c: Config, st: State, s: string, parent: ParentKind)
    requires !IsPartOfNamespaceOrUseStatement(parent)
    ensures ProcessName(c, st, Name(FullyQualified, s), parent)
      == if ShouldPrefixNamespace(c, s) then Name(FullyQualified, Sep(c.prefix) + s)
         else Name(FullyQualified, s)
  {
  }

  /** `use N as A; ... A\X`: a qualified name whose first segment is an
      imported alias is read as `N\X`, and becomes `prefix\N\X` exactly
      when that is selected. The alias skip does not apply, since the name
      holds a backslash. */
  lemma QualifiedNameThroughAlias(c: Config, st: State, a: string, rest: string, parent: ParentKind)
    requires !IsPartOfNamespaceOrUseStatement(parent)
    requires a in st.aliases && Backslash !in a
    ensures var x := Name(Plain, a + [Backslash] + rest);
      var full := st.aliases[a] + [Backslash] + rest;
      ProcessName(c, st, x, parent) == if ShouldPrefixNamespace(c, full) then Name(Plain, Sep(c.prefix) + full) else x
  {
    var x := Name(Plain, a + [Backslash] + rest);
    FirstSegment(a, rest);
    assert x.str[|a|..] == [Backslash] + rest;
    assert ResolveClassName(st, x) == st.aliases[a] + [Backslash] + rest;
    assert !ShouldSkipName(c, st, x, parent);
  }

  /** A qualified name whose first segment is no alias is taken as
      written, and becomes `prefix\name` exactly when it is selected. */
  lemma QualifiedNameAsWritten(c: Config, st: State, a: string, rest: string, parent: ParentKind)
    requires !IsPartOfNamespaceOrUseStatement(parent)
    requires a !in st.aliases && Backslash !in a
    ensures var x := Name(Plain, a + [Backslash] + rest);
      ProcessName(c, st, x, parent) == if ShouldPrefixNamespace(c, x.str) then Name(Plain, Sep(c.prefix) + x.str) else x
  {
    var x := Name(Plain, a + [Backslash] + rest);
    FirstSegment(a, rest);
    assert ResolveClassName(st, x) == x.str;
    assert !ShouldSkipName(c, st, x, parent);
  }

  /** The first segment of `a\rest` is `a`. */
  lemma FirstSegment(a: string, rest: string)
    requires Backslash !in a
    ensures var s := a + [Backslash] + rest;
      Backslash in s && IndexOfChar(s, Backslash) == |a| && s[..|a|] == a
  {
    var s := a + [Backslash] + rest;
    assert s[|a|] == Backslash;
    assert forall j :: 0 <= j < |a| ==> s[j] == a[j];
  }

  /** `namespace App; use Foo\Bar as Bar; ... Bar`: the import is prefixed
      when selected, and the bare `Bar` is left alone because it resolves
      through that import. */
  lemma BareNameResolvedThroughImport(c: Config, ns: string, n: Name, a: string)
    requires !ShouldPrefixNamespace(c, ns) && Backslash !in a
    ensures Traverse(c, [Namespace(Some(Name(Plain, ns)), [Use([UseItem(n, Some(a))]), NameRef(Name(Plain, a))])])
      == [Namespace(Some(Name(Plain, ns)), [Use([UseItem(ImportedName(c, n), Some(a))]), NameRef(Name(Plain, a))])]
  {
    var items := [UseItem(n, Some(a))];
    var st1 := State(map[], Some(ns));
    VisitUse(c, st1, items, OtherParent);
    AliasedImport(c, map[], n, a);
    var st2 := st1.(aliases := map[a := n.str]);
    VisitNameRef(c, st2, Name(Plain, a), OtherParent);
    VisitTwo(c, st1, Use(items), NameRef(Name(Plain, a)), OtherParent);
    var nsNode := Namespace(Some(Name(Plain, ns)), [Use(items), NameRef(Name(Plain, a))]);
    VisitNamedNamespace(c, Fresh, Name(Plain, ns), nsNode.stmts, NoParent);
    VisitOne(c, Fresh, nsNode, NoParent);
  }

  /** `class_exists('X')`: the string gains `prefix\` in front exactly when
      `X` is selected. */
  lemma ClassExistsString(c: Config, k: NameKind, s: string)
    ensures ProcessExistenceCheck(c, NameRef(Name(k, "class_exists")), [Arg(StringLit(s))])
      == [Arg(StringLit(if ShouldPrefixNamespace(c, s) then Sep(c.prefix) + s else s))]
  {
    var callee := NameRef(Name(k, "class_exists"));
    var args := [Arg(StringLit(s))];
    assert ArgIndices("class_exists") == Some([0]);
    assert !SupportsDoubleColon("class_exists");
    ProcessExistenceCheckPrefixesLiterals(c, callee, args, 0);
  }

  /** `constant('X::NAME')`: the class part `X` decides, and the string
      gains `prefix\` in front with `::NAME` kept. */
  lemma ConstantString(c: Config, k: NameKind, s: string, member: string)
    requires ':' !in s
    ensures var lit := s + "::" + member;
      ProcessExistenceCheck(c, NameRef(Name(k, "constant")), [Arg(StringLit(lit))])
        == [Arg(StringLit(if ShouldPrefixNamespace(c, s) then Sep(c.prefix) + lit else lit))]
  {
    var lit := s + "::" + member;
    var callee := NameRef(Name(k, "constant"));
    var args := [Arg(StringLit(lit))];
    assert ArgIndices("constant") == Some([0]);
    SplitAtFirstDoubleColon(s, member);
    ProcessExistenceCheckPrefixesLiterals(c, callee, args, 0);
  }

  lemma SplitAtFirstDoubleColon(s: string, member: string)
    requires ':' !in s
    ensures ExtractValueAndSuffix("constant", s + "::" + member) == (s, "::" + member)
  {
    var lit := s + "::" + member;
    assert lit[|s|..|s| + 2] == "::";
    assert OccursAt(lit, "::", |s|);
    var pos := IndexOf(lit, "::").value;
    assert pos <= |s|;
    assert lit[pos] == lit[pos..pos + 2][0] == ':';
    assert pos == |s|;
    assert lit[..|s|] == s && lit[|s|..] == "::" + member;
  }

  /** A second pass over the visitor's own output is not always a no-op:
      inside `namespace T` a bare `T` is skipped on the first pass because
      the enclosing namespace is selected; on the second pass the enclosing
      namespace is `prefix\T`, which is not selected, so the bare `T` is
      prefixed. */
  lemma SecondPassChangesBareTargetName(c: Config, t: string)
    requires WellFormed(c) && c.prefix != [] && Backslash !in t && ShouldPrefixNamespace(c, t)
    ensures var ast := [Namespace(Some(Name(Plain, t)), [NameRef(Name(Plain, t))])];
      var once := [Namespace(Some(Name(Plain, Sep(c.prefix) + t)), [NameRef(Name(Plain, t))])];
      var twice := [Namespace(Some(Name(Plain, Sep(c.prefix) + t)), [NameRef(Name(Plain, Sep(c.prefix) + t))])];
      Traverse(c, ast) == once && Traverse(c, once) == twice && twice != once
  {
    FirstPassSkipsBareTargetName(c, t);
    SecondPassPrefixesBareTargetName(c, t);
    assert |Sep(c.prefix) + t| > |t|;
  }

  /** First pass: the enclosing namespace `t` is selected, so the bare `t`
      is skipped while the namespace becomes `prefix\t`. */
  lemma FirstPassSkipsBareTargetName(c: Config, t: string)
    requires Backslash !in t && ShouldPrefixNamespace(c, t)
    ensures Traverse(c, [Namespace(Some(Name(Plain, t)), [NameRef(Name(Plain, t))])])
      == [Namespace(Some(Name(Plain, Sep(c.prefix) + t)), [NameRef(Name(Plain, t))])]
  {
    var ref := NameRef(Name(Plain, t));
    var st1 := State(map[], Some(t));
    assert IsUnqualifiedNameInPrefixedNamespace(c, st1, Name(Plain, t));
    VisitNameRef(c, st1, Name(Plain, t), OtherParent);
    VisitOne(c, st1, ref, OtherParent);
    VisitNamedNamespace(c, Fresh, Name(Plain, t), [ref], NoParent);
    VisitOne(c, Fresh, Namespace(Some(Name(Plain, t)), [ref]), NoParent);
  }

  /** Second pass: the enclosing namespace `prefix\t` is not selected, so
      the bare `t` is resolved as written and prefixed. */
  lemma SecondPassPrefixesBareTargetName(c: Config, t: string)
    requires WellFormed(c) && c.prefix != [] && Backslash !in t && ShouldPrefixNamespace(c, t)
    ensures var p := Sep(c.prefix) + t;
      Traverse(c, [Namespace(Some(Name(Plain, p)), [NameRef(Name(Plain, t))])])
      == [Namespace(Some(Name(Plain, p)), [NameRef(Name(Plain, p))])]
  {
    var p := Sep(c.prefix) + t;
    var ref := NameRef(Name(Plain, t));
    PrefixedNeverPrefixedAgain(c, t);
    var st2 := State(map[], Some(p));
    BareNameOutsideSelectedNamespace(c, st2, t);
    VisitNameRef(c, st2, Name(Plain, t), OtherParent);
    VisitOne(c, st2, ref, OtherParent);
    VisitNamedNamespace(c, Fresh, Name(Plain, p), [ref], NoParent);
    VisitOne(c, Fresh, Namespace(Some(Name(Plain, p)), [ref]), NoParent);
  }

  /** An unqualified name that is no alias, met outside a selected
      namespace, is prefixed exactly when it is selected itself. */
  lemma BareNameOutsideSelectedNamespace(c: Config, st: State, t: string)
    requires Backslash !in t && t !in st.aliases && !IsCurrentNamespaceBeingPrefixed(c, st)
    ensures ProcessName(c, st, Name(Plain, t), OtherParent)
      == if ShouldPrefixNamespace(c, t) then Name(Plain, Sep(c.prefix) + t) else Name(Plain, t)
  {
    var x := Name(Plain, t);
    assert ResolveClassName(st, x) == t;
    assert !IsUnqualifiedNameInPrefixedNamespace(c, st, x);
    assert !ShouldSkipName(c, st, x, OtherParent);
    if ShouldPrefixNamespace(c, t) {
      assert ProcessName(c, st, x, OtherParent) == CreatePrefixedName(c, x, t);
    }
  }

  /** The same with prefix `P` and target `Foo`. */
  lemma SecondPassExample(c: Config, t: string)
    requires c == Config("P", ["Foo"]) && t == "Foo"
    ensures var once := Traverse(c, [Namespace(Some(Name(Plain, t)), [NameRef(Name(Plain, t))])]);
      Traverse(c, once) != once
  {
    FooSelected(c, t);
    SecondPassChangesBareTargetName(c, t);
  }

  /** Prefix `P`, target `Foo`: the configuration is well formed and `Foo`
      is selected. */
  lemma FooSelected(c: Config, t: string)
    requires c == Config("P", ["Foo"]) && t == "Foo"
    ensures WellFormed(c) && c.prefix != [] && Backslash !in t && ShouldPrefixNamespace(c, t)
  {
    TrimOfTrimmed(t, Backslash);
    assert !StartsWith(t, Sep(c.prefix));
    assert t != c.prefix;
    assert MatchesTarget(t, c.targets[0]);
  }
}
