/** Namespace mode: the visitor that moves every reference to a target
    namespace under `prefix\`. It rewrites namespace declarations and `use`
    items as they are left, resolves every other name through the aliases
    imported so far, and prefixes the symbol strings of existence-check
    calls. */
module PrefixVisitor {
  import opened Wrappers
  import opened Strings
  import opened Syntax
  import opened NameContext
  import opened ExistenceCheck
  import Rewrites

  /** Prefix and target namespaces, both stored without leading or trailing
      backslashes. */
  datatype Config = Config(prefix: string, targets: seq<string>)

  /** Aliases imported by `use` so far (alias to the name as written) and
      the namespace block being traversed. */
  datatype State = State(aliases: map<string, string>, current: Option<string>)

  /** The state at the start of every traversal. */
  const Fresh: State := State(map[], None)

  predicate IsTrimmed(s: string) {
    s == [] || (s[0] != Backslash && s[|s| - 1] != Backslash)
  }

  predicate WellFormed(c: Config) {
    IsTrimmed(c.prefix) && forall i :: 0 <= i < |c.targets| ==> IsTrimmed(c.targets[i])
  }

  /** The constructor: trims backslashes off the prefix and every target. */
  function NewVisitor(prefix: string, targets: seq<string>): (c: Config)
    ensures c.prefix == Trim(prefix, Backslash)
    ensures |c.targets| == |targets|
    ensures forall i :: 0 <= i < |targets| ==> c.targets[i] == Trim(targets[i], Backslash)
    ensures WellFormed(c)
  {
    Config(Trim(prefix, Backslash), TrimAll(targets))
  }

  function TrimAll(ts: seq<string>): (r: seq<string>)
    ensures |r| == |ts|
    ensures forall i :: 0 <= i < |ts| ==> r[i] == Trim(ts[i], Backslash)
  {
    if ts == [] then [] else [Trim(ts[0], Backslash)] + TrimAll(ts[1..])
  }

  function Sep(s: string): string {
    s + [Backslash]
  }

  /** `ns` is the target itself or one of its sub-namespaces; `FooBar` is
      not inside `Foo`. */
  predicate MatchesTarget(ns: string, target: string) {
    ns == target || StartsWith(ns, Sep(target))
  }

  function AnyTargetMatches(ns: string, targets: seq<string>): (r: bool)
    ensures r <==> exists i :: 0 <= i < |targets| && MatchesTarget(ns, targets[i])
  {
    if targets == [] then false
    else MatchesTarget(ns, targets[0]) || AnyTargetMatches(ns, targets[1..])
  }

  /** The guard against prefixing twice. */
  predicate AlreadyPrefixed(c: Config, ns: string) {
    StartsWith(ns, Sep(c.prefix)) || ns == c.prefix
  }

  /** `shouldPrefixNamespace`: after trimming backslashes, the name is not
      the prefix or under it, and it is a target or under one. */
  predicate ShouldPrefixNamespace(c: Config, namespace: string) {
    var t := Trim(namespace, Backslash);
    if StartsWith(t, Sep(c.prefix)) then false
    else if t == c.prefix then false
    else AnyTargetMatches(t, c.targets)
  }

  lemma ShouldPrefixMeaning(c: Config, namespace: string)
    ensures ShouldPrefixNamespace(c, namespace) <==>
      var t := Trim(namespace, Backslash);
      !AlreadyPrefixed(c, t) && exists i :: 0 <= i < |c.targets| && MatchesTarget(t, c.targets[i])
  {
  }

  /** No double prefixing: whatever follows `prefix\`, the result is never
      selected for prefixing again. */
  lemma PrefixedNeverPrefixedAgain(c: Config, x: string)
    requires WellFormed(c) && c.prefix != []
    ensures !ShouldPrefixNamespace(c, Sep(c.prefix) + x)
  {
    TrimAfterHead(c.prefix, x, Backslash);
    assert Sep(c.prefix) + x == c.prefix + [Backslash] + x;
    ShouldPrefixMeaning(c, Sep(c.prefix) + x);
  }

  /** Sub-namespace matching stops at segment boundaries: with target `T`,
      `T\X` and `T` are selected and `TX` is not. */
  lemma SegmentBoundary(c: Config, t: string, rest: string)
    requires WellFormed(c) && c.prefix != [] && c.targets == [t] && t != []
    requires !StartsWith(t, c.prefix) && !StartsWith(c.prefix, t)
    requires rest != [] && rest[0] != Backslash && rest[|rest| - 1] != Backslash
    ensures !ShouldPrefixNamespace(c, t + rest)
    ensures ShouldPrefixNamespace(c, Sep(t) + rest)
    ensures ShouldPrefixNamespace(c, t)
  {
    assert IsTrimmed(c.targets[0]);
    SiblingNotSelected(c, t, rest);
    ChildSelected(c, t, rest);
    TrimOfTrimmed(t, Backslash);
    ShouldPrefixMeaning(c, t);
  }

  lemma SiblingNotSelected(c: Config, t: string, rest: string)
    requires c.targets == [t] && t != [] && t[0] != Backslash
    requires rest != [] && rest[0] != Backslash && rest[|rest| - 1] != Backslash
    ensures !ShouldPrefixNamespace(c, t + rest)
  {
    assert (t + rest)[0] == t[0] && (t + rest)[|t + rest| - 1] == rest[|rest| - 1];
    TrimOfTrimmed(t + rest, Backslash);
    assert !StartsWith(t + rest, Sep(t)) by {
      assert (t + rest)[|t|] == rest[0] != Backslash;
      assert Sep(t)[|t|] == Backslash;
    }
    ShouldPrefixMeaning(c, t + rest);
  }

  lemma ChildSelected(c: Config, t: string, rest: string)
    requires c.targets == [t] && t != [] && t[0] != Backslash
    requires !StartsWith(t, c.prefix) && !StartsWith(c.prefix, t)
    requires rest != [] && rest[|rest| - 1] != Backslash
    ensures ShouldPrefixNamespace(c, Sep(t) + rest)
  {
    var w := Sep(t) + rest;
    assert w[0] == t[0] && w[|w| - 1] == rest[|rest| - 1];
    TrimOfTrimmed(w, Backslash);
    assert w[..|Sep(t)|] == Sep(t);
    assert w[..|t|] == t;
    if |c.prefix| <= |t| {
      assert w[..|c.prefix|] == t[..|c.prefix|];
    }
    ShouldPrefixMeaning(c, w);
  }

  /** The local name a `use` item introduces: its explicit alias, else the
      last segment of the imported name. */
  function AliasOf(item: UseItem): string {
    if item.alias.Some? then item.alias.value else AfterLast(item.name.str, Backslash)
  }

  /** The local names a list of `use` items introduces. */
  function AliasesOf(items: seq<UseItem>): (r: set<string>)
    ensures forall i :: 0 <= i < |items| ==> AliasOf(items[i]) in r
    ensures forall a :: a in r ==> exists i :: 0 <= i < |items| && AliasOf(items[i]) == a
  {
    if items == [] then {}
    else
      var r := {AliasOf(items[0])} + AliasesOf(items[1..]);
      assert forall i :: 1 <= i < |items| ==> items[1..][i - 1] == items[i];
      forall a | a in AliasesOf(items[1..])
        ensures exists i :: 0 <= i < |items| && AliasOf(items[i]) == a
      {
        var k :| 0 <= k < |items[1..]| && AliasOf(items[1..][k]) == a;
        assert AliasOf(items[k + 1]) == a;
      }
      r
  }

  /** No item after the `i`-th introduces the same local name. */
  predicate NoLaterAlias(items: seq<UseItem>, i: nat)
    requires i < |items|
  {
    forall j :: i < j < |items| ==> AliasOf(items[j]) != AliasOf(items[i])
  }

  /** The alias table after recording `items` in order. */
  function RecordAliases(aliases: map<string, string>, items: seq<UseItem>): map<string, string>
    decreases |items|
  {
    if items == [] then aliases
    else RecordAliases(aliases[AliasOf(items[0]) := items[0].name.str], items[1..])
  }

  /** Recording adds exactly the introduced local names; each maps to the
      name written in the last item introducing it, and every other alias
      keeps its earlier meaning. */
  lemma RecordAliasesMeaning(aliases: map<string, string>, items: seq<UseItem>)
    ensures RecordAliases(aliases, items).Keys == aliases.Keys + AliasesOf(items)
    ensures forall i :: 0 <= i < |items| && NoLaterAlias(items, i) ==>
      RecordAliases(aliases, items)[AliasOf(items[i])] == items[i].name.str
    ensures forall a :: a in aliases && a !in AliasesOf(items) ==>
      RecordAliases(aliases, items)[a] == aliases[a]
  {
    RecordAliasesKeys(aliases, items);
    RecordAliasesKeeps(aliases, items);
    forall i | 0 <= i < |items| && NoLaterAlias(items, i)
      ensures RecordAliases(aliases, items)[AliasOf(items[i])] == items[i].name.str
    {
      RecordAliasesLast(aliases, items, i);
    }
  }

  lemma {:induction false} RecordAliasesKeys(aliases: map<string, string>, items: seq<UseItem>)
    ensures RecordAliases(aliases, items).Keys == aliases.Keys + AliasesOf(items)
    decreases |items|
  {
    if items != [] {
      RecordAliasesKeys(aliases[AliasOf(items[0]) := items[0].name.str], items[1..]);
    }
  }

  lemma {:induction false} RecordAliasesKeeps(aliases: map<string, string>, items: seq<UseItem>)
    ensures forall a :: a in aliases && a !in AliasesOf(items) ==>
      a in RecordAliases(aliases, items) && RecordAliases(aliases, items)[a] == aliases[a]
    decreases |items|
  {
    if items != [] {
      var aliases1 := aliases[AliasOf(items[0]) := items[0].name.str];
      RecordAliasesKeeps(aliases1, items[1..]);
      assert AliasesOf(items) == {AliasOf(items[0])} + AliasesOf(items[1..]);
    }
  }

  lemma {:induction false} RecordAliasesLast(aliases: map<string, string>, items: seq<UseItem>, i: nat)
    requires i < |items| && NoLaterAlias(items, i)
    ensures AliasOf(items[i]) in RecordAliases(aliases, items)
    ensures RecordAliases(aliases, items)[AliasOf(items[i])] == items[i].name.str
    decreases |items|
  {
    var tail := items[1..];
    var aliases1 := aliases[AliasOf(items[0]) := items[0].name.str];
    RecordAliasesKeys(aliases1, tail);
    if i == 0 {
      assert AliasOf(items[0]) !in AliasesOf(tail);
      RecordAliasesKeeps(aliases1, tail);
    } else {
      assert tail[i - 1] == items[i];
      assert NoLaterAlias(tail, i - 1) by {
        forall j | i - 1 < j < |tail| ensures AliasOf(tail[j]) != AliasOf(tail[i - 1]) {
          assert tail[j] == items[j + 1];
        }
      }
      RecordAliasesLast(aliases1, tail, i - 1);
    }
  }

  /** `resolveClassName`: a fully-qualified name stands for itself; an
      unqualified alias for its original name; a qualified name whose first
      segment is an alias gets that segment substituted; anything else is
      taken as written. */
  function ResolveClassName(st: State, x: Name): (r: string)
    ensures x.kind == FullyQualified ==> r == x.str
    ensures x.kind != FullyQualified && Backslash !in x.str ==>
      r == (if x.str in st.aliases then st.aliases[x.str] else x.str)
    ensures x.kind != FullyQualified && Backslash in x.str ==>
      var i := IndexOfChar(x.str, Backslash);
      r == (if x.str[..i] in st.aliases then st.aliases[x.str[..i]] + x.str[i..] else x.str)
  {
    if x.kind == FullyQualified then x.str
    else if Backslash !in x.str then
      if x.str in st.aliases then st.aliases[x.str] else x.str
    else
      var parts := Split(x.str, Backslash);
      if parts[0] in st.aliases then
        SubstituteFirst(x.str, st.aliases[parts[0]]);
        Join([st.aliases[parts[0]]] + parts[1..], Backslash)
      else x.str
  }

  /** Replacing the first exploded segment and imploding again is a
      replacement of the text before the first backslash. */
  lemma SubstituteFirst(s: string, a: string)
    requires Backslash in s
    ensures var i := IndexOfChar(s, Backslash);
      Split(s, Backslash)[0] == s[..i]
      && Join([a] + Split(s, Backslash)[1..], Backslash) == a + s[i..]
  {
    var i := IndexOfChar(s, Backslash);
    var rest := Split(s[i + 1..], Backslash);
    assert Split(s, Backslash)[1..] == rest by {
      assert Split(s, Backslash) == [s[..i]] + rest;
    }
    assert Join([a] + rest, Backslash) == a + [Backslash] + s[i + 1..] by {
      JoinCons(a, rest, Backslash);
      JoinSplit(s[i + 1..], Backslash);
    }
    assert a + [Backslash] + s[i + 1..] == a + s[i..] by {
      assert s[i..] == [Backslash] + s[i + 1..];
    }
  }

  predicate IsCurrentNamespaceBeingPrefixed(c: Config, st: State) {
    st.current.Some? && ShouldPrefixNamespace(c, st.current.value)
  }

  /** An unqualified name that will resolve through a prefixed `use` or
      through the prefixed enclosing namespace. */
  predicate IsUnqualifiedNameInPrefixedNamespace(c: Config, st: State, x: Name) {
    if Backslash in x.str || x.kind == FullyQualified then false
    else x.str in st.aliases || IsCurrentNamespaceBeingPrefixed(c, st)
  }

  predicate ShouldSkipName(c: Config, st: State, x: Name, parent: ParentKind) {
    IsPartOfNamespaceOrUseStatement(parent) || IsUnqualifiedNameInPrefixedNamespace(c, st, x)
  }

  /** `prefix\resolved`, fully qualified exactly when the original was. */
  function CreatePrefixedName(c: Config, x: Name, resolved: string): (r: Name)
    ensures r.str == Sep(c.prefix) + resolved
    ensures r.kind == FullyQualified <==> x.kind == FullyQualified
    ensures r.kind != Relative
  {
    Name(if x.kind == FullyQualified then FullyQualified else Plain, Sep(c.prefix) + resolved)
  }

  /** `processName` for a name reference met while leaving it. */
  function ProcessName(c: Config, st: State, x: Name, parent: ParentKind): (r: Name)
    ensures ShouldSkipName(c, st, x, parent) ==> r == x
    ensures r != x ==> r == CreatePrefixedName(c, x, ResolveClassName(st, x))
    ensures !ShouldSkipName(c, st, x, parent) ==>
      r == (if ShouldPrefixNamespace(c, ResolveClassName(st, x)) then CreatePrefixedName(c, x, ResolveClassName(st, x)) else x)
  {
    if ShouldSkipName(c, st, x, parent) then x
    else
      var resolved := ResolveClassName(st, x);
      if !ShouldPrefixNamespace(c, resolved) then x
      else CreatePrefixedName(c, x, resolved)
  }

  /** An imported name after leaving its `use` item: `prefix\name` when
      selected, as written otherwise. */
  function ImportedName(c: Config, x: Name): Name {
    if ShouldPrefixNamespace(c, x.str) then Name(Plain, Sep(c.prefix) + x.str) else x
  }

  /** The items of a `use` statement after leaving it. */
  function ImportedItems(c: Config, items: seq<UseItem>): (r: seq<UseItem>)
    ensures |r| == |items|
    ensures forall i :: 0 <= i < |items| ==>
      r[i].alias == items[i].alias && r[i].name == ImportedName(c, items[i].name)
  {
    if items == [] then []
    else [items[0].(name := ImportedName(c, items[0].name))] + ImportedItems(c, items[1..])
  }

  /** `processUseStatement`: every item records its alias against the name
      as written, and the name is prefixed when it is selected. */
  function ProcessUseItems(c: Config, aliases: map<string, string>, items: seq<UseItem>)
    : (r: (seq<UseItem>, map<string, string>))
  {
    (ImportedItems(c, items), RecordAliases(aliases, items))
  }

  /** Names inside `use` items are visited with the item as parent, which
      the name rule always skips. */
  function VisitUseItems(c: Config, st: State, items: seq<UseItem>): (r: seq<UseItem>)
    ensures r == items
  {
    if items == [] then []
    else
      var it := items[0];
      [it.(name := ProcessName(c, st, it.name, UseItemParent))] + VisitUseItems(c, st, items[1..])
  }

  /** Leaving a namespace block: a named, selected namespace becomes
      `prefix\name`. */
  function LeaveNamespace(c: Config, nsName: Option<Name>, stmts: seq<Node>): (r: Node)
  {
    if nsName.Some? && ShouldPrefixNamespace(c, nsName.value.str) then
      Namespace(Some(Name(Plain, Sep(c.prefix) + nsName.value.str)), stmts)
    else
      Namespace(nsName, stmts)
  }

  /** `processExistenceCheck`: a symbol string that is selected gains
      `prefix\` in front. */
  function PrefixRenaming(c: Config): Renaming {
    (v: string) => if ShouldPrefixNamespace(c, v) then Some(Sep(c.prefix) + v) else None
  }

  function ProcessExistenceCheck(c: Config, callee: Node, args: seq<ArgSlot>): (r: seq<ArgSlot>)
    ensures |r| == |args|
  {
    RewriteChecks(callee, args, PrefixRenaming(c))
  }

  /** One node: enter, children left to right, leave. */
  function VisitNode(c: Config, st: State, n: Node, parent: ParentKind): (r: (Node, State))
    decreases n, 1
  {
    match n
    case NameRef(x) => (NameRef(ProcessName(c, st, x, parent)), st)
    case Namespace(nm, stmts) =>
      var st1 := st.(current := if nm.Some? then Some(nm.value.str) else None);
      var nm1 := if nm.Some? then Some(ProcessName(c, st1, nm.value, NamespaceParent)) else None;
      var (stmts1, st2) := VisitNodes(c, st1, stmts, OtherParent);
      (LeaveNamespace(c, nm1, stmts1), st2)
    case Use(items) =>
      var items1 := VisitUseItems(c, st, items);
      var (items2, aliases) := ProcessUseItems(c, st.aliases, items1);
      (Use(items2), st.(aliases := aliases))
    case GroupUse(pre, items) =>
      (GroupUse(ProcessName(c, st, pre, GroupUseParent), VisitUseItems(c, st, items)), st)
    case FuncCall(callee, args) =>
      var (callee1, st1) := VisitNode(c, st, callee, OtherParent);
      var (args1, st2) := VisitArgs(c, st1, args);
      (FuncCall(callee1, ProcessExistenceCheck(c, callee1, args1)), st2)
    case StringLit(_) => (n, st)
    case Concat(l, rt) =>
      var (l1, st1) := VisitNode(c, st, l, OtherParent);
      var (r1, st2) := VisitNode(c, st1, rt, OtherParent);
      (Concat(l1, r1), st2)
    case ClassLike(k, nm, ms) =>
      var (ms1, st1) := VisitNodes(c, st, ms, OtherParent);
      (ClassLike(k, nm, ms1), st1)
    case Other(cs) =>
      var (cs1, st1) := VisitNodes(c, st, cs, OtherParent);
      (Other(cs1), st1)
  }

  function VisitNodes(c: Config, st: State, ns: seq<Node>, parent: ParentKind): (r: (seq<Node>, State))
    ensures |r.0| == |ns|
    decreases ns, 0
  {
    if ns == [] then ([], st)
    else
      var (n1, st1) := VisitNode(c, st, ns[0], parent);
      var (rest, st2) := VisitNodes(c, st1, ns[1..], parent);
      ([n1] + rest, st2)
  }

  function VisitArgs(c: Config, st: State, args: seq<ArgSlot>): (r: (seq<ArgSlot>, State))
    ensures |r.0| == |args|
    ensures forall i :: 0 <= i < |args| ==> (r.0[i].Arg? <==> args[i].Arg?)
    decreases args, 0
  {
    if args == [] then ([], st)
    else
      var (a1, st1) := VisitArg(c, st, args[0]);
      var (rest, st2) := VisitArgs(c, st1, args[1..]);
      ([a1] + rest, st2)
  }

  function VisitArg(c: Config, st: State, a: ArgSlot): (r: (ArgSlot, State))
    ensures r.0.Arg? <==> a.Arg?
    decreases a, 1
  {
    match a
    case Placeholder => (Placeholder, st)
    case Arg(v) =>
      var (v1, st1) := VisitNode(c, st, v, OtherParent);
      (Arg(v1), st1)
  }

  /** `traverse` with a fresh visitor state. */
  function Traverse(c: Config, ast: seq<Node>): (r: seq<Node>)
    ensures |r| == |ast|
  {
    VisitNodes(c, Fresh, ast, NoParent).0
  }

  /** An argument whose symbol string gained `prefix\` in front: a plain
      literal, or the left literal of a concatenation. */
  predicate LiteralEdit(c: Config, a: ArgSlot, b: ArgSlot) {
    && a.Arg? && b.Arg?
    && ((a.value.StringLit? && b.value == StringLit(Sep(c.prefix) + a.value.value))
        || (a.value.Concat? && a.value.left.StringLit?
            && b.value == Concat(StringLit(Sep(c.prefix) + a.value.left.value), a.value.right)))
  }

  /** `processExistenceCheck`: an argument changes only at a position the
      catalogue names for the callee, and then only by `prefix\` in front of
      its symbol string. */
  lemma ProcessExistenceCheckOnlyPrefixes(c: Config, callee: Node, args: seq<ArgSlot>)
    ensures forall i :: 0 <= i < |args| ==>
      ProcessExistenceCheck(c, callee, args)[i] == args[i]
      || (IsCheckedArg(CalleeName(callee), i) && LiteralEdit(c, args[i], ProcessExistenceCheck(c, callee, args)[i]))
  {
    forall i | 0 <= i < |args| && ProcessExistenceCheck(c, callee, args)[i] != args[i]
      ensures IsCheckedArg(CalleeName(callee), i) && LiteralEdit(c, args[i], ProcessExistenceCheck(c, callee, args)[i])
    {
      PrefixedArg(c, callee, args, i);
    }
  }

  lemma PrefixedArg(c: Config, callee: Node, args: seq<ArgSlot>, i: nat)
    requires i < |args| && ProcessExistenceCheck(c, callee, args)[i] != args[i]
    ensures IsCheckedArg(CalleeName(callee), i) && LiteralEdit(c, args[i], ProcessExistenceCheck(c, callee, args)[i])
  {
    var f := PrefixRenaming(c);
    var b := RewriteChecks(callee, args, f)[i];
    RewriteChecksOnlySymbols(callee, args, f, i);
    var v, suffix :| f(v).Some? && LiteralReplaced(args[i], b, v + suffix, f(v).value + suffix);
    var sp, w := Sep(c.prefix), f(v).value;
    assert w == sp + v;
    Associative(sp, v, suffix);
    ReplacedIsEdit(c, args[i], b, v + suffix);
  }

  lemma Associative(a: string, b: string, c: string)
    ensures a + b + c == a + (b + c)
  {
  }

  lemma ReplacedIsEdit(c: Config, a: ArgSlot, b: ArgSlot, s: string)
    requires LiteralReplaced(a, b, s, Sep(c.prefix) + s)
    ensures LiteralEdit(c, a, b)
  {
  }

  /** `processExistenceCheck`: a plain literal at a catalogued position is
      rewritten exactly when its symbol part is selected, and then gains
      `prefix\` in front, keeping any `::member` suffix. */
  lemma ProcessExistenceCheckPrefixesLiterals(c: Config, callee: Node, args: seq<ArgSlot>, i: nat)
    requires IsCheckedArg(CalleeName(callee), i) && IsLiteralArg(args, i)
    ensures var lit := args[i].value.value;
      ProcessExistenceCheck(c, callee, args)[i]
        == if ShouldPrefixNamespace(c, ExtractValueAndSuffix(callee.name.str, lit).0)
           then Arg(StringLit(Sep(c.prefix) + lit)) else args[i]
  {
    var lit := args[i].value.value;
    var vs := ExtractValueAndSuffix(callee.name.str, lit);
    RewriteChecksLiteral(callee, args, PrefixRenaming(c), i);
    PrefixedLiteral(c, vs.0, vs.1, lit);
  }

  lemma PrefixedLiteral(c: Config, v: string, suffix: string, lit: string)
    requires v + suffix == lit
    ensures PrefixRenaming(c)(v) == if ShouldPrefixNamespace(c, v) then Some(Sep(c.prefix) + v) else None
    ensures PrefixRenaming(c)(v).Some? ==> PrefixRenaming(c)(v).value + suffix == Sep(c.prefix) + lit
  {
    Associative(Sep(c.prefix), v, suffix);
  }

  /** The edits a namespace-mode pass may make: a namespace name becomes
      exactly what leaving it produces, an imported name stays or becomes
      that (items of a group `use` are never rewritten), a reference either stays or
      becomes `prefix\` followed by a selected name with its fully-qualified
      kind kept, declarations keep their names, and a symbol string either
      stays or gains `prefix\` in front. */
  function PrefixRules(c: Config): Rewrites.Rules {
    Rewrites.Rules(
      (x: Name, y: Name) => y == ImportedName(c, x),
      (x: Name, y: Name) => y == x || y == ImportedName(c, x),
      (x: Name, y: Name) => y == x || IsPrefixedReference(c, x, y),
      (a: Option<string>, b: Option<string>) => b == a,
      (s: string, t: string) => t == s || t == Sep(c.prefix) + s)
  }

  predicate IsPrefixedReference(c: Config, x: Name, y: Name) {
    && y.kind != Relative
    && (y.kind == FullyQualified <==> x.kind == FullyQualified)
    && StartsWith(y.str, Sep(c.prefix))
    && ShouldPrefixNamespace(c, y.str[|Sep(c.prefix)|..])
  }

  lemma ProcessNameEdit(c: Config, st: State, x: Name, parent: ParentKind)
    ensures PrefixRules(c).refName(x, ProcessName(c, st, x, parent))
  {
    var y := ProcessName(c, st, x, parent);
    if y != x {
      var resolved := ResolveClassName(st, x);
      assert y.str == Sep(c.prefix) + resolved;
      assert y.str[|Sep(c.prefix)|..] == resolved;
    }
  }

  /** A rewritten argument list is an allowed edit of the original. */
  lemma ArgEditCompose(c: Config, checked: bool, a: ArgSlot, a1: ArgSlot, a2: ArgSlot)
    requires Rewrites.EditedArg(PrefixRules(c), false, a, a1)
    requires a2 == a1 || (checked && LiteralEdit(c, a1, a2))
    ensures Rewrites.EditedArg(PrefixRules(c), checked, a, a2)
  {
    var r := PrefixRules(c);
    if a.Arg? && checked {
      if a2 == a1 {
        Rewrites.EditedIsEditedSymbol(r, a.value, a1.value);
      } else if a1.value.StringLit? {
        assert a.value == a1.value;
        assert r.literal(a1.value.value, a2.value.value);
      } else {
        assert a.value.Concat?;
        assert Rewrites.Edited(r, a.value.left, a1.value.left);
        assert a.value.left == a1.value.left;
        assert r.literal(a1.value.left.value, a2.value.left.value);
      }
    }
  }

  lemma NamespaceNameEdit(c: Config, st: State, nm: Option<Name>, stmts: seq<Node>)
    ensures var nm1 := if nm.Some? then Some(ProcessName(c, st, nm.value, NamespaceParent)) else None;
      var y := LeaveNamespace(c, nm1, stmts);
      y.Namespace? && y.stmts == stmts
      && (if nm.None? then y.nsName.None? else y.nsName.Some? && PrefixRules(c).nsName(nm.value, y.nsName.value))
  {
  }

  lemma UseItemsEdit(c: Config, aliases: map<string, string>, items: seq<UseItem>)
    ensures Rewrites.EditedItems(PrefixRules(c), items, ProcessUseItems(c, aliases, items).0)
  {
  }

  /** Every node a namespace-mode pass produces is an allowed edit of the
      node it visited: the shape is kept and only names and existence-check
      strings change, each as `PrefixRules` says. */
  lemma {:induction false} VisitNodeEdits(c: Config, st: State, n: Node, parent: ParentKind)
    ensures Rewrites.Edited(PrefixRules(c), n, VisitNode(c, st, n, parent).0)
    decreases n, 1
  {
    var r := PrefixRules(c);
    match n
    case NameRef(x) => ProcessNameEdit(c, st, x, parent);
    case Namespace(nm, stmts) =>
      var st1 := st.(current := if nm.Some? then Some(nm.value.str) else None);
      VisitNodesEdits(c, st1, stmts, OtherParent);
      NamespaceNameEdit(c, st1, nm, VisitNodes(c, st1, stmts, OtherParent).0);
    case Use(items) =>
      UseItemsEdit(c, st.aliases, items);
    case GroupUse(pre, items) => ProcessNameEdit(c, st, pre, GroupUseParent);
    case FuncCall(callee, args) =>
      var (callee1, st1) := VisitNode(c, st, callee, OtherParent);
      VisitNodeEdits(c, st, callee, OtherParent);
      VisitArgsEdits(c, st1, args);
      CallEdits(c, callee1, args, VisitArgs(c, st1, args).0);
    case StringLit(_) =>
    case Concat(left, right) =>
      var (l1, st1) := VisitNode(c, st, left, OtherParent);
      VisitNodeEdits(c, st, left, OtherParent);
      VisitNodeEdits(c, st1, right, OtherParent);
    case ClassLike(k, nm, ms) => VisitNodesEdits(c, st, ms, OtherParent);
    case Other(cs) => VisitNodesEdits(c, st, cs, OtherParent);
  }

  /** The arguments of a call, visited and then rewritten as an existence
      check, are allowed edits of the arguments as written. */
  lemma CallEdits(c: Config, callee1: Node, args: seq<ArgSlot>, args1: seq<ArgSlot>)
    requires |args1| == |args|
    requires forall i :: 0 <= i < |args| ==> Rewrites.EditedArg(PrefixRules(c), false, args[i], args1[i])
    ensures Rewrites.EditedArgs(PrefixRules(c), CalleeName(callee1), args, ProcessExistenceCheck(c, callee1, args1))
  {
    var args2 := ProcessExistenceCheck(c, callee1, args1);
    ProcessExistenceCheckOnlyPrefixes(c, callee1, args1);
    forall i | 0 <= i < |args|
      ensures Rewrites.EditedArg(PrefixRules(c), IsCheckedArg(CalleeName(callee1), i), args[i], args2[i])
    {
      ArgEditCompose(c, IsCheckedArg(CalleeName(callee1), i), args[i], args1[i], args2[i]);
    }
  }

  lemma {:induction false} VisitNodesEdits(c: Config, st: State, ns: seq<Node>, parent: ParentKind)
    ensures Rewrites.EditedSeq(PrefixRules(c), ns, VisitNodes(c, st, ns, parent).0)
    decreases ns, 0
  {
    if ns != [] {
      var (n1, st1) := VisitNode(c, st, ns[0], parent);
      VisitNodeEdits(c, st, ns[0], parent);
      VisitNodesEdits(c, st1, ns[1..], parent);
      var out := VisitNodes(c, st, ns, parent).0;
      forall i | 0 <= i < |ns| ensures Rewrites.Edited(PrefixRules(c), ns[i], out[i]) {
        if i > 0 {
          assert ns[i] == ns[1..][i - 1];
        }
      }
    }
  }

  lemma {:induction false} VisitArgsEdits(c: Config, st: State, args: seq<ArgSlot>)
    ensures forall i :: 0 <= i < |args| ==>
      Rewrites.EditedArg(PrefixRules(c), false, args[i], VisitArgs(c, st, args).0[i])
    decreases args, 0
  {
    if args != [] {
      var (a1, st1) := VisitArg(c, st, args[0]);
      VisitArgEdits(c, st, args[0]);
      VisitArgsEdits(c, st1, args[1..]);
      var out := VisitArgs(c, st, args).0;
      forall i | 0 <= i < |args| ensures Rewrites.EditedArg(PrefixRules(c), false, args[i], out[i]) {
        if i > 0 {
          assert args[i] == args[1..][i - 1];
        }
      }
    }
  }

  lemma {:induction false} VisitArgEdits(c: Config, st: State, a: ArgSlot)
    ensures Rewrites.EditedArg(PrefixRules(c), false, a, VisitArg(c, st, a).0)
    decreases a, 1
  {
    if a.Arg? {
      VisitNodeEdits(c, st, a.value, OtherParent);
    }
  }

  /** A whole file: the shape is kept and only names and existence-check
      strings change, as `PrefixRules` allows. */
  lemma TraverseEdits(c: Config, ast: seq<Node>)
    ensures Rewrites.EditedSeq(PrefixRules(c), ast, Traverse(c, ast))
  {
    VisitNodesEdits(c, Fresh, ast, NoParent);
  }

  /** What the visitor's state sees of a tree, in document order: entering
      a namespace block, and leaving a `use` statement. */
  datatype Event = Enter(ns: Option<string>) | Import(items: seq<UseItem>)

  function Events(n: Node): seq<Event>
    decreases n, 1
  {
    match n
    case NameRef(_) => []
    case Namespace(nm, stmts) => [Enter(if nm.Some? then Some(nm.value.str) else None)] + EventsSeq(stmts)
    case Use(items) => [Import(items)]
    case GroupUse(_, _) => []
    case FuncCall(callee, args) => Events(callee) + EventsArgs(args)
    case StringLit(_) => []
    case Concat(l, r) => Events(l) + Events(r)
    case ClassLike(_, _, ms) => EventsSeq(ms)
    case Other(cs) => EventsSeq(cs)
  }

  function EventsSeq(ns: seq<Node>): seq<Event>
    decreases ns, 0
  {
    if ns == [] then [] else Events(ns[0]) + EventsSeq(ns[1..])
  }

  function EventsArg(a: ArgSlot): seq<Event>
    decreases a, 1
  {
    if a.Arg? then Events(a.value) else []
  }

  function EventsArgs(args: seq<ArgSlot>): seq<Event>
    decreases args, 0
  {
    if args == [] then [] else EventsArg(args[0]) + EventsArgs(args[1..])
  }

  /** The state change of one event. */
  function Step(st: State, e: Event): State {
    match e
    case Enter(ns) => st.(current := ns)
    case Import(items) => st.(aliases := RecordAliases(st.aliases, items))
  }

  function Replay(st: State, evs: seq<Event>): State
    decreases |evs|
  {
    if evs == [] then st else Replay(Step(st, evs[0]), evs[1..])
  }

  lemma {:induction false} ReplayAppend(st: State, a: seq<Event>, b: seq<Event>)
    ensures Replay(st, a + b) == Replay(Replay(st, a), b)
    decreases |a|
  {
    if a == [] {
      assert a + b == b;
    } else {
      assert (a + b)[1..] == a[1..] + b;
      ReplayAppend(Step(st, a[0]), a[1..], b);
    }
  }

  /** The visitor's state after a node is its state before, replayed
      through the node's namespace entries and `use` statements; nothing
      else touches it. */
  lemma {:induction false} VisitNodeState(c: Config, st: State, n: Node, parent: ParentKind)
    ensures VisitNode(c, st, n, parent).1 == Replay(st, Events(n))
    decreases n, 1
  {
    match n
    case NameRef(_) =>
    case Namespace(nm, stmts) =>
      var e := Enter(if nm.Some? then Some(nm.value.str) else None);
      VisitNodesState(c, Step(st, e), stmts, OtherParent);
      ReplayAppend(st, [e], EventsSeq(stmts));
    case Use(items) =>
    case GroupUse(_, _) =>
    case FuncCall(callee, args) =>
      var st1 := VisitNode(c, st, callee, OtherParent).1;
      VisitNodeState(c, st, callee, OtherParent);
      VisitArgsState(c, st1, args);
      ReplayAppend(st, Events(callee), EventsArgs(args));
    case StringLit(_) =>
    case Concat(l, r) =>
      var st1 := VisitNode(c, st, l, OtherParent).1;
      VisitNodeState(c, st, l, OtherParent);
      VisitNodeState(c, st1, r, OtherParent);
      ReplayAppend(st, Events(l), Events(r));
    case ClassLike(_, _, ms) => VisitNodesState(c, st, ms, OtherParent);
    case Other(cs) => VisitNodesState(c, st, cs, OtherParent);
  }

  lemma {:induction false} VisitNodesState(c: Config, st: State, ns: seq<Node>, parent: ParentKind)
    ensures VisitNodes(c, st, ns, parent).1 == Replay(st, EventsSeq(ns))
    decreases ns, 0
  {
    if ns != [] {
      var st1 := VisitNode(c, st, ns[0], parent).1;
      VisitNodeState(c, st, ns[0], parent);
      VisitNodesState(c, st1, ns[1..], parent);
      ReplayAppend(st, Events(ns[0]), EventsSeq(ns[1..]));
    }
  }

  lemma {:induction false} VisitArgState(c: Config, st: State, a: ArgSlot)
    ensures VisitArg(c, st, a).1 == Replay(st, EventsArg(a))
    decreases a, 1
  {
    if a.Arg? {
      VisitNodeState(c, st, a.value, OtherParent);
    }
  }

  lemma {:induction false} VisitArgsState(c: Config, st: State, args: seq<ArgSlot>)
    ensures VisitArgs(c, st, args).1 == Replay(st, EventsArgs(args))
    decreases args, 0
  {
    if args != [] {
      var st1 := VisitArg(c, st, args[0]).1;
      VisitArgState(c, st, args[0]);
      VisitArgsState(c, st1, args[1..]);
      ReplayAppend(st, EventsArg(args[0]), EventsArgs(args[1..]));
    }
  }

  /** The `use` items of the imports among `evs`, in order. */
  function ImportsOf(evs: seq<Event>): seq<UseItem> {
    if evs == [] then []
    else (if evs[0].Import? then evs[0].items else []) + ImportsOf(evs[1..])
  }

  lemma {:induction false} RecordAliasesAppend(aliases: map<string, string>, a: seq<UseItem>, b: seq<UseItem>)
    ensures RecordAliases(aliases, a + b) == RecordAliases(RecordAliases(aliases, a), b)
    decreases |a|
  {
    if a == [] {
      assert a + b == b;
    } else {
      assert (a + b)[1..] == a[1..] + b;
      RecordAliasesAppend(aliases[AliasOf(a[0]) := a[0].name.str], a[1..], b);
    }
  }

  /** Entering a namespace block never clears the alias table: the table
      after any sequence of events is every import so far, recorded in
      order on top of the table before. */
  lemma {:induction false} ReplayAliases(st: State, evs: seq<Event>)
    ensures Replay(st, evs).aliases == RecordAliases(st.aliases, ImportsOf(evs))
    decreases |evs|
  {
    if evs != [] {
      ReplayAliases(Step(st, evs[0]), evs[1..]);
      if evs[0].Import? {
        RecordAliasesAppend(st.aliases, evs[0].items, ImportsOf(evs[1..]));
      } else {
        assert ImportsOf(evs) == ImportsOf(evs[1..]);
      }
    }
  }

  /** After a whole file, the alias table holds every `use` item of the
      file, in document order and across all its namespace blocks. */
  lemma TraverseAliases(c: Config, ast: seq<Node>)
    ensures VisitNodes(c, Fresh, ast, NoParent).1.aliases == RecordAliases(map[], ImportsOf(EventsSeq(ast)))
  {
    VisitNodesState(c, Fresh, ast, NoParent);
    ReplayAliases(Fresh, EventsSeq(ast));
  }
}
