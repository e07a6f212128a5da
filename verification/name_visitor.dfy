/** Classmap mode, second pass: references to the renamed global
    class-likes follow their declarations. A bare name found in the class
    map, outside namespace and `use` declarations, is replaced by its new
    name, and so is the symbol string of an existence check. */
module NameVisitor {
  import opened Wrappers
  import opened Strings
  import opened Syntax
  import opened NameContext
  import opened ExistenceCheck
  import Rewrites

  /** Original class name to new class name; the visitor never changes it. */
  type ClassMap = map<string, string>

  /** `leaveNode` on a name node. */
  function ProcessName(m: ClassMap, x: Name, parent: ParentKind): (r: Name)
    ensures IsPartOfNamespaceOrUseStatement(parent) ==> r == x
    ensures Backslash in x.str ==> r == x
    ensures x.str !in m ==> r == x
    ensures r != x ==> r.str == m[x.str]
    ensures r.kind == FullyQualified <==> x.kind == FullyQualified
    ensures r == x || r.kind != Relative
    ensures !IsPartOfNamespaceOrUseStatement(parent) && Backslash !in x.str && x.str in m ==>
      r == Name(if x.kind == FullyQualified then FullyQualified else Plain, m[x.str])
  {
    if IsPartOfNamespaceOrUseStatement(parent) then x
    else if Backslash in x.str then x
    else if x.str !in m then x
    else if x.kind == FullyQualified then Name(FullyQualified, m[x.str])
    else Name(Plain, m[x.str])
  }

  /** `processExistenceCheck`: a symbol in the class map becomes its new
      name. */
  function MapRenaming(m: ClassMap): Renaming {
    (v: string) => if v in m then Some(m[v]) else None
  }

  function ProcessExistenceCheck(m: ClassMap, callee: Node, args: seq<ArgSlot>): (r: seq<ArgSlot>)
    ensures |r| == |args|
  {
    RewriteChecks(callee, args, MapRenaming(m))
  }

  function VisitUseItems(m: ClassMap, items: seq<UseItem>): (r: seq<UseItem>)
    ensures r == items
  {
    seq(|items|, i requires 0 <= i < |items| => items[i].(name := ProcessName(m, items[i].name, UseItemParent)))
  }

  /** One node: its children, then `leaveNode`. The visitor keeps no state. */
  function VisitNode(m: ClassMap, n: Node, parent: ParentKind): (r: Node)
    decreases n, 1
  {
    match n
    case NameRef(x) => NameRef(ProcessName(m, x, parent))
    case Namespace(nm, stmts) =>
      var nm1 := if nm.Some? then Some(ProcessName(m, nm.value, NamespaceParent)) else None;
      Namespace(nm1, VisitNodes(m, stmts, OtherParent))
    case Use(items) => Use(VisitUseItems(m, items))
    case GroupUse(pre, items) => GroupUse(ProcessName(m, pre, GroupUseParent), VisitUseItems(m, items))
    case FuncCall(callee, args) =>
      var callee1 := VisitNode(m, callee, OtherParent);
      FuncCall(callee1, ProcessExistenceCheck(m, callee1, VisitArgs(m, args)))
    case StringLit(_) => n
    case Concat(l, rt) => Concat(VisitNode(m, l, OtherParent), VisitNode(m, rt, OtherParent))
    case ClassLike(k, nm, ms) => ClassLike(k, nm, VisitNodes(m, ms, OtherParent))
    case Other(cs) => Other(VisitNodes(m, cs, OtherParent))
  }

  function VisitNodes(m: ClassMap, ns: seq<Node>, parent: ParentKind): (r: seq<Node>)
    ensures |r| == |ns|
    ensures forall i :: 0 <= i < |ns| ==> r[i] == VisitNode(m, ns[i], parent)
    decreases ns, 0
  {
    if ns == [] then [] else [VisitNode(m, ns[0], parent)] + VisitNodes(m, ns[1..], parent)
  }

  function VisitArgs(m: ClassMap, args: seq<ArgSlot>): (r: seq<ArgSlot>)
    ensures |r| == |args|
    ensures forall i :: 0 <= i < |args| ==> r[i] == VisitArg(m, args[i])
    decreases args, 0
  {
    if args == [] then [] else [VisitArg(m, args[0])] + VisitArgs(m, args[1..])
  }

  function VisitArg(m: ClassMap, a: ArgSlot): (r: ArgSlot)
    decreases a, 1
  {
    match a
    case Placeholder => Placeholder
    case Arg(v) => Arg(VisitNode(m, v, OtherParent))
  }

  /** `traverse` over a whole file. */
  function Traverse(m: ClassMap, ast: seq<Node>): (r: seq<Node>)
    ensures |r| == |ast|
  {
    VisitNodes(m, ast, NoParent)
  }

  /** A bare reference to a renamed class, standing anywhere in a file's
      statement list, is replaced by the new name: the sweep does not only
      leave other names alone, it also renames every mapped one. */
  lemma TraverseRenamesMappedReference(m: ClassMap, pre: seq<Node>, x: Name, post: seq<Node>)
    requires Backslash !in x.str && x.str in m
    ensures var r := Traverse(m, pre + [NameRef(x)] + post);
      |r| == |pre| + 1 + |post|
      && r[|pre|] == NameRef(Name(if x.kind == FullyQualified then FullyQualified else Plain, m[x.str]))
      && IsMappedReference(m, x, r[|pre|].name)
  {
    var ast := pre + [NameRef(x)] + post;
    assert ast[|pre|] == NameRef(x);
  }

  /** A reference rewritten by the class map: a bare, non-relative name in
      the map, replaced by its new name with the fully-qualified kind kept. */
  predicate IsMappedReference(m: ClassMap, x: Name, y: Name) {
    && Backslash !in x.str
    && x.str in m
    && y.str == m[x.str]
    && y.kind != Relative
    && (y.kind == FullyQualified <==> x.kind == FullyQualified)
  }

  /** A symbol string whose leading part, a key of the map, was replaced by
      its new name, the rest kept. */
  ghost predicate IsMappedSymbol(m: ClassMap, s: string, t: string) {
    exists i :: 0 <= i <= |s| && s[..i] in m && t == m[s[..i]] + s[i..]
  }

  /** The edits a classmap name pass may make: names of namespaces, imports
      and declarations stay, a reference stays or follows the map, and a
      symbol string stays or has its symbol part replaced by the map. */
  ghost function NameRules(m: ClassMap): Rewrites.Rules {
    Rewrites.Rules(
      (x: Name, y: Name) => y == x,
      (x: Name, y: Name) => y == x,
      (x: Name, y: Name) => y == x || IsMappedReference(m, x, y),
      (a: Option<string>, b: Option<string>) => b == a,
      (s: string, t: string) => t == s || IsMappedSymbol(m, s, t))
  }

  /** Whether `b` is `a` with the symbol string it holds mapped. */
  ghost predicate SymbolEdit(m: ClassMap, a: ArgSlot, b: ArgSlot) {
    && a.Arg? && b.Arg?
    && ((a.value.StringLit? && b.value.StringLit? && IsMappedSymbol(m, a.value.value, b.value.value))
        || (a.value.Concat? && a.value.left.StringLit? && b.value.Concat? && b.value.left.StringLit?
            && b.value.right == a.value.right && IsMappedSymbol(m, a.value.left.value, b.value.left.value)))
  }

  /** `processExistenceCheck`: an argument changes only at a position the
      catalogue names for the callee, and then only by the map replacing
      the symbol part of its string. */
  lemma ProcessExistenceCheckOnlyMaps(m: ClassMap, callee: Node, args: seq<ArgSlot>)
    ensures forall i :: 0 <= i < |args| ==>
      ProcessExistenceCheck(m, callee, args)[i] == args[i]
      || (IsCheckedArg(CalleeName(callee), i) && SymbolEdit(m, args[i], ProcessExistenceCheck(m, callee, args)[i]))
  {
    forall i | 0 <= i < |args| && ProcessExistenceCheck(m, callee, args)[i] != args[i]
      ensures IsCheckedArg(CalleeName(callee), i) && SymbolEdit(m, args[i], ProcessExistenceCheck(m, callee, args)[i])
    {
      MappedArg(m, callee, args, i);
    }
  }

  lemma MappedArg(m: ClassMap, callee: Node, args: seq<ArgSlot>, i: nat)
    requires i < |args| && ProcessExistenceCheck(m, callee, args)[i] != args[i]
    ensures IsCheckedArg(CalleeName(callee), i) && SymbolEdit(m, args[i], ProcessExistenceCheck(m, callee, args)[i])
  {
    var f := MapRenaming(m);
    var b := RewriteChecks(callee, args, f)[i];
    RewriteChecksOnlySymbols(callee, args, f, i);
    var v, suffix :| f(v).Some? && LiteralReplaced(args[i], b, v + suffix, f(v).value + suffix);
    assert v in m && f(v).value == m[v];
    MappedSymbolSplit(m, v, suffix);
  }

  lemma MappedSymbolSplit(m: ClassMap, v: string, suffix: string)
    requires v in m
    ensures IsMappedSymbol(m, v + suffix, m[v] + suffix)
  {
    var s := v + suffix;
    assert s[..|v|] == v && s[|v|..] == suffix;
  }

  /** `processExistenceCheck`: a plain literal at a catalogued position is
      rewritten exactly when its symbol part is in the map, and then becomes
      the new name followed by the literal's `::member` suffix. */
  lemma ProcessExistenceCheckMapsLiterals(m: ClassMap, callee: Node, args: seq<ArgSlot>, i: nat)
    requires IsCheckedArg(CalleeName(callee), i) && IsLiteralArg(args, i)
    ensures var vs := ExtractValueAndSuffix(callee.name.str, args[i].value.value);
      ProcessExistenceCheck(m, callee, args)[i]
        == if vs.0 in m then Arg(StringLit(m[vs.0] + vs.1)) else args[i]
  {
    RewriteChecksLiteral(callee, args, MapRenaming(m), i);
  }

  lemma ProcessNameEdit(m: ClassMap, x: Name, parent: ParentKind)
    ensures NameRules(m).refName(x, ProcessName(m, x, parent))
  {
  }

  /** A rewritten argument list is an allowed edit of the original. */
  lemma ArgEditCompose(m: ClassMap, checked: bool, a: ArgSlot, a1: ArgSlot, a2: ArgSlot)
    requires Rewrites.EditedArg(NameRules(m), false, a, a1)
    requires a2 == a1 || (checked && SymbolEdit(m, a1, a2))
    ensures Rewrites.EditedArg(NameRules(m), checked, a, a2)
  {
    var r := NameRules(m);
    if a.Arg? && checked {
      if a2 == a1 {
        Rewrites.EditedIsEditedSymbol(r, a.value, a1.value);
      } else if a1.value.StringLit? {
        assert a.value == a1.value;
        assert r.literal(a1.value.value, a2.value.value);
      } else {
        assert a.value.Concat?;
        assert Rewrites.Edited(r, a.value.left, a1.value.left);
        assert a.value.left == a1.value.left;
        assert r.literal(a1.value.left.value, a2.value.left.value);
      }
    }
  }

  lemma CallEdits(m: ClassMap, callee1: Node, args: seq<ArgSlot>, args1: seq<ArgSlot>)
    requires |args1| == |args|
    requires forall i :: 0 <= i < |args| ==> Rewrites.EditedArg(NameRules(m), false, args[i], args1[i])
    ensures Rewrites.EditedArgs(NameRules(m), CalleeName(callee1), args, ProcessExistenceCheck(m, callee1, args1))
  {
    var args2 := ProcessExistenceCheck(m, callee1, args1);
    ProcessExistenceCheckOnlyMaps(m, callee1, args1);
    forall i | 0 <= i < |args|
      ensures Rewrites.EditedArg(NameRules(m), IsCheckedArg(CalleeName(callee1), i), args[i], args2[i])
    {
      ArgEditCompose(m, IsCheckedArg(CalleeName(callee1), i), args[i], args1[i], args2[i]);
    }
  }

  /** Every node the pass produces is an allowed edit of the node it
      visited: the shape is kept and only references and existence-check
      strings change, each as `NameRules` says. */
  lemma {:induction false} VisitNodeEdits(m: ClassMap, n: Node, parent: ParentKind)
    ensures Rewrites.Edited(NameRules(m), n, VisitNode(m, n, parent))
    decreases n, 1
  {
    match n
    case NameRef(x) => ProcessNameEdit(m, x, parent);
    case Namespace(nm, stmts) => VisitNodesEdits(m, stmts, OtherParent);
    case Use(items) =>
    case GroupUse(pre, items) => ProcessNameEdit(m, pre, GroupUseParent);
    case FuncCall(callee, args) =>
      VisitNodeEdits(m, callee, OtherParent);
      forall i | 0 <= i < |args| ensures Rewrites.EditedArg(NameRules(m), false, args[i], VisitArg(m, args[i])) {
        VisitArgEdits(m, args[i]);
      }
      CallEdits(m, VisitNode(m, callee, OtherParent), args, VisitArgs(m, args));
    case StringLit(_) =>
    case Concat(l, rt) =>
      VisitNodeEdits(m, l, OtherParent);
      VisitNodeEdits(m, rt, OtherParent);
    case ClassLike(_, _, ms) => VisitNodesEdits(m, ms, OtherParent);
    case Other(cs) => VisitNodesEdits(m, cs, OtherParent);
  }

  lemma {:induction false} VisitNodesEdits(m: ClassMap, ns: seq<Node>, parent: ParentKind)
    ensures Rewrites.EditedSeq(NameRules(m), ns, VisitNodes(m, ns, parent))
    decreases ns, 0
  {
    forall i | 0 <= i < |ns| ensures Rewrites.Edited(NameRules(m), ns[i], VisitNode(m, ns[i], parent)) {
      VisitNodeEdits(m, ns[i], parent);
    }
  }

  lemma {:induction false} VisitArgEdits(m: ClassMap, a: ArgSlot)
    ensures Rewrites.EditedArg(NameRules(m), false, a, VisitArg(m, a))
    decreases a, 1
  {
    if a.Arg? {
      VisitNodeEdits(m, a.value, OtherParent);
    }
  }

  /** A whole file: the shape is kept and only references and
      existence-check strings change, as `NameRules` allows. */
  lemma TraverseEdits(m: ClassMap, ast: seq<Node>)
    ensures Rewrites.EditedSeq(NameRules(m), ast, Traverse(m, ast))
  {
    VisitNodesEdits(m, ast, NoParent);
  }

  /** No new name is itself an original name, and none holds a `:`. */
  ghost predicate Settled(m: ClassMap) {
    forall k :: k in m ==> m[k] !in m && ':' !in m[k]
  }

  lemma MapRenamingSettled(m: ClassMap)
    requires Settled(m)
    ensures ExistenceCheck.Settled(MapRenaming(m))
  {
  }

  lemma ProcessNameIdempotent(m: ClassMap, x: Name, parent: ParentKind)
    requires Settled(m)
    ensures ProcessName(m, ProcessName(m, x, parent), parent) == ProcessName(m, x, parent)
  {
  }

  /** A second pass with the same map changes nothing, once no new name is
      itself an original name. */
  lemma {:induction false} VisitNodeIdempotent(m: ClassMap, n: Node, parent: ParentKind)
    requires Settled(m)
    ensures VisitNode(m, VisitNode(m, n, parent), parent) == VisitNode(m, n, parent)
    decreases n, 1
  {
    match n
    case NameRef(x) => ProcessNameIdempotent(m, x, parent);
    case Namespace(nm, stmts) => VisitNodesIdempotent(m, stmts, OtherParent);
    case Use(items) =>
    case GroupUse(pre, items) => ProcessNameIdempotent(m, pre, GroupUseParent);
    case FuncCall(callee, args) => FuncCallIdempotent(m, callee, args, parent);
    case StringLit(_) =>
    case Concat(l, rt) => ConcatIdempotent(m, l, rt, parent);
    case ClassLike(_, _, ms) => VisitNodesIdempotent(m, ms, OtherParent);
    case Other(cs) => VisitNodesIdempotent(m, cs, OtherParent);
  }

  lemma {:induction false} FuncCallIdempotent(m: ClassMap, callee: Node, args: seq<ArgSlot>, parent: ParentKind)
    requires Settled(m)
    ensures VisitNode(m, VisitNode(m, FuncCall(callee, args), parent), parent) == VisitNode(m, FuncCall(callee, args), parent)
    decreases FuncCall(callee, args), 0
  {
    VisitNodeIdempotent(m, callee, OtherParent);
    forall i | 0 <= i < |args| ensures VisitArg(m, VisitArg(m, args[i])) == VisitArg(m, args[i]) {
      if args[i].Arg? {
        VisitNodeIdempotent(m, args[i].value, OtherParent);
      }
    }
    CallIdempotent(m, callee, args, parent);
  }

  lemma {:induction false} ConcatIdempotent(m: ClassMap, l: Node, rt: Node, parent: ParentKind)
    requires Settled(m)
    ensures VisitNode(m, VisitNode(m, Concat(l, rt), parent), parent) == VisitNode(m, Concat(l, rt), parent)
    decreases Concat(l, rt), 0
  {
    var l1, r1 := VisitNode(m, l, OtherParent), VisitNode(m, rt, OtherParent);
    assert VisitNode(m, Concat(l, rt), parent) == Concat(l1, r1);
    assert VisitNode(m, Concat(l1, r1), parent) == Concat(VisitNode(m, l1, OtherParent), VisitNode(m, r1, OtherParent));
    VisitNodeIdempotent(m, l, OtherParent);
    VisitNodeIdempotent(m, rt, OtherParent);
  }

  lemma {:induction false} VisitNodesIdempotent(m: ClassMap, ns: seq<Node>, parent: ParentKind)
    requires Settled(m)
    ensures VisitNodes(m, VisitNodes(m, ns, parent), parent) == VisitNodes(m, ns, parent)
    decreases ns, 0
  {
    forall i | 0 <= i < |ns| ensures VisitNode(m, VisitNode(m, ns[i], parent), parent) == VisitNode(m, ns[i], parent) {
      VisitNodeIdempotent(m, ns[i], parent);
    }
  }

  lemma CallIdempotent(m: ClassMap, callee: Node, args: seq<ArgSlot>, parent: ParentKind)
    requires Settled(m)
    requires VisitNode(m, VisitNode(m, callee, OtherParent), OtherParent) == VisitNode(m, callee, OtherParent)
    requires forall i :: 0 <= i < |args| ==> VisitArg(m, VisitArg(m, args[i])) == VisitArg(m, args[i])
    ensures VisitNode(m, VisitNode(m, FuncCall(callee, args), parent), parent) == VisitNode(m, FuncCall(callee, args), parent)
  {
    var callee1 := VisitNode(m, callee, OtherParent);
    var args1 := VisitArgs(m, args);
    var args2 := ProcessExistenceCheck(m, callee1, args1);
    assert ProcessExistenceCheck(m, callee1, VisitArgs(m, args2)) == args2 by {
      forall i | 0 <= i < |args1| ensures VisitArg(m, args1[i]) == args1[i] {
        assert args1[i] == VisitArg(m, args[i]);
      }
      CallArgsIdempotent(m, callee1, args1, args2);
    }
    VisitCall(m, callee, args, parent);
    VisitCall(m, callee1, args2, parent);
  }

  lemma VisitCall(m: ClassMap, callee: Node, args: seq<ArgSlot>, parent: ParentKind)
    ensures VisitNode(m, FuncCall(callee, args), parent)
         == FuncCall(VisitNode(m, callee, OtherParent),
                     ProcessExistenceCheck(m, VisitNode(m, callee, OtherParent), VisitArgs(m, args)))
  {
  }

  /** The arguments of a call on the second pass: visiting them again keeps
      them, and so does the existence check. */
  lemma CallArgsIdempotent(m: ClassMap, callee1: Node, args1: seq<ArgSlot>, args2: seq<ArgSlot>)
    requires Settled(m)
    requires forall i :: 0 <= i < |args1| ==> VisitArg(m, args1[i]) == args1[i]
    requires args2 == ProcessExistenceCheck(m, callee1, args1)
    ensures ProcessExistenceCheck(m, callee1, VisitArgs(m, args2)) == args2
  {
    MapRenamingSettled(m);
    ProcessExistenceCheckOnlyMaps(m, callee1, args1);
    forall i | 0 <= i < |args2| ensures VisitArg(m, args2[i]) == args2[i] {
      EditedArgStaysVisited(m, args1[i], args2[i]);
    }
    assert VisitArgs(m, args2) == args2;
    RewriteChecksIdempotent(callee1, args1, MapRenaming(m));
  }

  /** Replacing a symbol string does not give the pass anything new to do
      in an argument it already leaves alone. */
  lemma EditedArgStaysVisited(m: ClassMap, a1: ArgSlot, a2: ArgSlot)
    requires VisitArg(m, a1) == a1
    requires a2 == a1 || SymbolEdit(m, a1, a2)
    ensures VisitArg(m, a2) == a2
  {
    if a2 != a1 {
      var v := a1.value;
      if v.StringLit? {
        assert a2.value.StringLit?;
      } else {
        assert VisitNode(m, v, OtherParent) == Concat(VisitNode(m, v.left, OtherParent), VisitNode(m, v.right, OtherParent));
        assert VisitNode(m, v.right, OtherParent) == v.right;
        var w := a2.value;
        assert w.Concat? && w.left.StringLit? && w.right == v.right;
        assert VisitNode(m, w, OtherParent) == Concat(VisitNode(m, w.left, OtherParent), VisitNode(m, w.right, OtherParent));
      }
    }
  }

  /** A whole file: running the pass twice is running it once. */
  lemma TraverseIdempotent(m: ClassMap, ast: seq<Node>)
    requires Settled(m)
    ensures Traverse(m, Traverse(m, ast)) == Traverse(m, ast)
  {
    VisitNodesIdempotent(m, ast, NoParent);
  }
}
