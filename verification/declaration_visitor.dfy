/** Classmap mode, first pass: every class, interface, trait and enum
    declared outside a named namespace block gets the prefix glued to the
    front of its name (no separator), and the visitor remembers each
    rename, original name to new name. */
module DeclarationVisitor {
  import opened Wrappers
  import opened Syntax
  import opened ExistenceCheck
  import Rewrites

  /** The renames so far, and whether a named namespace block is open. */
  datatype State = State(replaced: map<string, string>, inNamespace: bool)

  /** `beforeTraverse`: no renames, outside any namespace. */
  const Start := State(map[], false)

  /** `enterNode`: the new state, and whether the node's children are
      visited. Entering a named namespace block raises the flag and skips
      the block's statements. */
  function Enter(st: State, n: Node): (r: (State, bool))
    ensures r.1 <==> !(n.Namespace? && n.nsName.Some?)
    ensures r.0.replaced == st.replaced
  {
    if n.Namespace? && n.nsName.Some? then (st.(inNamespace := true), false)
    else (st, true)
  }

  /** `leaveNode`: leaving any namespace block lowers the flag; a named
      class-like outside a namespace block is renamed and recorded. */
  function Leave(prefix: string, st: State, n: Node): (r: (Node, State))
    ensures r.0 == n || (n.ClassLike? && n.declName.Some? && r.0 == n.(declName := Some(prefix + n.declName.value)))
  {
    if n.Namespace? then (n, st.(inNamespace := false))
    else if st.inNamespace then (n, st)
    else if n.ClassLike? && n.declName.Some? then
      var original := n.declName.value;
      var renamed := prefix + original;
      (n.(declName := Some(renamed)), st.(replaced := st.replaced[original := renamed]))
    else (n, st)
  }

  /** One node: enter, the children left to right unless entering said
      otherwise, leave. */
  function VisitNode(prefix: string, st: State, n: Node): (r: (Node, State))
    decreases n, 2
  {
    var (st1, descend) := Enter(st, n);
    var (n1, st2) := if descend then VisitChildren(prefix, st1, n) else (n, st1);
    Leave(prefix, st2, n1)
  }

  function VisitChildren(prefix: string, st: State, n: Node): (r: (Node, State))
    decreases n, 1
  {
    match n
    case Namespace(nm, stmts) =>
      var (stmts1, st1) := VisitNodes(prefix, st, stmts);
      (Namespace(nm, stmts1), st1)
    case FuncCall(callee, args) =>
      var (callee1, st1) := VisitNode(prefix, st, callee);
      var (args1, st2) := VisitArgs(prefix, st1, args);
      (FuncCall(callee1, args1), st2)
    case Concat(l, rt) =>
      var (l1, st1) := VisitNode(prefix, st, l);
      var (r1, st2) := VisitNode(prefix, st1, rt);
      (Concat(l1, r1), st2)
    case ClassLike(k, nm, ms) =>
      var (ms1, st1) := VisitNodes(prefix, st, ms);
      (ClassLike(k, nm, ms1), st1)
    case Other(cs) =>
      var (cs1, st1) := VisitNodes(prefix, st, cs);
      (Other(cs1), st1)
    case _ => (n, st)
  }

  function VisitNodes(prefix: string, st: State, ns: seq<Node>): (r: (seq<Node>, State))
    ensures |r.0| == |ns|
    decreases ns, 0
  {
    if ns == [] then ([], st)
    else
      var (n1, st1) := VisitNode(prefix, st, ns[0]);
      var (rest, st2) := VisitNodes(prefix, st1, ns[1..]);
      ([n1] + rest, st2)
  }

  function VisitArgs(prefix: string, st: State, args: seq<ArgSlot>): (r: (seq<ArgSlot>, State))
    ensures |r.0| == |args|
    decreases args, 0
  {
    if args == [] then ([], st)
    else
      var (a1, st1) := VisitArg(prefix, st, args[0]);
      var (rest, st2) := VisitArgs(prefix, st1, args[1..]);
      ([a1] + rest, st2)
  }

  function VisitArg(prefix: string, st: State, a: ArgSlot): (r: (ArgSlot, State))
    decreases a, 1
  {
    match a
    case Placeholder => (Placeholder, st)
    case Arg(v) =>
      var (v1, st1) := VisitNode(prefix, st, v);
      (Arg(v1), st1)
  }

  /** `traverse` followed by `getReplacedClasses`: the rewritten file and
      the renames. */
  function Traverse(prefix: string, ast: seq<Node>): (r: (seq<Node>, map<string, string>))
    ensures |r.0| == |ast|
  {
    var (out, st) := VisitNodes(prefix, Start, ast);
    (out, st.replaced)
  }

  // A stateless account of the same pass.

  /** The tree with every class-like declared outside a named namespace
      block renamed; named namespace blocks are left whole. */
  function Renamed(prefix: string, n: Node): Node
    decreases n, 1
  {
    match n
    case Namespace(nm, stmts) => if nm.Some? then n else Namespace(nm, RenamedSeq(prefix, stmts))
    case FuncCall(callee, args) => FuncCall(Renamed(prefix, callee), RenamedArgs(prefix, args))
    case Concat(l, rt) => Concat(Renamed(prefix, l), Renamed(prefix, rt))
    case ClassLike(k, nm, ms) =>
      ClassLike(k, if nm.Some? then Some(prefix + nm.value) else None, RenamedSeq(prefix, ms))
    case Other(cs) => Other(RenamedSeq(prefix, cs))
    case _ => n
  }

  function RenamedSeq(prefix: string, ns: seq<Node>): (r: seq<Node>)
    ensures |r| == |ns|
    ensures forall i :: 0 <= i < |ns| ==> r[i] == Renamed(prefix, ns[i])
    decreases ns, 0
  {
    if ns == [] then [] else [Renamed(prefix, ns[0])] + RenamedSeq(prefix, ns[1..])
  }

  function RenamedArgs(prefix: string, args: seq<ArgSlot>): (r: seq<ArgSlot>)
    ensures |r| == |args|
    ensures forall i :: 0 <= i < |args| ==> r[i] == RenamedArg(prefix, args[i])
    decreases args, 0
  {
    if args == [] then [] else [RenamedArg(prefix, args[0])] + RenamedArgs(prefix, args[1..])
  }

  function RenamedArg(prefix: string, a: ArgSlot): ArgSlot
    decreases a, 1
  {
    match a
    case Placeholder => Placeholder
    case Arg(v) => Arg(Renamed(prefix, v))
  }

  /** The names of the class-likes declared outside named namespace
      blocks; anonymous classes have none. */
  function Declared(n: Node): set<string>
    decreases n, 1
  {
    match n
    case Namespace(nm, stmts) => if nm.Some? then {} else DeclaredSeq(stmts)
    case FuncCall(callee, args) => Declared(callee) + DeclaredArgs(args)
    case Concat(l, rt) => Declared(l) + Declared(rt)
    case ClassLike(_, nm, ms) => DeclaredSeq(ms) + (if nm.Some? then {nm.value} else {})
    case Other(cs) => DeclaredSeq(cs)
    case _ => {}
  }

  function DeclaredSeq(ns: seq<Node>): set<string>
    decreases ns, 0
  {
    if ns == [] then {} else Declared(ns[0]) + DeclaredSeq(ns[1..])
  }

  function DeclaredArgs(args: seq<ArgSlot>): set<string>
    decreases args, 0
  {
    if args == [] then {} else DeclaredArg(args[0]) + DeclaredArgs(args[1..])
  }

  function DeclaredArg(a: ArgSlot): set<string>
    decreases a, 1
  {
    match a
    case Placeholder => {}
    case Arg(v) => Declared(v)
  }

  /** Each name mapped to the prefix glued to its front. */
  function Renames(prefix: string, names: set<string>): (m: map<string, string>)
    ensures m.Keys == names
    ensures forall x :: x in m ==> m[x] == prefix + x
  {
    map x | x in names :: prefix + x
  }

  lemma RenamesUnion(prefix: string, m: map<string, string>, a: set<string>, b: set<string>)
    ensures m + Renames(prefix, a) + Renames(prefix, b) == m + Renames(prefix, a + b)
  {
    var l, r := m + Renames(prefix, a) + Renames(prefix, b), m + Renames(prefix, a + b);
    assert l.Keys == r.Keys;
    forall x | x in l ensures l[x] == r[x] {
    }
  }

  lemma RenamesAdd(prefix: string, m: map<string, string>, a: set<string>, x: string)
    ensures (m + Renames(prefix, a))[x := prefix + x] == m + Renames(prefix, a + {x})
  {
    var l, r := (m + Renames(prefix, a))[x := prefix + x], m + Renames(prefix, a + {x});
    assert l.Keys == r.Keys;
    forall y | y in l ensures l[y] == r[y] {
    }
  }

  /** The visitor agrees with the stateless account: starting outside any
      namespace, a node comes out as `Renamed` says, the flag is down again
      afterwards, and the renames gain exactly the declared names, each
      mapped to the prefix glued to its front. */
  lemma {:induction false} VisitNodeMeaning(prefix: string, st: State, n: Node)
    requires !st.inNamespace
    ensures VisitNode(prefix, st, n)
      == (Renamed(prefix, n), State(st.replaced + Renames(prefix, Declared(n)), false))
    decreases n, 1
  {
    var m := st.replaced;
    match n
    case Namespace(nm, stmts) =>
      if nm.None? {
        VisitNodesMeaning(prefix, st, stmts);
      } else {
        assert Renames(prefix, {}) == map[];
        assert m + map[] == m;
      }
    case FuncCall(callee, args) =>
      VisitNodeMeaning(prefix, st, callee);
      var st1 := VisitNode(prefix, st, callee).1;
      VisitArgsMeaning(prefix, st1, args);
      RenamesUnion(prefix, m, Declared(callee), DeclaredArgs(args));
    case Concat(l, rt) =>
      VisitNodeMeaning(prefix, st, l);
      var st1 := VisitNode(prefix, st, l).1;
      VisitNodeMeaning(prefix, st1, rt);
      RenamesUnion(prefix, m, Declared(l), Declared(rt));
    case ClassLike(k, nm, ms) =>
      VisitNodesMeaning(prefix, st, ms);
      if nm.Some? {
        RenamesAdd(prefix, m, DeclaredSeq(ms), nm.value);
      } else {
        assert DeclaredSeq(ms) + {} == DeclaredSeq(ms);
      }
    case Other(cs) =>
      VisitNodesMeaning(prefix, st, cs);
    case _ =>
      assert Renames(prefix, {}) == map[];
      assert m + map[] == m;
  }

  lemma {:induction false} VisitNodesMeaning(prefix: string, st: State, ns: seq<Node>)
    requires !st.inNamespace
    ensures VisitNodes(prefix, st, ns)
      == (RenamedSeq(prefix, ns), State(st.replaced + Renames(prefix, DeclaredSeq(ns)), false))
    decreases ns, 0
  {
    if ns == [] {
      assert Renames(prefix, {}) == map[];
      assert st.replaced + map[] == st.replaced;
    } else {
      VisitNodeMeaning(prefix, st, ns[0]);
      var st1 := VisitNode(prefix, st, ns[0]).1;
      VisitNodesMeaning(prefix, st1, ns[1..]);
      RenamesUnion(prefix, st.replaced, Declared(ns[0]), DeclaredSeq(ns[1..]));
    }
  }

  lemma {:induction false} VisitArgsMeaning(prefix: string, st: State, args: seq<ArgSlot>)
    requires !st.inNamespace
    ensures VisitArgs(prefix, st, args)
      == (RenamedArgs(prefix, args), State(st.replaced + Renames(prefix, DeclaredArgs(args)), false))
    decreases args, 0
  {
    if args == [] {
      assert Renames(prefix, {}) == map[];
      assert st.replaced + map[] == st.replaced;
    } else {
      VisitArgMeaning(prefix, st, args[0]);
      var st1 := VisitArg(prefix, st, args[0]).1;
      VisitArgsMeaning(prefix, st1, args[1..]);
      RenamesUnion(prefix, st.replaced, DeclaredArg(args[0]), DeclaredArgs(args[1..]));
    }
  }

  lemma {:induction false} VisitArgMeaning(prefix: string, st: State, a: ArgSlot)
    requires !st.inNamespace
    ensures VisitArg(prefix, st, a)
      == (RenamedArg(prefix, a), State(st.replaced + Renames(prefix, DeclaredArg(a)), false))
    decreases a, 1
  {
    match a
    case Placeholder =>
      assert Renames(prefix, {}) == map[];
      assert st.replaced + map[] == st.replaced;
    case Arg(v) => VisitNodeMeaning(prefix, st, v);
  }

  /** A whole file: the output is `Renamed` applied to every statement, and
      the renames map exactly the names of the class-likes declared outside
      named namespace blocks, each to the prefix glued to its front. */
  lemma TraverseMeaning(prefix: string, ast: seq<Node>)
    ensures Traverse(prefix, ast).0 == RenamedSeq(prefix, ast)
    ensures Traverse(prefix, ast).1.Keys == DeclaredSeq(ast)
    ensures forall x :: x in Traverse(prefix, ast).1 ==> Traverse(prefix, ast).1[x] == prefix + x
  {
    VisitNodesMeaning(prefix, Start, ast);
    assert map[] + Renames(prefix, DeclaredSeq(ast)) == Renames(prefix, DeclaredSeq(ast));
  }

  /** A named namespace block, whatever the state, comes out whole: none of
      its declarations is renamed or recorded, and the flag is down again. */
  lemma NamedNamespaceUntouched(prefix: string, st: State, x: Name, stmts: seq<Node>)
    ensures VisitNode(prefix, st, Namespace(Some(x), stmts))
      == (Namespace(Some(x), stmts), st.(inNamespace := false))
  {
  }

  /** The edits a classmap declaration pass may make: only class-like
      declaration names change, each by gaining the prefix in front. */
  function DeclarationRules(prefix: string): Rewrites.Rules {
    Rewrites.Rules(
      (x: Name, y: Name) => y == x,
      (x: Name, y: Name) => y == x,
      (x: Name, y: Name) => y == x,
      (a: Option<string>, b: Option<string>) => b == a || (a.Some? && b == Some(prefix + a.value)),
      (s: string, t: string) => t == s)
  }

  lemma {:induction false} RenamedEdits(prefix: string, n: Node)
    ensures Rewrites.Edited(DeclarationRules(prefix), n, Renamed(prefix, n))
    decreases n, 1
  {
    var r := DeclarationRules(prefix);
    match n
    case NameRef(_) =>
    case Namespace(nm, stmts) =>
      if nm.Some? {
        IdentityEdits(prefix, stmts);
      } else {
        RenamedSeqEdits(prefix, stmts);
      }
    case Use(items) =>
      assert Rewrites.EditedItems(r, items, items);
    case GroupUse(_, items) =>
      assert Rewrites.EditedItems(r, items, items);
    case FuncCall(callee, args) =>
      RenamedEdits(prefix, callee);
      RenamedArgsEdits(prefix, CalleeName(Renamed(prefix, callee)), args);
    case StringLit(_) =>
    case Concat(l, rt) =>
      RenamedEdits(prefix, l);
      RenamedEdits(prefix, rt);
    case ClassLike(_, _, ms) => RenamedSeqEdits(prefix, ms);
    case Other(cs) => RenamedSeqEdits(prefix, cs);
  }

  lemma {:induction false} RenamedSeqEdits(prefix: string, ns: seq<Node>)
    ensures Rewrites.EditedSeq(DeclarationRules(prefix), ns, RenamedSeq(prefix, ns))
    decreases ns, 0
  {
    forall i | 0 <= i < |ns| ensures Rewrites.Edited(DeclarationRules(prefix), ns[i], Renamed(prefix, ns[i])) {
      RenamedEdits(prefix, ns[i]);
    }
  }

  lemma {:induction false} RenamedArgsEdits(prefix: string, fn: Option<string>, args: seq<ArgSlot>)
    ensures Rewrites.EditedArgs(DeclarationRules(prefix), fn, args, RenamedArgs(prefix, args))
    decreases args, 0
  {
    forall i | 0 <= i < |args|
      ensures Rewrites.EditedArg(DeclarationRules(prefix), IsCheckedArg(fn, i), args[i], RenamedArg(prefix, args[i]))
    {
      RenamedArgEdits(prefix, IsCheckedArg(fn, i), args[i]);
    }
  }

  lemma {:induction false} RenamedArgEdits(prefix: string, checked: bool, a: ArgSlot)
    ensures Rewrites.EditedArg(DeclarationRules(prefix), checked, a, RenamedArg(prefix, a))
    decreases a, 1
  {
    if a.Arg? {
      RenamedEdits(prefix, a.value);
      Rewrites.EditedIsEditedSymbol(DeclarationRules(prefix), a.value, RenamedArg(prefix, a).value);
    }
  }

  /** Leaving a tree as it is, is an allowed edit. */
  lemma {:induction false} IdentityEdit(prefix: string, n: Node)
    ensures Rewrites.Edited(DeclarationRules(prefix), n, n)
    decreases n, 1
  {
    var r := DeclarationRules(prefix);
    match n
    case NameRef(_) =>
    case Namespace(_, stmts) => IdentityEdits(prefix, stmts);
    case Use(items) => assert Rewrites.EditedItems(r, items, items);
    case GroupUse(_, items) => assert Rewrites.EditedItems(r, items, items);
    case FuncCall(callee, args) =>
      IdentityEdit(prefix, callee);
      forall i | 0 <= i < |args| ensures Rewrites.EditedArg(r, IsCheckedArg(CalleeName(callee), i), args[i], args[i]) {
        if args[i].Arg? {
          IdentityEdit(prefix, args[i].value);
          Rewrites.EditedIsEditedSymbol(r, args[i].value, args[i].value);
        }
      }
    case StringLit(_) =>
    case Concat(l, rt) =>
      IdentityEdit(prefix, l);
      IdentityEdit(prefix, rt);
    case ClassLike(_, _, ms) => IdentityEdits(prefix, ms);
    case Other(cs) => IdentityEdits(prefix, cs);
  }

  lemma {:induction false} IdentityEdits(prefix: string, ns: seq<Node>)
    ensures Rewrites.EditedSeq(DeclarationRules(prefix), ns, ns)
    decreases ns, 0
  {
    forall i | 0 <= i < |ns| ensures Rewrites.Edited(DeclarationRules(prefix), ns[i], ns[i]) {
      IdentityEdit(prefix, ns[i]);
    }
  }

  /** A whole file: the shape is kept and only declaration names change, as
      `DeclarationRules` allows. */
  lemma TraverseEdits(prefix: string, ast: seq<Node>)
    ensures Rewrites.EditedSeq(DeclarationRules(prefix), ast, Traverse(prefix, ast).0)
  {
    TraverseMeaning(prefix, ast);
    RenamedSeqEdits(prefix, ast);
  }
}
