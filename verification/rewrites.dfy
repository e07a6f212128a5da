/** What a rewriting pass may change. A pass keeps the shape of the tree:
    the same nodes in the same places, the same argument lists and `use`
    aliases, the same string literals outside existence checks. Only names,
    class-like declaration names and the symbol strings of existence-check
    arguments may differ, each as a pass-specific rule allows. */
module Rewrites {
  import opened Wrappers
  import opened Syntax
  import opened ExistenceCheck

  datatype Rules = Rules(
    /** the name of a namespace declaration */
    nsName: (Name, Name) -> bool,
    /** the imported name of a `use` item */
    useName: (Name, Name) -> bool,
    /** a name in reference position, including a group-use prefix */
    refName: (Name, Name) -> bool,
    /** the name of a class, interface, trait or enum declaration */
    declName: (Option<string>, Option<string>) -> bool,
    /** a string literal holding a symbol in an existence-check argument */
    literal: (string, string) -> bool)

  /** `y` is `x` with only the edits `r` allows. */
  predicate Edited(r: Rules, x: Node, y: Node)
    decreases x, 1
  {
    match x
    case NameRef(n) => y.NameRef? && r.refName(n, y.name)
    case Namespace(nm, ss) =>
      && y.Namespace?
      && (if nm.None? then y.nsName.None? else y.nsName.Some? && r.nsName(nm.value, y.nsName.value))
      && EditedSeq(r, ss, y.stmts)
    case Use(items) => y.Use? && EditedItems(r, items, y.items)
    case GroupUse(p, items) => y.GroupUse? && r.refName(p, y.prefix) && EditedItems(r, items, y.groupItems)
    case FuncCall(f, args) =>
      y.FuncCall? && Edited(r, f, y.callee) && EditedArgs(r, CalleeName(y.callee), args, y.args)
    case StringLit(_) => y == x
    case Concat(a, b) => y.Concat? && Edited(r, a, y.left) && Edited(r, b, y.right)
    case ClassLike(k, nm, ms) =>
      y.ClassLike? && y.kind == k && r.declName(nm, y.declName) && EditedSeq(r, ms, y.members)
    case Other(cs) => y.Other? && EditedSeq(r, cs, y.children)
  }

  predicate EditedSeq(r: Rules, xs: seq<Node>, ys: seq<Node>)
    decreases xs, 0
  {
    |xs| == |ys| && forall i :: 0 <= i < |xs| ==> Edited(r, xs[i], ys[i])
  }

  predicate EditedItems(r: Rules, xs: seq<UseItem>, ys: seq<UseItem>) {
    |xs| == |ys| && forall i :: 0 <= i < |xs| ==> ys[i].alias == xs[i].alias && r.useName(xs[i].name, ys[i].name)
  }

  /** The arguments of a call to `fn`: a symbol-holding position may also
      have its literal rewritten. */
  predicate EditedArgs(r: Rules, fn: Option<string>, xs: seq<ArgSlot>, ys: seq<ArgSlot>)
    decreases xs, 0
  {
    |xs| == |ys| && forall i :: 0 <= i < |xs| ==> EditedArg(r, IsCheckedArg(fn, i), xs[i], ys[i])
  }

  predicate EditedArg(r: Rules, checked: bool, x: ArgSlot, y: ArgSlot)
    decreases x, 0
  {
    match x
    case Placeholder => y == Placeholder
    case Arg(v) => y.Arg? && (if checked then EditedSymbol(r, v, y.value) else Edited(r, v, y.value))
  }

  /** A symbol-holding argument: a literal, or the left literal of a
      concatenation, may be rewritten as `r.literal` allows. */
  predicate EditedSymbol(r: Rules, v: Node, w: Node)
    decreases v, 2
  {
    match v
    case StringLit(s) => w.StringLit? && r.literal(s, w.value)
    case Concat(a, b) =>
      && w.Concat?
      && Edited(r, b, w.right)
      && (if a.StringLit? then w.left.StringLit? && r.literal(a.value, w.left.value) else Edited(r, a, w.left))
    case _ => Edited(r, v, w)
  }

  /** Plain edits of a symbol-holding argument are allowed edits of it. */
  lemma EditedIsEditedSymbol(r: Rules, v: Node, w: Node)
    requires forall s :: r.literal(s, s)
    requires Edited(r, v, w)
    ensures EditedSymbol(r, v, w)
  {
    match v
    case StringLit(s) => assert r.literal(s, s);
    case Concat(a, b) =>
      if a.StringLit? {
        assert w.left == a;
        assert r.literal(a.value, a.value);
      }
    case _ =>
  }
}
