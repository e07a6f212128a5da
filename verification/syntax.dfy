/** The part of a parsed PHP file that the rewriting visitors look at.
    Everything else a parser produces is an `Other` node that only carries
    its children, in the order the traverser visits them. */
module Syntax {
  import opened Wrappers

  /** `Name` (unqualified or qualified), `Name\FullyQualified` (written with a
      leading `\`) and `Name\Relative` (written `namespace\...`). */
  datatype NameKind = Plain | FullyQualified | Relative

  /** A name node; `str` is what `toString()` returns: the segments joined
      by `\`, never with the leading `\` of a fully-qualified name. */
  datatype Name = Name(kind: NameKind, str: string)

  /** One clause of a `use` statement: the imported name and the explicit
      `as` alias, if any. */
  datatype UseItem = UseItem(name: Name, alias: Option<string>)

  datatype ClassKind = ClassDecl | InterfaceDecl | TraitDecl | EnumDecl

  datatype Node =
      /** A name in any reference position: type hint, `extends`,
          `implements`, `new`, static access, `instanceof`, `catch`,
          constant fetch, or the callee of a call. Its parent node is that
          expression or declaration, never a namespace or `use` node, even
          when the `NameRef` is listed directly among a block's statements. */
    | NameRef(name: Name)
      /** `namespace X { ... }` / `namespace X;`, or `namespace { ... }`
          when `nsName` is `None`. */
    | Namespace(nsName: Option<Name>, stmts: seq<Node>)
    | Use(items: seq<UseItem>)
      /** `use Prefix\{A, B as C};` */
    | GroupUse(prefix: Name, groupItems: seq<UseItem>)
      /** A function call; `callee` is a `NameRef` for `f(...)` and any
          other expression for a dynamic call such as `$f(...)`. */
    | FuncCall(callee: Node, args: seq<ArgSlot>)
    | StringLit(value: string)
    | Concat(left: Node, right: Node)
      /** A class, interface, trait or enum declaration; `declName` is
          `None` for an anonymous class. */
    | ClassLike(kind: ClassKind, declName: Option<string>, members: seq<Node>)
    | Other(children: seq<Node>)

  /** An entry of a call's argument list: an argument, or the `...` of a
      first-class callable, which is not an `Arg`. */
  datatype ArgSlot = Arg(value: Node) | Placeholder

  /** The kind of a name node's immediate parent, as the `parent` attribute
      of a connected tree would tell it; `NoParent` when there is none. */
  datatype ParentKind =
    | NoParent
    | NamespaceParent
    | UseParent
    | UseItemParent
    | GroupUseParent
    | OtherParent

  /** The static name of a call's callee, if it has one. */
  function CalleeName(callee: Node): (r: Option<string>)
    ensures r.Some? <==> callee.NameRef?
  {
    if callee.NameRef? then Some(callee.name.str) else None
  }
}
