/** Whether a name node belongs to a namespace declaration or a `use`
    statement; such names are rewritten by the declaration handling, never
    as references. Only the immediate parent is consulted. */
module NameContext {
  import opened Syntax

  predicate IsPartOfNamespaceOrUseStatement(parent: ParentKind) {
    parent == NamespaceParent || parent == UseItemParent || parent == UseParent
  }
}
