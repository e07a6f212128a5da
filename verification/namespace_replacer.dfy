/** `NamespaceReplacer`: one file through the namespace-mode visitor, with
    the dependency namespace as prefix and the namespace to search for as
    the only target. */
module NamespaceReplacer {
  import opened Wrappers
  import opened Strings
  import opened Syntax
  import opened Parsing
  import opened Packages
  import PrefixVisitor
  import Rewrites

  /** `resolveSearchNamespace`: a namespace set explicitly wins, with its
      trailing backslashes removed; otherwise a namespace autoloader says
      what to search for; with neither the replacer cannot work. */
  function ResolveSearchNamespace(explicit: Option<string>, autoloader: Autoloader): (r: Result<string, Error>)
    ensures explicit.Some? ==>
      && r.Success?
      && StartsWith(explicit.value, r.value)
      && (forall i :: |r.value| <= i < |explicit.value| ==> explicit.value[i] == Backslash)
      && (r.value == [] || r.value[|r.value| - 1] != Backslash)
    ensures explicit.None? ==> (r.Success? <==> autoloader.NamespaceLoader?)
    ensures explicit.None? && r.Success? ==> r.value == autoloader.searchNamespace
  {
    if explicit.Some? then Success(TrimRight(explicit.value, Backslash))
    else if autoloader.NamespaceLoader? then Success(autoloader.searchNamespace)
    else Failure(FileOperationError)
  }

  /** The visitor `traverseAndModify` builds: the dependency namespace as
      prefix and exactly one target, the search namespace, both trimmed of
      backslashes. */
  function Visitor(dep: string, search: string): (c: PrefixVisitor.Config)
    ensures c.prefix == Trim(dep, Backslash)
    ensures c.targets == [Trim(search, Backslash)]
    ensures PrefixVisitor.WellFormed(c)
  {
    PrefixVisitor.NewVisitor(dep, [search])
  }

  /** `traverseAndModify`: the tree keeps its shape; only names and
      existence-check strings change, as the visitor's rules allow. */
  function TraverseAndModify(dep: string, search: string, ast: seq<Node>): (r: seq<Node>)
    ensures Rewrites.EditedSeq(PrefixVisitor.PrefixRules(Visitor(dep, search)), ast, r)
  {
    PrefixVisitor.TraverseEdits(Visitor(dep, search), ast);
    PrefixVisitor.Traverse(Visitor(dep, search), ast)
  }

  /** `replace`: empty contents and an empty search namespace leave the
      file alone; an unresolvable search namespace or a file that does not
      parse is an error, with no output; otherwise the rewritten tree is
      printed. */
  function Replace(p: Parser, dep: string, explicit: Option<string>, autoloader: Autoloader, contents: string)
    : (r: Result<string, Error>)
    ensures PhpEmpty(contents) ==> r == Success(contents)
    ensures !PhpEmpty(contents) && ResolveSearchNamespace(explicit, autoloader).Failure? ==> r.Failure?
    ensures (&& !PhpEmpty(contents)
             && ResolveSearchNamespace(explicit, autoloader).Success?
             && PhpEmpty(ResolveSearchNamespace(explicit, autoloader).value)) ==> r == Success(contents)
    ensures r.Failure? <==>
      !PhpEmpty(contents)
      && (ResolveSearchNamespace(explicit, autoloader).Failure?
          || (!PhpEmpty(ResolveSearchNamespace(explicit, autoloader).value) && p.parse(contents).None?))
    ensures r.Success? && !PhpEmpty(contents) && !PhpEmpty(ResolveSearchNamespace(explicit, autoloader).value) ==>
      && p.parse(contents).Some?
      && r.value == p.pretty(TraverseAndModify(dep, ResolveSearchNamespace(explicit, autoloader).value, p.parse(contents).value))
  {
    if PhpEmpty(contents) then Success(contents)
    else
      var search :- ResolveSearchNamespace(explicit, autoloader);
      if PhpEmpty(search) then Success(contents)
      else match p.parse(contents)
        case None => Failure(FileOperationError)
        case Some(ast) => Success(p.pretty(TraverseAndModify(dep, search, ast)))
  }

  /** An explicit search namespace made only of backslashes trims to
      nothing, so the file comes back as it was. */
  lemma BackslashesOnlyUnchanged(p: Parser, dep: string, explicit: string, autoloader: Autoloader, contents: string)
    requires forall i :: 0 <= i < |explicit| ==> explicit[i] == Backslash
    ensures Replace(p, dep, Some(explicit), autoloader, contents) == Success(contents)
  {
    TrimRightAll(explicit, Backslash);
  }
}
