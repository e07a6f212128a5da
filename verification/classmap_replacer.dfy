/** `ClassmapReplacer`: one file through the declaration visitor, renaming
    its global class-likes with the classmap prefix and collecting the
    renames across the files it is given. */
module ClassmapReplacer {
  import opened Wrappers
  import opened Strings
  import opened Syntax
  import opened Parsing
  import DeclarationVisitor
  import Rewrites

  /** Every recorded rename glues the prefix to the front of the original. */
  predicate AllPrefixed(prefix: string, m: map<string, string>) {
    forall k :: k in m ==> m[k] == prefix + k
  }

  /** Whether `replace` leaves the contents alone without parsing them:
      empty contents, an empty prefix, or text that does not open with
      `<?php` after optional whitespace (in any letter case). */
  predicate Skipped(prefix: string, contents: string) {
    PhpEmpty(contents) || PhpEmpty(prefix) || !HasPhpOpenTag(contents)
  }

  /** `replace`, with the replacer's `replacedClasses` before and after: a
      skipped file comes back as it was; a file that does not parse is an
      error; otherwise the printed tree has the file's global class-likes
      renamed, and the renames gain exactly those names, each mapped to the
      prefix glued to its front, a new entry overriding an older one for the
      same name. */
  function Replace(p: Parser, prefix: string, replaced: map<string, string>, contents: string)
    : (r: Result<(string, map<string, string>), Error>)
    ensures Skipped(prefix, contents) ==> r == Success((contents, replaced))
    ensures r.Failure? <==> !Skipped(prefix, contents) && p.parse(contents).None?
    ensures r.Success? && !Skipped(prefix, contents) ==>
      && p.parse(contents).Some?
      && r.value.0 == p.pretty(DeclarationVisitor.RenamedSeq(prefix, p.parse(contents).value))
      && r.value.1.Keys == replaced.Keys + DeclarationVisitor.DeclaredSeq(p.parse(contents).value)
      && (forall k :: k in r.value.1 ==>
            r.value.1[k] == if k in DeclarationVisitor.DeclaredSeq(p.parse(contents).value) then prefix + k else replaced[k])
  {
    if Skipped(prefix, contents) then Success((contents, replaced))
    else match p.parse(contents)
      case None => Failure(FileOperationError)
      case Some(ast) =>
        var (ast1, renames) := DeclarationVisitor.Traverse(prefix, ast);
        DeclarationVisitor.TraverseMeaning(prefix, ast);
        Success((p.pretty(ast1), replaced + renames))
  }

  /** The renames only grow, and keep saying "prefix glued to the front". */
  lemma ReplaceKeepsPrefixed(p: Parser, prefix: string, replaced: map<string, string>, contents: string)
    requires AllPrefixed(prefix, replaced)
    requires Replace(p, prefix, replaced, contents).Success?
    ensures replaced.Keys <= Replace(p, prefix, replaced, contents).value.1.Keys
    ensures AllPrefixed(prefix, Replace(p, prefix, replaced, contents).value.1)
  {
  }

  /** The printed tree is the parsed file with only class-like declaration
      names changed, each by gaining the prefix in front. */
  lemma ReplaceEdits(p: Parser, prefix: string, replaced: map<string, string>, contents: string)
    returns (ast: seq<Node>, ast1: seq<Node>)
    requires !Skipped(prefix, contents)
    requires Replace(p, prefix, replaced, contents).Success?
    ensures p.parse(contents) == Some(ast)
    ensures Replace(p, prefix, replaced, contents).value.0 == p.pretty(ast1)
    ensures Rewrites.EditedSeq(DeclarationVisitor.DeclarationRules(prefix), ast, ast1)
  {
    ast := p.parse(contents).value;
    ast1 := DeclarationVisitor.RenamedSeq(prefix, ast);
    DeclarationVisitor.TraverseMeaning(prefix, ast);
    DeclarationVisitor.TraverseEdits(prefix, ast);
  }

  /** A replacer started with no renames, whose renames are then merged
      into `replaced` with the new entries winning, gives what a replacer
      started with `replaced` gives. */
  lemma FreshThenMerge(p: Parser, prefix: string, replaced: map<string, string>, contents: string)
    ensures Replace(p, prefix, replaced, contents) ==
      match Replace(p, prefix, map[], contents)
      case Failure(e) => Failure(e)
      case Success(res) => Success((res.0, replaced + res.1))
  {
    if Skipped(prefix, contents) {
      assert replaced + map[] == replaced;
    } else if p.parse(contents).Some? {
      var renames := DeclarationVisitor.Traverse(prefix, p.parse(contents).value).1;
      assert map[] + renames == renames;
    }
  }
}
