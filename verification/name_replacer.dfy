/** `NameReplacer`: one file through the name visitor, with the class map
    the replacer was built with. */
module NameReplacer {
  import opened Wrappers
  import opened Strings
  import opened Syntax
  import opened Parsing
  import NameVisitor
  import Rewrites

  /** `replace`: empty contents or an empty map leave the file alone; a
      file that does not parse is an error; otherwise the tree rewritten by
      the class map, unchanged, is printed. */
  function Replace(p: Parser, m: NameVisitor.ClassMap, contents: string): (r: Result<string, Error>)
    ensures PhpEmpty(contents) || |m| == 0 ==> r == Success(contents)
    ensures r.Failure? <==> !PhpEmpty(contents) && |m| != 0 && p.parse(contents).None?
    ensures r.Success? && !PhpEmpty(contents) && |m| != 0 ==>
      && p.parse(contents).Some?
      && r.value == p.pretty(NameVisitor.Traverse(m, p.parse(contents).value))
  {
    if PhpEmpty(contents) || |m| == 0 then Success(contents)
    else match p.parse(contents)
      case None => Failure(FileOperationError)
      case Some(ast) => Success(p.pretty(NameVisitor.Traverse(m, ast)))
  }

  /** The printed tree is the parsed file with only references and
      existence-check strings changed, each as the class map says. */
  lemma ReplaceEdits(p: Parser, m: NameVisitor.ClassMap, contents: string) returns (ast: seq<Node>, ast1: seq<Node>)
    requires !PhpEmpty(contents) && |m| != 0
    requires Replace(p, m, contents).Success?
    ensures p.parse(contents) == Some(ast)
    ensures Replace(p, m, contents).value == p.pretty(ast1)
    ensures Rewrites.EditedSeq(NameVisitor.NameRules(m), ast, ast1)
  {
    ast := p.parse(contents).value;
    ast1 := NameVisitor.Traverse(m, ast);
    NameVisitor.TraverseEdits(m, ast);
  }

  /** Printing then parsing gives the tree back. */
  ghost predicate RoundTrips(p: Parser) {
    forall t :: p.parse(p.pretty(t)) == Some(t)
  }

  /** Replacing twice is replacing once, when the parser reads back what
      the printer writes and no new name is itself an original name. */
  lemma ReplaceIdempotent(p: Parser, m: NameVisitor.ClassMap, contents: string)
    requires RoundTrips(p)
    requires NameVisitor.Settled(m)
    requires Replace(p, m, contents).Success?
    ensures Replace(p, m, Replace(p, m, contents).value) == Replace(p, m, contents)
  {
    if !PhpEmpty(contents) && |m| != 0 {
      var ast := p.parse(contents).value;
      var ast1 := NameVisitor.Traverse(m, ast);
      assert p.parse(p.pretty(ast1)) == Some(ast1);
      NameVisitor.TraverseIdempotent(m, ast);
    }
  }
}
