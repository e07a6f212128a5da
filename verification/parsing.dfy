/** What the replacers take from outside the rewriting engine: the PHP
    parser and pretty-printer, and the exceptions the drivers raise. */
module Parsing {
  import opened Wrappers
  import opened Syntax

  /** `FileOperationException` (a file that does not parse, or a namespace
      replacer with nothing to search for) and `ConfigurationException`
      (a package that cannot be found, a files autoloader used too early). */
  datatype Error = FileOperationError | ConfigurationError

  /** The parser, `None` when it reports a syntax error, and the printer
      that turns a (rewritten) tree back into source text. */
  datatype Parser = Parser(parse: string -> Option<seq<Node>>, pretty: seq<Node> -> string)
}
