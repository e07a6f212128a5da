# Mozart's symbol rewriting, modelled in Dafny

Mozart copies a project's Composer dependencies into the project and renames
their symbols so that they cannot clash with other copies of the same
libraries. This project models the core of that rewriting and proves
properties of it:

- **Namespace mode** (`PrefixVisitor`, `NamespaceReplacer`). Every namespace
  equal to a selected namespace, or below it, moves under a dependency
  prefix: namespace declarations, `use` imports, name references and the
  string arguments of existence checks such as `class_exists`.
- **Classmap mode** (`DeclarationVisitor`, `ClassmapReplacer`). Classes,
  interfaces, traits and enums declared in the global namespace get a class
  prefix. The renames are collected in a map.
- **Parent sweep** (`NameVisitor`, `NameReplacer`, `ParentReplacer`). The
  collected renames are applied to the bare references in the files of the
  packages that depend on the renamed ones.
- **Existence-check arguments** (`ExistenceCheck`). The catalogue of
  functions taking a symbol as a string, and the splitting of such a string
  into the symbol and a `::member` suffix.
- **Drivers** (`Replacer`, `ParentReplacer`, `PackageOrder`,
  `DependencyWalk`). The walk over the package tree in dependency order, and
  the choice of the rewriting mode per autoloader.
- **Autoloaders** (`FilesAutoloader`, `ClassmapAutoloader`). Which files a
  `files` or `classmap` entry names, and where each file is moved.
- **Packages** (`Packages`, `PackageFinder`). Loading dependencies from
  `require` slugs, and collecting every package of a tree once.

A PHP file is modelled as an abstract syntax tree (`Syntax.Node`) that
keeps only what the rewriting looks at. Parsing and printing are two
functions of a `Parser` value. The disk is a map from paths to contents,
plus directory listings. The package graph is an arena, `seq<Package>`,
whose dependencies are positions in it.

Most operations have a partner in the proofs. Each traversal is matched
against an independent statement of what it may edit (`Rewrites.Rules`).
The class-declaration traversal equals a pure rename function. The driver
equals a post-order whose dependencies-first property is proved. The parent
walk equals a pure pre-order walk. The name sweep is idempotent. The search
for a namespace's files is characterised in both directions.

The source skips a bare name inside a namespace being moved because, in its
own words (PrefixVisitor.php:197-199), such a name will resolve correctly
through the prefixed namespace. It also refuses to prefix a namespace that
already starts with `prefix\` (PrefixVisitor.php:273-276). Together these
say that moved code is left where it is. The name rule does not keep to
this on a second run. In `namespace P\Foo` the bare `Foo` is no longer
skipped, and it becomes the relative name `P\Foo`, which PHP resolves to
`P\Foo\P\Foo`. This model follows the code. The counterexample and a
corrected rule are listed under "## Findings".

## Model

Each row names a member whose contract states the property, the source
lines it models (paths from the top of the Mozart source tree), and what the
contract says. Helpers that only serve the proofs have no row.

| member | source | states |
|---|---|---|
| ExistenceCheck.ArgIndices | mozart/vendor/coenjacobs/mozart/src/Replace/Support/ExistenceCheckTrait.php:84-103 | every function in the catalogue checks at least one argument, and the argument positions it lists are strictly increasing |
| ExistenceCheck.ExtractValueAndSuffix | mozart/vendor/coenjacobs/mozart/src/Replace/Support/ExistenceCheckTrait.php:118-134 | symbol followed by suffix gives back the literal; there is a suffix exactly when the function is `constant`, `defined` or `is_callable` and the literal contains `::`; the suffix then starts with `::` at the first `::` of the literal |
| ExistenceCheck.ParseDoubleColonConcat | mozart/vendor/coenjacobs/mozart/src/Replace/Support/ExistenceCheckTrait.php:141-160 | a concatenation is recognised exactly when the function accepts `::` and its left operand is a literal ending in `::`; the symbol is that literal without the `::`, and the suffix is `::` |
| ExistenceCheck.ParseOne | mozart/vendor/coenjacobs/mozart/src/Replace/Support/ExistenceCheckTrait.php:59-74 | a parsed argument lies at the position asked for and holds the symbol where the parse says; a string-literal argument is always parsed whole, and only a literal is parsed whole |
| ExistenceCheck.ParseAt | mozart/vendor/coenjacobs/mozart/src/Replace/Support/ExistenceCheckTrait.php:59-75 | the parses found over a list of positions are located and come from those positions, in increasing order when the positions increase, and no position whose argument parses is missed |
| ExistenceCheck.ParseAll | mozart/vendor/coenjacobs/mozart/src/Replace/Support/ExistenceCheckTrait.php:46-77 | nothing for a dynamic callee or a function outside the catalogue; otherwise every result sits at a checked position in increasing order, and every checked position whose argument parses (in particular every literal) is among the results |
| ExistenceCheck.ParseFirst | mozart/vendor/coenjacobs/mozart/src/Replace/Support/ExistenceCheckTrait.php:32-36 | no result exactly when there are no parses at all; otherwise a located parse at a position no later than any other parse |
| ExistenceCheck.SetLiteral | mozart/vendor/coenjacobs/mozart/src/Replace/Namespace/PrefixVisitor.php:320-323 | assigning the new string changes only the parsed argument: the whole literal, or the left operand of the concatenation with the right operand kept |
| ExistenceCheck.RewriteAllEffect | mozart/vendor/coenjacobs/mozart/src/Replace/Namespace/PrefixVisitor.php:314-327 | rewriting every parse leaves the unparsed positions alone and gives each parsed position the value its own rewrite gives it |
| ExistenceCheck.RewriteChecksOnlySymbols | mozart/vendor/coenjacobs/mozart/src/Replace/Classmap/NameVisitor.php:92-105 | an argument that changes sits at a checked position, and it is its literal with the symbol renamed and the suffix kept |
| ExistenceCheck.RewriteChecksLiteral | mozart/vendor/coenjacobs/mozart/src/Replace/Classmap/NameVisitor.php:97-102 | a literal at a checked position becomes the renamed symbol followed by the original suffix when the renaming applies, and stays as it is otherwise |
| ExistenceCheck.ExtractRewritten | mozart/vendor/coenjacobs/mozart/src/Replace/Support/ExistenceCheckTrait.php:118-134 | a rewritten literal splits into the new symbol and the same suffix, provided the new symbol holds no `:` |
| ExistenceCheck.RewriteChecksIdempotent | mozart/vendor/coenjacobs/mozart/src/Replace/Classmap/NameVisitor.php:92-105 | with a renaming whose results are not renamed again and hold no `:`, rewriting a call's arguments twice gives what rewriting once gives |
| PrefixVisitor.NewVisitor | mozart/vendor/coenjacobs/mozart/src/Replace/Namespace/PrefixVisitor.php:59-66 | the prefix and each target namespace are stored with leading and trailing backslashes trimmed, one target per input, so the configuration is well formed |
| PrefixVisitor.AnyTargetMatches | mozart/vendor/coenjacobs/mozart/src/Replace/Namespace/PrefixVisitor.php:283-295 | true exactly when some target equals the namespace or is one of its leading whole segments |
| PrefixVisitor.ShouldPrefixMeaning | mozart/vendor/coenjacobs/mozart/src/Replace/Namespace/PrefixVisitor.php:269-296 | after trimming, a namespace is selected exactly when it is neither the prefix nor below it, and some target equals it or is one of its leading segments |
| PrefixVisitor.PrefixedNeverPrefixedAgain | mozart/vendor/coenjacobs/mozart/src/Replace/Namespace/PrefixVisitor.php:273-276 | with a non-empty prefix, no name that already starts with `prefix\` is ever selected |
| PrefixVisitor.SegmentBoundary | mozart/vendor/coenjacobs/mozart/src/Replace/Namespace/PrefixVisitor.php:283-293 | matching respects segment boundaries: with target `T`, `T` and `T\X` are selected but `TX` is not |
| PrefixVisitor.SiblingNotSelected | mozart/vendor/coenjacobs/mozart/src/Replace/Namespace/PrefixVisitor.php:283-295 | a namespace that only shares leading characters with the target, such as `FooBar` for `Foo`, is never selected |
| PrefixVisitor.ChildSelected | mozart/vendor/coenjacobs/mozart/src/Replace/Namespace/PrefixVisitor.php:290-292 | a sub-namespace of the target, `T\X`, is always selected when target and prefix are unrelated |
| PrefixVisitor.AliasesOf | mozart/vendor/coenjacobs/mozart/src/Replace/Namespace/PrefixVisitor.php:133-138 | the names a `use` statement binds are exactly the items' aliases, or the last segment of the name when there is no alias |
| PrefixVisitor.RecordAliasesMeaning | mozart/vendor/coenjacobs/mozart/src/Replace/Namespace/PrefixVisitor.php:129-149 | after a `use` statement the bound names are the old ones plus the statement's; a name bound by the statement maps to the original imported name of the last item that binds it; other names keep their old meaning |
| PrefixVisitor.ResolveClassName | mozart/vendor/coenjacobs/mozart/src/Replace/Namespace/PrefixVisitor.php:232-264 | a fully qualified name resolves to itself; a bare name to its import when there is one; a qualified name has its first segment replaced by that segment's import when there is one |
| PrefixVisitor.SubstituteFirst | mozart/vendor/coenjacobs/mozart/src/Replace/Namespace/PrefixVisitor.php:252-260 | splitting at backslashes, replacing the first part and joining again is the same as replacing everything before the first backslash |
| PrefixVisitor.CreatePrefixedName | mozart/vendor/coenjacobs/mozart/src/Replace/Namespace/PrefixVisitor.php:218-227 | the new name is `prefix\` followed by the resolved name, and it is fully qualified exactly when the original was, never relative |
| PrefixVisitor.ProcessName | mozart/vendor/coenjacobs/mozart/src/Replace/Namespace/PrefixVisitor.php:154-178 | a name under a namespace or `use` node, or a bare name that is imported or sits in a block being moved, is left alone; any other name becomes `prefix\` plus its resolved name exactly when that resolved name is selected, and stays otherwise |
| PrefixVisitor.ImportedItems | mozart/vendor/coenjacobs/mozart/src/Replace/Namespace/PrefixVisitor.php:133-146 | each imported name moves under the prefix exactly when it is selected; aliases and item count are kept |
| PrefixVisitor.VisitUseItems | mozart/vendor/coenjacobs/mozart/src/Replace/Support/NameNodeContextTrait.php:20-27 | names directly under `use` items are never rewritten on their own, whatever the state |
| PrefixVisitor.ProcessExistenceCheckOnlyPrefixes | mozart/vendor/coenjacobs/mozart/src/Replace/Namespace/PrefixVisitor.php:314-327 | every argument of a call stays as it is, or sits at a checked position and has its literal moved under `prefix\` |
| PrefixVisitor.PrefixedArg | mozart/vendor/coenjacobs/mozart/src/Replace/Namespace/PrefixVisitor.php:314-327 | an argument that changed sits at a checked position, and the change is a move of its literal under `prefix\` |
| PrefixVisitor.ProcessExistenceCheckPrefixesLiterals | mozart/vendor/coenjacobs/mozart/src/Replace/Namespace/PrefixVisitor.php:319-324 | a literal at a checked position gains `prefix\` in front, suffix included, exactly when its symbol part is selected |
| PrefixVisitor.ProcessNameEdit | mozart/vendor/coenjacobs/mozart/src/Replace/Namespace/PrefixVisitor.php:154-166 | a reference is kept, or becomes a non-relative name under `prefix\` whose remainder is selected and whose qualification is kept |
| PrefixVisitor.NamespaceNameEdit | mozart/vendor/coenjacobs/mozart/src/Replace/Namespace/PrefixVisitor.php:97-107 | leaving a namespace block keeps its statements, and its name either stays or becomes its image under the prefix; an anonymous block stays anonymous |
| PrefixVisitor.UseItemsEdit | mozart/vendor/coenjacobs/mozart/src/Replace/Namespace/PrefixVisitor.php:129-149 | a `use` statement keeps its aliases, and each imported name becomes its first-pass image |
| PrefixVisitor.VisitNodeEdits | mozart/vendor/coenjacobs/mozart/src/Replace/Namespace/PrefixVisitor.php:82-124 | visiting a node changes only namespace names, imported names, references and checked literals, each as the namespace-mode rules allow, and keeps the tree's shape |
| PrefixVisitor.VisitNodesEdits | mozart/vendor/coenjacobs/mozart/src/Replace/Namespace/PrefixVisitor.php:82-124 | the same for a statement list, position by position |
| PrefixVisitor.VisitArgsEdits | mozart/vendor/coenjacobs/mozart/src/Replace/Namespace/PrefixVisitor.php:82-124 | the same for a call's arguments, where no literal changes before the existence check looks at them |
| PrefixVisitor.VisitArgEdits | mozart/vendor/coenjacobs/mozart/src/Replace/Namespace/PrefixVisitor.php:82-124 | the same for one argument |
| PrefixVisitor.TraverseEdits | mozart/vendor/coenjacobs/mozart/src/Replace/Namespace/PrefixVisitor.php:75-124 | a whole traversal edits a file only as the namespace-mode rules allow |
| PrefixVisitor.VisitNodeState | mozart/vendor/coenjacobs/mozart/src/Replace/Namespace/PrefixVisitor.php:82-90 | the visitor's state after a node is the replay of the node's namespace entries and imports, in source order |
| PrefixVisitor.VisitNodesState | mozart/vendor/coenjacobs/mozart/src/Replace/Namespace/PrefixVisitor.php:82-90 | the same for a statement list |
| PrefixVisitor.VisitArgsState | mozart/vendor/coenjacobs/mozart/src/Replace/Namespace/PrefixVisitor.php:82-90 | the same for a call's arguments, so a namespace or import inside an argument counts in source order |
| PrefixVisitor.VisitArgState | mozart/vendor/coenjacobs/mozart/src/Replace/Namespace/PrefixVisitor.php:82-90 | the same for one argument |
| PrefixVisitor.ReplayAliases | mozart/vendor/coenjacobs/mozart/src/Replace/Namespace/PrefixVisitor.php:133-140 | replaying events changes the aliases only through the imports, recorded in order |
| PrefixVisitor.TraverseAliases | mozart/vendor/coenjacobs/mozart/src/Replace/Namespace/PrefixVisitor.php:75-80 | the aliases known at the end of a file are those recorded from all its imports, in order, starting from none, whatever the namespace blocks |
| PrefixVisitorExamples.GlobalNameNeverSelected | mozart/vendor/coenjacobs/mozart/src/Replace/Namespace/PrefixVisitor.php:283-295 | a global name that is not itself a target is never selected, so an import of it is never moved |
| PrefixVisitorExamples.NoDoublePrefix | mozart/vendor/coenjacobs/mozart/src/Replace/Namespace/PrefixVisitor.php:141-146 | a name already under `prefix\` is not moved again, as an import or as a reference that resolves under `prefix\` |
| PrefixVisitorExamples.AliasedImport | mozart/vendor/coenjacobs/mozart/src/Replace/Namespace/PrefixVisitor.php:133-146 | `use N as A` records `A` for the original `N` and rewrites the import to the image of `N` |
| PrefixVisitorExamples.VisitUse | mozart/vendor/coenjacobs/mozart/src/Replace/Namespace/PrefixVisitor.php:109-111 | a `use` node becomes its imported items' images, and its aliases are recorded |
| PrefixVisitorExamples.VisitNameRef | mozart/vendor/coenjacobs/mozart/src/Replace/Namespace/PrefixVisitor.php:114-116 | a reference is rewritten by the name rule and leaves the state alone |
| PrefixVisitorExamples.VisitNamedNamespace | mozart/vendor/coenjacobs/mozart/src/Replace/Namespace/PrefixVisitor.php:82-107 | a named block sets the current namespace before its statements are visited and is renamed on leaving |
| PrefixVisitorExamples.FullyQualifiedReference | mozart/vendor/coenjacobs/mozart/src/Replace/Namespace/PrefixVisitor.php:218-224 | a fully qualified reference becomes `\prefix\X` exactly when `X` is selected |
| PrefixVisitorExamples.QualifiedNameThroughAlias | mozart/vendor/coenjacobs/mozart/src/Replace/Namespace/PrefixVisitor.php:252-260 | `A\X`, with `A` an imported alias for `N`, becomes `prefix\N\X` exactly when `N\X` is selected, and stays otherwise |
| PrefixVisitorExamples.QualifiedNameAsWritten | mozart/vendor/coenjacobs/mozart/src/Replace/Namespace/PrefixVisitor.php:153-165 | a qualified name whose first segment is no alias becomes `prefix\` plus the name exactly when the name is selected |
| PrefixVisitorExamples.BareNameResolvedThroughImport | mozart/vendor/coenjacobs/mozart/src/Replace/Namespace/PrefixVisitor.php:183-201 | in a namespace that is not selected, an imported bare name is left alone and only the import is rewritten |
| PrefixVisitorExamples.ClassExistsString | mozart/vendor/coenjacobs/mozart/src/Replace/Namespace/PrefixVisitor.php:314-327 | `class_exists('X')` becomes `class_exists('prefix\X')` exactly when `X` is selected |
| PrefixVisitorExamples.ConstantString | mozart/vendor/coenjacobs/mozart/src/Replace/Namespace/PrefixVisitor.php:314-327 | `constant('X::M')` gains `prefix\` in front exactly when `X` is selected, the member untouched |
| PrefixVisitorExamples.SplitAtFirstDoubleColon | mozart/vendor/coenjacobs/mozart/src/Replace/Support/ExistenceCheckTrait.php:123-127 | `X::M` splits into `X` and `::M` |
| PrefixVisitorExamples.FirstPassSkipsBareTargetName | mozart/vendor/coenjacobs/mozart/src/Replace/Namespace/PrefixVisitor.php:183-213 | in `namespace T; T` with `T` selected, the block moves and the bare `T` stays |
| PrefixVisitorExamples.SecondPassPrefixesBareTargetName | mozart/vendor/coenjacobs/mozart/src/Replace/Namespace/PrefixVisitor.php:206-213 | in the moved block `prefix\T` the same bare `T` is prefixed, because the moved block no longer counts as being prefixed |
| PrefixVisitorExamples.BareNameOutsideSelectedNamespace | mozart/vendor/coenjacobs/mozart/src/Replace/Namespace/PrefixVisitor.php:154-166 | an unimported bare name outside a block being moved becomes `prefix\T` exactly when `T` is selected |
| PrefixVisitorExamples.SecondPassChangesBareTargetName | mozart/vendor/coenjacobs/mozart/src/Replace/Namespace/PrefixVisitor.php:206-213 | as written, a second run of namespace mode over the first run's output changes it |
| PrefixVisitorExamples.SecondPassExample | mozart/vendor/coenjacobs/mozart/src/Replace/Namespace/PrefixVisitor.php:206-213 | the same with prefix `P` and target `Foo` |
| PrefixVisitorStable.ProcessName | mozart/vendor/coenjacobs/mozart/src/Replace/Namespace/PrefixVisitor.php:154-213 | the corrected name rule: it also skips bare names in a block already moved; any change is the prefixed resolved name; outside already-moved blocks it agrees with the rule as written |
| PrefixVisitorStable.ImageStable | mozart/vendor/coenjacobs/mozart/src/Replace/Namespace/PrefixVisitor.php:269-296 | the first pass's image of a namespace is not moved again |
| PrefixVisitorStable.InPrefixedNamespaceKept | mozart/vendor/coenjacobs/mozart/src/Replace/Namespace/PrefixVisitor.php:206-213 | whether the enclosing block counts as moved is the same on both passes |
| PrefixVisitorStable.ResolveSecondPass | mozart/vendor/coenjacobs/mozart/src/Replace/Namespace/PrefixVisitor.php:232-264 | on the second pass a name resolves to its first-pass resolution or to that under `prefix\` |
| PrefixVisitorStable.KeptStaysKept | mozart/vendor/coenjacobs/mozart/src/Replace/Namespace/PrefixVisitor.php:158-163 | a name the first pass did not move is not moved by the second |
| PrefixVisitorStable.MovedStaysMoved | mozart/vendor/coenjacobs/mozart/src/Replace/Namespace/PrefixVisitor.php:218-227 | a name the first pass moved is left alone by the second, unless an alias is named like the prefix's first segment |
| PrefixVisitorStable.ProcessNameTwice | mozart/vendor/coenjacobs/mozart/src/Replace/Namespace/PrefixVisitor.php:154-213 | idempotence of the corrected rule: on the state a second pass reaches, it leaves the first pass's result as it is |
| PrefixVisitorStable.AsWrittenProcessNameNotTwice | mozart/vendor/coenjacobs/mozart/src/Replace/Namespace/PrefixVisitor.php:183-213 | the rule as written, on the same pair of states, keeps a bare `T` on the first pass and moves it on the second |
| PrefixVisitorStable.AsWrittenSkipsInSelectedBlock | mozart/vendor/coenjacobs/mozart/src/Replace/Namespace/PrefixVisitor.php:183-201 | as written, a bare `T` in the block `T` being moved is skipped |
| PrefixVisitorStable.AsWrittenPrefixesInMovedBlock | mozart/vendor/coenjacobs/mozart/src/Replace/Namespace/PrefixVisitor.php:206-213 | as written, a bare `T` in the moved block `prefix\T` is prefixed |
| DeclarationVisitor.Enter | mozart/vendor/coenjacobs/mozart/src/Replace/Classmap/DeclarationVisitor.php:43-52 | children are visited except below a named namespace; entering never touches the collected renames |
| DeclarationVisitor.Leave | mozart/vendor/coenjacobs/mozart/src/Replace/Classmap/DeclarationVisitor.php:58-87 | leaving a node keeps it, or renames a named declaration to prefix plus its name |
| DeclarationVisitor.Renames | mozart/vendor/coenjacobs/mozart/src/Replace/Classmap/DeclarationVisitor.php:79-81 | the renames of a set of names map each of them, and nothing else, to prefix plus the name |
| DeclarationVisitor.VisitNodeMeaning | mozart/vendor/coenjacobs/mozart/src/Replace/Classmap/DeclarationVisitor.php:43-87 | outside a named namespace, visiting a node gives its pure renaming and adds the renames of the names it declares |
| DeclarationVisitor.VisitNodesMeaning | mozart/vendor/coenjacobs/mozart/src/Replace/Classmap/DeclarationVisitor.php:43-87 | the same for a statement list |
| DeclarationVisitor.VisitArgsMeaning | mozart/vendor/coenjacobs/mozart/src/Replace/Classmap/DeclarationVisitor.php:43-87 | the same for call arguments, where anonymous and named classes may be declared |
| DeclarationVisitor.VisitArgMeaning | mozart/vendor/coenjacobs/mozart/src/Replace/Classmap/DeclarationVisitor.php:43-87 | the same for one argument |
| DeclarationVisitor.TraverseMeaning | mozart/vendor/coenjacobs/mozart/src/Replace/Classmap/DeclarationVisitor.php:36-93 | a traversal gives the pure renaming of the file, and its renames are exactly the global declarations, each mapped to prefix plus name |
| DeclarationVisitor.NamedNamespaceUntouched | mozart/vendor/coenjacobs/mozart/src/Replace/Classmap/DeclarationVisitor.php:46-63 | a named namespace block and everything in it is left as it is |
| DeclarationVisitor.RenamedEdits | mozart/vendor/coenjacobs/mozart/src/Replace/Classmap/DeclarationVisitor.php:69-84 | the renaming changes only declaration names, each into prefix plus the old name |
| DeclarationVisitor.RenamedSeqEdits | mozart/vendor/coenjacobs/mozart/src/Replace/Classmap/DeclarationVisitor.php:69-84 | the same for a statement list |
| DeclarationVisitor.RenamedArgsEdits | mozart/vendor/coenjacobs/mozart/src/Replace/Classmap/DeclarationVisitor.php:69-84 | the same for a call's arguments, which keep every string literal |
| DeclarationVisitor.RenamedArgEdits | mozart/vendor/coenjacobs/mozart/src/Replace/Classmap/DeclarationVisitor.php:69-84 | the same for one argument |
| DeclarationVisitor.TraverseEdits | mozart/vendor/coenjacobs/mozart/src/Replace/Classmap/DeclarationVisitor.php:58-87 | a traversal edits a file only as the classmap-mode rules allow |
| NameVisitor.ProcessName | mozart/vendor/coenjacobs/mozart/src/Replace/Classmap/NameVisitor.php:53-83 | names under a namespace or `use` node, qualified names and unmapped names are left alone; every other name in the map is replaced by its new name, fully qualified exactly when it was |
| NameVisitor.VisitUseItems | mozart/vendor/coenjacobs/mozart/src/Replace/Classmap/NameVisitor.php:58-61 | the names of `use` items are never renamed: the name rule skips a name whose parent is a `use` item |
| NameVisitor.ProcessExistenceCheckOnlyMaps | mozart/vendor/coenjacobs/mozart/src/Replace/Classmap/NameVisitor.php:92-105 | every argument stays as it is, or sits at a checked position and has a mapped symbol replaced, the rest kept |
| NameVisitor.MappedArg | mozart/vendor/coenjacobs/mozart/src/Replace/Classmap/NameVisitor.php:92-105 | an argument that changed sits at a checked position, and the change replaces a mapped symbol |
| NameVisitor.ProcessExistenceCheckMapsLiterals | mozart/vendor/coenjacobs/mozart/src/Replace/Classmap/NameVisitor.php:97-102 | a literal at a checked position becomes the mapped symbol followed by the suffix exactly when its symbol is mapped |
| NameVisitor.ProcessNameEdit | mozart/vendor/coenjacobs/mozart/src/Replace/Classmap/NameVisitor.php:53-83 | a reference is kept, or is a mapped bare name replaced by its mapping, keeping qualification |
| NameVisitor.VisitCall | mozart/vendor/coenjacobs/mozart/src/Replace/Classmap/NameVisitor.php:46-51 | a call's callee and arguments are visited before the existence check looks at the result |
| NameVisitor.VisitNodeEdits | mozart/vendor/coenjacobs/mozart/src/Replace/Classmap/NameVisitor.php:46-84 | visiting a node changes only references and checked literals, each as the sweep rules allow |
| NameVisitor.VisitNodesEdits | mozart/vendor/coenjacobs/mozart/src/Replace/Classmap/NameVisitor.php:46-84 | the same for a statement list |
| NameVisitor.VisitArgEdits | mozart/vendor/coenjacobs/mozart/src/Replace/Classmap/NameVisitor.php:46-84 | the same for one argument, where no literal changes before the existence check looks at it |
| NameVisitor.TraverseRenamesMappedReference | mozart/vendor/coenjacobs/mozart/src/Replace/Classmap/NameVisitor.php:63-83 | a bare reference to a renamed class, anywhere in a file's statement list, is replaced by its new name after the sweep |
| NameVisitor.TraverseEdits | mozart/vendor/coenjacobs/mozart/src/Replace/Classmap/NameVisitor.php:46-105 | a whole traversal edits a file only as the sweep rules allow |
| NameVisitor.ProcessNameIdempotent | mozart/vendor/coenjacobs/mozart/src/Replace/Classmap/NameVisitor.php:63-83 | when no mapped name is itself mapped or holds `:`, renaming a name twice is renaming it once |
| NameVisitor.CallArgsIdempotent | mozart/vendor/coenjacobs/mozart/src/Replace/Classmap/NameVisitor.php:92-105 | under the same condition, and with mapped names free of `:`, the existence check leaves its own output alone |
| NameVisitor.VisitNodeIdempotent | mozart/vendor/coenjacobs/mozart/src/Replace/Classmap/NameVisitor.php:46-105 | under that condition, visiting a node twice gives what visiting it once gives |
| NameVisitor.VisitNodesIdempotent | mozart/vendor/coenjacobs/mozart/src/Replace/Classmap/NameVisitor.php:46-105 | the same for a statement list |
| NameVisitor.FuncCallIdempotent | mozart/vendor/coenjacobs/mozart/src/Replace/Classmap/NameVisitor.php:46-105 | the same for a call: callee, arguments and checked literals |
| NameVisitor.ConcatIdempotent | mozart/vendor/coenjacobs/mozart/src/Replace/Classmap/NameVisitor.php:46-84 | the same for a concatenation |
| NameVisitor.CallIdempotent | mozart/vendor/coenjacobs/mozart/src/Replace/Classmap/NameVisitor.php:49-51 | a call is stable under a second visit when its callee and each argument are |
| NameVisitor.EditedArgStaysVisited | mozart/vendor/coenjacobs/mozart/src/Replace/Classmap/NameVisitor.php:92-105 | an argument that a visit leaves alone is still left alone after its symbol is renamed |
| NameVisitor.TraverseIdempotent | mozart/vendor/coenjacobs/mozart/src/Replace/Classmap/NameVisitor.php:46-105 | under that condition, a second sweep of a file leaves the first sweep's result as it is |
| Packages.DirectoryName | mozart/vendor/coenjacobs/mozart/src/Config/Package.php:62-65 | the directory name is the one the factory found, or else the package name |
| Packages.Autoloaders | mozart/vendor/coenjacobs/mozart/src/Config/Package.php:70-77 | a package without an autoload section has no autoloaders; otherwise its own |
| Packages.Require | mozart/vendor/coenjacobs/mozart/src/Config/Package.php:82-85 | the required slugs are the keys of `require`, in order |
| Packages.RegisterDependency | mozart/vendor/coenjacobs/mozart/src/Config/Package.php:123-126 | registering appends one dependency and changes nothing else |
| Packages.RegisterDependenciesAppends | mozart/vendor/coenjacobs/mozart/src/Config/Package.php:131-136 | registering a list appends it in order and changes nothing else |
| NamespaceReplacer.ResolveSearchNamespace | mozart/vendor/coenjacobs/mozart/src/Replace/Namespace/NamespaceReplacer.php:47-59 | an explicit search namespace wins, with only its trailing backslashes removed; without one, a PSR autoloader's search namespace is used and any other autoloader is an error |
| NamespaceReplacer.Visitor | mozart/vendor/coenjacobs/mozart/src/Replace/Namespace/NamespaceReplacer.php:93-96 | the visitor gets the trimmed dependency prefix and the search namespace as its only target |
| NamespaceReplacer.TraverseAndModify | mozart/vendor/coenjacobs/mozart/src/Replace/Namespace/NamespaceReplacer.php:93-99 | the traversal edits only as the namespace-mode rules for that prefix and target allow |
| NamespaceReplacer.Replace | mozart/vendor/coenjacobs/mozart/src/Replace/Namespace/NamespaceReplacer.php:64-84 | empty contents and an empty search namespace give the contents back; an unresolvable search namespace or a parse failure is an error, and nothing else is; otherwise the result prints the traversed tree |
| NamespaceReplacer.BackslashesOnlyUnchanged | mozart/vendor/coenjacobs/mozart/src/Replace/Namespace/NamespaceReplacer.php:49-51 | an explicit search namespace made only of backslashes trims to empty and leaves the file as it is |
| ClassmapReplacer.Replace | mozart/vendor/coenjacobs/mozart/src/Replace/Classmap/ClassmapReplacer.php:46-74 | empty contents, an empty prefix or no `<?php` opening gives the file back with the renames unchanged; otherwise a parse failure is an error, and success prints the renamed tree and adds exactly the global declarations, each mapped to prefix plus name |
| ClassmapReplacer.ReplaceKeepsPrefixed | mozart/vendor/coenjacobs/mozart/src/Replace/Classmap/ClassmapReplacer.php:68-71 | when every earlier rename maps a name to prefix plus that name, the collected renames only grow and every one of them still does |
| ClassmapReplacer.ReplaceEdits | mozart/vendor/coenjacobs/mozart/src/Replace/Classmap/ClassmapReplacer.php:57-73 | the printed tree differs from the parsed one only in declaration names |
| ClassmapReplacer.FreshThenMerge | mozart/vendor/coenjacobs/mozart/src/Replace/Classmap/ClassmapReplacer.php:64-71 | replacing with earlier renames is replacing with none and merging the new renames over the earlier ones |
| NameReplacer.Replace | mozart/vendor/coenjacobs/mozart/src/Replace/Classmap/NameReplacer.php:38-56 | empty contents or an empty map give the file back; otherwise a parse failure is an error, and success prints the swept tree |
| NameReplacer.ReplaceEdits | mozart/vendor/coenjacobs/mozart/src/Replace/Classmap/NameReplacer.php:44-55 | the printed tree differs from the parsed one only as the sweep rules allow |
| NameReplacer.ReplaceIdempotent | mozart/vendor/coenjacobs/mozart/src/Replace/Classmap/NameReplacer.php:38-56 | when printing then parsing gives the tree back and no mapped name is mapped again, sweeping a swept file changes nothing |
| PackageFinder.GetPackageBySlug | mozart/vendor/coenjacobs/mozart/src/PackageFinder.php:30-57 | a requirement without `/` is no package; a slug needs a configuration and an installed package, and otherwise is a configuration error; a found package is the one installed under the slug |
| PackageFinder.LookUpAll | mozart/vendor/coenjacobs/mozart/src/PackageFinder.php:68-70 | every slug is looked up in turn, and the lookup succeeds exactly when each one does |
| PackageFinder.DropNulls | mozart/vendor/coenjacobs/mozart/src/PackageFinder.php:72-74 | the packages found, without the empty lookups: nothing added, nothing found lost, never longer than the lookups |
| PackageFinder.GetPackagesBySlugs | mozart/vendor/coenjacobs/mozart/src/PackageFinder.php:66-75 | succeeds exactly when every real slug is installed and a configuration is set; the result holds each installed package for a real slug and nothing else |
| PackageFinder.LoadDependencies | mozart/vendor/coenjacobs/mozart/src/Config/Package.php:102-121 | a loaded package is left alone; otherwise a valid Mozart section sets the finder's configuration, and the packages for `require` are appended and the flag is set |
| PackageFinder.LoadTwice | mozart/vendor/coenjacobs/mozart/src/Config/Package.php:104-106 | loading dependencies twice is loading them once |
| PackageFinder.Unseen | mozart/vendor/coenjacobs/mozart/src/PackageFinder.php:99-103 | exactly the dependencies whose names have not been seen are queued |
| PackageFinder.WalkTake | mozart/vendor/coenjacobs/mozart/src/PackageFinder.php:89-104 | a package at the front of the queue whose name is new is kept, and its unseen dependencies go to the back of the queue |
| PackageFinder.WalkStartsWithQueue | mozart/vendor/coenjacobs/mozart/src/PackageFinder.php:86-106 | the walk of a queue begins with the queue's front part, keeping only the first package under each name not yet seen, in queue order |
| PackageFinder.FindPackages | mozart/vendor/coenjacobs/mozart/src/PackageFinder.php:84-107 | the result is the breadth-first walk that keeps the first package seen under each name; it begins with the inputs deduplicated by name in input order; it holds distinct names, each package an input or a dependency of an earlier one, and it covers the inputs and is closed under dependencies |
| PackageFinder.FoundByWalk | mozart/vendor/coenjacobs/mozart/src/PackageFinder.php:84-107 | the breadth-first walk from the inputs begins with the inputs deduplicated by name and has the properties `findPackages` promises: distinct names, each package introduced by an input or an earlier package, inputs covered, closed under dependencies |
| PackageFinder.WalkFound | mozart/vendor/coenjacobs/mozart/src/PackageFinder.php:89-106 | from any state of the loop, the rest of the walk completes the packages taken so far to a result with those properties |
| PackageFinder.Finished | mozart/vendor/coenjacobs/mozart/src/PackageFinder.php:89-106 | when the queue is empty every input and every dependency of a taken package has its name taken |
| Collections.AddKey | mozart/vendor/coenjacobs/mozart/src/Config/Files.php:70-73 | inserting a key into an associative array keeps the existing keys as they were at the front, makes the key present, adds nothing else, and keeps the keys distinct |
| Collections.AddAll | mozart/vendor/coenjacobs/mozart/src/Config/Classmap.php:59-62 | inserting several keys keeps the existing keys at the front, adds exactly the new ones, and keeps the keys distinct |
| Collections.Filter | mozart/vendor/coenjacobs/mozart/src/Config/Classmap.php:25-32 | filtering keeps exactly the entries that pass and is never longer than its input |
| Collections.FilterSplits | mozart/vendor/coenjacobs/mozart/src/Config/Classmap.php:25-32 | a filter and its complement together hold every entry exactly once |
| FilesAutoloader.SearchNamespace | mozart/vendor/coenjacobs/mozart/src/Config/Files.php:34-39 | only a PSR autoloader has a search namespace; `files` and `classmap` autoloaders give a configuration error |
| FilesAutoloader.AnyCovers | mozart/vendor/coenjacobs/mozart/src/Config/Files.php:88-94 | true exactly when one of the paths covers the file |
| FilesAutoloader.IsInsidePsrPath | mozart/vendor/coenjacobs/mozart/src/Config/Files.php:84-99 | true exactly when some PSR autoloader of the package has a path that covers the file |
| FilesAutoloader.CoversWholeSegments | mozart/vendor/coenjacobs/mozart/src/Config/Files.php:89-92 | a PSR path does not cover a file that only shares leading characters with it, such as `src2/x.php` for `src` |
| FilesAutoloader.CoversBelow | mozart/vendor/coenjacobs/mozart/src/Config/Files.php:89-92 | a PSR path, with or without a trailing slash, covers every file below it |
| FilesAutoloader.SourcePath | mozart/vendor/coenjacobs/mozart/src/Config/Files.php:55-56 | the place looked in lies in the working directory and ends in the package's directory name |
| FilesAutoloader.Matching | mozart/vendor/coenjacobs/mozart/src/Config/Files.php:60-74 | a found file is kept exactly when its path relative to the package is the listed entry |
| FilesAutoloader.Collect | mozart/vendor/coenjacobs/mozart/src/Config/Files.php:49-75 | the collected files are distinct and are exactly the earlier ones plus those wanted for some listed entry |
| FilesAutoloader.GetFiles | mozart/vendor/coenjacobs/mozart/src/Config/Files.php:44-78 | the autoloader is initialised, and the result is distinct and holds exactly the files found for entries outside the package's PSR paths whose relative path is the entry |
| FilesAutoloader.CoveredNotCollected | mozart/vendor/coenjacobs/mozart/src/Config/Files.php:50-53 | an entry inside a PSR path contributes nothing: a collected file always answers another entry |
| FilesAutoloader.FirstNamespace | mozart/vendor/coenjacobs/mozart/src/Config/Files.php:159-165 | the position of the first top-level namespace block, or none when there is none |
| FilesAutoloader.FirstNamespaceFrom | mozart/vendor/coenjacobs/mozart/src/Config/Files.php:159-165 | the position of the first top-level namespace block at or after a position, or none |
| FilesAutoloader.DeclaredNamespace | mozart/vendor/coenjacobs/mozart/src/Config/Files.php:159-168 | the name of the first top-level namespace block; none for a global block or for a file without namespace blocks |
| FilesAutoloader.Detect | mozart/vendor/coenjacobs/mozart/src/Config/Files.php:138-168 | an unreadable or unparsable file declares no namespace; otherwise the first declared one |
| FilesAutoloader.GetDetectedNamespace | mozart/vendor/coenjacobs/mozart/src/Config/Files.php:130-169 | a cached namespace is returned as it is; otherwise it is detected and cached, a missing one as none, which is detected again next time |
| FilesAutoloader.CacheTransparent | mozart/vendor/coenjacobs/mozart/src/Config/Files.php:134-136 | while the cache agrees with the files, the cached answer is the detected one and the cache keeps agreeing |
| FilesAutoloader.NamespacePath | mozart/vendor/coenjacobs/mozart/src/Config/Files.php:114 | a namespace as a path: same length, no backslash left |
| FilesAutoloader.NamespacePathBack | mozart/vendor/coenjacobs/mozart/src/Config/Files.php:114 | a namespace without `/` is read back from its path |
| FilesAutoloader.GetTargetFilePath | mozart/vendor/coenjacobs/mozart/src/Config/Files.php:104-123 | before `getFiles` it is a configuration error; then a file with a namespace goes to the dependency directory under its namespace path, and a global file to the classmap directory under the package directory |
| FilesAutoloader.TargetOfNamespaced | mozart/vendor/coenjacobs/mozart/src/Config/Files.php:110-117 | the target of a namespaced file starts with the dependency directory, ends in the file name, and the part between reads back as the namespace |
| ClassmapAutoloader.ProcessConfigIntoSplits | mozart/vendor/coenjacobs/mozart/src/Config/Classmap.php:23-33 | entries ending in `.php` are appended to the files and all others to the paths, in order |
| ClassmapAutoloader.ProcessConfigPartitions | mozart/vendor/coenjacobs/mozart/src/Config/Classmap.php:23-33 | the files and the paths split the entries, each entry going to exactly one of them |
| ClassmapAutoloader.CollectFiles | mozart/vendor/coenjacobs/mozart/src/Config/Classmap.php:53-63 | the collected files are distinct and are exactly the earlier ones plus those found by name |
| ClassmapAutoloader.CollectPaths | mozart/vendor/coenjacobs/mozart/src/Config/Classmap.php:65-79 | the collected files are distinct and are exactly the earlier ones plus those listed under an existing path directory |
| ClassmapAutoloader.GetFiles | mozart/vendor/coenjacobs/mozart/src/Config/Classmap.php:48-82 | the result is distinct and holds exactly the files found by name or listed under one of the paths |
| ClassmapAutoloader.FirstSuffix | mozart/vendor/coenjacobs/mozart/src/Config/Classmap.php:89-97 | the first path whose `dir/path` occurs in the file's path name, or none when none does |
| ClassmapAutoloader.FirstSuffixFrom | mozart/vendor/coenjacobs/mozart/src/Config/Classmap.php:89-97 | the first path at or after a position whose `dir/path` occurs in the file's path name, or none |
| ClassmapAutoloader.VendorPathAsWritten | mozart/vendor/coenjacobs/mozart/src/Config/Classmap.php:104-110 | the vendor part to cut is `/vendor/dir/`, or `/vendor/dir//suffix` with a doubled slash when a path matched |
| ClassmapAutoloader.SuffixKeepsVendorPart | mozart/vendor/coenjacobs/mozart/src/Config/Classmap.php:102-113 | as written, with a matching path and no `//` in the moved path, the last replacement finds nothing and the vendor part stays in the target |
| ClassmapAutoloader.VendorPath | mozart/vendor/coenjacobs/mozart/src/Config/Classmap.php:104-110 | corrected: the vendor part to cut is `/vendor/dir/`, or `/vendor/dir/suffix` when a path matched |
| ClassmapAutoloader.TargetOfVendorFile | mozart/vendor/coenjacobs/mozart/src/Config/Classmap.php:99-113 | with the corrected vendor part, a file `vendor/dir/rest` of the working directory moves to the classmap directory as `dir/rest` when no path matched, provided the working directory and the vendor part occur in the path only where they are cut |
| ClassmapAutoloader.AgreeWithoutSuffix | mozart/vendor/coenjacobs/mozart/src/Config/Classmap.php:104-113 | when no path entry matched, the path as the code computes it equals the corrected path |
| ClassmapAutoloader.TargetOfVendorFileAsWritten | mozart/vendor/coenjacobs/mozart/src/Config/Classmap.php:99-113 | the code as written moves a file `vendor/dir/rest` with no matching path to `dir/rest` below the classmap directory, under the same provisos |
| ClassmapAutoloader.TargetOfSuffixedFile | mozart/vendor/coenjacobs/mozart/src/Config/Classmap.php:89-113 | corrected: a file `vendor/dir/suffix/rest` under a matching path moves to the classmap directory as `dir/rest`, provided the working directory and the vendor part occur in the path only where they are cut |
| PackageOrder.Order | mozart/vendor/coenjacobs/mozart/src/Replace/Replacer.php:36-50 | the packages replaced, in order, lie in the graph, and the visited names only grow, by names of the graph |
| PackageOrder.OrderCovers | mozart/vendor/coenjacobs/mozart/src/Replace/Replacer.php:38-45 | every listed package's name is visited afterwards |
| PackageOrder.OrderVisited | mozart/vendor/coenjacobs/mozart/src/Replace/Replacer.php:41-45 | the names visited afterwards are those visited before plus those replaced |
| PackageOrder.OrderAllNew | mozart/vendor/coenjacobs/mozart/src/Replace/Replacer.php:41-45 | no package whose name was already visited is replaced |
| PackageOrder.OrderDistinct | mozart/vendor/coenjacobs/mozart/src/Replace/Replacer.php:41-45 | no name is replaced twice |
| PackageOrder.OrderClosed | mozart/vendor/coenjacobs/mozart/src/Replace/Replacer.php:47 | every dependency of a replaced package is visited afterwards |
| PackageOrder.OrderPost | mozart/vendor/coenjacobs/mozart/src/Replace/Replacer.php:47-48 | each replaced package's dependencies were visited before it or replaced earlier |
| PackageOrder.DependenciesFirst | mozart/vendor/coenjacobs/mozart/src/Replace/Replacer.php:36-50 | starting from nothing visited, every dependency of a replaced package is replaced before it |
| DependencyWalk.Below | mozart/vendor/coenjacobs/mozart/src/Replace/ParentReplacer.php:130-150 | the pre-order walk stays in the graph, and the visited names only grow, by names of the graph |
| DependencyWalk.BelowUnfold | mozart/vendor/coenjacobs/mozart/src/Replace/ParentReplacer.php:139-147 | a new dependency comes first, then everything below it, then the rest of the list |
| DependencyWalk.BelowVisited | mozart/vendor/coenjacobs/mozart/src/Replace/ParentReplacer.php:141-145 | the names visited afterwards are those visited before plus those listed |
| DependencyWalk.BelowAllNew | mozart/vendor/coenjacobs/mozart/src/Replace/ParentReplacer.php:141-145 | no package whose name was already visited is listed |
| DependencyWalk.BelowDistinct | mozart/vendor/coenjacobs/mozart/src/Replace/ParentReplacer.php:141-145 | no name is listed twice |
| DependencyWalk.BelowCovers | mozart/vendor/coenjacobs/mozart/src/Replace/ParentReplacer.php:139-147 | every dependency walked from is visited afterwards |
| DependencyWalk.BelowClosed | mozart/vendor/coenjacobs/mozart/src/Replace/ParentReplacer.php:146 | every dependency of a listed package is visited afterwards |
| DependencyWalk.BelowIntroduced | mozart/vendor/coenjacobs/mozart/src/Replace/ParentReplacer.php:139-147 | every listed package is one walked from or a dependency of an earlier listed one |
| Replacer.ReadFile | mozart/vendor/coenjacobs/mozart/src/Replace/Replacer.php:67-74 | a file is read exactly when it exists under the working directory, and its contents are returned |
| Replacer.ReplacerFor | mozart/vendor/coenjacobs/mozart/src/Replace/Replacer.php:93-104 | a PSR autoloader gets namespace mode, searching through the autoloader; every other autoloader gets classmap mode |
| Replacer.ReplacerForDetected | mozart/vendor/coenjacobs/mozart/src/Replace/Replacer.php:172-181 | a file with a detected namespace gets namespace mode searching for that namespace; a global file gets classmap mode |
| Replacer.Rewrite | mozart/vendor/coenjacobs/mozart/src/Replace/Replacer.php:80-85 | namespace mode never changes the collected renames; every failure is a file operation error |
| Replacer.RewriteNamespace | mozart/vendor/coenjacobs/mozart/src/Replace/Replacer.php:95-98 | namespace mode is the namespace replacer with the dependency prefix |
| Replacer.RewriteClassmap | mozart/vendor/coenjacobs/mozart/src/Replace/Replacer.php:101-103 | classmap mode is the classmap replacer with the class prefix, merging into the collected renames |
| Replacer.ReplaceInFile | mozart/vendor/coenjacobs/mozart/src/Replace/Replacer.php:65-88 | a missing or empty file is skipped; the call fails exactly when the rewrite fails; on success only that file changes, to the rewritten contents, and the renames are the rewrite's |
| Replacer.ReplaceFound | mozart/vendor/coenjacobs/mozart/src/Replace/Replacer.php:202-210 | only the `.php` files listed change; namespace mode keeps the renames |
| Replacer.NonPhpUntouched | mozart/vendor/coenjacobs/mozart/src/Replace/Replacer.php:207 | a file that only non-`.php` listings point to is never changed |
| Replacer.ReplaceInDirectory | mozart/vendor/coenjacobs/mozart/src/Replace/Replacer.php:196-211 | a missing directory is skipped; otherwise its listing is processed; the set of files stays the same |
| Replacer.ReplaceDetected | mozart/vendor/coenjacobs/mozart/src/Replace/Replacer.php:152-190 | a configuration error comes exactly from a target path asked for too early; the set of files stays the same |
| Replacer.DetectedChoosesReplacer | mozart/vendor/coenjacobs/mozart/src/Replace/Replacer.php:172-189 | a readable, non-empty `.php` target is rewritten in the mode its detected namespace chooses, and only it changes |
| Replacer.ReplaceFilesFound | mozart/vendor/coenjacobs/mozart/src/Replace/Replacer.php:152-190 | over the found files, a configuration error arises only before initialisation and with files to do |
| Replacer.ReplaceFilesAutoloader | mozart/vendor/coenjacobs/mozart/src/Replace/Replacer.php:148-191 | since `getFiles` runs first, every failure is a file operation error; the set of files stays the same |
| Replacer.ReplacePackageByAutoloader | mozart/vendor/coenjacobs/mozart/src/Replace/Replacer.php:110-141 | an excluded package is skipped; a PSR autoloader processes its moved namespace directory, a classmap autoloader the package's classmap directory |
| Replacer.ReplaceAutoloaders | mozart/vendor/coenjacobs/mozart/src/Replace/Replacer.php:57-59 | an excluded package is left alone; the set of files stays the same |
| Replacer.ReplacePackage | mozart/vendor/coenjacobs/mozart/src/Replace/Replacer.php:55-60 | an excluded package is left alone; the set of files stays the same |
| Replacer.NamespaceOnlyKeepsRenames | mozart/vendor/coenjacobs/mozart/src/Replace/Replacer.php:83-85 | a package with only PSR autoloaders adds no renames |
| Replacer.ReplacePackages | mozart/vendor/coenjacobs/mozart/src/Replace/Replacer.php:36-50 | the visited names only grow, by names of the graph |
| Replacer.ReplacePackagesFollowsOrder | mozart/vendor/coenjacobs/mozart/src/Replace/Replacer.php:36-50 | the recursive driver replaces exactly the packages of the dependencies-first order, in that order, stopping at the first failure |
| ParentReplacer.SweepFile | mozart/vendor/coenjacobs/mozart/src/Replace/ParentReplacer.php:60-76 | a non-`.php` or unreadable file is skipped; for a readable `.php` file the step fails exactly when the name replacer fails on its contents, and the file is written exactly when the replacer's output differs from them, then holding that output |
| ParentReplacer.SweepFiles | mozart/vendor/coenjacobs/mozart/src/Replace/ParentReplacer.php:60-77 | only listed `.php` files change, and the renames stay as they are |
| ParentReplacer.SweepFilesWrites | mozart/vendor/coenjacobs/mozart/src/Replace/ParentReplacer.php:60-76 | after a successful sweep of distinct files, every listed readable `.php` file holds the name replacer's output for its contents |
| ParentReplacer.SweepFilesFails | mozart/vendor/coenjacobs/mozart/src/Replace/Classmap/NameReplacer.php:46-50 | a listed readable `.php` file the name replacer fails on makes the whole sweep fail |
| ParentReplacer.SweepWithoutRenames | mozart/vendor/coenjacobs/mozart/src/Replace/ParentReplacer.php:71-75 | with no renames, a sweep changes nothing |
| ParentReplacer.ReplaceParentClassesInDirectory | mozart/vendor/coenjacobs/mozart/src/Replace/ParentReplacer.php:45-78 | nothing happens without renames or when the slash-trimmed directory does not exist; otherwise its listing is swept |
| ParentReplacer.ParentDirectory | mozart/vendor/coenjacobs/mozart/src/Replace/ParentReplacer.php:93-109 | a parent's PSR autoloader points to its moved namespace directory, with a trailing slash; any other to the parent's classmap directory |
| ParentReplacer.ReplaceParentPair | mozart/vendor/coenjacobs/mozart/src/Replace/ParentReplacer.php:93-117 | a PSR autoloader of the package is rerun in namespace mode there; any other sweeps that directory relative to the working directory |
| ParentReplacer.ReplaceParentInner | mozart/vendor/coenjacobs/mozart/src/Replace/ParentReplacer.php:92-118 | processing one parent autoloader against each of the package's autoloaders keeps the set of files and the renames |
| ParentReplacer.ReplaceParentOuter | mozart/vendor/coenjacobs/mozart/src/Replace/ParentReplacer.php:91-119 | processing every parent autoloader keeps the set of files and the renames |
| ParentReplacer.ReplaceParentPackage | mozart/vendor/coenjacobs/mozart/src/Replace/ParentReplacer.php:85-120 | an excluded package is skipped; processing it keeps the set of files and the renames, whichever of its autoloaders run |
| ParentReplacer.NoRenamesNoChange | mozart/vendor/coenjacobs/mozart/src/Replace/ParentReplacer.php:47-49 | with no renames and no PSR autoloader in the package, the parent step changes nothing |
| ParentReplacer.InnerNoRenames | mozart/vendor/coenjacobs/mozart/src/Replace/ParentReplacer.php:47-49 | the same for one parent autoloader |
| ParentReplacer.AllDependencies | mozart/vendor/coenjacobs/mozart/src/Replace/ParentReplacer.php:130-150 | a package without dependencies adds nothing; the visited names only grow, by names of the graph |
| ParentReplacer.DependenciesFrom | mozart/vendor/coenjacobs/mozart/src/Replace/ParentReplacer.php:139-147 | the loop over a dependency list only appends packages of the graph, and the visited names only grow, by names of the graph |
| ParentReplacer.AllDependenciesIsBelow | mozart/vendor/coenjacobs/mozart/src/Replace/ParentReplacer.php:130-150 | the accumulating walk appends exactly the pure pre-order walk below the package |
| ParentReplacer.DependenciesFromIsBelow | mozart/vendor/coenjacobs/mozart/src/Replace/ParentReplacer.php:139-147 | the loop over a dependency list appends exactly the pre-order walk from that list |
| ParentReplacer.FromTopIsBelow | mozart/vendor/coenjacobs/mozart/src/Replace/ParentReplacer.php:162 | the top-level call gives the pre-order walk from the package's dependencies |
| ParentReplacer.AllDependenciesOfPackage | mozart/vendor/coenjacobs/mozart/src/Replace/ParentReplacer.php:130-150 | every package below, each name once, closed under dependencies, each one a dependency of the package or of an earlier one |
| ParentReplacer.ReplaceParentForAll | mozart/vendor/coenjacobs/mozart/src/Replace/ParentReplacer.php:164-166 | processing every dependency against the parent keeps the set of files and the renames |
| ParentReplacer.ReplaceParentInTree | mozart/vendor/coenjacobs/mozart/src/Replace/ParentReplacer.php:155-170 | the whole tree pass keeps the set of files and the renames |
| ParentReplacer.ReplaceParentInTreeOne | mozart/vendor/coenjacobs/mozart/src/Replace/ParentReplacer.php:157-168 | an excluded package is skipped, together with its subtree |
| ParentReplacer.TreeAppend | mozart/vendor/coenjacobs/mozart/src/Replace/ParentReplacer.php:157 | the tree pass over two lists is the pass over the first, then over the second |
| ParentReplacer.TreeOneUsesWalk | mozart/vendor/coenjacobs/mozart/src/Replace/ParentReplacer.php:162-168 | a package's step processes its pre-order dependency walk against it, then recurses into its direct dependencies |

## Left out

- I/O: reading and writing files, `is_dir`, `realpath` and the Finder searches are left out. The disk is a map from paths to contents (`Replacer.State.files`). `Replacer.Env.listing` maps directories to the files below them, and `Replacer.Env.find` stands in for a search by name.
- Replacer.ReplaceInFile: the write back never fails. The write in `FilesHandler` can throw, which the driver does not catch.
- Replacer.ReplaceDetected: the same; its write back never fails.
- ParentReplacer.SweepFile: the same; its write back never fails.
- ParentReplacer.SweepFilesWrites and ParentReplacer.SweepFilesFails: require the listed files to be distinct on disk (`ParentReplacer.DistinctFiles`). A Finder listing names each file once. With a file listed twice, a later visit would sweep the already-swept text.
- ParentReplacer.ReplaceParentClassesInDirectory: `is_dir` on the slash-trimmed directory is relative to the process's current directory. The model looks up the trimmed path in `Env.listing`, which is keyed the same way. It does not model the current directory.
- PackageFinder.GetPackageBySlug: the package factory, the `override_autoload` lookup and the nested `loadDependencies` call are left out. `PackageFinder.Finder.installed` gives the position of the already-built package. Graph loading with nested configuration changes is not modelled.
- PackageFinder.LoadDependencies: weaker than the source. Its last ensures clause says that an invalid Mozart section leaves the finder alone. In the source the nested `$package->loadDependencies($this)` (PackageFinder.php:54) can call `setConfig` (Package.php:108-115), so the clause holds only because the nested load is left out.
- The directory separator is `/` throughout (`Strings.Slash`). Windows separators are not modelled.
- The PHP parser and printer are an abstract `Parsing.Parser` of two functions. Parse errors are `None`. Comments, formatting and every node kind the rewriting does not look at are left out of `Syntax.Node`.
- NameReplacer.ReplaceIdempotent: proved only for a parser that reads back what it prints (`NameReplacer.RoundTrips`). PHP-Parser's printer is not modelled.
- `NamespaceAutoloader::getSearchNamespace` is not part of this model. Its value is the `searchNamespace` field of `Packages.Autoloader.NamespaceLoader`.
- `Mozart` configuration getters (`getWorkingDir`, `getDepDirectory`, `isExcludedPackage`, ...) are not part of this model. They are the fields of `Packages.Settings`.
- ParentReplacer.ReplaceParentInTree: requires `Packages.Topological`, that every dependency sits later in the arena than the package that requires it. The source has no visited set here and loops forever on a dependency cycle. Loading would never finish on a cycle, so a loaded tree can always be laid out this way.
- PackageOrder.OrderPost: requires `Packages.UniqueNames` and `Packages.Topological`. `Topological` holds for every loaded tree, for the reason given for `ParentReplacer.ReplaceParentInTree`. Visited sets are keyed by name, as in the source, and the proof assumes one package per name. The factory caches by path, so this is an assumption about the installed tree.
- PackageOrder.DependenciesFirst: requires `Packages.UniqueNames` and `Packages.Topological`, for the same reasons.
- `Packages.Package.require` is a sequence of pairs. A JSON object holds each slug once, which the sequence does not enforce.
- `array_merge` of the renames is a map union with later keys winning. Renumbering of numeric keys is not modelled, since class names are never numeric.
- The unreachable `ConfigurationException` in `Package::loadDependencies` (config not set after a valid section) cannot happen and is left out.
- The `$modified` flags and `null` returns of the visitors only tell PHP-Parser whether a node was replaced. The model returns the node in both cases.
- `Files::hasNamespace` (Files.php:174-177) is `getDetectedNamespace` compared with `null`, and has no member of its own.
- `getReplacedClasses` and `setReplacedClasses` are the `replaced` map carried in `Replacer.State`.
- Replacer.ReplaceFilesAutoloader: the detected-namespace cache a `files` autoloader carries across calls is `Replacer.Env.detected`. The model does not carry the cache from one call into the next.

## Findings

| source | as written | input that shows it | evidently intended | confidence | as-written member | corrected member |
|---|---|---|---|---|---|---|
| mozart/vendor/coenjacobs/mozart/src/Config/Classmap.php:104-113 | when a classmap path matched, the vendor part to cut is `/vendor/<dir>/` + `/` + suffix, which has a doubled `/`. The moved path never contains it, so nothing is cut | working directory `/app/`, directory name `acme/lib`, classmap paths `["src/"]`, file `/app/vendor/acme/lib/src/Foo.php`: the target keeps `vendor/acme/lib/src/` below `<classmap dir>acme/lib/` | the target is `<classmap dir>acme/lib/Foo.php`, cutting `/vendor/acme/lib/src/` | medium, not executed | ClassmapAutoloader.SuffixKeepsVendorPart | ClassmapAutoloader.TargetOfSuffixedFile |
| mozart/vendor/coenjacobs/mozart/src/Replace/Namespace/PrefixVisitor.php:206-213 | a bare name is skipped only in a block being moved. In a block already moved to `prefix\T`, the same bare name is prefixed, so a second run changes the first run's output | prefix `P`, target `Foo`, file `namespace Foo; Foo`: the first run gives `namespace P\Foo; Foo`, the second `namespace P\Foo; P\Foo` | a second run leaves the first run's output unchanged: the bare `Foo` in `namespace P\Foo` already resolves to `P\Foo\Foo`, as lines 197-199 say, while the second run's relative `P\Foo` resolves to `P\Foo\P\Foo`, a class that does not exist | high, not executed | PrefixVisitorExamples.SecondPassChangesBareTargetName | PrefixVisitorStable.ProcessNameTwice |

In the classmap row, `ClassmapAutoloader.GetTargetFilePathAsWritten` is the path as the code computes it, and `ClassmapAutoloader.GetTargetFilePath` is the corrected path.

In the idempotence row, `PrefixVisitorStable.AsWrittenProcessNameNotTwice` shows the same failure at the level of the name rule. `PrefixVisitorStable.ProcessName` is the corrected rule, and its last ensures clause shows that it agrees with the rule as written outside blocks that were already moved. The traversal (`PrefixVisitor.Traverse`) keeps the rule as written, since that is what the code does.
