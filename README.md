# A verified model of the Jac toolchain and Jaseci runtime core

This project models, in Dafny, the core of the Jaseci repository: parts of the
Jac compiler, the Jac runtime library, the legacy Jac importer and the Jaseci
actions optimizer. Each module below follows one source file.

- **SymTable** and **SymTabBuild**: the symbol-table build pass. It keeps an
  explicit stack of open scopes, pushes a scope for every scope-introducing
  node, attaches each node to the innermost scope, and declares globals,
  imports, architypes, abilities, enums and test helpers. Scopes live in an
  arena (a `seq<Table>`), so parent and child links are indices.
- **DefUse**: the definition/use pass. It declares assignment-like targets,
  parameters and has-vars, and records the lookups it asks of the scopes as
  events. It also marks the names a `del` removes and tags the walker-only
  statements of walkers.
- **PyJacLink**: the Jac-to-Python link pass. Every Jac node receives its
  generated Python nodes, and every Python node with a `jac_link` list learns
  which Jac nodes were linked to it.
- **JacFormat**: the formatter's text engine. It covers indentation, `emit`
  and `emit_ln`, node-list joins, and the token neighbours of a terminal. It
  also covers boolean expressions broken over lines, multi-line strings and
  docstrings, unary and binary expressions, braces, and the module layout
  with its blank-line policy.
- **Jid**: the runtime's identifiers, `<kind>:<name>:<uuid>`. It covers the
  regular expression that parses them, the initializer, and `__str__` as
  written (see "## Findings").
- **Architype**: access levels and their casts, access maps and
  permissions, anchor identity and hashing, stubs, and the state an anchor
  serialises.
- **ActionsOptimizer**: the evaluation policy of the actions optimizer, and
  the start and switching steps the auto policy shares with it. It covers:
  - which local/remote configurations fit in the node's memory;
  - the greedy order in which they are tried;
  - the change set that moves the actions to a configuration, with changes
    to remote ordered last;
  - applying that change set;
  - the policy state and the dispatch of `run`.
- **Importer**: `import_jac_module`'s derivation of the file, module name and
  package path from a dotted target, its cache check, and its `sys.modules`
  registration, around the given outcome of executing the generated code.
- **JacUtils**: `get_all_jac_keywords` and `pascal_to_snake`.
- **ActionsApi**: `actions_list`'s prefix filter.
- **Common** and **Ast** hold the shared vocabulary: `Option`, `Result`,
  Python's `join` and `split`, and the node kinds and trees the passes walk.

Mutable state follows the source's own form. The passes, the formatter, the
optimizer and the importer are classes whose methods update their fields
(`tables`, `stack`, `gen`, `actionsChange`, `modules`, and so on). Each method
is specified against a function of its old state, and the lemmas beside those
functions carry the properties.

Some code and its documentation disagree. In each case the model follows
the code:
- `_get_action_change` documents that changes to remote come first. Its
  comparator sorts them last, and `RemoteLast` models that order.
- `self.ice(...)` in the symbol-table pass only builds an exception object
  and does not raise it, so the model records the error and carries on.

## Model

| member | source | states |
|---|---|---|
| Common.JoinSplit | jaclang/jac/importer.py:82-84 | joining the pieces of `s.split(c)` with `c` gives back `s` |
| Common.SplitJoin | jaclang/jac/importer.py:31 | splitting a join of separator-free parts gives back the parts |
| Ast.Descendants | jac/jaclang/compiler/passes/main/sym_tab_build_pass.py:52 | every child of a node is among the nodes `get_all_sub_nodes` visits |
| SymTable.NewRoot | jac/jaclang/compiler/passes/main/sym_tab_build_pass.py:23-24 | a new root scope is appended with no parent, symbols or children; the arena stays well linked |
| SymTable.PushKid | jac/jaclang/compiler/passes/main/sym_tab_build_pass.py:27-29 | `push_kid_scope` appends a fresh child of `p`, records it among `p`'s children, changes no other scope and keeps the arena well linked |
| SymTable.PushKidLinked | jac/jaclang/compiler/passes/main/sym_tab_build_pass.py:27-29 | pushing a child keeps parent and child links consistent |
| SymTable.DefInsert | jac/jaclang/compiler/passes/main/sym_tab_build_pass.py:55 | `def_insert` appends the declaration under its name in one scope; other names and scopes are unchanged |
| SymTable.Inherit | jac/jaclang/compiler/passes/main/sym_tab_build_pass.py:103 | `inherit_sym_tab` adds the module's scope to one scope's inherited list and changes nothing else |
| SymTable.SameLinks | jac/jaclang/compiler/passes/main/sym_tab_build_pass.py:55 | changing what scopes hold, but not their links, keeps the arena well linked |
| SymTable.Ancestry | jac/jaclang/compiler/passes/main/sym_tab_build_pass.py:20-29 | the chain of parents from a scope ends at a root, each step a parent link |
| SymTabBuild.InsertAt | jac/jaclang/compiler/passes/main/sym_tab_build_pass.py:94 | inserting succeeds exactly when the node is attached to a scope, and then appends the declaration there |
| SymTabBuild.InsertAll | jac/jaclang/compiler/passes/main/sym_tab_build_pass.py:93-94 | inserting a list of references keeps every scope's shape and the arena well linked |
| SymTabBuild.InsertAllDefined | jac/jaclang/compiler/passes/main/sym_tab_build_pass.py:93-94 | the insertions succeed iff every reference is attached to a scope |
| SymTabBuild.InsertAllGrows | jac/jaclang/compiler/passes/main/sym_tab_build_pass.py:93-94 | inserting never removes a declaration: each list only grows at its end |
| SymTabBuild.InsertAllDeclares | jac/jaclang/compiler/passes/main/sym_tab_build_pass.py:93-94 | afterwards every reference is declared in its own scope under its name with the given access and label |
| SymTabBuild.InsertStubs | jac/jaclang/compiler/passes/main/sym_tab_build_pass.py:70-73 | stub insertion touches only the target scope and keeps the arena well linked |
| SymTabBuild.InsertStubsExact | jac/jaclang/compiler/passes/main/sym_tab_build_pass.py:70-73 | each name gets one stub per occurrence among the names, and no other name gets any |
| SymTabBuild.ValidKept | jac/jaclang/compiler/passes/main/sym_tab_build_pass.py:38-39 | changing what scopes hold keeps the stack and attachments valid |
| SymTabBuild.ValidGrow | jac/jaclang/compiler/passes/main/sym_tab_build_pass.py:27-29 | opening a child of the innermost scope and attaching a node to it keeps the state valid |
| SymTabBuild.ItemRefs | jac/jaclang/compiler/passes/main/sym_tab_build_pass.py:93 | the references of an import's items, one per item, in order |
| SymTabBuild.SelfSuper | jac/jaclang/compiler/passes/main/sym_tab_build_pass.py:142-148 | declaring `self` and `super` in a method's scope keeps the arena's shape |
| SymTabBuild.DeclTablesSpec | jac/jaclang/compiler/passes/main/sym_tab_build_pass.py:119-189 | a declaring node is declared in the enclosing scope (nothing else changes there) and gets a fresh child scope named after it that holds exactly `self` and `super` for a method and nothing otherwise |
| SymTabBuild.SymbolRefs | jac/jaclang/compiler/passes/main/sym_tab_build_pass.py:52-55 | the symbol-node targets of a global block, no more than the targets |
| SymTabBuild.NonSymbolCount | jac/jaclang/compiler/passes/main/sym_tab_build_pass.py:56-57 | the non-symbol targets and the symbol targets together are all the targets |
| SymTabBuild.DeclareEach | jac/jaclang/compiler/passes/main/sym_tab_build_pass.py:93-94 | the declaration loop computes `InsertAll` |
| SymTabBuild.DeclareGlobals | jac/jaclang/compiler/passes/main/sym_tab_build_pass.py:51-57 | `exit_global_vars`'s loop declares each symbol target with the block as access spec and "global var", and records one internal error per other target |
| SymTabBuild.SymTabBuilder.constructor | jac/jaclang/compiler/passes/main/sym_tab_build_pass.py:17-18 | a pass starts with no scope open over the existing scopes and attachments |
| SymTabBuild.SymTabBuilder.CurScope | jac/jaclang/compiler/passes/main/sym_tab_build_pass.py:34-36 | the innermost scope exists exactly when the stack is non-empty, and is its top |
| SymTabBuild.SymTabBuilder.PushScope | jac/jaclang/compiler/passes/main/sym_tab_build_pass.py:20-29 | an empty stack gets a fresh root, or (outside the inspection variant) the parent's scope and a child of it; otherwise a child of the innermost scope is pushed |
| SymTabBuild.SymTabBuilder.PopScope | jac/jaclang/compiler/passes/main/sym_tab_build_pass.py:31-32 | the top scope is removed and returned; an empty stack fails and changes nothing |
| SymTabBuild.SymTabBuilder.SyncNodeToScope | jac/jaclang/compiler/passes/main/sym_tab_build_pass.py:38-39 | the node is attached to the innermost scope, and nothing else changes; fails on an empty stack |
| SymTabBuild.SymTabBuilder.DefInsertAt | jac/jaclang/compiler/passes/main/sym_tab_build_pass.py:55 | declares the reference in its own scope; fails, changing nothing, when it has none |
| SymTabBuild.SymTabBuilder.OpenScope | jac/jaclang/compiler/passes/main/sym_tab_build_pass.py:41-43 | a new scope named after the node is pushed and the node attached to it |
| SymTabBuild.SymTabBuilder.DeclareStubs | jac/jaclang/compiler/passes/main/sym_tab_build_pass.py:70-73 | the scopes become `InsertStubs` of the old ones |
| SymTabBuild.SymTabBuilder.EnterTest | jac/jaclang/compiler/passes/main/sym_tab_build_pass.py:65-73 | a test opens its scope and declares a stub for each unittest assertion name there |
| SymTabBuild.SymTabBuilder.EnterDecl | jac/jaclang/compiler/passes/main/sym_tab_build_pass.py:119-189 | a declaring node is attached to and declared in the enclosing scope, then opens its own scope (`DeclTables`); fails on an empty stack |
| SymTabBuild.SymTabBuilder.ExitGlobalVars | jac/jaclang/compiler/passes/main/sym_tab_build_pass.py:51-57 | declares every symbol target under the block and records an internal error for each other target |
| SymTabBuild.SymTabBuilder.ExitImport | jac/jaclang/compiler/passes/main/sym_tab_build_pass.py:91-103 | a plain import declares its items; an absorbing Jac import inherits the first item's module scope or records the not-found error |
| SymTabBuild.SymTabBuilder.ExitModulePath | jac/jaclang/compiler/passes/main/sym_tab_build_pass.py:108-114 | declares the alias, else a leading name segment, else nothing |
| SymTabBuild.SymTabBuilder.Enter | jac/jaclang/compiler/passes/main/sym_tab_build_pass.py:41-504 | a scope-opening node pushes one new scope onto a non-empty stack; on an empty stack `push_scope` first pushes the parent's scope (`Base`) and then the new one; other nodes leave the stack alone and are attached to the innermost scope, failing on an empty stack |
| SymTabBuild.SymTabBuilder.Exit | jac/jaclang/compiler/passes/main/sym_tab_build_pass.py:45-444 | scope-opening nodes pop exactly their scope; other exits leave the stack alone |
| SymTabBuild.SymTabBuilder.Walk | jac/jaclang/compiler/passes/main/sym_tab_build_pass.py:14-519 | a run inside an open scope leaves the stack as it was; a module run from an empty stack leaves only its base scope |
| DefUse.GrownTrans | jac/jaclang/compiler/passes/main/def_use_pass.py:63-70 | declaration lists that only grow compose |
| DefUse.DefInsertGrown | jac/jaclang/compiler/passes/main/def_use_pass.py:49 | a `def_insert` only grows one declaration list |
| DefUse.DefineEffect | jac/jaclang/compiler/passes/main/def_use_pass.py:64-70 | a chain target is chain-defined, a symbol target declared, any other target records the error; `None` when the target has no scope |
| DefUse.DefineAll | jac/jaclang/compiler/passes/main/def_use_pass.py:63-70 | defining targets only grows declaration lists |
| DefUse.InvalidCount | jac/jaclang/compiler/passes/main/def_use_pass.py:69-70 | the number of targets that are neither chains nor symbols, at most all of them |
| DefUse.DefineAllOutcome | jac/jaclang/compiler/passes/main/def_use_pass.py:63-70 | defining succeeds iff every chain and symbol target has a scope, and then records one error per invalid target |
| DefUse.WalkerOnlyIdsSpec | jac/jaclang/compiler/passes/main/def_use_pass.py:24-31 | an id is collected iff some visit, ignore, disengage or edge-op node below has it |
| DefUse.WalkerTagsOnly | jac/jaclang/compiler/passes/main/def_use_pass.py:33-37 | a walker only ever tags walker-only statements |
| DefUse.DefBodyTagsFrom | jac/jaclang/compiler/passes/main/def_use_pass.py:35-37 | what the definition bodies contribute are walker-only statements |
| DefUse.DelItems | jac/jaclang/compiler/passes/main/def_use_pass.py:136-140 | a tuple's items when it has them, the operand itself otherwise |
| DefUse.DeleteMarks | jac/jaclang/compiler/passes/main/def_use_pass.py:141-147 | marks the last chain segment or the symbol's name for each operand, and one error per other operand |
| DefUse.DefUser.constructor | jac/jaclang/compiler/passes/main/def_use_pass.py:16-19 | starts from the scopes and attachments the build pass left, with no events |
| DefUse.DefUser.Record | jac/jaclang/compiler/passes/main/def_use_pass.py:42-46 | a lookup is recorded against the node's scope; fails with none |
| DefUse.DefUser.Define | jac/jaclang/compiler/passes/main/def_use_pass.py:49 | declares the reference in its scope |
| DefUse.DefUser.DefineTarget | jac/jaclang/compiler/passes/main/def_use_pass.py:64-70 | the state becomes `DefineEffect` of the old one |
| DefUse.DefUser.DefineTargets | jac/jaclang/compiler/passes/main/def_use_pass.py:63-70 | the state becomes `DefineAll` of the old one |
| DefUse.DefUser.TagWalkerOnly | jac/jaclang/compiler/passes/main/def_use_pass.py:24-31 | exactly the walker-only nodes below get the walker flag |
| DefUse.DefUser.EnterArchitype | jac/jaclang/compiler/passes/main/def_use_pass.py:21-37 | records the base-class request; a walker tags its walker-only statements and those of its abilities' definition bodies |
| DefUse.DefUser.EnterHasVar | jac/jaclang/compiler/passes/main/def_use_pass.py:51-61 | a has-var under an `ArchHas` is declared with it as access spec; elsewhere an internal error |
| DefUse.DefUser.EnterDelete | jac/jaclang/compiler/passes/main/def_use_pass.py:135-147 | the operands' names get the delete context and no declaration is removed |
| DefUse.DefUser.Enter | jac/jaclang/compiler/passes/main/def_use_pass.py:21-156 | per kind: architypes and enums ask for their base classes; references, special variables and literals record a use lookup, reference chains and attribute chains a chain lookup, names one unless under an attribute chain; parameters are declared; has-vars follow `EnterHasVar`; assignment, comprehension, for-in and with-alias targets follow the three-way rule, each construct recording its own error text (an absent alias changes nothing); deletes follow `EnterDelete`; other nodes change nothing; each fails only when the node has no scope; declarations are only added |
| DefUse.DefUser.Walk | jac/jaclang/compiler/passes/main/def_use_pass.py:16-156 | a run over a tree only adds declarations, events, errors and flags |
| PyJacLink.LinkEach | jac/jaclang/compiler/passes/main/pyjac_ast_link_pass.py:22-24 | appending to each Python node's list touches only nodes that have one |
| PyJacLink.LinkEachAppends | jac/jaclang/compiler/passes/main/pyjac_ast_link_pass.py:22-24 | each list gets the Jac node once per occurrence of its Python node, and nothing else |
| PyJacLink.LinkSpec | jac/jaclang/compiler/passes/main/pyjac_ast_link_pass.py:17-24 | the Jac node leads to exactly the given Python nodes, other Jac nodes keep theirs, and each listed Python node ends with the Jac node |
| PyJacLink.LinkExtends | jac/jaclang/compiler/passes/main/pyjac_ast_link_pass.py:17-24 | linking only ever extends `jac_link` lists |
| PyJacLink.ArchLinksSkips | jac/jaclang/compiler/passes/main/pyjac_ast_link_pass.py:35-44 | references whose name has no symbol are left unlinked |
| PyJacLink.MatchesIff | jac/jaclang/compiler/passes/main/pyjac_ast_link_pass.py:84-85 | a pair is matched iff the declaration parameter has the same name |
| PyJacLink.ParamPairsIff | jac/jaclang/compiler/passes/main/pyjac_ast_link_pass.py:79-92 | a definition parameter is paired with every same-named declaration parameter and only those |
| PyJacLink.PairLinksAppend | jac/jaclang/compiler/passes/main/pyjac_ast_link_pass.py:79-92 | linking two runs of pairs is linking them one after the other |
| PyJacLink.ReturnTypeNeedsBoth | jac/jaclang/compiler/passes/main/pyjac_ast_link_pass.py:93-103 | return types are linked only when both signatures have one |
| PyJacLink.NoDeclNoParams | jac/jaclang/compiler/passes/main/pyjac_ast_link_pass.py:77 | a definition whose declaration is no ability with a signature links only its references |
| PyJacLink.ArchUses | jac/jaclang/compiler/passes/main/pyjac_ast_link_pass.py:105-110 | the recorded uses are names of the target's references |
| PyJacLink.ArchUsesIff | jac/jaclang/compiler/passes/main/pyjac_ast_link_pass.py:108-110 | a name is recorded iff it belongs to a reference naming a symbol |
| PyJacLink.TargetLinksSpec | jac/jaclang/compiler/passes/main/pyjac_ast_link_pass.py:124-130 | with distinct targets each target is linked to exactly the Python node at its position |
| PyJacLink.Linker.constructor | jac/jaclang/compiler/passes/main/pyjac_ast_link_pass.py:14-15 | starts from the given links with no uses |
| PyJacLink.Linker.LinkNodes | jac/jaclang/compiler/passes/main/pyjac_ast_link_pass.py:17-24 | the links become `Link` of the old ones |
| PyJacLink.Linker.ExitOptional | jac/jaclang/compiler/passes/main/pyjac_ast_link_pass.py:26-28 | the alias, exception name or key, when present, gets the node's Python nodes (also 115-117, 132-134) |
| PyJacLink.Linker.ExitParamVar | jac/jaclang/compiler/passes/main/pyjac_ast_link_pass.py:112-113 | the parameter's name gets the parameter's Python nodes |
| PyJacLink.Linker.ExitNamed | jac/jaclang/compiler/passes/main/pyjac_ast_link_pass.py:30-33 | the name and, when present, the definition body get the node's Python nodes (also 61-64, 119-122) |
| PyJacLink.Linker.ExitEnum | jac/jaclang/compiler/passes/main/pyjac_ast_link_pass.py:46-48 | a definition body gets the enum's Python nodes |
| PyJacLink.Linker.ExitAtomTrailer | jac/jaclang/compiler/passes/main/pyjac_ast_link_pass.py:136-140 | an attribute access with a symbol on the right links that symbol's name spec |
| PyJacLink.Linker.LinkArchs | jac/jaclang/compiler/passes/main/pyjac_ast_link_pass.py:36-44 | the links become `ArchLinks` of the old ones |
| PyJacLink.Linker.ExitArchDef | jac/jaclang/compiler/passes/main/pyjac_ast_link_pass.py:35-59 | `exit_arch_def` and `exit_enum_def` link the target's references |
| PyJacLink.Linker.LinkParams | jac/jaclang/compiler/passes/main/pyjac_ast_link_pass.py:79-92 | the nested loop links exactly the `ParamPairs` in order |
| PyJacLink.Linker.ExitAbilityDef | jac/jaclang/compiler/passes/main/pyjac_ast_link_pass.py:66-110 | the links become `AbilityDefLinks` and the uses grow by `ArchUses` when the declaration is an ability over a reference chain |
| PyJacLink.Linker.RecordUses | jac/jaclang/compiler/passes/main/pyjac_ast_link_pass.py:108-110 | each reference naming a symbol records a use |
| PyJacLink.Linker.ExitGlobalStmt | jac/jaclang/compiler/passes/main/pyjac_ast_link_pass.py:124-130 | links targets to their Python nodes and fails when there are fewer Python nodes than targets |
| JacFormat.IndentStr | jac/jaclang/compiler/passes/tool/jac_formatter_pass.py:43-45 | four spaces per level, none below level one |
| JacFormat.IndentSpaces | jac/jaclang/compiler/passes/tool/jac_formatter_pass.py:43-45 | the indentation is spaces only |
| JacFormat.ReindentLength | jac/jaclang/compiler/passes/tool/jac_formatter_pass.py:49 | re-indenting inserts the indentation once per newline not followed by a newline |
| JacFormat.ReindentIdentity | jac/jaclang/compiler/passes/tool/jac_formatter_pass.py:49 | no indentation, or no newline, leaves the string unchanged |
| JacFormat.RStripSpaces | jac/jaclang/compiler/passes/tool/jac_formatter_pass.py:53 | `rstrip(" ")` never ends in a space and is no longer than its input |
| JacFormat.RStripSpacesRemoves | jac/jaclang/compiler/passes/tool/jac_formatter_pass.py:53 | `rstrip(" ")` keeps a prefix and removes only spaces |
| JacFormat.RStripSpacesKeeps | jac/jaclang/compiler/passes/tool/jac_formatter_pass.py:53 | a text not ending in a space is unchanged |
| JacFormat.RStripSpacesAppend | jac/jaclang/compiler/passes/tool/jac_formatter_pass.py:53 | trailing spaces make no difference |
| JacFormat.Strip | jac/jaclang/compiler/passes/tool/jac_formatter_pass.py:59 | `strip()` is no longer than its input |
| JacFormat.StripEnds | jac/jaclang/compiler/passes/tool/jac_formatter_pass.py:59 | what `strip()` keeps has no whitespace at either end |
| JacFormat.StripClean | jac/jaclang/compiler/passes/tool/jac_formatter_pass.py:59 | a string without whitespace at its ends is its own strip |
| JacFormat.StripIdempotent | jac/jaclang/compiler/passes/tool/jac_formatter_pass.py:59 | stripping twice is stripping once |
| JacFormat.EmitNewline | jac/jaclang/compiler/passes/tool/jac_formatter_pass.py:47-55 | emitting a newline appends the indentation and the newline |
| JacFormat.EmitLnIsTwoEmits | jac/jaclang/compiler/passes/tool/jac_formatter_pass.py:57-60 | `emit_ln` is `emit` of the stripped piece then `emit` of a newline |
| JacFormat.EmitPieces | jac/jaclang/compiler/passes/tool/jac_formatter_pass.py:47-55 | at the outermost level a piece without newlines is not re-indented |
| JacFormat.EmitVerbatim | jac/jaclang/compiler/passes/tool/jac_formatter_pass.py:47-55 | a newline-free piece not ending in a space is appended verbatim at level 0 |
| JacFormat.EmitNoStrip | jac/jaclang/compiler/passes/tool/jac_formatter_pass.py:52-55 | outside strip mode trailing spaces are kept |
| JacFormat.EmitNothing | jac/jaclang/compiler/passes/tool/jac_formatter_pass.py:47-55 | emitting nothing at level 0 leaves a text not ending in a space as it is |
| JacFormat.EmitLnVerbatim | jac/jaclang/compiler/passes/tool/jac_formatter_pass.py:57-60 | a clean piece emitted as a line at level 0 is appended followed by a newline |
| JacFormat.BlankLine | jac/jaclang/compiler/passes/tool/jac_formatter_pass.py:57-60 | `emit_ln` of nothing at level 0 appends exactly a newline |
| JacFormat.NlJoinedJoin | jac/jaclang/compiler/passes/tool/jac_formatter_pass.py:72-77 | a newline after each item is the items joined by newlines plus one newline |
| JacFormat.DotSepSplit | jac/jaclang/compiler/passes/tool/jac_formatter_pass.py:67-70 | dot-joined texts without dots split back into the same texts |
| JacFormat.JoinNoNewline | jac/jaclang/compiler/passes/tool/jac_formatter_pass.py:1259-1263 | a join of newline-free pieces has no newline |
| JacFormat.TokenBefore | jac/jaclang/compiler/passes/tool/jac_formatter_pass.py:29-34 | the previous terminal, none for the first; an error when the tree is not a module or the node no terminal |
| JacFormat.TokenAfter | jac/jaclang/compiler/passes/tool/jac_formatter_pass.py:36-41 | the next terminal, none for the last; the same errors |
| JacFormat.TokenBeforeAfter | jac/jaclang/compiler/passes/tool/jac_formatter_pass.py:29-41 | among distinct terminals the token after the token before a node is that node |
| JacFormat.IsLineBreakNeeded | jac/jaclang/compiler/passes/tool/jac_formatter_pass.py:773-777 | true iff the content is strictly longer than the limit, 0 standing for the maximum line length |
| JacFormat.BoolBrokenHead | jac/jaclang/compiler/passes/tool/jac_formatter_pass.py:1267-1277 | one broken operand is the operand, a line break, four spaces, the operator and a space |
| JacFormat.BoolBrokenLayout | jac/jaclang/compiler/passes/tool/jac_formatter_pass.py:1266-1277 | the broken form is the operands joined by a newline, four spaces, the operator and a space |
| JacFormat.BoolExprLayout | jac/jaclang/compiler/passes/tool/jac_formatter_pass.py:1257-1279 | a boolean expression is `a op b …` on one line when it fits and the broken form otherwise |
| JacFormat.EmitLnAllLayout | jac/jaclang/compiler/passes/tool/jac_formatter_pass.py:57-60 | clean lines emitted in turn at level 0 are each followed by a newline |
| JacFormat.LStrips | jac/jaclang/compiler/passes/tool/jac_formatter_pass.py:1969-1972 | `lstrip` of each line, in order |
| JacFormat.DocSegments | jac/jaclang/compiler/passes/tool/jac_formatter_pass.py:1952-1957 | one quoted segment per line, every segment but the last ending in an escaped newline |
| JacFormat.DocSegmentsClean | jac/jaclang/compiler/passes/tool/jac_formatter_pass.py:1955-1957 | the docstring segments of newline-free lines are clean |
| JacFormat.DocTextLayout | jac/jaclang/compiler/passes/tool/jac_formatter_pass.py:1955-1957 | at level 0 the segments come out joined by newlines |
| JacFormat.DocstringLayout | jac/jaclang/compiler/passes/tool/jac_formatter_pass.py:1946-1958 | a multi-line docstring under a plain expression becomes exactly its segments joined by newlines |
| JacFormat.FStringBraceDoubled | jac/jaclang/compiler/passes/tool/jac_formatter_pass.py:1959-1964 | a brace inside an f-string comes out doubled, as the code emits it twice |
| JacFormat.OneLineString | jac/jaclang/compiler/passes/tool/jac_formatter_pass.py:1973-1974 | any other one-line string is appended as it is |
| JacFormat.ModuleBodyEndsNewline | jac/jaclang/compiler/passes/tool/jac_formatter_pass.py:107-126 | a module with a body ends its text with a newline |
| JacFormat.ModuleBodyStep | jac/jaclang/compiler/passes/tool/jac_formatter_pass.py:107-126 | exactly one blank line precedes an item when the gap or architype rule asks for it, none otherwise, never two |
| JacFormat.UnaryText | jac/jaclang/compiler/passes/tool/jac_formatter_pass.py:1290-1302 | an error exactly for unsupported operators; otherwise the operator followed by the operand (closed by `)` for a parenthesis) |
| JacFormat.BinaryText | jac/jaclang/compiler/passes/tool/jac_formatter_pass.py:779-818 | `left op right` for connect/disconnect and supported tokens, an error exactly for unsupported tokens, nothing for other operators |
| JacFormat.BinaryExprLineEnd | jac/jaclang/compiler/passes/tool/jac_formatter_pass.py:819-822 | an expression with a trailing semicolon or comment always ends its line |
| JacFormat.CloseBraceOwnLine | jac/jaclang/compiler/passes/tool/jac_formatter_pass.py:214-221 | the brace of a non-empty pair starts a line of its own |
| JacFormat.JoinLine | jac/jaclang/compiler/passes/tool/jac_formatter_pass.py:1258-1263 | the one-line test string is the operands joined by ` op ` |
| JacFormat.Formatter.constructor | jac/jaclang/compiler/passes/tool/jac_formatter_pass.py:19-23 | level 0, no texts, half the configured line length |
| JacFormat.Formatter.EnterNode | jac/jaclang/compiler/passes/tool/jac_formatter_pass.py:25-27 | the node's text starts empty |
| JacFormat.Formatter.Emit | jac/jaclang/compiler/passes/tool/jac_formatter_pass.py:47-55 | the node's text becomes `EmitText` of the old one |
| JacFormat.Formatter.EmitLn | jac/jaclang/compiler/passes/tool/jac_formatter_pass.py:57-60 | the node's text becomes `EmitLnText` of the old one and ends a line |
| JacFormat.Formatter.SepNodeList | jac/jaclang/compiler/passes/tool/jac_formatter_pass.py:62-82 | the node's text becomes the item texts joined by the delimiter |
| JacFormat.Formatter.NlSepNodeList | jac/jaclang/compiler/passes/tool/jac_formatter_pass.py:72-77 | the node's text is the items joined by newlines plus a final newline |
| JacFormat.Formatter.EmitBroken | jac/jaclang/compiler/passes/tool/jac_formatter_pass.py:1266-1277 | the node's text becomes the broken boolean layout |
| JacFormat.Formatter.ExitBoolExpr | jac/jaclang/compiler/passes/tool/jac_formatter_pass.py:1257-1279 | the node's text becomes `BoolExprText`; fails without operands |
| JacFormat.Formatter.EmitDocString | jac/jaclang/compiler/passes/tool/jac_formatter_pass.py:1952-1958 | the docstring branch's text |
| JacFormat.Formatter.EmitLines | jac/jaclang/compiler/passes/tool/jac_formatter_pass.py:1965-1972 | the multi-line string branch's text |
| JacFormat.Formatter.ExitString | jac/jaclang/compiler/passes/tool/jac_formatter_pass.py:1945-1974 | the node's text becomes `StringText` of the old one |
| JacFormat.Formatter.EmitTrailer | jac/jaclang/compiler/passes/tool/jac_formatter_pass.py:819-822 | a trailing semicolon or comment is emitted as a line unless the text ends one |
| JacFormat.Formatter.ExitBinaryExpr | jac/jaclang/compiler/passes/tool/jac_formatter_pass.py:779-822 | emits `BinaryText`, reports the unsupported operator error, then the trailer |
| JacFormat.Formatter.ExitUnaryExpr | jac/jaclang/compiler/passes/tool/jac_formatter_pass.py:1290-1302 | emits `UnaryText` or reports its error |
| JacFormat.Formatter.OpenBrace | jac/jaclang/compiler/passes/tool/jac_formatter_pass.py:212-213 | the opening brace is emitted after a space |
| JacFormat.Formatter.Dedent | jac/jaclang/compiler/passes/tool/jac_formatter_pass.py:215 | the level drops by one, never below zero |
| JacFormat.Formatter.EndLine | jac/jaclang/compiler/passes/tool/jac_formatter_pass.py:219-220 | a line break unless the text already ends a line |
| JacFormat.Formatter.CloseBrace | jac/jaclang/compiler/passes/tool/jac_formatter_pass.py:214-221 | the level drops (not below zero); the brace closes an empty pair on its line and goes on its own line otherwise |
| JacFormat.Formatter.ExitModule | jac/jaclang/compiler/passes/tool/jac_formatter_pass.py:87-126 | the header kids, then the body items with the blank-line policy; the text ends with a newline when there is a body |
| Jid.HexVal | jac/jaclang/runtimelib/implementation.py:24 | a hexadecimal digit's value is below 16 |
| Jid.HexChar | jac/jaclang/runtimelib/implementation.py:24 | the digit for a value reads back as that value |
| Jid.DigitPos | jac/jaclang/runtimelib/implementation.py:24 | the k-th digit sits at a non-hyphen position of the 8-4-4-4-12 layout |
| Jid.ParseUuid | jac/jaclang/runtimelib/implementation.py:53 | `UUID(text)` is a valid UUID |
| Jid.UuidText | jac/jaclang/runtimelib/implementation.py:78 | `str(uuid)` is 36 characters |
| Jid.UuidRoundTrip | jac/jaclang/runtimelib/implementation.py:23-26 | a UUID's text matches the pattern's third group and parses back to the UUID |
| Jid.ColonAt | jac/jaclang/runtimelib/implementation.py:24 | the first colon, with no colon before it, or none at all |
| Jid.ParseJid | jac/jaclang/runtimelib/implementation.py:50-63 | a failed match gives the format error; a match gives a valid UUID and a colon-free name |
| Jid.ParseJidComplete | jac/jaclang/runtimelib/implementation.py:23-62 | every string of the pattern's shape, with an optional final newline, parses to its groups |
| Jid.ParseJidSound | jac/jaclang/runtimelib/implementation.py:23-63 | only strings of the pattern's shape parse |
| Jid.JidTextRoundTrip | jac/jaclang/runtimelib/implementation.py:23-26 | the canonical text the pattern describes (kind letter, name, UUID) of a JID whose name has no colon parses back to the same JID |
| Jid.MetaInitial | jac/jaclang/runtimelib/implementation.py:78 | `__class__.__name__[:1].lower()` is empty for an empty name and otherwise the lower-cased first letter |
| Jid.StrText | jac/jaclang/runtimelib/implementation.py:76-82 | `__str__`/`__repr__` end in the UUID's text and are the metaclass initial, the name and the UUID with two colons |
| Jid.StrTextIgnoresKind | jac/jaclang/runtimelib/implementation.py:76-82 | the written text is the same whatever the anchor kind |
| Jid.StrTextIsJidText | jac/jaclang/runtimelib/implementation.py:76-82 | the written text is the canonical one iff the metaclass initial is the kind's letter |
| Jid.StrTextUnparsed | jac/jaclang/runtimelib/implementation.py:50-82 | when the metaclass initial is not `n`, `e` or `w`, `JID(str(jid))` fails with "Not a valid JID format!" |
| Jid.StrTextRoundTripFails | jac/jaclang/runtimelib/implementation.py:50-82 | for the metaclass names `type` and `ABCMeta` the written text does not parse back |
| Jid.NewJid | jac/jaclang/runtimelib/implementation.py:43-74 | a string is parsed; a UUID or none (a fresh id) needs a kind; any other id is refused |
| Jid.StringIgnoresArgs | jac/jaclang/runtimelib/implementation.py:51-63 | a string id does not depend on the kind and name arguments |
| Architype.LevelOrder | jac/jaclang/runtimelib/architype.py:22-28 | NO_ACCESS < READ < CONNECT < WRITE and distinct levels have distinct values |
| Architype.OfValue | jac/jaclang/runtimelib/architype.py:34-35 | `AccessLevel(v)` succeeds iff -1 <= v <= 2, with that value |
| Architype.OfName | jac/jaclang/runtimelib/architype.py:36-37 | `AccessLevel[s]` succeeds only with the level of that name |
| Architype.CastRoundTrip | jac/jaclang/runtimelib/architype.py:30-39 | casting a level, its value or its name gives the level; a name is accepted iff it is a member's |
| Architype.Check | jac/jaclang/runtimelib/architype.py:48-50 | the stored level exactly for present keys |
| Architype.CheckGrant | jac/jaclang/runtimelib/architype.py:46-50 | a granted level is checked back; other keys are unaffected |
| Architype.DefaultPermission | jac/jaclang/runtimelib/architype.py:53-58 | no access for all, and no root granted anything |
| Architype.EqIsEquivalence | jac/jaclang/runtimelib/architype.py:166-175 | anchor equality is an equivalence, never holds against a non-anchor, and equal anchors hash alike |
| Architype.MakeStub | jac/jaclang/runtimelib/architype.py:84-90 | a stub is unpopulated and equal to the anchor |
| Architype.StubIsReference | jac/jaclang/runtimelib/architype.py:84-90 | the stub is the bare reference (class and id), and stubbing is idempotent |
| Architype.Unlinked | jac/jaclang/runtimelib/architype.py:120-122 | the architype copy drops `__jac__` and keeps every other attribute |
| Architype.Stubs | jac/jaclang/runtimelib/architype.py:190 | the stub of each edge, in order |
| Architype.GetStateShape | jac/jaclang/runtimelib/architype.py:117-217 | the state's keys by class and population, the anchor's id, an unlinked architype, and stubs for edges and ends |
| ActionsOptimizer.Options | jaseci_core/jaseci/utils/actions/actions_optimizer.py:290-307 | local first when it fits in memory, then remote |
| ActionsOptimizer.ConfigsSound | jaseci_core/jaseci/utils/actions/actions_optimizer.py:286-308 | every enumerated configuration is feasible |
| ActionsOptimizer.ConfigsComplete | jaseci_core/jaseci/utils/actions/actions_optimizer.py:286-308 | every feasible configuration is enumerated |
| ActionsOptimizer.ConfigsExactly | jaseci_core/jaseci/utils/actions/actions_optimizer.py:286-308 | a configuration is enumerated iff it is feasible |
| ActionsOptimizer.FeasibleFits | jaseci_core/jaseci/utils/actions/actions_optimizer.py:298 | a configuration with a local action fits in the node's memory |
| ActionsOptimizer.ConfigsCount | jaseci_core/jaseci/utils/actions/actions_optimizer.py:286-308 | between 1 and 2^n configurations, the all-remote one last |
| ActionsOptimizer.ConfigsNoDup | jaseci_core/jaseci/utils/actions/actions_optimizer.py:286-308 | the configurations are pairwise distinct |
| ActionsOptimizer.ExpandAll | jaseci_core/jaseci/utils/actions/actions_optimizer.py:288-307 | one round of the loop computes `Expand` |
| ActionsOptimizer.EnumerateConfigs | jaseci_core/jaseci/utils/actions/actions_optimizer.py:279-308 | the loop computes `Configs` from the parameters' defaults |
| ActionsOptimizer.DistanceFacts | jaseci_core/jaseci/utils/actions/actions_optimizer.py:310-315 | on the same actions the distance is symmetric, at most n+1, and zero iff equal |
| ActionsOptimizer.ConfigDistance | jaseci_core/jaseci/utils/actions/actions_optimizer.py:310-315 | the loop counts the differing keys (`Distance`) |
| ActionsOptimizer.MinDistIsMin | jaseci_core/jaseci/utils/actions/actions_optimizer.py:326-329 | the minimum is a lower bound of the distances and is attained |
| ActionsOptimizer.MinDistance | jaseci_core/jaseci/utils/actions/actions_optimizer.py:326-329 | the loop computes the minimum distance |
| ActionsOptimizer.PickNext | jaseci_core/jaseci/utils/actions/actions_optimizer.py:321-334 | the earliest unchosen configuration at least distance is picked |
| ActionsOptimizer.GreedySort | jaseci_core/jaseci/utils/actions/actions_optimizer.py:317-336 | a permutation of the configurations starting with the first, each next pick greedy |
| ActionsOptimizer.Unchosen | jaseci_core/jaseci/utils/actions/actions_optimizer.py:320-325 | while fewer are sorted than there are, one is not sorted yet |
| ActionsOptimizer.Pigeonhole | jaseci_core/jaseci/utils/actions/actions_optimizer.py:320 | a duplicate-free list drawn from another is no longer than it |
| ActionsOptimizer.ChangeSetMembers | jaseci_core/jaseci/utils/actions/actions_optimizer.py:791-804 | the change set holds exactly `<cur>_to_<new>` for every configured action whose mode changes |
| ActionsOptimizer.Keys | jaseci_core/jaseci/utils/actions/actions_optimizer.py:792 | the names of an ordered mapping, in order |
| ActionsOptimizer.Names | jaseci_core/jaseci/utils/actions/actions_optimizer.py:818 | the actions of a change set, in order |
| ActionsOptimizer.ChangeSetNames | jaseci_core/jaseci/utils/actions/actions_optimizer.py:791-804 | distinct desired actions give distinct changed actions |
| ActionsOptimizer.FilterMembers | jaseci_core/jaseci/utils/actions/actions_optimizer.py:805-807 | the filtered entries are exactly those satisfying the test |
| ActionsOptimizer.FilterMultiset | jaseci_core/jaseci/utils/actions/actions_optimizer.py:805-807 | a split by a test and its negation is a permutation |
| ActionsOptimizer.RemoteLastSpec | jaseci_core/jaseci/utils/actions/actions_optimizer.py:781-807 | the sort is a permutation with every to-remote change after the others, each group in its order |
| ActionsOptimizer.RemoteLastNames | jaseci_core/jaseci/utils/actions/actions_optimizer.py:805-807 | distinct actions stay distinct when ordered |
| ActionsOptimizer.ConfigState | jaseci_core/jaseci/utils/actions/actions_optimizer.py:596-598 | a configuration's desired state names every active action, in order |
| ActionsOptimizer.KeptSpec | jaseci_core/jaseci/utils/actions/actions_optimizer.py:818-834 | a change stays iff it failed, failures keep their order, all loaded leaves none |
| ActionsOptimizer.KeptNames | jaseci_core/jaseci/utils/actions/actions_optimizer.py:818-834 | the kept changes name distinct actions |
| ActionsOptimizer.RemoveNameAppend | jaseci_core/jaseci/utils/actions/actions_optimizer.py:834 | deleting a name from a concatenation deletes it from each part |
| ActionsOptimizer.ApplyStep | jaseci_core/jaseci/utils/actions/actions_optimizer.py:818-834 | a loaded change leaves the failures as they were; a failed one joins them |
| ActionsOptimizer.DispatchRecognises | jaseci_core/jaseci/utils/actions/actions_optimizer.py:25 | exactly the accepted policies are recognised, and only Default has no handler |
| ActionsOptimizer.ReqsOf | jaseci_core/jaseci/utils/actions/actions_optimizer.py:294-296 | the memory requirement of each active action, in order |
| ActionsOptimizer.InitEvaluation | jaseci_core/jaseci/utils/actions/actions_optimizer.py:279-336 | the configurations under the parameters' defaults (999*1024 and 300) in greedy order |
| ActionsOptimizer.PlanEvaluation | jaseci_core/jaseci/utils/actions/actions_optimizer.py:587-593 | the first configuration is taken out and the rest remain, in greedy order |
| ActionsOptimizer.GetActionChange | jaseci_core/jaseci/utils/actions/actions_optimizer.py:773-809 | the loop computes the change set, then orders it with changes to remote last |
| ActionsOptimizer.Optimizer.constructor | jaseci_core/jaseci/utils/actions/actions_optimizer.py:32-50 | no parameters, no state, no changes and interval 0 |
| ActionsOptimizer.Optimizer.SetActionPolicy | jaseci_core/jaseci/utils/actions/actions_optimizer.py:242-253 | a known policy becomes active with a fresh state and the parameters; an unknown one is refused with its message and nothing changes |
| ActionsOptimizer.Optimizer.Run | jaseci_core/jaseci/utils/actions/actions_optimizer.py:261-277 | records the interval and dispatches on the policy |
| ActionsOptimizer.Optimizer.ApplyActionsChange | jaseci_core/jaseci/utils/actions/actions_optimizer.py:811-847 | the change set becomes the failures, in order, and keeps distinct names |
| ActionsOptimizer.Optimizer.StartEvaluation | jaseci_core/jaseci/utils/actions/actions_optimizer.py:585-605 | the first configuration of the greedy order becomes current; the benchmark restarts or pauses while switching; the change set moves the actions to it and the evaluation policy applies it at once; with key "Auto" it is the auto policy's start step (lines 448-465), which does not apply the changes |
| ActionsOptimizer.Optimizer.EvalSwitching | jaseci_core/jaseci/utils/actions/actions_optimizer.py:760-770 | once every change is applied the policy evaluates again with the timer and the benchmark reset; otherwise nothing changes (the auto policy's `elif` branch, lines 529-539, is the same step in a later `run`) |
| ActionsOptimizer.Optimizer.EvaluationStart | jaseci_core/jaseci/utils/actions/actions_optimizer.py:585-770 | one evaluation-policy `run` at the start of a period: the start step and then, since line 760 is an `if`, the switching step; when every change loads the policy is back in eval with the benchmark running, otherwise it waits in eval_switching holding exactly the failed changes |
| ActionsOptimizer.AllLoadedEndsSwitching | jaseci_core/jaseci/utils/actions/actions_optimizer.py:760-762 | when every change loads, nothing is left, so switching ends |
| Importer.RFind | jaclang/jac/importer.py:33 | the last position of the character, if any |
| Importer.PathJoinSegments | jaclang/jac/importer.py:31 | `path.join` of non-empty, separator-free segments puts one `/` between them |
| Importer.SlashesToDotsJoin | jaclang/jac/importer.py:35 | replacing separators in a slash-joined path gives the dot-joined segments |
| Importer.StripJac | jaclang/jac/importer.py:34 | `splitext` of `name.jac` is `name` |
| Importer.SplitAtLast | jaclang/jac/importer.py:33 | `path.split` of `dir/name.jac` is the directory and the file name |
| Importer.DeriveDotted | jaclang/jac/importer.py:31-35 | target `a.b.c` gives file `a/b/c.jac`, module `c` and package `a.b`; one segment gives no package |
| Importer.AddPrefixesSpec | jaclang/jac/importer.py:81-86 | every dotted prefix is registered, existing modules are kept, and new entries are empty modules named after their prefix |
| Importer.RegisteredSpec | jaclang/jac/importer.py:81-91 | the module is registered under its full name, so a second import finds it; the package and its prefixes are registered and refer to the module; other modules are unchanged |
| Importer.Importer.constructor | jaclang/jac/importer.py:24-29 | the registry is the given one |
| Importer.Importer.RegisterPrefixes | jaclang/jac/importer.py:82-86 | the loop computes `AddPrefixes` |
| Importer.Importer.Register | jaclang/jac/importer.py:81-91 | the registry becomes `Registered` of the old one |
| Importer.Importer.ImportJacModule | jaclang/jac/importer.py:31-93 | a registered module is returned and nothing changes; otherwise the modules the generated code's own imports registered stay registered; if it raised there is no module and nothing more is registered; on success a new module named after the file, holding the names the code bound, is registered with its package and prefixes |
| JacUtils.GetAllJacKeywords | jaclang/jac/utils.py:9-14 | the keywords joined by `|` with no trailing `|` |
| JacUtils.KeywordsRoundTrip | jaclang/jac/utils.py:9-14 | splitting the alternation at `|` gives back the keywords when none contains `|` |
| JacUtils.Lower | jaclang/jac/utils.py:23 | each character lower-cased, same length |
| JacUtils.PascalToSnake | jaclang/jac/utils.py:21-24 | the result has no uppercase letter |
| JacUtils.PascalToSnakeLength | jaclang/jac/utils.py:23 | the length grows by one per uppercase letter after position 0 |
| JacUtils.PascalToSnakeIdentity | jaclang/jac/utils.py:23 | a name without uppercase letters is unchanged |
| JacUtils.PascalToSnakeWords | jaclang/jac/utils.py:23 | appending a capitalised word appends `_` and the word's snake form |
| ActionsApi.WithPrefix | jaseci_core/jaseci/api/actions_api.py:31 | no more names than the live ones |
| ActionsApi.WithPrefixMembers | jaseci_core/jaseci/api/actions_api.py:31 | a name is listed iff it is live and starts with the prefix |
| ActionsApi.WithPrefixAppend | jaseci_core/jaseci/api/actions_api.py:31 | filtering a concatenation filters each part, so relative order is kept |
| ActionsApi.ActionsListSpec | jaseci_core/jaseci/api/actions_api.py:29-32 | an empty name lists every live action in order; every listed name is live; a non-empty name lists exactly the live names with that prefix |

## Left out

- I/O, logging, timers and randomness are left out or passed in as
  parameters:
  - `uuid4()` is the `newId` parameter of `Jid.NewJid`;
  - the action loaders and `ActionsState` lookups are the `loader` oracle and
    the `curModes`/`configured` parameters;
  - what `exec` of the generated code does (the modules its imports register,
    the module names it binds, whether it raises) is the `exec` parameter of
    `Importer.Importer.ImportJacModule`; the names it binds to values other
    than modules are not modelled.
- Kubernetes calls, latency measurement, `_check_phase_change`, the perf
  phase, best-configuration selection and action-call history are not
  modelled. Of the evaluation and auto policies, the start of an evaluation
  period and the switching step are modelled; their other phases, including
  the auto policy's perf phase and its latency-based switching, are not.
- `ActionsOptimizer.Fits` writes `NODE_MEM_THRESHOLD` 0.8 as the ratio 4/5 on
  integers and ignores floating-point rounding.
- `ActionsOptimizer.Optimizer.StartEvaluation` covers the start of an
  evaluation period only. The length of the eval and perf phases and
  `prev_best_config` are not modelled.
- `ActionsOptimizer.GetActionChange` keeps the order the code produces
  (changes to remote last), not the one its docstring describes.
- The symbol table's own lookups (`use_lookup`, `chain_use_lookup`,
  `chain_def_insert`, `inherit_baseclasses_sym`) are recorded as events and
  not interpreted; the symbol-table class itself is not part of this model.
- The formatter's comment handling and much of `exit_sub_node_list` (comma
  placement in enums, statement spacing) are not modelled, nor are the
  handlers for individual statement kinds other than those in the table.
- `Architype` leaves out `populate`, `__getattr__`, `__setstate__` (with its
  pickle hash), `__repr__` and `report`. Anchors that refer to each other
  cyclically cannot be represented, because anchors are values.
- `Architype.Cast` has no argument kind for Python's `bool`: a `bool` is an
  `int` there, so `True` and `False` reach it as `IntArg(1)` and `IntArg(0)`
  and cast to CONNECT and READ.
- `PyJacLink.Linker.ExitGlobalStmt` stops at the first missing Python node.
  The source raises there.
- `Importer` leaves out the caller directory (`inspect.stack`), the
  transpiler, writing the generated file, and the error-region report. A
  module is a value (its name and the registry keys its attributes refer
  to), so object identity is not modelled.
- `Jid.StrText` takes the name of the anchor classes' metaclass as a
  parameter: the interface module that defines their base classes is not
  part of this model.
- `JacUtils.Lower` lower-cases only ASCII letters. Python's `str.lower` also
  maps other Unicode letters.
- `JacUtils.GetAllJacKeywords` takes the lexer's keyword names as a
  parameter; the lexer is not part of this model.
- `jac_file_to_ast` and the template generators of `utils.py` are not
  modelled (file and parser access).
- `actions_register`, `actions_get` and `actions_delete` are not modelled.
  The first loads files and the other two are empty.

## Findings

| source | as written | input that shows it | evidently intended | confidence | as-written member | corrected member |
|---|---|---|---|---|---|---|
| jac/jaclang/runtimelib/implementation.py:76-82 | `__str__` and `__repr__` write `self.type.__class__.__name__[:1].lower()`, the initial of the anchor class's metaclass, which is the same for every kind | `str(JID(type=NodeAnchor, name="x"))` starts with `t:` (metaclass `type`) or `a:` (`ABCMeta`), so `JID(str(jid))` raises "Not a valid JID format!" | the kind's letter `n`, `e` or `w`, so the text parses back to the same JID | medium, not executed (the metaclass of the anchor classes is defined in a file that is not part of this model) | Jid.StrTextRoundTripFails | Jid.JidTextRoundTrip |
