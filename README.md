# gomakus analysis core in Dafny

gomakus is a static checker for Go. It looks for stale aliases after
`append` and three-index re-slicing. When two variables share the backing
array of a slice and one of them is grown with `append`, the other one can
go stale. This project models the analysis core of the checker and proves
properties of that model:

- **Vocabulary.** Selectors (a variable and a field path), embeds and
  compositions; the operations that label the edges of an execution graph;
  the textual rendering of variables and selectors; and the two built-in
  function summaries (`s[a:b:c]` yields the previous generation, `append`
  the next).
- **Graph construction.** The lexical scope table, whose fresh-id counter
  every frame shares. The control-flow graph builder, whose point counter
  and transition map every builder copy shares. The translator from a
  small statement/expression tree to the graph. Every transition it adds
  leads to a point it handed out, except loop back edges and branch joins.
  Into the point after an if chain or a switch, the branches add exactly
  one NoOp each, from where that branch's body ended, and nothing else.
- **Factorization.** The cycle-guarded closure of field paths across
  assignments, the reduction to leaf paths per variable, and the expansion
  of a selector into its leaves.
- **Simplification.** Collecting the assignments of a graph, renumbering
  selectors and points, and the visited-guarded rewrite of each point.
- **Bug oracle.** Bounded enumeration of execution traces, the
  generation-lineage validator, and the one-warning-per-point
  de-duplication. It comes in the current form (`Traces`) and in the
  older statement-graph form (`ExecutionGraph`). The topological order is
  also part of the oracle.

One Dafny module per Go file. The Go files come from different snapshots,
so three choices keep them together:

- The statement-graph snapshot lives in its own module, `ExecutionGraph`.
- `AssignVarOp` carries the `genChange` field that the trace validator
  reads.
- `ValidateExecution` receives the simplified graph and the point map as
  parameters, because the simplification as written stops with a panic.

Objects whose fields the source updates in place are classes:

- the scope frames and id counter;
- the builder's point counter and graph;
- the factorization context;
- the simplifier's collections and walk;
- the topological walk;
- the statement graph and its cursor.

Each method on them is proved against a specification function. Panics and
assertion failures that input can trigger become `Err` results. An
assertion that a caller's own code guarantees becomes a precondition,
proved at every call.

Two points where the model had to choose:

- A block statement is translated in the enclosing scope: the block case
  at src/execution_from_ast.go:226-227 pushes no frame.
- The comment at src/factorization_rules.go:10-16 disagrees with the test
  at src/factorization_test.go:11-41 about the rules of the worked
  example. The model follows the test.

## Model

| member | source | states |
|---|---|---|
| ExecutionOps.Select | src/execution_ops.go:29-41 | selecting keeps the variable; a blank variable with an empty path and a path headed by another field both fail |
| ExecutionOps.SelectReadsField | src/execution_ops.go:29-41 | selection is a field read: what lies at `q` below the selected embed is what lay at `name.q` before, and a failed selection leaves nothing readable under `name` |
| ExecutionOps.Embed | src/execution_ops.go:20-27 | same length, each path gets `name` in front, and selecting `name` gives back each original embed |
| ExecutionOps.EmbedReadsUnderName | src/execution_ops.go:20-27 | embedding under `name` moves every readable field below `name` |
| ExecutionModel.VarIdString | src/execution.go:32-37 | blank renders as "_", any other id as "$" followed by digits that parse back to the id; never empty, never contains "." or ":" |
| ExecutionModel.VarIdStringInjective | src/execution.go:32-37 | distinct ids render differently |
| ExecutionModel.VarSelectorString | src/execution.go:38-40 | an empty selector renders as the bare variable |
| ExecutionModel.VarSelectorStringInjective | src/execution.go:38-40 | over plain field names, equal renderings mean equal selectors (the rendering is a faithful key) |
| ExecutionModel.SelectorStringHasNoColon | src/execution.go:38-43 | a selector rendering contains no ":" when its fields do not |
| ExecutionModel.JoinKeepsOut | src/execution.go:38-43 | joining parts free of a character, with another separator, gives a string free of it |
| ExecutionModel.VarEmbedString | src/execution.go:41-43 | an embed with an empty path renders as its selector |
| ExecutionModel.VarEmbedStringInjective | src/execution.go:41-43 | over plain names, equal renderings mean equal embeds |
| Text.Itoa | src/execution.go:36 | one or more characters; all digits exactly when non-negative, a leading "-" exactly when negative |
| Text.ItoaRoundTrip | src/execution.go:36 | parsing the decimal rendering gives the number back |
| Text.ItoaInjective | src/execution.go:36 | different numbers render differently |
| Text.JoinInjective | src/execution.go:38-43 | joining names that avoid the separator is injective |
| Text.JoinFirstSeparator | src/execution.go:38-43 | the first part, then the separator, then the join of the rest |
| Text.JoinAppend | src/factorization.go:105-115 | appending a part appends the separator and the part |
| Text.NatDigitsValue | src/execution.go:36 | the digits of `n` read back as `n` |
| FuncSpecs.SliceFuncSpec | src/func_spec.go:31-34 | one input slot holding the whole of variable 0; one outcome, one output, one reference to input 0 with an empty path and PrevGen |
| FuncSpecs.AppendFuncSpec | src/func_spec.go:35-38 | the same shape with NextGen |
| FuncSpecs.BuiltinSpecsAreWellReferenced | src/func_spec.go:10-38 | every output reference of both summaries points at a declared input; the two differ only in the generation change |
| ScopeTable.NewScopes | src/scopes.go:20-28 | one empty frame, the counter at 0, the given function table |
| ScopeTable.VarIdCounter.constructor | src/scopes.go:22 | the shared counter starts at 0 |
| ScopeTable.Frame.constructor | src/scopes.go:21 | a frame starts with no names |
| ScopeTable.NewVarId | src/scopes.go:30-34 | returns the counter, then increments it |
| ScopeTable.FreshIdIsUnbound | src/scopes.go:30-34 | the next fresh id, and blank, are bound to no name in any frame |
| ScopeTable.LookupBelowCounter | src/scopes.go:49-68 | every id a lookup returns was drawn from the counter before |
| ScopeTable.TryGetFunc | src/scopes.go:36-39 | present exactly when the name is in the function table, with its id |
| ScopeTable.GetFunc | src/scopes.go:41-47 | succeeds exactly when TryGetFunc finds the name; an unknown name is an error |
| ScopeTable.FindVar | src/scopes.go:49-56 | the loop over frames from the innermost out finds the innermost binding |
| ScopeTable.GetVarOrBlank | src/scopes.go:49-56 | the innermost binding, or blank for an unbound name |
| ScopeTable.GetVar | src/scopes.go:58-68 | "_" is blank; otherwise the innermost binding; an unbound name is an error |
| ScopeTable.Declare | src/scopes.go:74-76 | only the innermost frame changes, and the name then looks up to the id |
| ScopeTable.CreateVar | src/scopes.go:70-77 | "_" gives blank, draws no id and binds nothing; any other name is bound to a fresh id in the innermost frame only |
| ScopeTable.BindingOtherName | src/scopes.go:70-77 | binding one name leaves every other name's lookup unchanged |
| ScopeTable.PushScope | src/scopes.go:79-85 | one more empty innermost frame; the outer frames, the counter and the function table are the same objects |
| ScopeTable.PushedFrameIsTransparent | src/scopes.go:79-85 | an empty innermost frame hides nothing |
| ScopeTable.PoppedScope | src/scopes.go:79-85 | the outer table is still valid and sees the outer frames of the pushed one |
| ScopeTable.DeclareThenLookup | src/scopes.go:62-76 | a declared name is visible at once under an id no name held before, shadowing outer frames; other names are unchanged |
| Builder.NewExecutionBuilder | src/execution_builder.go:15-31 | root and current point 0, last point 0, no transitions, references enabled as asked |
| Builder.PointCounter.constructor | src/execution_builder.go:17-21 | the shared point counter starts at 0 |
| Builder.ExecutionCell.constructor | src/execution_builder.go:18-29 | the shared graph starts with root 0, no transitions, and an empty position table enabled as asked |
| Builder.Build | src/execution_builder.go:33 | the graph built so far |
| Builder.AssignRef | src/execution_builder.go:35-39 | records the position only when references are enabled; transitions unchanged |
| Builder.AcquirePoint | src/execution_builder.go:41-48 | the shared counter goes up by one and the new builder stands on it, a point no transition mentions yet |
| Builder.AcquirePointWithRef | src/execution_builder.go:50-58 | AcquirePoint, and the new point's position recorded when enabled |
| Builder.Connect | src/execution_builder.go:89-92 | requires distinct points; appends at the end of the current point's list |
| Builder.AddTransitionEffect | src/execution_builder.go:89-92 | the appended list is the old list plus the transition; every other list is unchanged |
| Builder.AddTransitionClosed | src/execution_builder.go:89-92 | an edge between handed-out points keeps the graph within the handed-out points |
| Builder.ConnectTo | src/execution_builder.go:60-67 | a NoOp transition from the current point to `p`, and a builder on `p` sharing counter and graph |
| Builder.ApplyNext | src/execution_builder.go:69-77 | exactly one transition labelled `op` to a freshly acquired point, and a builder there sharing counter and graph |
| Builder.ApplyNextWithRef | src/execution_builder.go:79-87 | ApplyNext, and the new point's position recorded when enabled |
| Builder.BuilderApi | src/execution_builder_test.go:7-15 | the graph of the test: two assignments in a row, then two branches meeting at the point acquired before them |
| Builder.BuilderApiTrunk | src/execution_builder_test.go:8-11 | the common start: two transitions and the meeting point 3 |
| Builder.BuilderApiGraph | src/execution_builder_test.go:7-15 | the test's graph, edge by edge |
| FromAst.Next | src/execution_builder.go:69-77 | the abstract ApplyNext hands out one point and stands on it |
| FromAst.ApplyAll | src/execution_from_ast.go:72-84 | a run of ApplyNext hands out one point per operation |
| FromAst.ApplyAllChain | src/execution_from_ast.go:72-84 | the k-th operation leaves the k-th point of the chain for the next one |
| FromAst.ApplyAllUntouched | src/execution_from_ast.go:72-84 | every point other than the start and the new ones keeps its transitions |
| FromAst.VarCompositionOps | src/execution_from_ast.go:72-84 | an empty composition gives one assignment from blank; otherwise one assignment per embed, in order, into the selector extended by the embed's path |
| FromAst.FromVarComposition | src/execution_from_ast.go:65-85 | the builder's graph after storing a composition is ApplyAll of VarCompositionOps |
| FromAst.Blanks | src/execution_from_ast.go:94-97 | `n` values, each the blank variable with an empty path |
| FromAst.FirstSelect | src/execution_from_ast.go:109-113 | found exactly when some embed selects the field, and it is the first such |
| FromAst.FreshIds | src/execution_from_ast.go:165-169 | `n` consecutive ids from the counter |
| FromAst.Singletons | src/execution_from_ast.go:165-169 | each fresh id as a value of its own |
| FromAst.ExprSpec | src/execution_from_ast.go:87-197 | the expression walk only hands out new points, keeps the frames, and yields one value or `n` values (one when asked for one) |
| FromAst.CallSpec | src/execution_from_ast.go:156-175 | a modelled call ends on the last point handed out, a new one, with `n` fresh singleton outputs |
| FromAst.ArgsSpec | src/execution_from_ast.go:159-164 | one value per argument; only new points; the frames are kept |
| FromAst.TranslateExpr | src/execution_from_ast.go:87-197 | the walker on the shared builder and scopes fails exactly when ExprSpec does and otherwise lands where it says |
| FromAst.TranslateCall | src/execution_from_ast.go:156-175 | the call case on the shared objects matches CallSpec |
| FromAst.IfChain | src/execution_from_ast.go:12-30 | the first branch is the statement's own init and body; an else that is neither a block nor an if is an error |
| FromAst.IfChainStep | src/execution_from_ast.go:18-26 | one link of the chain: a block else becomes a plain branch, an else-if continues, anything else fails |
| FromAst.Zip | src/execution_from_ast.go:12-30 | the two lists paired up, position by position |
| FromAst.DeconstructIf | src/execution_from_ast.go:12-30 | init and body lists of equal length that pair up to IfChain; fails exactly when IfChain does |
| FromAst.SpecsParts | src/execution_from_ast.go:40-50 | as many values as names |
| FromAst.IdentNames | src/execution_from_ast.go:53-56 | one name per left-hand side; fails exactly when some left-hand side is not a name |
| FromAst.CollectSpecs | src/execution_from_ast.go:40-50 | the loop over specs computes SpecsParts |
| FromAst.SpecStepJoins | src/execution_from_ast.go:40-50 | one spec's names and values extend those collected so far |
| FromAst.CollectIdentNames | src/execution_from_ast.go:54-56 | the loop over left-hand sides computes IdentNames |
| FromAst.DeconstructDecl | src/execution_from_ast.go:33-63 | the loops compute DeclParts: `var` specs and `:=` give names and values; every other statement, `const` and `=` included, gives none |
| FromAst.CreateVarSt | src/scopes.go:70-77 | CreateVar on the abstract state keeps the graph and never lowers the counter |
| FromAst.ClauseBranches | src/execution_from_ast.go:327-330 | one branch per case clause, none with an init |
| FromAst.StmtSpec | src/execution_from_ast.go:216-383 | on success the statement walk only hands out new points and leaves as many frames as it found |
| FromAst.StmtListSpec | src/execution_from_ast.go:199-210 | a statement list only hands out new points and leaves as many frames as it found |
| FromAst.OptStmtSpec | src/execution_from_ast.go:229-236 | an optional statement only hands out new points and leaves as many frames as it found |
| FromAst.JoinedBranchesSpec | src/execution_from_ast.go:228-238 | the branches end on the meeting point, the first point handed out; only new points; frames kept |
| FromAst.BranchSpec | src/execution_from_ast.go:232-237 | one branch (init, body in a pushed frame, NoOp to the meeting point) only hands out new points and keeps the frames |
| FromAst.FramedListSpec | src/execution_from_ast.go:236 | statements in a pushed frame only hand out new points and leave as many frames as before once it is dropped |
| FromAst.BranchBodySpec | src/execution_from_ast.go:236 | a branch body in a pushed frame, joined to the meeting point, only hands out new points and keeps the number of frames |
| FromAst.BranchesSpec | src/execution_from_ast.go:232-237 | the branches, each from the point its init reached, only hand out new points and keep the frames |
| FromAst.IfSpec | src/execution_from_ast.go:228-238 | an if chain ends on its meeting point, the first point it hands out; only new points; frames kept; the shape of the join is FromAstJoins.IfJoinsBranches |
| FromAst.ForSpec | src/execution_from_ast.go:239-252 | the loop in a frame of its own only hands out new points and leaves the frames as found |
| FromAst.ForScopeSpec | src/execution_from_ast.go:240-251 | the loop inside its frame (init, body, post, condition, then a NoOp back to the point after init) hands out only new points and keeps the frames |
| FromAst.RangeVarSpec | src/execution_from_ast.go:256-268 | a range key or value is a fresh variable reset from blank |
| FromAst.RangeSpec | src/execution_from_ast.go:253-271 | the range loop in a frame of its own only hands out new points and leaves the frames as found |
| FromAst.RangeScopeSpec | src/execution_from_ast.go:254-270 | the range loop inside its frame (key, value, body, then a NoOp back to the point before the loop; the ranged operand is not translated) hands out only new points and keeps the frames |
| FromAst.SwitchScopeSpec | src/execution_from_ast.go:323-344 | inside its frame, a switch ends on a point it handed out; only new points |
| FromAst.SwitchSpec | src/execution_from_ast.go:323-344 | a switch or type switch in a frame of its own only hands out new points and leaves the frames as found |
| FromAst.SwitchClausesSpec | src/execution_from_ast.go:327-343 | the clause bodies, joined at one meeting point, end on a point handed out after the start |
| FromAst.ValuesSpec | src/execution_from_ast.go:281-287 | initialisers left to right only hand out new points; one value each when one is asked for; a single initialiser asked for exactly `n` gives `n` |
| FromAst.DefineSpec | src/execution_from_ast.go:288-291 | declaring each name and storing its value only hands out new points and keeps the frame count |
| FromAst.DeclareSpec | src/execution_from_ast.go:273-291 | a declaration only hands out new points and keeps the frame count |
| FromAst.AssignLhsSpec | src/execution_from_ast.go:306-320 | storing into the left-hand sides only hands out new points and keeps the frames |
| FromAst.AssignSpec | src/execution_from_ast.go:292-320 | an assignment only hands out new points and keeps the frames |
| FromAst.DeclOrAssignSpec | src/execution_from_ast.go:272-322 | a declaration or an assignment only hands out new points and keeps the frame count |
| FromAst.ResultOutputs | src/execution_from_ast.go:351-354 | corrected: one value per result, or all the function's results when one expression returns them |
| FromAst.ResultOutputsAsWritten | src/execution_from_ast.go:351-354 | as written: whenever the count check passes, each result is asked for one value |
| FromAst.ReturnAssignSpec | src/execution_from_ast.go:361-366 | copying result values into fresh variables only hands out new points |
| FromAst.ReturnSpec | src/execution_from_ast.go:345-367 | a return ends on the last point handed out, a new one (its ReturnVarsOp); the frames are unchanged |
| FromAst.ReturnValuesSpec | src/execution_from_ast.go:355-367 | a return with results ends on the last point handed out, a new one; the frames are unchanged |
| FromAst.TranslateStmt | src/execution_from_ast.go:216-383 | the statement walker on the shared builder and scopes fails exactly when StmtSpec does and otherwise lands where it says |
| FromAst.TranslateStmtList | src/execution_from_ast.go:199-210 | matches StmtListSpec |
| FromAst.TranslateOptStmt | src/execution_from_ast.go:229-236 | matches OptStmtSpec |
| FromAst.TranslateBranch | src/execution_from_ast.go:232-237 | one branch: init, then the body in a pushed frame, then a NoOp to the meeting point; matches BranchSpec |
| FromAst.TranslateFramedList | src/execution_from_ast.go:236 | statements in a frame pushed for them and dropped afterwards, touching no frame below; matches FramedListSpec |
| FromAst.TranslateBranchBody | src/execution_from_ast.go:236 | the body in a frame of its own that is dropped afterwards, its end joined to the meeting point by a NoOp; matches BranchBodySpec |
| FromAst.TranslateBranches | src/execution_from_ast.go:232-237 | matches BranchesSpec |
| FromAst.TranslateJoinedBranches | src/execution_from_ast.go:231-238 | matches JoinedBranchesSpec |
| FromAst.TranslateIf | src/execution_from_ast.go:228-238 | matches IfSpec |
| FromAst.TranslateFor | src/execution_from_ast.go:239-252 | matches ForSpec |
| FromAst.TranslateForScope | src/execution_from_ast.go:240-251 | matches ForScopeSpec |
| FromAst.TranslateRangeVar | src/execution_from_ast.go:257-268 | matches RangeVarSpec |
| FromAst.TranslateRange | src/execution_from_ast.go:253-271 | matches RangeSpec |
| FromAst.TranslateRangeScope | src/execution_from_ast.go:254-270 | matches RangeScopeSpec |
| FromAst.TranslateSwitch | src/execution_from_ast.go:323-344 | matches SwitchSpec |
| FromAst.TranslateSwitchScope | src/execution_from_ast.go:323-344 | matches SwitchScopeSpec |
| FromAst.TranslateSwitchClauses | src/execution_from_ast.go:327-343 | matches SwitchClausesSpec |
| FromAst.TranslateValues | src/execution_from_ast.go:281-287 | matches ValuesSpec |
| FromAst.TranslateDefine | src/execution_from_ast.go:288-291 | matches DefineSpec |
| FromAst.TranslateDefineOne | src/execution_from_ast.go:288-291 | one name declared and stored into |
| FromAst.TranslateDeclare | src/execution_from_ast.go:273-291 | matches DeclareSpec |
| FromAst.TranslateAssignLhs | src/execution_from_ast.go:306-320 | matches AssignLhsSpec |
| FromAst.TranslateAssign | src/execution_from_ast.go:292-320 | matches AssignSpec |
| FromAst.TranslateDeclOrAssign | src/execution_from_ast.go:272-322 | matches DeclOrAssignSpec |
| FromAst.TranslateReturn | src/execution_from_ast.go:345-367 | matches ReturnSpec |
| FromAst.TranslateReturnValues | src/execution_from_ast.go:355-367 | matches ReturnValuesSpec |
| FromAst.TranslateReturnAssign | src/execution_from_ast.go:361-366 | draws one fresh id per value, consecutively, and matches ReturnAssignSpec |
| FromAst.TranslateReturnAssignOne | src/execution_from_ast.go:362-365 | one result value copied into one fresh variable |
| FromAst.FuncSpec | src/execution_from_ast.go:385-410 | a function pushes exactly one frame and never lowers the counter |
| FromAst.FuncBodySpec | src/execution_from_ast.go:392-409 | parameters and named results declared, then the body with one return value per result field; only new points are handed out and the frames are kept |
| FromAst.DeclareFieldsSpec | src/execution_from_ast.go:394-407 | declaring a field list keeps the graph and never lowers the counter |
| FromAst.DeclareNamesSpec | src/execution_from_ast.go:394-407 | declaring parameter names keeps the graph and never lowers the counter |
| FromAst.ExecutionFromFunc | src/execution_from_ast.go:385-410 | the graph has root 0 and the transitions FuncSpec computes; fails exactly when FuncSpec does; the caller's frames are unchanged |
| FromAst.DeclareFields | src/execution_from_ast.go:394-407 | matches DeclareFieldsSpec |
| FromAst.DeclareNames | src/execution_from_ast.go:397-405 | matches DeclareNamesSpec |
| FromAst.TranslateFuncBody | src/execution_from_ast.go:392-409 | matches FuncBodySpec |
| FromAstProperties.CallEmitsOneUse | src/execution_from_ast.go:136-175 | a known call translates its arguments first and succeeds exactly when they do; it then adds one UseSelectorsOp, last on the point the arguments reached, to a new point, with the argument values as inputs and `n` fresh outputs, and returns one singleton per output |
| FromAstProperties.CallWithoutArguments | src/execution_from_ast.go:136-175 | a known call with no arguments: one UseSelectorsOp from the current point to a new point, `n` fresh outputs, one singleton per output |
| FromAstProperties.UnknownCallIsInert | src/execution_from_ast.go:139-146 | an unknown call emits nothing and returns `n` blanks |
| FromAstProperties.TwoIndexSliceIsTransparent | src/execution_from_ast.go:148-152 | a two-index slice is its operand |
| FromAstProperties.MaxSliceEmitsOneUse | src/execution_from_ast.go:148-175 | a three-index slice is a call of the scope's slice function on its operand: it succeeds exactly when the operand does and adds one UseSelectorsOp, last on the point the operand reached, to a new point, with the operand's value as input and `n` fresh outputs; without that function in scope it fails |
| FromAstProperties.NakedReturn | src/execution_from_ast.go:348-350 | a naked return emits one ReturnVarsOp with no ids and draws no id |
| FromAstProperties.ReturnOfCall | src/execution_from_ast.go:355-367 | `return f()` for `n` values draws `n` output ids and `n` return ids |
| FromAstProperties.SingletonAssignments | src/execution_from_ast.go:361-366 | single-embed values take one point each to copy |
| FromAstProperties.ReturnOfMultiValueCall | src/execution_from_ast.go:351-354 | as written, a single returned call in a multi-result function is asked for one value; the corrected rule asks for all |
| FromAstProperties.ForBackEdge | src/execution_from_ast.go:239-252 | a successful for loop ends at a point of its own whose last transition is a NoOp back edge to the point the init reached |
| FromAstProperties.ForWithoutInitBackEdge | src/execution_from_ast.go:239-252 | without an init, that back edge goes to the point before the loop |
| FromAstProperties.InertForFails | src/execution_builder.go:89-92 | a for loop whose body emits nothing would connect a point to itself: an error |
| FromAstProperties.RangeBackEdge | src/execution_from_ast.go:253-271 | a successful range loop ends with a NoOp back edge to the point before the loop |
| FromAstProperties.RangeKeyIsFresh | src/execution_from_ast.go:257-262 | a named range key is bound to the next fresh id and reset from blank |
| FromAstProperties.IfWithoutElse | src/execution_from_ast.go:228-238 | `if c {}`: the condition's point gets exactly one NoOp to the meeting point, with no bypassing edge |
| FromAstProperties.IfWithElse | src/execution_from_ast.go:228-238 | `if c {} else {}`: two NoOps to the meeting point |
| FromAstProperties.IfDeconstructionExample | src/execution_from_ast_test.go:12-30 | the four-branch chain of the test gives 4 inits and 4 bodies, with inits 0 and 2 present |
| FromAstProperties.IfChainOfExample | src/execution_from_ast_test.go:12-30 | the chain of the test, branch by branch |
| FromAstProperties.StmtListAppend | src/execution_from_ast.go:199-210 | translating `a + b` is translating `a`, then `b` from where `a` ended |
| FromAstProperties.DeclareNamesOthers | src/execution_from_ast.go:394-407 | one id per name other than "_"; outer frames and other names unchanged |
| FromAstProperties.DeclareNamesBinds | src/execution_from_ast.go:394-407 | every declared name other than "_" is visible afterwards |
| FromAstJoins.NextAdds | src/execution_builder.go:69-87 | one operation adds one transition, from the current point to the point it hands out |
| FromAstJoins.ConnectAdds | src/execution_builder.go:60-67 | ConnectTo adds one NoOp, from the current point to the given point, and nothing else |
| FromAstJoins.ApplyAllAdds | src/execution_builder.go:69-87 | a run of operations only adds transitions to points it hands out |
| FromAstJoins.ExprAdds | src/execution_from_ast.go:87-197 | translating an expression only appends transitions, all to points it hands out |
| FromAstJoins.CallAdds | src/execution_from_ast.go:136-175 | a call only adds transitions to points it hands out |
| FromAstJoins.ArgsAdds | src/execution_from_ast.go:157-162 | call arguments only add transitions to points they hand out |
| FromAstJoins.ValuesAdds | src/execution_from_ast.go:281-303 | initialisers only add transitions to points they hand out |
| FromAstJoins.DefineAdds | src/execution_from_ast.go:288-291 | declaring names with values only adds transitions to points it hands out |
| FromAstJoins.DeclareAdds | src/execution_from_ast.go:272-300 | a declaration only adds transitions to points it hands out |
| FromAstJoins.AssignLhsAdds | src/execution_from_ast.go:305-320 | the targets of an assignment only add transitions to points they hand out |
| FromAstJoins.AssignAdds | src/execution_from_ast.go:292-320 | an assignment only adds transitions to points it hands out |
| FromAstJoins.DeclOrAssignAdds | src/execution_from_ast.go:272-322 | a declaration or assignment only adds transitions to points it hands out |
| FromAstJoins.ReturnAssignAdds | src/execution_from_ast.go:361-366 | copying return values only adds transitions to points it hands out |
| FromAstJoins.ReturnValuesAdds | src/execution_from_ast.go:351-367 | a return with results only adds transitions to points it hands out |
| FromAstJoins.ReturnAdds | src/execution_from_ast.go:345-367 | a return only adds transitions to points it hands out |
| FromAstJoins.RangeVarAdds | src/execution_from_ast.go:257-266 | a range key or value only adds transitions to points it hands out |
| FromAstJoins.StmtAdds | src/execution_from_ast.go:216-384 | a statement only appends transitions; each leads to a point it hands out or back to the point it started from |
| FromAstJoins.StmtListAdds | src/execution_from_ast.go:199-210 | the same for a statement list |
| FromAstJoins.OptStmtAdds | src/execution_from_ast.go:231-235 | the same for an optional init |
| FromAstJoins.FramedListAdds | src/execution_from_ast.go:236 | the same for a body in a frame of its own |
| FromAstJoins.BranchBodyAdds | src/execution_from_ast.go:236 | a branch body adds transitions to its own new points, its start, or the meeting point |
| FromAstJoins.BranchAdds | src/execution_from_ast.go:231-237 | a branch adds transitions to its own new points, its start, or the meeting point |
| FromAstJoins.BranchesAdds | src/execution_from_ast.go:231-237 | the same for a chain of branches |
| FromAstJoins.JoinedBranchesAdds | src/execution_from_ast.go:230-238 | branches that meet add transitions only to new points or back to their start |
| FromAstJoins.IfAdds | src/execution_from_ast.go:228-238 | the same for an if chain |
| FromAstJoins.ForAdds | src/execution_from_ast.go:239-252 | a for loop adds transitions only to new points or back to its start |
| FromAstJoins.ForScopeAdds | src/execution_from_ast.go:240-251 | the same inside the loop's frame |
| FromAstJoins.RangeAdds | src/execution_from_ast.go:253-271 | a range loop adds transitions only to new points or back to its start |
| FromAstJoins.RangeScopeAdds | src/execution_from_ast.go:254-270 | the same inside the loop's frame |
| FromAstJoins.SwitchAdds | src/execution_from_ast.go:323-344 | a switch adds transitions only to new points or back to its start |
| FromAstJoins.SwitchScopeAdds | src/execution_from_ast.go:324-331 | the same inside the switch's frame |
| FromAstJoins.SwitchClausesAdds | src/execution_from_ast.go:326-331 | the same for the clauses after the init |
| FromAstJoins.BranchesUnfold | src/execution_from_ast.go:231-237 | a successful chain: the first branch's init and body succeed, and the rest of the chain runs from where the init ended |
| FromAstJoins.JoinedUnfold | src/execution_from_ast.go:230-238 | branches that meet run on a graph that has handed out the meeting point |
| FromAstJoins.IfUnfold | src/execution_from_ast.go:228-238 | a successful if chain: its branches meet in the frame pushed for the inits |
| FromAstJoins.SwitchUnfold | src/execution_from_ast.go:323-331 | a successful switch: its init, then its clauses from where the init ended |
| FromAstJoins.BodyEnds | src/execution_from_ast.go:231-237 | one end point per branch: where its body, run after its init, ended |
| FromAstJoins.BranchesJoin | src/execution_from_ast.go:231-237 | the transitions a chain of branches adds into the meeting point are, at every point, one NoOp per branch whose body ended there, and nothing else |
| FromAstJoins.JoinedEnds | src/execution_from_ast.go:230-238 | one end point per branch that meets |
| FromAstJoins.JoinedBranchesJoin | src/execution_from_ast.go:230-238 | branches that meet: into the meeting point, one NoOp per branch from where its body ended, nothing else |
| FromAstJoins.IfBodyEnds | src/execution_from_ast.go:228-238 | one end point per branch of the if chain, else included |
| FromAstJoins.IfJoinsBranches | src/execution_from_ast.go:228-238 | any if chain that translates: it goes on from a new point, and what it adds into that point is exactly one NoOp per branch, from the point that branch's body reached; nothing bypasses the bodies |
| FromAstJoins.IfAfterPointEntries | src/execution_from_ast.go:228-238 | in a graph whose transitions all lead to handed-out points, the point after an if chain has exactly those incoming transitions and no other |
| FromAstJoins.SwitchClausesStart | src/execution_from_ast.go:325-330 | the state after the switch's init and a type switch's binding, from where the clauses start |
| FromAstJoins.SwitchJoinsClauses | src/execution_from_ast.go:323-344 | a switch or type switch that translates: it goes on from the point handed out after its init, and its clauses add into that point exactly one NoOp per clause, from where that clause's body ended |
| Factorization.HasPrefix | src/factorization.go:93-103 | true exactly when the needle is a prefix of the haystack |
| Factorization.JoinTo | src/factorization.go:105-115 | from an empty workspace, the elements joined by the separator |
| Factorization.EntryKeyInjective | src/factorization.go:69-70 | with plain field names, different entries get different visited keys |
| Factorization.IndexAssignments | src/factorization.go:24-36 | `sources`/`targets` hold exactly the assignments with both sides named and distinct variables, by written/read variable |
| Factorization.SourcesIndexMembers | src/factorization.go:26-36 | membership in `sources` |
| Factorization.TargetsIndexMembers | src/factorization.go:26-36 | membership in `targets` |
| Factorization.KeptMembers | src/factorization.go:55-59 | the loop keeps exactly the positions not followed by an extension |
| Factorization.KeptAtMeans | src/factorization.go:55-59 | in sorted order, a path is kept exactly when no later path extends it |
| Factorization.KeptStrictlySorted | src/factorization.go:52-61 | the kept paths are strictly ascending |
| Factorization.KeptCovers | src/factorization.go:52-61 | every path is a prefix of a kept one |
| Factorization.KeptIsMaximal | src/factorization.go:52-61 | no path properly extends a kept one |
| Factorization.MaximalIsKept | src/factorization.go:52-61 | a path nothing properly extends is kept |
| Factorization.KeptLeaf | src/factorization.go:52-61 | kept exactly when recorded and maximal |
| Factorization.KeptLeafPaths | src/factorization.go:52-61 | the kept list of a sorted permutation is exactly the maximal paths, and covers every path |
| Factorization.LeafPaths | src/factorization.go:53-60 | strictly sorted; exactly the recorded paths that are not a proper prefix of another; every recorded path is a prefix of a kept one |
| Factorization.KeepLeafs | src/factorization.go:52-61 | every variable keeps its key and gets its leaf list |
| Factorization.FactorizationContext.Record | src/factorization.go:74-75 | the entry joins its variable's rules and its key the visited set; nothing else changes |
| Factorization.FactorizationContext.constructor | src/factorization.go:38-45 | nothing recorded yet, the whole budget left, the indexes those of the assignments |
| Factorization.FactorizationContext.Propagate | src/factorization.go:77-90 | when the walk completes, every propagation step from the entry leads to a visited entry |
| Factorization.FactorizationContext.FactorizeAssignment | src/factorization.go:65-91 | recorded entries and visited keys only grow and the budget only shrinks; when the walk completes, a named variable's entry is visited and the walk's progress invariant still holds |
| Factorization.FactorizationContext.PropagateBack | src/factorization.go:77-83 | every assignment writing into the variable under a prefix of the path leads to a visited entry |
| Factorization.FactorizationContext.PropagateForward | src/factorization.go:84-90 | every assignment reading from the variable under a prefix of the path leads to a visited entry |
| Factorization.FactorizationContext.SeedAssignment | src/factorization.go:46-51 | both sides of the assignment, with the empty path and its own selector path, are visited |
| Factorization.FactorizationContext.SeedAssignments | src/factorization.go:46-51 | every seed of every assignment is visited |
| Factorization.FactorizationContext.SeedSide | src/factorization.go:47-50 | a named side's empty path and selector path are visited |
| Factorization.WellformedWithin | src/factorization.go:65-91 | every recorded entry lies in every set that holds the seeds and is closed under propagation |
| Factorization.WellformedEntries | src/factorization.go:66-68 | the blank variable is never recorded, and every recorded path is built from fields the assignments use |
| Factorization.WellformedCount | src/factorization.go:71-75 | no entry is recorded twice |
| Factorization.Exhausted | src/factorization.go:65-91 | running out of budget means every closed set of seeds is at least that large |
| Factorization.ClosureAtEnd | src/factorization.go:46-51 | once every seed is visited, the recorded entries are the least set holding the seeds and closed under propagation |
| Factorization.LeafRulesAt | src/factorization.go:52-61 | a variable's final rules are strictly sorted and exactly its leaf paths |
| Factorization.GroupLeafRules | src/factorization.go:52-61 | the final rules hold for the recorded entries |
| Factorization.GroupCovers | src/factorization.go:52-61 | every recorded path is a prefix of one of its variable's final rules |
| Factorization.FactorizeAssignments | src/factorization.go:23-63 | on success, the recorded entries are the least closed set of the seeds and the rules are their leaf paths per variable; failure only when the budget is below every closed set |
| Factorization.Pick | src/factorization.go:52 | some element of the remaining set |
| FactorizationExample.FactorizeAssignmentsExample | src/factorization_test.go:11-41 | for `b=a.x; c=b; d=c.y; e=a.y` the rules are `0:{x.y, y}, 1:{y}, 2:{y}, 3:{[]}, 4:{[]}` |
| FactorizationExample.ExampleCovers | src/factorization_test.go:11-41 | the example's closure holds the seeds, is closed, and has ten entries |
| FactorizationExample.ExampleLeast | src/factorization_test.go:11-41 | every closed set of the seeds holds the closure |
| FactorizationExample.ExampleClosed | src/factorization_test.go:11-41 | no propagation step leaves the closure |
| FactorizationExample.ExampleLeafs | src/factorization_test.go:11-41 | the leaf rules of the closure are those of the test |
| FactorizationExample.ExampleNoError | src/factorization_test.go:11-41 | a budget of 100 cannot run out on the example |
| FactorizationExample.ExampleRecorded | src/factorization_test.go:11-41 | the recorded entries are exactly the closure |
| FactorizationRulesModel.Matching | src/factorization_rules.go:23-31 | no longer than the rules |
| FactorizationRulesModel.MatchingMembers | src/factorization_rules.go:23-31 | a path matches exactly when it is a rule extending the selector's path |
| FactorizationRulesModel.AtPaths | src/factorization_rules.go:26-29 | each path paired with the same variable |
| FactorizationRulesModel.FactorizeSelector | src/factorization_rules.go:18-36 | no rules: the selector alone; otherwise succeeds exactly when some rule extends the selector's path, with the matching rules at the same variable, sorted and a permutation |
| FactorizationRulesModel.FactorizedIsDetermined | src/factorization_rules.go:33-34 | the sorted expansion is unique, although the sort is not stable |
| FactorizationRulesModel.FactorizeSelectorExample | src/factorization_rules_test.go:9-16 | rules `0:{x.a, x.b, z}` and selector `0.x` give `[0.x.a, 0.x.b]` |
| FactorizationRulesModel.ExampleMatching | src/factorization_rules_test.go:9-16 | the rules matching `0.x` are `x.a` and `x.b` |
| FactorizationRulesModel.ExampleSorted | src/factorization_rules_test.go:9-16 | they come out in that order |
| PathOrder.StringsEqual | src/factorization.go:53 | strings compare equal exactly when equal |
| PathOrder.StringsAntisymmetric | src/factorization.go:53 | swapping the arguments negates the comparison |
| PathOrder.StringsTransitive | src/factorization.go:53 | the string order is transitive |
| PathOrder.PathsEqual | src/factorization.go:53 | paths compare equal exactly when equal |
| PathOrder.PathsAntisymmetric | src/factorization.go:53 | swapping the arguments negates the comparison |
| PathOrder.PathsTransitive | src/factorization.go:53 | the path order is transitive |
| PathOrder.PrefixFirst | src/factorization.go:53-59 | a prefix comes first, strictly when proper |
| PathOrder.BetweenExtends | src/factorization.go:53-59 | a path sorted between `p` and an extension of `p` extends `p` |
| PathOrder.Insert | src/factorization_rules.go:34 | inserting adds exactly one element |
| PathOrder.InsertSorted | src/factorization_rules.go:34 | inserting into a sorted list keeps it sorted |
| PathOrder.SortPaths | src/factorization_rules.go:34 | sorted, and a permutation of its input |
| PathOrder.StrictlySortedUnique | src/factorization.go:52-61 | two strictly ascending lists with the same paths are equal |
| PathOrder.SortedUnique | src/factorization_rules.go:34 | two sorted permutations of one list are equal |
| Simplification.FlattenMembers | src/simplification.go:12-35 | an element of the concatenation lies in one of the lists |
| Simplification.RefAssignsMembers | src/simplification.go:25-29 | one assignment per returned reference |
| Simplification.OpAssignsMembers | src/simplification.go:15-32 | an operation contributes itself when it is a selector assignment, one assignment per output reference when it calls a summarised function, and nothing otherwise |
| Simplification.SlotMembers | src/simplification.go:24-30 | a slot contributes assignments from the reference's input selector to the slot's output variable at the reference's path |
| Simplification.CollectedMembers | src/simplification.go:12-35 | what is collected is exactly what the operations of the listed points contribute |
| Simplification.CollectedHasAssignments | src/simplification.go:13-17 | every AssignSelectorOp of the graph is collected |
| Simplification.AppendRefs | src/simplification.go:25-29 | the innermost loop appends one assignment per reference |
| Simplification.AppendOutput | src/simplification.go:24-31 | appends each slot's assignments; fails exactly when a non-empty slot has no output variable |
| Simplification.AppendOutputs | src/simplification.go:23-32 | appends each outcome's assignments; fails exactly when some outcome is not covered |
| Simplification.AppendOp | src/simplification.go:15-32 | one operation's assignments are appended exactly when the operation is covered (a call only with a known summary) |
| Simplification.AppendTransitions | src/simplification.go:14-34 | appends each transition's assignments in order |
| Simplification.CollectAssigns | src/simplification.go:12-35 | the collected list is CollectedAssigns over the given point order |
| Simplification.SimplifyExecution | src/simplification.go:11-44 | collects and factorizes, then fails unconditionally |
| Simplification.IntroducedKeepsIds | src/simplification.go:87-96 | ids stay dense from 0; earlier ids are kept; a known rendering keeps its id and a new one gets the size |
| Simplification.SameIdSameSelector | src/simplification.go:87-96 | over plain names, two selectors get the same id exactly when they are equal |
| Simplification.VarSelectorCollection.IntroduceVarOrGet | src/simplification.go:87-96 | the map and id are those Introduced computes |
| Simplification.Acquired | src/simplification.go:100-105 | the point has an image afterwards |
| Simplification.AcquiredKeepsImages | src/simplification.go:100-105 | images stay fresh and are kept; a new image is the next point handed out |
| Simplification.AcquiredTwice | src/simplification.go:100-105 | asking again gives the same image and hands out nothing |
| Simplification.ExecutionPointCollection.AcquireOrGet | src/simplification.go:100-105 | the images and counter are those Acquired computes, and the result is the point's image |
| Simplification.PairStep | src/simplification.go:73-77 | one pair keeps the recorded images, adds exactly one point, and leaves both renderings with an id |
| Simplification.EmitPairsChain | src/simplification.go:73-77 | emitting the pairs keeps ids dense and emits one AssignVarOp per pair, in order, between the pair's ids |
| Simplification.PairOpsHead | src/simplification.go:73-77 | the first pair's assignment, then the rest |
| Simplification.AssignStep | src/simplification.go:69-77 | succeeds exactly when both sides factorize into as many selectors; the point images are left alone |
| Simplification.AssignStepKeeps | src/simplification.go:69-77 | a consistent assignment keeps the state sound and only extends it |
| Simplification.TransitionStepKeeps | src/simplification.go:66-81 | one transition keeps the state sound, extends it, and gives its target an image |
| Simplification.TransitionStepConnects | src/simplification.go:66-81 | one transition ends with a NoOp edge from the point its rewrite reached to the target's image, a different point |
| Simplification.ConnectEndsWithNoOp | src/simplification.go:81 | joining the rewrite's point to a target puts the NoOp edge last on that point |
| Simplification.StepAllKeeps | src/simplification.go:66-82 | all transitions of a point: sound, extended, every target has an image, every assignment factorized consistently |
| Simplification.SimplificationWalk.EmitPair | src/simplification.go:74-76 | one pair on the shared builder matches PairStep |
| Simplification.SimplificationWalk.EmitAssignments | src/simplification.go:73-77 | matches EmitPairs on the shared builder |
| Simplification.SimplificationWalk.SimplifyTransition | src/simplification.go:67-81 | matches TransitionStep on the shared builder and collections |
| Simplification.SimplificationWalk.SimplifyPoint | src/simplification.go:55-83 | marks the point visited; a visited point or one without transitions changes nothing else; otherwise matches StepAll |
| Simplification.SimplificationWalk.constructor | src/simplification.go:46-53 | empty id and point collections, nothing visited |
| Simplification.VarSelectorCollection.constructor | src/simplification.go:85 | no selector has an id yet |
| Simplification.ExecutionPointCollection.constructor | src/simplification.go:98 | no point has an image yet |
| TopSort.VerticesClosed | src/top_sort.go:14-23 | every successor lies in the finite vertex set |
| TopSort.ReachableStep | src/top_sort.go:14-23 | reachability extends along edges |
| TopSort.StackCycle | src/top_sort.go:14-23 | an edge back to a vertex on the walk's stack makes a cycle |
| TopSort.Enter | src/top_sort.go:15-18 | entering an unvisited reachable vertex keeps the walk's invariant |
| TopSort.Leave | src/top_sort.go:19-22 | appending a vertex whose successors are all visited keeps the walk's invariant |
| TopSort.TopologyWalk.Visit | src/top_sort.go:14-23 | the stack is as before, visited vertices and the order only grow, the vertex is visited afterwards, and a newly visited vertex ends the order |
| TopSort.TopologyWalk.Finish | src/top_sort.go:22 | the vertex moves from the stack to the end of the order |
| TopSort.TopologyWalk.constructor | src/top_sort.go:8-9 | nothing visited, an empty order and stack |
| TopSort.Reversed | src/top_sort.go:10 | element i is element n-1-i of the input |
| TopSort.TopologyOrder | src/top_sort.go:7-12 | root first; exactly the reachable vertices, each once; in an acyclic graph every edge goes forward |
| TopSort.ClosedHoldsPath | src/top_sort.go:14-23 | every vertex on a path from the root lies in a successor-closed set holding the root |
| TopSort.ReversedPostOrder | src/top_sort.go:7-12 | the reversed post-order starts at the root, holds each reachable vertex once, and orders edges forward when acyclic |
| TopSort.ReversedEdgesForward | src/top_sort.go:7-12 | reversing a post-order of distinct vertices in which every successor comes earlier makes every edge point forward |
| Visits.SlotsShrink | src/execution_trace.go:36-41 | entering a point below its limit spends one visit slot |
| Visits.SameCountsRestore | src/execution_trace.go:39-41 | decrementing after the branch restores the counters |
| Traces.TracesViaUnfold | src/execution_trace.go:35-43 | a successor at its limit is skipped; any other is entered with its counter raised |
| Traces.WalkStep | src/execution_trace.go:35-43 | one iteration of the walk's loop keeps its invariants |
| Traces.TracesFromCongruent | src/execution_trace.go:36 | the walk reads the counters only through the zero-default lookup |
| Traces.generateTraces | src/execution_trace.go:26-47 | counters restored, and the traces appended are TracesFrom |
| Traces.enter | src/execution_trace.go:39-41 | one successor below its limit: counters restored, traces of the walk from it |
| Traces.GenerateTraces | src/execution_trace.go:19-24 | the traces are TracesFrom of the root with empty counters |
| Traces.TracesFromWalk | src/execution_trace.go:26-47 | every trace of the walk is connected, respects the limit, and ends where no transition can be taken |
| Traces.TracesViaWalk | src/execution_trace.go:35-43 | the same for the traces below each successor |
| Traces.FinishedWalk | src/execution_trace.go:44-46 | with nothing left to enter, the current trace is recorded |
| Traces.EnteredWalk | src/execution_trace.go:39-41 | a trace found below a successor is a trace of the walk from the point |
| Traces.GeneratedTraces | src/execution_trace.go:19-47 | every trace is connected from the root, enters no point more than the limit, and is recorded only when no transition of its last point can be taken |
| Traces.Candidate | src/execution_trace.go:85-99 | blank source: a new origin at generation 0; known source: its origin at its generation plus the change; unseen source: a new origin recorded for the source, at the change |
| Traces.TraceStep | src/execution_trace.go:79-116 | NoOp changes nothing; only NoOp and AssignVarOp succeed |
| Traces.AssignVarStep | src/execution_trace.go:81-111 | blank target: nothing changes; otherwise a warning is added exactly when the candidate is stale (a NextGen not beyond its origin's latest generation), the target gets the candidate either way, and latest generations are raised only for the candidate's origin, never lowered |
| Traces.ValidateTrace | src/execution_trace.go:74-119 | the loop computes TraceWarnings |
| Traces.RunFailureSticks | src/execution_trace.go:114-115 | once a step fails the whole trace fails |
| Traces.TraceStepFresh | src/execution_trace.go:86-95 | every origin in the maps is below the value counter, after each step |
| Traces.RunFresh | src/execution_trace.go:74-119 | the same for whole runs |
| Traces.NewOriginNeverWarns | src/execution_trace.go:86-95 | an assignment from blank, or from an unseen source, never warns, and starts a new origin (at generation 0 from blank) |
| Traces.RunWarnings | src/execution_trace.go:101-108 | every warning carries the trace and points at the target point of an earlier NextGen assignment |
| Traces.RunFails | src/execution_trace.go:114-115 | a trace fails exactly when some operation is neither an assignment nor a NoOp |
| Traces.ReassignedNextGensAreNotStale | src/execution_trace_test.go:29-41 | the test's ten-step trace yields no warnings |
| Traces.ReassignedFirstSteps | src/execution_trace_test.go:31-35 | the lineage after the first five steps |
| Traces.AllWarnings | src/execution_trace.go:59-60 | succeeds exactly when every trace validates |
| Traces.Relabel | src/execution_trace.go:65-68 | each warning's point read through the map, zero when absent |
| Traces.KeptDistinct | src/execution_trace.go:61-64 | no kept point was warned at before, and no point is kept twice |
| Traces.KeptFirst | src/execution_trace.go:59-70 | each kept warning is the first at its point |
| Traces.KeptCovers | src/execution_trace.go:59-70 | every point warned at is kept |
| Traces.KeptWithin | src/execution_trace.go:61-64 | only warnings that were found are kept |
| Traces.AllWarningsFrom | src/execution_trace.go:59-60 | every warning comes from one of the traces, at a NextGen assignment of it |
| Traces.ValidatedOnePerPoint | src/execution_trace.go:54-72 | every kept warning comes from one of the traces; one warning per point, the first found at each point; every warned point covered |
| Traces.CombineStep | src/execution_trace.go:61-69 | one warning of the de-dup loop: at a point already warned at it is dropped, otherwise kept and its point marked |
| Traces.CombineTrace | src/execution_trace.go:59-60 | one trace of the de-dup loop: a failing trace fails the whole validation, otherwise its warnings become pending |
| Traces.ValidateExecution | src/execution_trace.go:54-72 | the loop computes Validated of the traces with limit 2: a failing trace fails it, otherwise the first warning per point, relabelled |
| ExecutionGraph.ExecutionGraph.NewNode | src/execution_graph.go:65-69 | id = number of nodes so far; stores the statement; ids stay dense from 0 |
| ExecutionGraph.ExecutionGraph.AddEdge | src/execution_graph.go:70-72 | appends the target to the end of the source's successors; other lists unchanged |
| ExecutionGraph.ExecutionGraph.constructor | src/execution_graph.go:58-63 | no nodes and no edges |
| ExecutionGraph.ExecutionGraphCursor.constructor | src/execution_graph.go:43-46 | a Nop root node is added and the cursor stands on it |
| ExecutionGraph.ExecutionGraph.GenerateTraces | src/execution_graph.go:85-90 | the traces are TracesFrom of the root |
| ExecutionGraph.ExecutionGraphCursor.Next | src/execution_graph.go:47-51 | a new node, an edge from the current node to it, and the cursor moved there |
| ExecutionGraph.generateTraces | src/execution_graph.go:92-118 | counters restored, and the traces appended are TracesFrom |
| ExecutionGraph.enter | src/execution_graph.go:103-108 | one successor below its limit: counters restored, traces of the walk from it |
| ExecutionGraph.TracesViaUnfold | src/execution_graph.go:102-110 | a successor at its limit is skipped; any other is entered with its counter raised |
| ExecutionGraph.TracesFromWalk | src/execution_graph.go:92-118 | every trace of the walk follows edges, respects the limit, and ends where no successor can be entered |
| ExecutionGraph.GeneratedTraces | src/execution_graph.go:85-118 | every trace starts at the root statement, follows the edges, enters no node more than the limit, and ends where no successor can be entered |
| ExecutionGraph.AssignedGen | src/execution_graph.go:135-147 | an unseen source is its own origin at generation 0; a known one moves by the change |
| ExecutionGraph.AssignmentStep | src/execution_graph.go:134-160 | an error exactly when NextGen does not exceed the origin's latest, carrying the origin and the source; the target gets the lineage either way |
| ExecutionGraph.UseErrors | src/execution_graph.go:161-175 | fails exactly when some argument position is out of range; otherwise at most one error per position checked |
| ExecutionGraph.Step | src/execution_graph.go:132-180 | Nop changes nothing; any other statement kind is a failure; errors only grow |
| ExecutionGraph.RunFailureSticks | src/execution_graph.go:178-179 | once a statement fails the whole trace fails |
| ExecutionGraph.ValidateTrace | src/execution_graph.go:128-183 | the loop computes TraceErrors |
| ExecutionGraph.UseStatementErrors | src/execution_graph.go:162-175 | the inner loop computes UseErrors |
| ExecutionGraph.AllTraceErrors | src/execution_graph.go:120-126 | succeeds exactly when every trace validates |
| ExecutionGraph.ValidateGraph | src/execution_graph.go:120-126 | the errors of all generated traces, concatenated in trace order |
| ExecutionGraph.AllTraceErrorsFailure | src/execution_graph.go:120-126 | the first failing trace's failure is the result |
| ExecutionGraph.StaleNextGenIsReported | src/execution_graph_test.go:10-19 | `a=new();b=a;a=next(a);b=next(b)` reports one error at statement 3, origin 0, variable 2 |
| ExecutionGraph.FreshOriginIsNotStale | src/execution_graph_test.go:20-28 | a fresh origin starts a new lineage: no error |
| ExecutionGraph.ReassignedAliasIsNotStale | src/execution_graph_test.go:29-38 | reassigning the alias detaches it: no error |
| ExecutionGraph.AliasThenNextGen | src/execution_graph_test.go:39-58 | the lineage after `a=new();b=a;a=next(a)` |
| ExecutionGraph.UseOfStaleAliasIsReported | src/execution_graph_test.go:39-58 | using the grown value is fine; using the stale alias is an error |
| ExecutionGraph.UseOfPreviousGenerationIsReported | src/execution_graph_test.go:60-69 | a value behind its origin's latest generation is stale when used |
| ExecutionGraph.LeafTrace | src/execution_graph.go:111-112 | a node without successors ends the trace |
| ExecutionGraph.OneSuccessorTraces | src/execution_graph.go:102-110 | one successor: entered while below the limit |
| ExecutionGraph.TwoSuccessorTraces | src/execution_graph.go:102-110 | two successors below the limit: their traces in edge order |
| ExecutionGraph.LinearGraphHasOneTrace | src/execution_graph_test.go:129-152 | a chain gives the one trace along it |
| ExecutionGraph.ForkGivesTracePerBranch | src/execution_graph_test.go:153-180 | a fork gives one trace per branch, in edge order |
| ExecutionGraph.SelfLoopRespectsLimit | src/execution_graph_test.go:181-202 | a self-loop gives `[s0,s1]` at limit 1 and `[s0,s1,s1]` at limit 2 |
| ExecutionGraph.ForkAfterChainTraces | src/execution_graph_test.go:73-88 | a chain then a fork gives one trace per branch, in edge order |
| ExecutionGraph.ForkAfterChainAtFork | src/execution_graph.go:102-110 | from the fork node, one trace per branch, in edge order |
| ExecutionGraph.ForkBranchErrors | src/execution_graph_test.go:73-97 | after `a=new();b=a;a=next(a)`, `c=b` is fine and `c=next(b)` is reported at node 4, origin 0, variable 2 |
| ExecutionGraph.TwoTraceErrors | src/execution_graph.go:120-126 | two traces that validate: their errors, first then second |
| ExecutionGraph.OneTraceErrors | src/execution_graph.go:120-126 | a single trace: the validation's result is that trace's |
| ExecutionGraph.SelfLoopNextGenIsNotStale | src/execution_graph_test.go:99-110 | `a=new();loop[a=next(a)]` at limit 2 reports nothing |
| ExecutionGraph.TwoNodeLoopTraces | src/execution_graph_test.go:111-125 | the two-node loop at limit 2 gives one trace that goes round twice |
| ExecutionGraph.TwoNodeLoopSecondRound | src/execution_graph.go:102-112 | from the second entry into the loop, the trace stops when its successor is at the limit |
| ExecutionGraph.TwoNodeLoopIsNotStale | src/execution_graph_test.go:111-125 | the two-node loop at limit 2 reports nothing |
| ExecutionGraph.ForkAfterNextGenReportsOne | src/execution_graph_test.go:73-97 | validating the fork graph from node 0 at limit 1 gives exactly one error: node 4, origin 0, variable 2, on the trace through node 4 |
| ExecutionGraph.ValidateForkAfterNextGen | src/execution_graph_test.go:73-97 | the test's graph, built with NewNode and AddEdge and validated with ValidateGraph, gives that one error |

## Left out

- Parsing, the `go/ast` package, `token.FileSet` and positions. The
  translator works on the small `Ast` datatype, which covers the cases
  of the two switches. Positions are an opaque datatype. The translator
  therefore records no source references: the `...WithRef` calls at
  src/execution_from_ast.go lines 73, 79, 170, 231, 258, 264, 326, 339,
  349 and 367 are modelled as their plain forms (`ApplyNext`,
  `AcquirePoint`), and the `AssignRef` at line 391 is left out.
- The command-line driver, package loading and warning printing
  (main.go). These are I/O.
- The test scaffolding in utils/. Each `Assertf` call site is modelled as
  an `Err` result, or as a precondition where the caller guarantees it.
- `Execution.String` and `ExecutionTrace.String`: debug output only.
- Dead or unfinished code:
  - `f()`;
  - the commented-out composite-literal case;
  - the empty `else if true {}`;
  - the unused `ChangeVarGenOp`;
  - everything after the `panic` in `SimplifyExecution`.
- Go map iteration order. Where the source ranges over a map, the model
  takes the visiting order as an explicit `order` parameter
  (`Simplification.CollectAssigns`) or picks keys one by one
  (`Factorization.KeepLeafs`).
- Slice backing-array sharing between `append` results in `PushScope` and
  the selector extension of `executionFromVarComposition`. Frames and
  paths are immutable sequences.
- Factorization.FactorizeAssignments: the closure does not terminate in
  general, for example on `b = a; a.x = b`. The model runs with a `budget`
  of recorded entries and fails when the budget runs out. It proves that
  this happens only when every closed set of seeds is at least that large.
- Factorization.JoinTo: the capacity check on the workspace is not
  modelled, because a sequence has no capacity.
- Strings are sequences of characters, not bytes. The visited key of the
  factorization is the comma-joined path. It is proved injective only
  for field names that are non-empty and hold no comma.
- Builder.NewExecutionBuilder takes the boolean of
  src/execution_builder.go:15. The call with no argument at
  src/simplification.go:38 is modelled as references disabled. The call
  with `fset` at src/execution_from_ast.go:390 is also modelled as
  references disabled, because the model has no positions (see the first
  line of this section).
- FromAst.ExecutionFromFunc: it builds with references disabled and does
  not record the function's position at the root point
  (src/execution_from_ast.go:391), because the `Ast` datatype carries no
  positions. Its return statements follow the corrected `ResultOutputs`
  rule (see Findings).
- FromAst.ReturnSpec, FromAst.TranslateReturn: the translator uses the
  corrected `FromAst.ResultOutputs`, not src/execution_from_ast.go:351-354
  as written. The rule as written is modelled as
  `FromAst.ResultOutputsAsWritten`, and
  `FromAstProperties.ReturnOfMultiValueCall` shows where the two differ.
  `FromAst.StmtSpec`, `FromAst.TranslateStmt` and `FromAst.FuncSpec`
  inherit the corrected rule.
- Simplification.SimplifyExecution: it collects and factorizes, then fails
  as the source does. The per-point rewrite (`SimplifyPoint`) is modelled
  on its own, as written. In the source, the value `ConnectTo` returns
  is dropped and the rewrite does not recurse into the target point.
- Traces.ValidateExecution takes the simplified graph and the map from
  simplified to original points as parameters. The simplification that
  would produce them stops with a panic. The end-to-end tests over real Go
  functions (src/execution_trace_test.go:11-27 and the later ones) need the
  parser and that simplification, so they are not modelled.
- The `VarGen` type that src/execution_trace.go uses is not declared in
  the source files. It is modelled as an origin id and a generation, like
  `VariableGen` in src/execution_graph.go.
- Simplification.OutputParts: a slot beyond the call's output variables
  would index out of range in Go. It is modelled as an error, and
  `AppendOutput` reports that error.
- FactorizationRulesModel.FactorizeSelector: `sort.Slice` is not stable.
  The model sorts by insertion and proves that any sorted permutation is
  the same list, so the choice does not matter.
- The generic `TopologyOrder` takes `next` as a map from vertices to
  successor lists. Vertices missing from the map have no successors.

## Findings

| source | as written | input that shows it | evidently intended | confidence | as-written member | corrected member |
|---|---|---|---|---|---|---|
| src/execution_from_ast.go:351-354 | `resultOutputs` becomes `returnOutputs` only when `len(s.Results) > 1 && returnOutputs == 1`. The count check at line 346 has already ruled that case out, so every result is translated for one value | `return f()` in a function with two results: the call gets one output variable and the ReturnVarsOp names one variable instead of two | a single returned expression in a function with several results is translated for all of them (`len(s.Results) == 1 && returnOutputs > 1`) | not executed | FromAst.ResultOutputsAsWritten, FromAstProperties.ReturnOfMultiValueCall | FromAst.ResultOutputs, FromAst.ReturnSpec, FromAst.TranslateReturn |
