# Silk compiler: verified models

A Dafny model of the parts of the Silk compiler whose correctness is hardest to see from the code, with
proofs of what those parts are for. To verify all of it, run `dafny verify dfyconfig.toml`.

1. **The evaluator's activation machine.** Functions run as resumable activations that may call, suspend and
   hand over a child, or relay a suspension. `Machine` models bodies as defunctionalised generators over a small
   call/suspend/relay/return language together with the driver; `PlainEvaluation` is ordinary recursive
   evaluation, in which a suspension is a call, with and without the storage of coroutine frames counted.
   `MachineMeaning` says instruction by instruction what both mean. `MachineTransparency` keeps a simulation between the machine and the metered evaluation through every unwind, `MachineAccounting` keeps the books of the coroutine frames, `MachineRuns` states the results for
   whole runs, and `Evaluator` is the driver with its fields updated in place.
2. **Conformance coherence and proof search.** `Types`, `TypeTerms` (instances, parts and occurrences),
   `Bindings` (triangular bindings), `ConformanceHead` and `ConformanceOrder` (normalization), `Overlap` (unification
   over a mutable binding table), `ConformanceTermination`, `ConformanceProof`, `ConformanceDerivation` (what counts as
   a proof, and as a reason there is none), `ProofSearch` and `ProofMemo`.
3. **The Tiny compiler.** `TinyLexer`, `TinyGrammar`, `TinyConcrete` (trees with their parentheses),
   `TinyParser`, `TinyRoundTrip`, `TinyReading`, `TinyProgramText`, `TinyProgramReading`, `TinyRefusals`, `TinyRendering`
   for text;
   `TinyProgram`, `TinyArithmetic` and `TinyIr` for the meanings of programs and of blocks with phis; `TinyCompiler`,
   `TinyAcceptance`, `TinyLowering`, `TinySimulation`, `TinyWellFormed`, `TinyBuilder` for lowering; `TinyCompile` from source text to
   the meaning of the emitted module.
4. **The segmented coroutine stack.** `Words` (64-bit words and their bitwise operations), `CoroutineStack`,
   `CoroutineFrames`, `CoroutineRuntime`.
5. **Places, raw storage and cleanup.** `Storage`, `Cleanup`, `CleanupMeaning`, `CleanupRelease`,
   `CleanupContainers`, `CleanupExecution`; `Place`, `PlaceMeaning`, `PlaceLaws`, `PlaceUpdates`, `PlaceAssign`, `PlaceWalk`, `PlaceReads`; `BufferCopy`;
   `CheckedRuns`.
6. **Fixed-width arithmetic and finite rows.** `IntegerArithmetic`, `IntegerLaws`; `FiniteRow`, `RowLaws`,
   `RowMaking`.

What a theorem says never rests on the helper it is about: steps of a place, instructions, plans, requirements, parse
trees, words and numbers are also described without the functions that compute them, in the modules named for meanings
and derivations, and those functions are proved to compute just that.

Where the source updates state in place, the model is a class whose methods are proved equal to a function of the
old state, and the laws are lemmas about that function.

Where the code does less than a reader might expect, the model keeps the code's behaviour, and lemmas give an input that
shows it and say when it happens:

- Reading a place and copying into raw storage look the elements of a slice up straight in the cell the slice borrows
  from, without following the path the slice keeps into that cell; checks and writes do follow it. A read agrees with
  the walk, and a copy moves the slice's elements, exactly when the slice keeps no such path (`ReadsFollowExactly`,
  `CopiesTheSliceExactly`). One whole read through such a slice differs from the walk unless it takes a field past the
  slice, and only then can the two agree by chance (`ReadsAgreeExactly`, `ReadsCanAgreeByChance`). The first row of a
  matrix, borrowed and then read or copied, yields rows (`ReadSelectsARow`, `CopyMovesRows`).
- Borrowing an array that lies behind a slice gives a slice with no elements; one inside the local itself gives exactly
  the array's (`BorrowedElementsExactly`).
- A place that ends in static data resolves but cannot be replaced (`CheckedUpdatesAreLawful`).
- A write matches fields by ordinal alone, the walk by the whole identity, so a write leaves the other fields alone
  exactly when those of its ordinal hold the value already (`RepeatedOrdinalIsOverwritten`, `BothAreOverwritten`). The
  compiler gives the fields of one struct distinct ordinals.
- An assignment whose path last reaches into the cell it is rooted in changes nothing (`AssignmentCanBeLost`), and a
  path that reaches into one storage twice may lose its write (`AliasedUpdateCanBeLost`). Both need a borrow stored
  inside the data it borrows. The language forbids storing borrows, a program that stores none never comes to hold one
  (`RunsStayChecked`), and without them neither arises (`CheckedPathsReachOnce`): there the laws hold for every place
  (`CheckedUpdatesAreLawful`, `CheckedAssignment`, `EveryAssignmentTakesEffect`).
- Row difference distributes over union exactly when what it removes is decided by the collision key
  (`DifferenceDistributesExactly`, `DifferenceNeedNotDistribute`).

A stored effect whose cleanup was never resolved is skipped silently by the evaluator, while a stored callable in the
same position is an internal error; the model keeps both behaviours.

## Model

| member | source | states |
|---|---|---|
| MachineRuns.SuspensionIsTransparent | packages/compiler/src/BootstrapEvaluation.ts:3468-3722 | Every run halts, never with a transfer, and with exactly the step and the store of metered plain evaluation: it runs out of frame storage exactly where that does, and otherwise gives what plain nested calls give. It cannot run out when the limit has room for the largest frame once per permitted step. |
| PlainEvaluation.MeterIsPlain | packages/compiler/src/BootstrapEvaluation.ts:3494-3545 | Counting frames changes nothing in a plain evaluation but that a suspension may run out of them. |
| MachineMeaning.EvaluateMeans | packages/compiler/src/BootstrapEvaluation.ts:262-338 | Plain evaluation, instruction by instruction: a call starts its callee with parameter i holding argument i and nothing else set, and goes on after the call with the callee's value in its destination and every other local as before. |
| MachineMeaning.OnlyEvaluateMeans | packages/compiler/src/BootstrapEvaluation.ts:262-338 | Whatever satisfies those rules is plain evaluation. |
| MachineMeaning.RunBodyMeans | packages/compiler/src/BootstrapEvaluation.ts:262-338 | Running a body takes the same rules up to its next request, which names the target and the values of the arguments. |
| MachineMeaning.ResumeBodyMeans | packages/compiler/src/BootstrapEvaluation.ts:284-286 | A waiting body given a value goes on after its call with that value in the destination; a transfer is relayed with the recorded state or, like a failure, handed on. |
| MachineMeaning.ChargeAllMeans | packages/compiler/src/BootstrapEvaluation.ts:3494-3520 | Charging takes the sizes the functions declare, all of them if they fit, and otherwise names the first that does not. |
| MachineMeaning.ChargingRecords | packages/compiler/src/BootstrapEvaluation.ts:3494-3545 | A charged caller's frame has its declared size, a fresh ticket and the recorded resume point; a frame it had keeps ticket and size and moves its point. |
| MachineMeaning.TransfersAreDistinct | packages/compiler/src/BootstrapEvaluation.ts:3633-3665 | No two transfers in progress are the same, so a relay cannot mistake another's for its own. |
| MachineRuns.RunStarts | packages/compiler/src/BootstrapEvaluation.ts:3468-3492 | A run starts as one call of its entry that holds nothing, and plain evaluation as the same call. |
| MachineRuns.EveryRun | packages/compiler/src/BootstrapEvaluation.ts:3569-3631 | After any number of iterations the machine is in a consistent state whose remaining meaning is the metered plain one, or has halted with that answer; no internal error is reachable. |
| MachineRuns.FramesAreAccounted | packages/compiler/src/BootstrapEvaluation.ts:3478-3568 | In every reachable state the byte counter is the sum of the frames held by live and pending activations and within the maximum, each frame has the size its function declares, each open ticket is held by exactly one activation, and an activation's depth is its position in the logical stack. |
| MachineRuns.RunsHalt | packages/compiler/src/BootstrapEvaluation.ts:3569-3722 | From every consistent state the machine halts: an iteration spends a step, ends an unwind or shortens the stack it works on. |
| MachineRuns.AdvanceRanks | packages/compiler/src/BootstrapEvaluation.ts:3569-3722 | One iteration lowers the rank (steps left, whether unwinding, height). |
| MachineTransparency.AdvanceKeeps | packages/compiler/src/BootstrapEvaluation.ts:3581-3720 | One iteration keeps the invariant and the meaning of the machine, whichever request the top activation makes. |
| MachineTransparency.DoneKeeps | packages/compiler/src/BootstrapEvaluation.ts:3581-3631 | A finished activation resumes the caller below it, or the first pending activation of the innermost context that has one, as returning from a plain call would. |
| MachineTransparency.OriginKeeps | packages/compiler/src/BootstrapEvaluation.ts:3633-3660 | A suspension that starts unwinding leaves the logical stack and its meaning unchanged. |
| MachineTransparency.RelayKeeps | packages/compiler/src/BootstrapEvaluation.ts:3661-3678 | Each relay moves one caller into the pending list without changing the logical stack or its meaning. |
| MachineTransparency.PublishKeeps | packages/compiler/src/BootstrapEvaluation.ts:3494-3568 | Publishing a fully unwound transfer gives exactly the frames a plain suspension would, runs out exactly where it would, and starts the child where a plain call would have. |
| MachineTransparency.ChargingIsExact | packages/compiler/src/BootstrapEvaluation.ts:3495-3545 | Charging a pending list gives a frame to exactly the callers that recorded a resume state and had none, and fails exactly at the first whose frame does not fit. |
| MachineTransparency.CallKeeps | packages/compiler/src/BootstrapEvaluation.ts:3679-3720 | A call pushes its activation, or blocks at exactly the depth at which the plain evaluator does. |
| MachineTransparency.RunBodyAgrees | packages/compiler/src/BootstrapEvaluation.ts:262-338 | Running a body to its next request agrees with the plain evaluator up to that point. |
| MachineAccounting.AdvanceBooks | packages/compiler/src/BootstrapEvaluation.ts:3478-3568 | One iteration keeps the ledger replayed from the frame events in agreement with the frames held; a run that ends with a value has completed every ticket and holds no bytes. |
| MachineAccounting.ChargingBalances | packages/compiler/src/BootstrapEvaluation.ts:3495-3545 | Charging a pending list gives each uncharged entry with a frame state one fresh ticket, keeps existing frames, and keeps the counter exact even when it fails halfway. |
| Evaluator.ExecutionMachine.Iterate | packages/compiler/src/BootstrapEvaluation.ts:3569-3720 | One pass of the driver's loop, over its fields, is one iteration of the machine. |
| Evaluator.ExecutionMachine.ExecuteMachine | packages/compiler/src/BootstrapEvaluation.ts:3468-3722 | The driver returns, with its store, exactly what metered plain evaluation gives, which is what plain evaluation gives unless frame storage runs out. |
| TriangularBindings.SolveAfterPass | packages/compiler/src/ConformanceHead.ts:224-232 | One simultaneous substitution pass does not change what a term solves to. |
| TriangularBindings.PassFreesOneMore | packages/compiler/src/ConformanceHead.ts:224-232 | Each pass frees the term of at least one more bound parameter, so as many passes as bindings suffice. |
| TriangularBindings.FixedPointIsSolved | packages/compiler/src/ConformanceHead.ts:224-243 | A term a pass leaves alone mentions no bound parameter and is its own solution, so the occurs check sees the final term. |
| TriangularBindings.TriangularBind | packages/compiler/src/ConformanceHead.ts:245-256 | Adding a binding that passed the occurs check keeps the bindings acyclic. |
| Overlap.Bindings.Resolve | packages/compiler/src/ConformanceHead.ts:203-222 | Chasing variables through the table ends, at a term that solves to the same and is no bound variable. |
| Overlap.Bindings.ResolveDeep | packages/compiler/src/ConformanceHead.ts:224-232 | The loop of one pass more than there are bindings reaches the solution of the term, a fixed point free of bound parameters. |
| Overlap.Bindings.Bind | packages/compiler/src/ConformanceHead.ts:245-256 | Binding keeps the table acyclic, equates the two sides and loses no unifier; a refused binding changes nothing and has no unifier. |
| Overlap.Bindings.Unify | packages/compiler/src/ConformanceHead.ts:374-436 | Unification terminates without fuel; success solves both sides alike and loses no unifier, failure means there was none. |
| Overlap.Bindings.UnifyArguments | packages/compiler/src/ConformanceHead.ts:342-436 | The same for argument lists, left to right, stopping at the first failure. |
| Overlap.MayOverlap | packages/compiler/src/ConformanceHead.ts:445-456 | Two heads are reported to overlap exactly when some instantiations of their binders make both capability and provider equal. |
| Overlap.OverlapIsUnifiability | packages/compiler/src/ConformanceHead.ts:438-456 | Overlap is unifiability once the second head's binders are renumbered under the opposing owner. |
| Overlap.OverlapIsAlphaInvariant | packages/compiler/src/ConformanceHead.ts:150-194 | Normalizing either head does not change whether they overlap. |
| ConformanceHead.MakeIsAlphaInvariant | packages/compiler/src/ConformanceHead.ts:85-194 | Any injective renaming of binders gives the same normalized head. |
| ConformanceHead.MakeIsIdempotent | packages/compiler/src/ConformanceHead.ts:150-194 | Normalizing twice is normalizing once. |
| ConformanceOrder.MakeNumbersInOrder | packages/compiler/src/ConformanceHead.ts:150-194 | The binders of a normalized head are numbered from zero in the order in which its own terms first mention them. |
| ConformanceHead.KeyIgnoresRequirements | packages/compiler/src/ConformanceHead.ts:103-197 | Changing the requirements never changes the identity of the head. |
| ConformanceHead.KeyIsAlphaEquivalence | packages/compiler/src/ConformanceHead.ts:196-197 | Two heads have the same identity exactly when an injective renaming of binders takes one to the other. |
| ConformanceTermination.TerminatesExactly | packages/compiler/src/ConformanceHead.ts:499-553 | A head has no termination failure exactly when every requirement's provider lies strictly inside its own, no parameter is mentioned more often than in the head, and a requirement of the head's own interface leaves its closed arguments as they are. |
| ConformanceTermination.FailuresAre | packages/compiler/src/ConformanceHead.ts:499-553 | Exactly those failures are listed that say truly which of the three a requirement breaks, with its parameter and counts or its argument. |
| ConformanceTermination.NormalDecreases | packages/compiler/src/ConformanceHead.ts:150-194 | Normalizing a head does not change whether it terminates. |
| ConformanceTermination.DecreasingDescends | packages/compiler/src/ConformanceHead.ts:489-498 | A terminating head has every requirement's provider a strict subterm of its own, with no binder of its own invention. |
| TypeTerms.InstanceIsSubstitute | packages/compiler/src/ConformanceProof.ts:320-321 | Substitution replaces every mapped parameter and changes nothing else. |
| TypeTerms.DepthMeans | packages/compiler/src/ConformanceHead.ts:489-498 | A term's depth is the number of terms on its longest path. |
| ConformanceProof.InferSound | packages/compiler/src/ConformanceProof.ts:48-73 | One-sided matching extends its input and instantiates the pattern to the actual term. |
| ConformanceProof.InferComplete | packages/compiler/src/ConformanceProof.ts:48-73 | It finds a substitution whenever one exists. |
| ConformanceProof.CoversExactly | packages/compiler/src/ConformanceProof.ts:48-73 | A usable conformance is a candidate exactly when some instantiation of its head is the goal. |
| ConformanceProof.RequirementDescends | packages/compiler/src/ConformanceProof.ts:318-349 | Each requirement goal's provider is a strict subterm of its parent's, smaller in size and in depth. |
| ConformanceProof.RequirementStaysClosed | packages/compiler/src/ConformanceProof.ts:318-349 | The requirements of a ground goal are ground. |
| ProofSearch.FindOverlapping | packages/compiler/src/DeclarationCompletion.ts:484-560 | The admission loop reports an overlap exactly when an accepted head overlaps the new one. |
| ProofSearch.AdmitConformances | packages/compiler/src/DeclarationCompletion.ts:484-580 | Admission passes over damaged declarations and foreign implementations of interfaces and services, and marks each other conformance terminating exactly when its requirements decrease, and coherent exactly when it overlaps no coherent one before it. |
| ProofSearch.AtMostOneCandidate | packages/compiler/src/ConformanceProof.ts:48-73 | Among pairwise disjoint heads every goal has at most one candidate. |
| ProofSearch.SearchAnswers | packages/compiler/src/ConformanceProof.ts:261-352 | Below any chain of larger goals the search terminates: a proof it returns derives every declared requirement, instantiated, in turn, and a failure is that of the first goal that has no witness or more than one, with the chain that asked for it. |
| ConformanceDerivation.CoversIsFor | packages/compiler/src/ConformanceProof.ts:48-73 | A usable declaration covers a goal with a substitution exactly when that replaces the parameters of its head to give the goal, and binds no others. |
| ConformanceDerivation.CandidatesAreInOrder | packages/compiler/src/ConformanceProof.ts:43-73 | There are as many candidates as declarations for the goal, and the first is the first. |
| ConformanceDerivation.CopyIsDerived | packages/compiler/src/ConformanceProof.ts:275-302 | A copy goal is proved exactly where copying is available, naming the first declaration for it if there is one. |
| ProofSearch.NoActiveCycle | packages/compiler/src/ConformanceProof.ts:269-316 | The active-cycle answer never occurs, a proof is no higher than its provider is deep, and among coherent conformances no ambiguity is reported. |
| ProofSearch.DerivationIsFound | packages/compiler/src/ConformanceProof.ts:261-352 | Every derivation is the proof the search returns for its goal. |
| ProofSearch.SearchIsExact | packages/compiler/src/ConformanceProof.ts:261-352 | The search returns a proof exactly when it is a derivation of the goal over the declarations: each node an instance of a declared pair, each child of that declaration's requirement. |
| ProofMemo.ProofIgnoresActive | packages/compiler/src/ConformanceProof.ts:261-352 | A proved answer does not depend on the goals in progress. |
| ProofMemo.Memo.ProveGoal | packages/compiler/src/ConformanceProof.ts:261-352 | From any memo of genuine proofs, the memoised search returns what the memo-free one does, stores only proved goals and keeps the memo genuine. |
| ProofMemo.Prove | packages/compiler/src/ConformanceProof.ts:361-370 | Proving one goal answers as the memo-free search from an empty chain, and the answer is sound. |
| Decimal.ValueOfDigits | examples/tiny-language/src/Parser.ts:64-66 | The decimal numeral a number is written with reads back as that number. |
| TinyExpression.RenderWithoutSpans | examples/tiny-language/src/Expression.ts:83-98 | Rendering sees nothing of the spans. |
| TinyRendering.RendersExactly | examples/tiny-language/src/Expression.ts:83-98 | Two trees over identifiers are rendered alike exactly when they are the same up to spans. |
| TinyLexer.Tokenize | examples/tiny-language/src/Lexer.ts:32-81 | The nested loops produce the tokens of the recursive lexer, or its first error. |
| TinyRoundTrip.LexLayout | examples/tiny-language/src/Lexer.ts:32-81 | Words laid out with blanks where they would run together lex to exactly those words. |
| TinyRoundTrip.ReadsWhole | examples/tiny-language/src/Parser.ts:59-141 | Written with only the parentheses the precedence table requires, a tree is parsed back whole, up to its spans, and the parse stops right after it. |
| TinyRoundTrip.RoundTrip | examples/tiny-language/src/Parser.ts:17-141 | Writing, lexing and parsing an expression returns it up to spans, with the same rendering. |
| TinyRoundTrip.EveryTreeHasText | examples/tiny-language/src/Parser.ts:17-141 | Every tree over identifiers has such a text. |
| TinyConcrete.InternalSpelled | examples/tiny-language/src/Parser.ts:59-141 | Whatever the expression rule parses spells a well formed concrete tree, parentheses included, that means what was returned. |
| TinyConcrete.ReadsSpelled | examples/tiny-language/src/Parser.ts:59-141 | Every well formed concrete tree, with any parentheses, is parsed whole to what it means. |
| TinyConcrete.LayersAreLevels | examples/tiny-language/src/Parser.ts:17-25 | The precedence table is the layered grammar: comparisons of sums, sums of products, products of unaries, each joined to the left. |
| TinyConcrete.AcceptsExactly | examples/tiny-language/src/Parser.ts:17-141 | The parser accepts exactly the token lists that spell a tree of that grammar, and returns what the tree means. |
| TinyConcrete.ParsedIsPlaced | examples/tiny-language/src/Parser.ts:59-141 | Every part of what is parsed spans from its first token to its last, parentheses apart. |
| TinyReading.LexStands | examples/tiny-language/src/Lexer.ts:32-81 | Tokens stand in the source in order at the places they name, with only blanks between, and the end of input at its end. |
| TinyReading.LexFailsExactly | examples/tiny-language/src/Lexer.ts:60-81 | A text is refused exactly when some character is not of the language, and the first such character is named with its place. |
| TinyRefusals.ExpressionRefuses | examples/tiny-language/src/Parser.ts:27-58 | A refused expression is told the kind and place of a token it has. |
| TinyRefusals.ProgramRefuses | examples/tiny-language/src/Parser.ts:143-200 | So is a refused program, or else the name and place of a parameter that repeats an earlier one. |
| TinyReading.LexesExactly | examples/tiny-language/src/Lexer.ts:32-81 | A text lexes to given words exactly when it is one of their layouts. |
| TinyReading.ReadsExactly | examples/tiny-language/src/Parser.ts:179-186 | A text is read exactly when it is a layout of a tree of the grammar, and the result is what the tree means. |
| TinyReading.FewestPairs | examples/tiny-language/src/Parser.ts:17-25 | Of all well formed trees with one meaning, the written one opens the fewest parentheses, and it alone so few. |
| TinyReading.WritingIsTheOnlyMinimalText | examples/tiny-language/src/Parser.ts:17-141 | The texts that read as an expression open at least the parentheses of its written form, and those that open no more are exactly its layouts. |
| TinyReading.EveryPairIsNeeded | examples/tiny-language/src/Parser.ts:17-141 | Leaving any pair of parentheses out of a written expression leaves a text that is not read, or read as another expression. |
| TinyParser.State.Primary | examples/tiny-language/src/Parser.ts:59-96 | The in-place rule consumes and returns what the functional rule does. |
| TinyParser.State.IfExpression | examples/tiny-language/src/Parser.ts:98-108 | Likewise for conditionals. |
| TinyParser.State.Unary | examples/tiny-language/src/Parser.ts:110-119 | Likewise for prefix minus. |
| TinyParser.State.Binary | examples/tiny-language/src/Parser.ts:121-135 | The precedence-climbing loop computes what the recursive operator rule does. |
| TinyParser.State.Internal | examples/tiny-language/src/Parser.ts:137-141 | Likewise for any expression. |
| TinyParser.State.Definition | examples/tiny-language/src/Parser.ts:143-177 | The in-place function-definition rule, with its parameter loop and duplicate check, does what the functional rule does. |
| TinyParser.ReadExpression | examples/tiny-language/src/Parser.ts:179-186 | Reading a text gives what the lexer and the grammar make of it, or their first error; any layout of a written tree reads back as that tree. |
| TinyParser.ReadProgram | examples/tiny-language/src/Parser.ts:188-200 | Reading a text gives what the lexer and the grammar make of it, or their first error; any layout of a written program reads back as that program. |
| TinyProgramText.ProgramRoundTrip | examples/tiny-language/src/Parser.ts:143-200 | Lexing and parsing any layout of a written program returns its functions, up to the spans in their bodies. |
| TinyProgramText.ReadsParameters | examples/tiny-language/src/Parser.ts:150-171 | A spelled list of distinct parameters is read in order. |
| TinyProgramReading.ParsesExactly | examples/tiny-language/src/Parser.ts:143-200 | The parser accepts exactly the token lists that spell definitions with distinct parameters and bodies of the grammar, and returns what they mean. |
| TinyProgramReading.ReadsProgramExactly | examples/tiny-language/src/Parser.ts:188-200 | A text is read as a program exactly when it is a layout of such definitions. |
| TinyProgramText.EveryProgramHasText | examples/tiny-language/src/Parser.ts:143-200 | Every program of identifiers and distinct parameters has such a layout. |
| TinyLowering.NumberOfFresh | examples/tiny-language/src/Compiler.ts:63-67 | The counter can be read off a fresh name, so fresh names never clash. |
| TinyLowering.LowerGrows | examples/tiny-language/src/Compiler.ts:81-263 | Lowering ends in an open block and changes only the block it started in, by appending, and blocks made since. |
| TinyLowering.ArmsEndApart | examples/tiny-language/src/Compiler.ts:239-252 | The two branches of a conditional end in different blocks. |
| TinyLowering.BinaryEmits | examples/tiny-language/src/Compiler.ts:103-215 | A binary operation appends the instruction of its operator, on its operands in order, to a register named after it; a comparison is then widened. |
| TinySimulation.StepEmitted | examples/tiny-language/src/Compiler.ts:103-115 | The instruction just emitted is the next one the finished blocks execute. |
| TinySimulation.JoinRuns | examples/tiny-language/src/Compiler.ts:239-260 | From the block where a branch ended, control reaches the merge block and the phi takes that branch's value. |
| TinySimulation.LowerRuns | examples/tiny-language/src/Compiler.ts:81-263 | From where the builder stood to where it stands, the blocks compute the expression's value and keep all older registers; they are undefined exactly when the expression is. |
| TinySimulation.LoweringPreservesMeaning | examples/tiny-language/src/Compiler.ts:265-346 | Every function of an accepted program, on all arguments and for every bound on nested calls, returns from its blocks exactly what its source evaluates to, or is undefined in both. |
| TinyWellFormed.LowerSound | examples/tiny-language/src/Compiler.ts:81-263 | Lowering keeps phis exact, targets existing and names distinct, adds no jump to an older block, and terminates everything it touched but the block it stands in. |
| TinyWellFormed.LoweredFunctionIsWellFormed | examples/tiny-language/src/Compiler.ts:318-342 | In every lowered function each block has its terminator, every register and every block tag is defined once and none is both, and each phi stands first and lists exactly the blocks that branch to it, once each. |
| TinyBuilder.LoweringContext.LowerExpression | examples/tiny-language/src/Compiler.ts:81-263 | The recursive in-place lowering leaves the body, the insertion point and both counters as the lowering function does, or reports the same first error. |
| TinyBuilder.LoweringContext.LowerConditional | examples/tiny-language/src/Compiler.ts:217-261 | The same for a conditional, whose phi predecessors are the blocks current when its branches ended. |
| TinyArithmetic.WrapMeans | examples/tiny-language/src/Compiler.ts:103-160 | The wrapped result is the one 32-bit number congruent to the exact one. |
| TinyArithmetic.DivisionMeans | examples/tiny-language/src/Compiler.ts:136-152 | Division is defined exactly where its quotient, truncated toward zero, is a 32-bit number. |
| TinyAcceptance.PositionsMean | examples/tiny-language/src/Compiler.ts:322-326 | A parameter's name stands for the last argument of that name. |
| TinyAcceptance.LowerAccepts | examples/tiny-language/src/Compiler.ts:81-263 | An expression is lowered exactly when its names are parameters, its calls match the arity of a function and its literals are 32-bit numbers; otherwise the error names the first thing wrong in the order of evaluation. |
| TinyAcceptance.BuildAcceptsExactly | examples/tiny-language/src/Compiler.ts:271-343 | A program is accepted exactly when its function names differ, main takes no parameter and every body is in scope; otherwise the error names the first repeated function, or main, or the first problem of the first body that has one. |
| TinyBuilder.Build | examples/tiny-language/src/Compiler.ts:265-346 | Building accepts exactly those programs, and what it builds is well formed and means what the program means. |
| TinyCompile.Compile | examples/tiny-language/src/Compiler.ts:356-372 | From source text: a text is accepted exactly when it reads as a well scoped program, and the module it becomes computes that program's meaning, which is also that of every program the text writes. |
| Words.PowerOfTwoTest | packages/compiler/src/CoroutineRuntime.ts:40 | Clearing the lowest set bit leaves zero exactly for powers of two. |
| Words.MaskRoundsDown | packages/compiler/src/CoroutineRuntime.ts:62-63 | Masking off the low bits rounds down to a multiple of the power of two. |
| CoroutineFrames.PayloadFits | packages/compiler/src/CoroutineRuntime.ts:61-68 | In wrapping 64-bit arithmetic the payload of a request that fits is the first aligned address past the header, and it ends inside the segment. |
| CoroutineFrames.LiveFramesDisjoint | packages/compiler/src/CoroutineRuntime.ts:38-70 | No two live frames overlap, headers included. |
| CoroutineFrames.SegmentsHoldFrames | packages/compiler/src/CoroutineRuntime.ts:72-85 | Every segment but the bottom one holds a live frame. |
| CoroutineFrames.PlanIsExact | packages/compiler/src/CoroutineRuntime.ts:39-50 | The size, limit and capacity tests decide exactly whether a frame aligned to the larger of the request and 8 can be had; no sum in them wraps unnoticed. |
| CoroutineFrames.PushKeeps | packages/compiler/src/CoroutineRuntime.ts:38-70 | A push succeeds exactly when it can, never for an alignment above 8 that is no power of two; the payload is then a multiple of 8 and of the alignment asked for, the new frame joins the live ones and every older header survives; a failed push changes nothing. |
| CoroutineFrames.AlignedAsAsked | packages/compiler/src/CoroutineRuntime.ts:39-63 | A payload is a multiple of whatever power of two was asked for. |
| CoroutineFrames.PopLatestKeeps | packages/compiler/src/CoroutineRuntime.ts:72-85 | Popping the latest frame never aborts and leaves exactly the frames below it. |
| CoroutineFrames.PopUndoesPush | packages/compiler/src/CoroutineRuntime.ts:38-85 | Popping what was just pushed restores the segments and the byte counter, except that a first segment stays allocated. |
| CoroutineFrames.EveryRunIsSafe | packages/compiler/src/CoroutineRuntime.ts:26-85 | Over every sequence of pushes and latest-frame pops nothing aborts, live frames are aligned as each was asked for, in bounds and disjoint, no header lies outside the allocated segments, the counter is the sum of capacities and within the limit, and a drained stack keeps at most one segment. |
| CoroutineFrames.StepKeeps | packages/compiler/src/CoroutineRuntime.ts:38-85 | Each push of a run adds a frame of the size and alignment asked for exactly when it can be had, and each pop takes the latest. |
| CoroutineFrames.RunMeans | packages/compiler/src/CoroutineRuntime.ts:26-85 | A run is its operations one after another, up to an abort. |
| CoroutineRuntime.Runtime.PushFrame | packages/compiler/src/CoroutineRuntime.ts:38-70 | The push over thread-local fields is the push function, succeeds exactly when it can, aligns as asked and keeps the invariant. |
| CoroutineRuntime.Runtime.PopFrame | packages/compiler/src/CoroutineRuntime.ts:72-85 | The pop over thread-local fields is the pop function and never aborts on the latest frame. |
| CleanupRelease.SettledExact | packages/compiler/src/BootstrapEvaluation.ts:504-690 | Releasing through a plan whose hooks release part of what their owner owes and leave the rest, or stop because it cannot be released: completed exactly when the tickets still owed are live and distinct, each is then released once, by hook or by plan, and no other of the allocations in question; otherwise it traps or was stopped. |
| CleanupRelease.ReleasesExactlyOnce | packages/compiler/src/BootstrapEvaluation.ts:498-690 | For a whole owner, with hooks that may release what the owner owes, change its union case and allocate for themselves: completed exactly when what is owed is live and distinct, and then every allocation in question is dead if owed and as before if not, and its release was recorded once. |
| CleanupRelease.SettlingSettles | packages/compiler/src/BootstrapEvaluation.ts:609-644 | If each hook of a plan settles on every owner it may meet, so does the release of every value the plan fits. |
| CleanupRelease.PreservingReleasesOnce | packages/compiler/src/BootstrapEvaluation.ts:498-690 | The case of hooks that release nothing: over all allocations there are, each owed one dies once, and no release is stopped. |
| CleanupContainers.SlotsExact | packages/compiler/src/BootstrapEvaluation.ts:2369-2391 | Dropping the slots of a buffer in turn releases exactly what their values owe, whatever their own hooks release. |
| CleanupContainers.DropSlotMeans | packages/compiler/src/BootstrapEvaluation.ts:2369-2391 | A slot is dropped only while its buffer is live and it is initialized; its value is released first, and then only the slot is gone. |
| CleanupContainers.VectorExact | packages/compiler/stdlib/silk/vector.silk:192-219 | The library's vector, whose hook drops the elements and releases the buffer itself: the vector is released with everything its elements own, each ticket once. |
| CleanupContainers.VectorSettles | packages/compiler/stdlib/silk/vector.silk:192-219 | That hook, which changes the union case the vector owed its buffer in, settles the buffer and leaves nothing owed. |
| CleanupContainers.BoxExact | packages/compiler/stdlib/silk/box.silk:161-177 | The library's box, whose hook drops the element and leaves the buffer to the plan: the box is released with everything its element owns, each ticket once. |
| CleanupRelease.EffectFreePlansTouchNothing | packages/compiler/src/CleanupPlan.ts:93-116 | A plan without effect calls no hook and releases nothing, whatever value it runs on. |
| CleanupMeaning.ReleaseIsMeant | packages/compiler/src/BootstrapEvaluation.ts:504-690 | Release, plan by plan: the fields that have a slot, lanes and elements in order up to the first that does not complete, each field the first of its ordinal; hooks before what they wrap; a callable's captures once, after it is marked; the active case only; a raw buffer's slots cleared and an allocation's kept; and an internal error exactly for values a plan cannot have. |
| CleanupMeaning.EffectIsWithin | packages/compiler/src/CleanupPlan.ts:93-116 | A plan has an effect exactly when a hook or a reclaim occurs somewhere in it. |
| CleanupExecution.Execution.ReclaimTicket | packages/compiler/src/BootstrapStorage.ts:18-25 | A ticket is consumed only while live, clearing its slots when asked. |
| CleanupExecution.Execution.ReleaseThroughPlan | packages/compiler/src/BootstrapEvaluation.ts:504-690 | Cleanup over the evaluator's own tables leaves them, and stops, as the release function does. |
| CleanupExecution.Execution.RunHook | packages/compiler/src/BootstrapEvaluation.ts:609-644 | The hook runs on the owner first, and what the owner became is cleaned next. |
| PlaceWalk.WalkPlace | packages/compiler/src/BootstrapPlace.ts:24-88 | The narrowing loop finds the place, with the indexes a later write needs, that the step-by-step walk finds. |
| PlaceMeaning.StepMeans | packages/compiler/src/BootstrapPlace.ts:36-86 | A step finds the first field of that very identity, the element at the index taken, the byte of static data, or the element a slice's buffer or stored path holds, and only within bounds. |
| PlaceMeaning.StepMisses | packages/compiler/src/BootstrapPlace.ts:50-79 | A step is out of bounds exactly when the index it takes is negative, not a safe integer or past the length. |
| PlaceMeaning.WalkMeans | packages/compiler/src/BootstrapPlace.ts:24-88 | A walk resolves exactly to what a chain of such steps leads to, at the indexes the steps took. |
| PlaceMeaning.WalkMisses | packages/compiler/src/BootstrapPlace.ts:24-88 | It is out of bounds exactly where a chain leads to an index outside. |
| PlaceUpdates.WalkReplays | packages/compiler/src/BootstrapPlace.ts:50-86 | Walking again at the returned indexes finds the same place. |
| PlaceLaws.ReplaceUnfolds | packages/compiler/src/BootstrapPlace.ts:91-148 | Replacing along a path replaces below its first step and puts the result back in one place. |
| PlaceLaws.WriteBackChangesNothing | packages/compiler/src/BootstrapPlace.ts:91-148 | Replacing a place by what it holds changes neither value nor storage, aliased or not. |
| PlaceUpdates.SetElementChangesOneSlot | packages/compiler/src/BootstrapEvaluation.ts:408-448 | A slice element written through its backing cell or buffer reads back; every other element of the slice, every other slot of the buffer, everything a diverging path selects in the cell and all other storage stay as they were. |
| PlaceUpdates.RepeatedOrdinalIsOverwritten | packages/compiler/src/BootstrapPlace.ts:109-124 | In any aggregate a write below the field the walk selects leaves the other fields alone exactly when every other field of its ordinal holds the new value at that place already. |
| PlaceUpdates.BothAreOverwritten | packages/compiler/src/BootstrapPlace.ts:109-124 | Two fields of one ordinal and different identity: the write changes both. |
| PlaceAssign.AssignmentCanBeLost | packages/compiler/src/BootstrapEvaluation.ts:2900-2956 | A struct whose slice field borrows its own array field: assigning through the slice changes nothing. |
| PlaceAssign.AliasedUpdateCanBeLost | packages/compiler/src/BootstrapPlace.ts:127-135 | An array that holds a borrow of itself: a path through it twice resolves, and replacing what it selects changes nothing. |
| PlaceAssign.CheckedPathsReachOnce | docs/language/ownership-and-borrowing.md:687-695 | Where borrows are whole locals, never parts of other data, no path reaches into one storage twice or back into the cell it is rooted in. |
| PlaceAssign.CheckedUpdatesAreLawful | packages/compiler/src/BootstrapPlace.ts:59-148 | There every resolved place is replaced exactly when it avoids static data, then reads back, and of two writes the last wins. |
| PlaceAssign.CheckedUpdateChangesOneSlot | packages/compiler/src/BootstrapPlace.ts:127-135 | There, of all storage an update changes one slot, the one its path reaches last, and with a hop the root value stays as it was; without a hop no storage changes. |
| PlaceAssign.CheckedAssignment | packages/compiler/src/BootstrapEvaluation.ts:2900-2956 | There every assignment takes effect and leaves every diverging path, through any hops, selecting what it did. |
| PlaceAssign.AssignStaysChecked | packages/compiler/src/BootstrapEvaluation.ts:2900-2956 | Assigning a value that holds no borrow keeps every cell and buffer free of stored borrows, whatever the path. |
| CheckedRuns.RunsStayChecked | docs/language/ownership-and-borrowing.md:687-695 | Every state of a run of bindings, assignments, borrows and copies from a store without stored borrows is one. |
| CheckedRuns.EveryAssignmentTakesEffect | packages/compiler/src/BootstrapEvaluation.ts:2900-2956 | So every assignment of every such run takes effect, and leaves every diverging path selecting what it did. |
| PlaceReads.ReadPlace | packages/compiler/src/BootstrapEvaluation.ts:2733-2873 | The loop that reads a place is the reading walk. |
| PlaceMeaning.ReadMeans | packages/compiler/src/BootstrapEvaluation.ts:2733-2873 | A read comes to exactly what a chain of steps leads to in which slices over cells are looked up straight in the cell. |
| PlaceMeaning.ReadStepMisses | packages/compiler/src/BootstrapEvaluation.ts:2775-2818 | A read is out of bounds under the same condition as a walk. |
| PlaceReads.DirectExactly | packages/compiler/src/BootstrapEvaluation.ts:2820-2825 | Looking a slice element up straight in its cell finds it exactly when the slice keeps no path into the cell. |
| PlaceReads.ReadsFollowExactly | packages/compiler/src/BootstrapEvaluation.ts:2820-2838 | A read of a resolved place agrees with the walk at every step exactly when no slice on the way keeps a path into its cell. |
| PlaceReads.ReadsAgreeExactly | packages/compiler/src/BootstrapEvaluation.ts:2820-2838 | One whole read agrees with the walk if no slice on its way keeps a path into its cell, and differs if one does and no field is taken past it. |
| PlaceReads.ReadsCanAgreeByChance | packages/compiler/src/BootstrapEvaluation.ts:2820-2838 | Past such a slice the field of another struct can happen to hold the same value. |
| PlaceReads.BorrowedElementsExactly | packages/compiler/src/BootstrapEvaluation.ts:1660-1690 | A slice borrowed from an array place has the elements of that array exactly when the place lies in the local itself, not behind a borrow it holds. |
| PlaceReads.OwnPathMeans | packages/compiler/src/BootstrapEvaluation.ts:1660-1690 | The path a borrow keeps is that of the place without its slice steps. |
| PlaceReads.ReadSelectsARow | packages/compiler/src/BootstrapEvaluation.ts:2820-2838 | The first element of the borrowed first row of a matrix is a number to the walk and the whole row to a read. |
| BufferCopy.RawStorage.Copy | packages/compiler/src/BootstrapEvaluation.ts:2095-2217 | A copy goes through exactly when ranges fit, storage is live and every source slot is initialized, fails internally exactly when the source is no range or its cell no array, and traps otherwise; gone through it is the simultaneous move, and otherwise nothing changed. |
| BufferCopy.SourceMeans | packages/compiler/src/BootstrapEvaluation.ts:2159-2174 | A source slot is a byte of static data, an initialized slot of the buffer, or an element of the array that is the slice's whole cell. |
| BufferCopy.RawStorage.ReadRange | packages/compiler/src/BootstrapEvaluation.ts:2159-2181 | The whole source range is read, or the first uninitialized slot reported, before anything is written. |
| BufferCopy.RawStorage.Vacate | packages/compiler/src/BootstrapEvaluation.ts:2185-2193 | A move that does not retain its source leaves exactly that range uninitialized. |
| BufferCopy.RawStorage.WriteRange | packages/compiler/src/BootstrapEvaluation.ts:2194-2196 | Exactly the destination range receives the values, in order. |
| BufferCopy.MoveIsUnique | packages/compiler/src/BootstrapEvaluation.ts:2095-2217 | The simultaneous move determines the storage it leaves. |
| BufferCopy.MoveThereAndBack | packages/compiler/src/BootstrapEvaluation.ts:2095-2217 | Moving a range onto vacant slots of its buffer and back restores every slot, overlapping or not. |
| BufferCopy.CopiesTheSliceExactly | packages/compiler/src/BootstrapEvaluation.ts:2137-2174 | Copying a slice of well-typed values puts its elements in the destination exactly when the slice keeps no path into its cell; otherwise the copy fails or moves other values. |
| BufferCopy.CopyMovesRows | packages/compiler/src/BootstrapEvaluation.ts:2170-2174 | Copying the borrowed first row of a matrix moves the matrix's two rows. |
| IntegerLaws.OperationMeans | packages/compiler/src/BootstrapArithmetic.ts:29-116 | At every width and signedness an operation on in-range operands traps exactly when it has no result, and otherwise yields an in-range number with its independent meaning: exact, congruent, nearest, truncated, bitwise, shifted or with its two parts traded. |
| IntegerLaws.DivisionOverflows | packages/compiler/src/BootstrapArithmetic.ts:70-73 | Only the least value over minus one divides out of range, and the remainder never leaves it. |
| IntegerLaws.QuotientTruncates | packages/compiler/src/BootstrapArithmetic.ts:70-73 | The remainder is smaller than the divisor and never opposes the dividend. |
| IntegerLaws.WrappingIsUnique | packages/compiler/src/BootstrapArithmetic.ts:46-47 | A wrapped result is the only number of the type congruent to the exact one. |
| IntegerLaws.RotationsCancel | packages/compiler/src/BootstrapArithmetic.ts:50-58 | Rotating left and right by the same count, in either order, gives the operand back. |
| IntegerLaws.CheckedAgreesWithTrapping | packages/compiler/src/BootstrapEvaluation.ts:2620-2632 | A checked operation succeeds with a value exactly when its trapping form returns it. |
| IntegerLaws.FormsAgree | packages/compiler/src/BootstrapArithmetic.ts:90-114 | Wherever a trapping operation returns, its wrapping and saturating forms return the same. |
| RowLaws.MakeHolds | packages/compiler/src/FiniteRow.ts:27-44 | A made row is strictly sorted by collision key and holds at each key the merge of the members with that key. |
| RowLaws.SortedIsCanonical | packages/compiler/src/FiniteRow.ts:18-21 | Two sorted rows with the same member at every key are the same row. |
| RowLaws.MakeDependsOnlyOnMembers | packages/compiler/src/FiniteRow.ts:27-44 | Under an associative, commutative and idempotent merge a row depends only on which members it is made from, not on their order or repetition. |
| RowLaws.UnionIsSemilattice | packages/compiler/src/FiniteRow.ts:61-65 | Union is associative, commutative and idempotent, and sorted. |
| RowLaws.DifferenceDistributes | packages/compiler/src/FiniteRow.ts:94-106 | Difference distributes over union when what it removes is decided by the collision key. |
| RowLaws.DifferenceDistributesExactly | packages/compiler/src/FiniteRow.ts:94-106 | For every lawful policy, difference distributes over union on all rows exactly when what it removes is decided by the collision key. |
| RowLaws.DifferenceNeedNotDistribute | packages/compiler/src/FiniteRow.ts:94-106 | A lawful policy without that, and three rows on which difference does not distribute. |
| RowLaws.DifferenceAndIntersection | packages/compiler/src/FiniteRow.ts:83-106 | With removal by exact member, what is removed and what is shared make up the row again. |
| RowLaws.SubsetIsIntersection | packages/compiler/src/FiniteRow.ts:76-92 | A row is contained in another exactly when it is all of their intersection. |
| RowLaws.SubsetsOfEachOther | packages/compiler/src/FiniteRow.ts:76-81 | Where member keys tell members apart, rows are contained in each other exactly when they are the same row. |
| RowMaking.MakeRow | packages/compiler/src/FiniteRow.ts:27-44 | The pass into a table followed by its values in key order makes the same row. |

## Left out

- Jumps count a step in the machine's language; the evaluator counts operations only. The step bound is what makes runs finite here.
- An activation is a value held in one place, not a shared object; the number in a transfer step stands for the object identity a relay compares.
- Trace events other than frame pushes and completions, provenance spans and the snapshot of active frames.
- Function bodies of the full intermediate language: the machine runs a small language of cells, branches, calls, suspensions and failures.
- Structural unions, executable representations, callables and effect rows inside conformance heads; types are parameters and formers with arguments.
- `Copy` goals are answered by an oracle, so recursive copy proofs over generic structs are not part of the conformance model.
- The guard against a cycle of variables in `resolve` is proved unreachable rather than modelled.
- Conformances whose capability or provider did not resolve.
- Tiny integers whose lexeme is not all digits cannot come out of the lexer and are read as zero by the model's parser.
- Spans of function definitions, parameters and programs; their bodies keep spans.
- The LLVM builder, bitcode and text output are replaced by a block and phi language; a division the instruction set leaves undefined is undefined in both meanings.
- Each Tiny function call gets the same budget of steps; the theorem holds for every budget above the cost of the longest body.
- Reading the coroutine stack limit from the environment; it is an argument. The allocator is an argument too, assumed to return null or free memory in bounds.
- The links between coroutine segments are positions in a sequence, and only frame headers are modelled as memory contents.
- Drop hooks are a function of the owner and the storage, called at their point in the cleanup; bodies are modelled for the hooks of vectors and boxes, and every other hook is assumed to release only what its owner owes, and to stop only when that cannot be released.
- Updates through paths that reach into one storage twice, beyond the one shown to lose its write: they need a borrow stored inside other data, which no run of a program that stores no borrows comes to hold (CheckedRuns.RunsStayChecked).
- Building cleanup plans from types, and specializing them.
- Reading, writing, taking, dropping and filling single raw slots: each is one map operation.
- Strings, numbers of other types, unions and references inside places: every such value is one plain value, and roots are locals rather than references.
- Rotation by a negative count; the source's result for it is not claimed.
- Float, character and conversion operations other than the integer range test.
- Row keys and encoding as text; a row's identity here is the row itself.
- Row order is by character; JavaScript compares UTF-16 code units, which agrees on strings without surrogates.
- Command line, project loading, formatting, completion, diagnostics wording and standard streams.
