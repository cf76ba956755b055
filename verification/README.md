# The procedure assembler, modelled and proved

Lyric's assembler collects a symbolic program for each procedure (statements with labels, numbered
jump targets, nested loops, nested exception checks with catches) and turns it into a byte string:
a header, code whose jumps have been patched, a check table and an exception table. This project
models that assembler and what stands around it in Dafny, and proves what it promises.

The source's own form is kept. Objects that the source updates in place are classes here, with the
source's fields (`BytecodeBuilder`, `ObjectWriter`, `SymbolCache`, `ProcFrame`, `BlockHandle`,
`JumpTable`, `CodeFragment`, `LoopHandle`, `CheckHandle`, `CatchHandle`, `ProcHandle`,
`ClassSymbol`, `TypeSignature`); their methods are proved against functions on values, and the
main results are proved about those functions, over all inputs and all runs. The fields of the
source's `ProcHandle` are divided among three classes: `ProcFrame` (locals and lexicals),
`JumpTable` (labels and jump targets) and `ProcHandle` (loops, checks, catches, building).

| file | models |
|---|---|
| `Wrappers`, `BigEndian`, `Symbols` | results, fixed-width words, symbol kinds and sections |
| `Bytecode`, `Interpreter` | opcodes, the bytecode builder, the bytecode iterator; what the interpreter does at an opcode and how it takes operands apart |
| `Instructions`, `CodeFragments` | instructions: encoding, touching, and the fragments that hold them |
| `Emission`, `ControlFlow`, `Operands` | emitting and patching; what running code and running a fragment mean; what operands denote |
| `JumpTables`, `Fragments` | label and jump tables, editing and splicing fragments |
| `Loops`, `CheckForest`, `Intervals` | loops; checks, their flattening, and what it means that intervals are nested |
| `Placements`, `SplicedChecks` | where checks are placed while fragments are edited and spliced |
| `CheckTables`, `ExceptionHandlers` | the check and exception tables, and the handlers that are found in them |
| `ProcLayout`, `Assembly`, `ProcHandles`, `Limits` | the byte layout and its reader, building as a whole, where it fails |
| `Scopes`, `BlockHandles` | name resolution and closure capture |
| `Activations`, `Captures` | how captured variables are fetched when a procedure is called, and their whole way from the name to the value |
| `SymbolIndex`, `ObjectWriter` | the object writer's index and its addresses |
| `TypeDefs`, `TypeResolution`, `TypeSignatures`, `ClassChain`, `ClassSymbols` | type arguments, type comparison, overriding |

## Findings

- Label and patch offsets are 16 bits wide, and nothing checks that they fit. While the operands of its
  jumps lie in the first 64 KiB, a procedure is built into code that means what its fragment says
  exactly when the labels its jumps go to lie there as well (`Emission.AssembledExactlyWhenLow`,
  `Assembly.BuiltExactlyWhenLow`). A jump whose operand lies further out falls through, with an exact
  condition for the two offsets at which other patches may still touch it (`Limits.FarJumpFallsThrough`);
  its own patch overwrites bytes 64 KiB before it (`Limits.WrappedPatchOverwrites`). A long loop that is
  accepted and wrong: `Limits.LongLoopAccepted`.
- In such code the result of building can depend on the order in which a hash map is visited
  (`Limits.OrderMatters`); it does not exactly when overlapping patches agree
  (`Assembly.OrderDoesNotMatter`).
- A jump that is spliced into a fragment twice is patched once, and its first copy falls through
  (`Limits.CopiedJumpLost`, `Limits.SplicedJumpLost`); a five-statement procedure that is accepted and
  wrong: `Limits.CopiedJumpAccepted`. A fragment may be spliced twice exactly when it has no label and
  no jump (`Limits.SplicedTwice`).
- Checks keep to the nesting of their declaration exactly when every fragment is spliced inside just those
  checks that its own checks were declared in (`Placements.RunNestedExactly`); nothing in the
  assembler enforces it, and a fragment spliced between the labels of an unrelated check ends up
  inside it (`SplicedChecks.TwoChecksNested`).
- `resolveReference` does not look at whether the symbol cache took the new lexical symbol. Blocks of
  a procedure share the urls of their variables, so a capture can mean a sibling block's variable
  (`Scopes.SiblingShadowsCapture`); it is faithful exactly when `Scopes.CaptureIsSafe` holds, which a
  caller can decide beforehand (`Scopes.CaptureFaithful`).
- A variable declaration that is refused because its url is taken uses up a local slot
  (`Scopes.DeclaresExactlyWhenFree`, with an instance in `Scopes.RefusedDeclarationUsesSlot`).
- Resolving a generic binding by two argument lists in turn is resolving it by the composed list, for every
  target, exactly when each first argument that can join a union becomes one that can, and each that
  becomes one that can join an intersection can join one itself
  (`TypeResolution.CompositionExactly`). It fails in two ways: a union that collapses on the way is replaced by
  what no union may contain (`TypeResolution.CollapsedUnionBreaksComposition`), and a union that
  the second list would collapse is refused in an intersection by the first
  (`TypeResolution.CollapsingUnionBreaksComposition`).
- Placeholders of the binding that stand among the parameters of another template's placeholder are
  left in place (`TypeResolution.LeavesOnlyTheHidden`, `TypeResolution.HiddenPlaceholderStays`).
- Inserting a symbol under a url that is not its own can move addresses handed out before
  (`SymbolIndex.ForeignUrlMovesAddresses`, `SymbolIndex.EnteredTwiceMoves`).
- Finalizing a loop pops whatever loop is on top, so the stack stays right exactly when the finalized
  loop is the innermost one (`Loops.NestingNeedsInnermost`, `Loops.OuterFinalizedFirst`).
- Overriding stays disciplined exactly when no derived class has declared the name first
  (`ClassChain.KeepsExactlyWhenFirst`, `ClassChain.SuperclassDeclaresLate`).
- The touch pass and the build pass disagree on two instructions: the descriptor of a protocol is tracked although it
  cannot be encoded (`Instructions.TouchableExactly`), and the load of a namespace is encoded only if something else
  made the writer track the namespace (`Instructions.TouchCoversBuild`, `Instructions.TouchesWhatIsLookedUp`).
- A procedure may not end with a raise, although control never goes on behind one
  (`Instructions.TerminatorsExactly`).
- `doc/devguide/reference/bytecode.rst` says that operands are little-endian; the code writes and
  reads them big-endian, and the model follows the code.

## Model

| member | source | states |
|---|---|---|
| Bytecode.BytecodeBuilder.WriteOpcode | lib/lyric_object/src/bytecode_builder.cpp:72-78 | appends the opcode exactly when it is a known one, and otherwise changes nothing |
| Bytecode.BytecodeBuilder.MakePatch | lib/lyric_object/src/bytecode_builder.cpp:512-516 | reserves two bytes and reports their position cast to 16 bits |
| Bytecode.BytecodeBuilder.Jump | lib/lyric_object/src/bytecode_builder.cpp:519-593 | writes a jump or branch with a zero distance and reports where the distance goes |
| Bytecode.BytecodeBuilder.MakeLabel | lib/lyric_object/src/bytecode_builder.cpp:609-613 | the current position, cast to 16 bits |
| Bytecode.BytecodeBuilder.Patch | lib/lyric_object/src/bytecode_builder.cpp:616-636 | succeeds exactly when operand and label are inside the code and the distance fits 16 bits; then the operand denotes the label and no other byte changes |
| Bytecode.PatchableExactly | lib/lyric_runtime/src/bytecode_interpreter.cpp:533-540 | a position can be patched exactly when there is an operand that makes the interpreter move from behind it to the label, inside the code |
| Bytecode.Patched | lib/lyric_object/src/bytecode_builder.cpp:627-636 | a reader of the patched operand gets the distance from its end to the label, and every other byte is as before |
| Bytecode.FetchExactly | lib/lyric_object/src/bytecode_iterator.cpp:154-250 | an instruction is read exactly when the bytes from the position on begin with its opcode, not zero, and all the operand bytes that the opcode has; these are its operands and the next position is behind them |
| Interpreter.TestsDiffer | lib/lyric_runtime/src/bytecode_interpreter.cpp:543-701 | the branches are exactly the opcodes at which a value is tested, and any two of them disagree on some value |
| Instructions.EncodedShape | lib/lyric_assembler/src/assembler_instructions.cpp:42-1670 | the opcode of an encoded instruction fixes its length, whether it has a distance, and how control leaves it, as the reader's operand sizes and the interpreter say |
| Instructions.FlagsExactly | lib/lyric_runtime/src/internal/activation_ops.cpp:24-171 | a load or store has a flag exactly for the kinds of symbols that the interpreter has a place for, and the flag is decoded to that place |
| Instructions.OpcodesExactly | lib/lyric_assembler/src/assembler_instructions.cpp:343-635 | an operation, stack operation or branch is encoded exactly with the opcodes at which the interpreter does what its class is for |
| Instructions.RefusedWith | lib/lyric_assembler/src/assembler_instructions.cpp:722-900 | the condition with which an instruction is refused: an invalid binding for a symbol that cannot be loaded, stored or described, an invariant for anything else |
| Instructions.TerminatorsExactly | lib/lyric_assembler/src/proc_handle.cpp:438-465 | a procedure may end with exactly the instructions after which the interpreter never is at the following one, except a raise |
| CodeFragments.Apply | lib/lyric_assembler/src/assembler_instructions.cpp:1125-1252 | writes the bytes of an instruction and reports the label or patch position, or fails with the same condition as the encoding |
| CodeFragments.ApplyAccess | lib/lyric_assembler/src/assembler_instructions.cpp:722-785 | a load or store writes its opcode, its flag and the slot or section address, or fails because the symbol has no flag or no address |
| CodeFragments.ApplyCall | lib/lyric_assembler/src/assembler_instructions.cpp:1308-1362 | a call or construction looks its symbol up in the section that its opcode demands and writes address, flags and placement |
| CodeFragments.ApplyOperation | lib/lyric_assembler/src/assembler_instructions.cpp:343-635 | an operation is written exactly when its opcode is one of its kind |
| Operands.AccessDenotes | lib/lyric_runtime/src/internal/activation_ops.cpp:24-171 | the interpreter decodes the flag of a load, store or descriptor to an activation slot of the symbol's kind or to the section of its kind, and finds the symbol there under the address behind the flag |
| Operands.CallDenotes | lib/lyric_assembler/src/assembler_instructions.cpp:1308-1362 | the operands of a call lead back to the called symbol, its placement and its flags |
| Operands.EncodingDenotes | lib/lyric_runtime/src/bytecode_interpreter.cpp:137-960 | for every encoded instruction: what the interpreter does at its opcode is what the instruction is for, with the instruction's own opcode where it names one, and behind the operands it finds the slot, symbol, type, literal, placement or number that the instruction names |
| Operands.ExecutedDenotes | lib/lyric_object/src/bytecode_iterator.cpp:154-250 | so it is at every statement of assembled code, jumps and branches included |
| Operands.RunsDenote | lib/lyric_runtime/src/bytecode_interpreter.cpp:137-960 | and over whole runs: assembled code runs as the fragment does, and each instruction that it executes denotes the statement that the fragment executes |
| Instructions.TouchEntersSubjects | lib/lyric_assembler/src/code_fragment.cpp:938-945 | after the touch pass the subject of every instruction is entered in the writer's index, which is consistent and has moved nothing |
| Instructions.TouchCoversBuild | lib/lyric_assembler/src/assembler_instructions.cpp:702-916 | after a touch pass, and whatever is inserted later, an instruction fails to be encoded exactly when it does not suit the interpreter (the action at its opcode, the place or section of its symbol) or it loads a namespace that nothing else made the writer track |
| Instructions.TouchableExactly | lib/lyric_assembler/src/assembler_instructions.cpp:810-842 | the touch pass refuses exactly the descriptors and constructions that could not be encoded, but for the descriptor of a protocol, which it lets pass |
| Instructions.TouchSucceeds | lib/lyric_assembler/src/code_fragment.cpp:938-945 | the touch pass succeeds exactly when it refuses no statement |
| Instructions.TouchesWhatIsLookedUp | lib/lyric_assembler/src/assembler_instructions.cpp:702-720 | an instruction makes the writer track nothing exactly when its encoding looks nothing up, or it loads a namespace |
| Emission.EmitSucceeds | lib/lyric_assembler/src/code_fragment.cpp:947-982 | the emit pass succeeds exactly when every instruction can be encoded, and its length is the sum of the sizes |
| Emission.EmitAt | lib/lyric_assembler/src/code_fragment.cpp:947-982 | the bytes of each statement stand at its offset |
| Emission.LabelOffsetAt | lib/lyric_assembler/src/code_fragment.cpp:964-970 | with distinct labels, the table of labels gives each label its own offset, cast to 16 bits |
| Emission.PatchOffsetAt | lib/lyric_assembler/src/code_fragment.cpp:971-975 | with distinct targets, the table of patches gives each target the place of its own jump's distance, cast to 16 bits |
| Emission.PatchesSucceed | lib/lyric_assembler/src/proc_handle.cpp:554-564 | the patch pass succeeds, in any order, exactly when each target has a label in the fragment whose distance fits |
| Emission.EmitFailure | lib/lyric_assembler/src/code_fragment.cpp:955-963 | the emit pass fails with the condition of the first statement that cannot be encoded |
| Emission.PatchFailure | lib/lyric_assembler/src/proc_handle.cpp:554-564 | the patch pass fails at the first target that cannot be patched, with an assembler invariant for a label that is not in the fragment and an object invariant for one that is too far |
| Emission.PatchesDecide | lib/lyric_assembler/src/proc_handle.cpp:553-564 | after the patch pass every byte is what the last patch that covers it wrote, or as it was emitted |
| Emission.AssembledExactlyWhenLow | lib/lyric_assembler/src/proc_handle.cpp:539-564 | for code of any length whose jump operands lie below 64 KiB: emitting and then patching in any order yields code that is, statement by statement, what the fragment says, exactly when the labels that jumps go to lie below 64 KiB |
| Emission.OrderExactly | lib/lyric_assembler/src/proc_handle.cpp:553-564 | the patch pass gives the same code in every order exactly when patches that cover the same byte write the same into it |
| Emission.ShortIsLow | lib/lyric_assembler/src/code_fragment.cpp:947-982 | in code shorter than 64 KiB every operand and every label lies low |
| Emission.AssembledUnique | lib/lyric_assembler/src/proc_handle.cpp:539-564 | a fragment has exactly one assembled code |
| ControlFlow.RunsAgree | lib/lyric_runtime/src/bytecode_interpreter.cpp:533-760 | whatever values branches test and whatever exceptions are raised, assembled code executes the instructions that the fragment executes, in order and at their offsets, takes a branch exactly when the branch of the fragment is taken on the same value, goes on at corresponding handlers, stores caught exceptions in the same slots, and never faults or leaves the code |
| ControlFlow.JumpLands | lib/lyric_runtime/src/bytecode_interpreter.cpp:533-553 | moving by a patched distance leads to the offset of the label that the procedure's tables give for the target |
| ControlFlow.FetchStatement | lib/lyric_object/src/bytecode_iterator.cpp:154-250 | at the offset of a statement a reader finds its opcode and operands, and the next instruction behind it |
| CodeFragments.JumpTable.MakeLabel | lib/lyric_assembler/src/proc_handle.cpp:367-389 | registers a new label, generated or given, or fails and changes nothing |
| CodeFragments.JumpTable.MakeJump | lib/lyric_assembler/src/proc_handle.cpp:391-402 | registers a target under the next id until the ids are used up |
| CodeFragments.JumpTable.PatchTarget | lib/lyric_assembler/src/proc_handle.cpp:404-426 | enters the target with the label and the label with the target, or fails and changes nothing |
| JumpTables.RunRecords | lib/lyric_assembler/src/proc_handle.cpp:367-426 | in every reachable state the two tables say exactly what the history of successful patches says |
| JumpTables.NamesAreNew | lib/lyric_assembler/src/proc_handle.cpp:367-402 | a new label was not there before, and a new target has an id that no target had |
| JumpTables.DecimalInjective | lib/lyric_assembler/src/proc_handle.cpp:372-378 | different ids give different generated names |
| JumpTables.IdsInOrder | lib/lyric_assembler/src/proc_handle.cpp:367-402 | over any run ids are given out one after the other, to jump targets and generated labels only |
| JumpTables.LabelsRefusedExactly | lib/lyric_assembler/src/proc_handle.cpp:367-389 | in every reachable state a generated label is refused exactly when the ids are used up or a client asked for its very name; a given one whenever it was asked for before, and otherwise only if it is a generated name; a refusal changes nothing |
| JumpTables.TablesAgree | lib/lyric_assembler/src/proc_handle.cpp:349-426 | a target that goes to a label is among that label's targets, and among those exactly the ones last patched to it go to it |
| JumpTables.PatchedOnceAgrees | lib/lyric_assembler/src/proc_handle.cpp:349-426 | a target patched at most once goes to every label that lists it |
| CodeFragments.CodeFragment.AppendLabel | lib/lyric_assembler/src/code_fragment.cpp:73-83 | appends the label that was made, or nothing |
| CodeFragments.CodeFragment.InsertInstruction | lib/lyric_assembler/src/code_fragment.cpp:31-44 | inserts before the index, or appends when the index is not inside the fragment |
| CodeFragments.CodeFragment.InsertLabel | lib/lyric_assembler/src/code_fragment.cpp:55-71 | as for instructions, once the label is made |
| CodeFragments.CodeFragment.InsertFragment | lib/lyric_assembler/src/code_fragment.cpp:91-117 | copies the other fragment's statements in, and leaves that fragment as it is |
| CodeFragments.CodeFragment.RemoveStatement | lib/lyric_assembler/src/code_fragment.cpp:125-131 | removes one statement and keeps the order of the others |
| CodeFragments.CodeFragment.MakeJump | lib/lyric_assembler/src/code_fragment.cpp:665-694 | appends a jump to a new target; an opcode that is no jump uses the id up and fails |
| Fragments.JumpKeepsOpcode | lib/lyric_assembler/src/code_fragment.cpp:665-694 | the jump or branch that is made for an opcode is encoded with that opcode and goes to the new target |
| CodeFragments.CodeFragment.Touch | lib/lyric_assembler/src/code_fragment.cpp:938-945 | the writer ends up as touching the statements in order leaves it; the first that cannot be touched stops it, with an invariant failure and everything tracked up to there |
| CodeFragments.CodeFragment.Build | lib/lyric_assembler/src/code_fragment.cpp:947-982 | writes the emitted code and returns the label and patch offsets, or fails with the condition of the first instruction that cannot be encoded |
| Fragments.EditTidy | lib/lyric_assembler/src/code_fragment.cpp:31-131 | appending, inserting, splicing (once), removing and patching keep the labels and targets of the unspliced fragments distinct and registered |
| Fragments.MainFragmentTidy | lib/lyric_assembler/src/code_fragment.cpp:46-117 | after any run of edits the procedure's own fragment has distinct labels and distinct targets, all of them registered |
| ProcHandles.LoopHandle.ContinueLoop | lib/lyric_assembler/src/loop_handle.cpp:24-32 | records the target unless the loop is finalized |
| ProcHandles.LoopHandle.BreakLoop | lib/lyric_assembler/src/loop_handle.cpp:46-54 | records the target unless the loop is finalized |
| ProcHandles.LoopHandle.FinalizeLoop | lib/lyric_assembler/src/loop_handle.cpp:68-91 | patches continues to the top and breaks to the exit in order, stops at the first failure, and pops the stack |
| ProcHandles.ProcHandle.DeclareLoop | lib/lyric_assembler/src/proc_handle.cpp:210-218 | pushes a new loop |
| ProcHandles.ProcHandle.ContinueCurrentLoop | lib/lyric_assembler/src/proc_handle.cpp:220-228 | records the target with the loop on top of the stack, or fails if there is none |
| ProcHandles.ProcHandle.BreakCurrentLoop | lib/lyric_assembler/src/proc_handle.cpp:230-238 | records the target with the loop on top of the stack, or fails if there is none |
| Loops.OpKept | lib/lyric_assembler/src/loop_handle.cpp:24-91 | with loops finalized innermost first, every operation keeps the stack equal to the open loops and every recorded target with its loop |
| Loops.RecordsInnermost | lib/lyric_assembler/src/proc_handle.cpp:220-238 | a target recorded with the current loop belongs, for good, to the loop that is innermost then |
| Loops.TargetsReachTheirLoops | lib/lyric_assembler/src/loop_handle.cpp:68-91 | once all loops are finalized every continue target goes to the top label and every break target to the exit label of its loop |
| Loops.TargetsGoWhereGiven | lib/lyric_assembler/src/loop_handle.cpp:68-91 | over any run from the start: a recorded target goes to the label its loop was declared with, or to the one its loop was first finalized with |
| Loops.RecordsExactlyWhileOpen | lib/lyric_assembler/src/loop_handle.cpp:24-54 | a target can be recorded with a loop exactly while the loop is open, and with the current loop exactly while any is |
| Loops.NestingNeedsInnermost | lib/lyric_assembler/src/loop_handle.cpp:87-90 | finalizing keeps the stack of open loops right exactly when the innermost loop is finalized |
| Loops.OuterFinalizedFirst | lib/lyric_assembler/src/loop_handle.cpp:68-91 | two concrete nested loops of which the outer one is finalized first: the inner one is off the stack, and a break is refused |
| ProcHandles.ProcHandle.DeclareCheck | lib/lyric_assembler/src/proc_handle.cpp:256-282 | a new check, with a reference to a temporary for the caught exception, becomes a child of the innermost open check or a root, and the depth is kept up; it fails exactly when the temporary cannot be declared, and the symbol cache goes on having the temporary of every check as a local with its slot |
| ProcHandles.ProcHandle.PopCheck | lib/lyric_assembler/src/proc_handle.cpp:284-292 | pops the check stack, or fails when it is empty |
| ProcHandles.CheckHandle.DeclareCatch | lib/lyric_assembler/src/check_handle.cpp:40-47 | makes a new catch, the next one of the procedure, and appends it to the catches of the check |
| ProcHandles.CheckHandle.FinalizeCheck | lib/lyric_assembler/src/check_handle.cpp:91-103 | sets the end label once and pops the check stack |
| ProcHandles.CatchHandle.SetExceptionType | lib/lyric_assembler/src/catch_handle.cpp:30-38 | accepts any type but the invalid one |
| ProcHandles.CatchHandle.SetResumeTarget | lib/lyric_assembler/src/catch_handle.cpp:46-54 | accepts any target but the invalid one |
| ProcHandles.CatchHandle.FinalizeCatch | lib/lyric_assembler/src/catch_handle.cpp:62-72 | sets the end label once |
| ProcHandles.ProcHandle.BuildCheckLevel | lib/lyric_assembler/src/proc_handle.cpp:482-496 | appends the descendants of a check at a level, left to right |
| ProcHandles.ProcHandle.BuildCheckLevels | lib/lyric_assembler/src/proc_handle.cpp:498-511 | lists the levels of the forest, deepest first |
| CheckForest.OpNested | lib/lyric_assembler/src/proc_handle.cpp:256-292 | declaring and finalizing checks and adding, typing and finalizing catches, in any order, keep child lists, stack and recorded depth in agreement with who was declared in whom |
| CheckForest.LevelIsDepth | lib/lyric_assembler/src/proc_handle.cpp:482-496 | a level of the forest consists of exactly the checks of that depth, in the order of declaration |
| CheckForest.BuildLevelsSorted | lib/lyric_assembler/src/proc_handle.cpp:498-511 | flattening lists every check exactly once, deeper ones first and left to right within a depth, so children precede parents |
| CheckForest.ForestAfterRun | lib/lyric_assembler/src/proc_handle.cpp:256-292 | after any run the recorded depth is the depth of the forest, flattening is complete and sorted, each check lists exactly the catches that were declared for it, in order, and an empty stack means that every check is finalized |
| CheckForest.OpOwned | lib/lyric_assembler/src/check_handle.cpp:40-47 | every operation keeps the catch lists of the checks in agreement with the record of which catch was declared for which check |
| CheckForest.RunAsGiven | lib/lyric_assembler/src/check_handle.cpp:40-103 | after any run the checks are those declared, in order, each with its start label, its slot, the first end label it was given and the catches declared for it, and each catch has its start label, its first end label and its last valid type |
| CheckForest.FinalizedOnce | lib/lyric_assembler/src/check_handle.cpp:91-103 | in a reachable state a check or catch can be finalized exactly while it is not, and a catch takes exactly the valid types |
| Intervals.SameDepthDisjoint | lib/lyric_assembler/src/check_handle.cpp:91-103 | two checks of the same depth never cover the same instruction |
| Intervals.NestedOrDisjoint | lib/lyric_assembler/src/check_handle.cpp:91-103 | any two checks are disjoint, or one was declared inside the other and lies within it |
| Intervals.FirstCoveringIsInnermost | lib/lyric_assembler/src/proc_handle.cpp:566-607 | every entry of the table that covers an instruction is the first one that does or a check that this first one was declared in, in whatever order siblings stand |
| Placements.EditNests | lib/lyric_assembler/src/code_fragment.cpp:31-131 | of all edits only a splice can change which checks are nested in their fragments, and it keeps them nested exactly when, for each spliced check, it lands inside exactly the checks it was declared in |
| Placements.LandsInInnermost | lib/lyric_compiler/src/try_handler.cpp:44-48 | in nested fragments that is so exactly when the innermost check around the landing place is, for each spliced check, the innermost one of the fragment that it was declared in |
| Placements.OpPlaced | lib/lyric_assembler/src/check_handle.cpp:91-103 | every edit, splice, opening and closing of a check in any fragment, and every step of a catch keeps the labels of checks where they are known to be, and keeps checks nested exactly when it is no splice or lands right |
| Placements.RunNestedExactly | lib/lyric_assembler/src/code_fragment.cpp:91-117 | over any run of edits, splices and checks that ends with all checks closed in the procedure's own fragment, their intervals are nested like the checks exactly when every splice landed right |
| Placements.EmittedIntervalsNested | lib/lyric_assembler/src/proc_handle.cpp:566-588 | after such a run the emitted offsets are nested like the checks, provided the check labels lie below 64 KiB: no negative sizes, children within parents, siblings disjoint |
| SplicedChecks.TwoChecksNested | lib/lyric_compiler/src/base_invokable_handler.cpp:152-168 | concrete runs with checks in different fragments: nested when one is spliced before or behind the other, also in the reverse order of declaration, and not nested when it is spliced between the other's labels |
| ProcHandles.ProcHandle.BuildExceptions | lib/lyric_assembler/src/proc_handle.cpp:590-606 | the entries of a check's catches, in the order of declaration, or a failure for an untracked type |
| ProcHandles.ProcHandle.BuildTables | lib/lyric_assembler/src/proc_handle.cpp:569-607 | the check and exception tables of the listed checks |
| CheckTables.TablesRight | lib/lyric_assembler/src/proc_handle.cpp:569-607 | the tables are built exactly when every catch has a tracked type; every check then has one entry, whose slice holds its own catches in order |
| CheckTables.EntryLandsOnLabel | lib/lyric_assembler/src/proc_handle.cpp:590-606 | the entry of a catch leads to its start label, reaches to its end label and has the offset of its type |
| CheckTables.SlicesPartition | lib/lyric_assembler/src/proc_handle.cpp:586-607 | the recorded slices start at the start of the exception table, follow one another without gap or overlap, end at its end, and every exception is in one |
| CheckTables.FindHandler | lib/lyric_runtime/src/internal/raise_exception.cpp:52-76 | returns the first match in the tables, or none if no covering check accepts the exception |
| CheckTables.FirstMatchIsInnermost | lib/lyric_runtime/src/internal/raise_exception.cpp:52-76 | the first match is the first fitting catch of the innermost check around the instruction that can catch the exception, and names the local of that check |
| CheckTables.NoMatchNoHandler | lib/lyric_runtime/src/internal/raise_exception.cpp:52-76 | the search comes up empty exactly when no check around the instruction can catch the exception |
| ExceptionHandlers.FirstMatchUnique | lib/lyric_runtime/src/internal/raise_exception.cpp:52-76 | there is only one first match, so the search finds the handler |
| ExceptionHandlers.TablesHandleAsFragment | lib/lyric_runtime/src/internal/raise_exception.cpp:52-99 | for every raising statement and every exception, the tables lead to the offset of the start label of the fragment's own handler, which belongs to the innermost check around the statement with a fitting catch, and to that check's slot; or neither has a handler |
| ExceptionHandlers.HandlesAsDeclared | lib/lyric_assembler/src/check_handle.cpp:40-47 | the handler found in the catch lists of the checks is the one by declaration: the first catch declared for the innermost check around the place that fits |
| ProcLayout.LayoutRoundTrip | lib/lyric_object/src/proc_utils.cpp:8-227 | wherever the bytes of a procedure that fits are put, the reader recovers arity, locals, lexicals, code, checks and exceptions |
| ProcLayout.RecoveredExactlyWhenFits | lib/lyric_assembler/src/proc_handle.cpp:609-662 | the bytes can be read back exactly when the counts fit the fields they are cast into, and the trailer is empty exactly when there are no checks and no exceptions |
| ProcHandles.ProcHandle.WriteLayout | lib/lyric_assembler/src/proc_handle.cpp:609-662 | writes size, header, lexicals, code and trailer of the layout |
| ProcHandles.ProcHandle.ValidateFragment | lib/lyric_assembler/src/proc_handle.cpp:438-465 | fails exactly when the fragment is empty or does not end by leaving it |
| ProcHandles.ProcHandle.PatchJumps | lib/lyric_assembler/src/proc_handle.cpp:553-564 | patches every target once, in some order, with the outcome of that order |
| ProcHandles.ProcHandle.BuildLexicals | lib/lyric_assembler/src/proc_handle.cpp:646-653 | one record for each lexical, with the address of its call, or a failure |
| ProcHandles.ProcHandle.Touch | lib/lyric_assembler/src/proc_handle.cpp:428-436 | the writer tracks what the fragment and then the catches refer to, or stops where the fragment does |
| ProcHandles.ProcHandle.Build | lib/lyric_assembler/src/proc_handle.cpp:513-662 | succeeds exactly when the procedure is closed, the writer's lookups succeed and every jump reaches a label, and then returns the layout of the assembled procedure; otherwise the condition with which assembling fails |
| Assembly.AcceptsExactlyTheClosed | lib/lyric_assembler/src/proc_handle.cpp:526-564 | building succeeds, whatever the order of the patches, exactly when the fragment is not empty and ends by leaving it, both stacks are empty, the writer's lookups succeed, and every jump reaches a label of the fragment |
| Assembly.OrderDoesNotMatter | lib/lyric_assembler/src/proc_handle.cpp:553-564 | whether building succeeds does not depend on the order in which the hash map of patches is visited; what is built does not either exactly when overlapping patches agree, which they do while operands lie below 64 KiB |
| Assembly.BuiltExactlyWhenLow | lib/lyric_assembler/src/proc_handle.cpp:513-662 | a built procedure with operands below 64 KiB has the code that its fragment means exactly when the labels its jumps go to lie below 64 KiB |
| Assembly.BuiltLexicalsLead | lib/lyric_runtime/src/subroutine_manager.cpp:48-89 | the record of every captured argument or local of a built procedure leads the interpreter to exactly that variable, when the call of its activation is not imported, and nowhere when it is |
| Assembly.ShortCodeReaches | lib/lyric_object/src/bytecode_builder.cpp:616-636 | in code of at most 32 KiB a jump reaches its label exactly when the label is in the fragment |
| Assembly.TouchedLookupsSucceed | lib/lyric_assembler/src/proc_handle.cpp:428-436 | after a touch, and whatever is tracked later, the lookups of the build succeed exactly when no opcode is at odds with its operand, no untracked namespace is loaded, and the calls of the lexicals are tracked |
| Assembly.LabelsStartInstructions | lib/lyric_assembler/src/proc_handle.cpp:438-465 | every label offset is strictly inside the code and is the start of an instruction |
| Assembly.BuiltProcedureRuns | lib/lyric_assembler/src/proc_handle.cpp:513-662 | a reader recovers the built procedure from its bytes, and its code runs exactly as the fragment does, for corresponding handlers, and never faults; each recovered lexical has the address of its call, its slot and its kind of slot |
| Assembly.MadeIsSound | lib/lyric_assembler/src/proc_handle.cpp:513-564 | after any run of edits, splices and checks labels and targets are distinct and registered and the checks form a forest, so building may take for granted all it does exactly when the labels of checks and catches are placed |
| Assembly.EditedProcedureRuns | lib/lyric_assembler/src/proc_handle.cpp:513-662 | for every procedure made by such a run, code and tables recovered from the built bytes run as the fragment with its checks does: same instructions, same branches, each exception caught by the innermost fitting check and stored in its slot |
| Assembly.HandlersAreInstructions | lib/lyric_runtime/src/internal/raise_exception.cpp:89-99 | the start label of every catch is in front of an instruction of the code, to which the catch's entry leads exactly when it lies below 64 KiB |
| Assembly.BuiltHandlersInnermost | lib/lyric_assembler/src/proc_handle.cpp:566-607 | in a built procedure made by a run of edits, splices that land right and checks, an exception goes to the innermost check around the instruction that can catch it |
| Limits.UnpatchedFallsThrough | lib/lyric_assembler/src/proc_handle.cpp:554-564 | a jump that no patch offset points at leads to the next instruction, and is right exactly when its label is there |
| Limits.FarJumpFallsThrough | lib/lyric_object/src/bytecode_builder.cpp:512-516 | a jump whose operand lies beyond the first 64 KiB is right exactly when opcode and first operand byte, as the last patches that cover them leave them, give the distance to its label with a zero byte; behind 0x10000, or when no patch reaches it, exactly when its label follows it |
| Limits.WrappedPatchOverwrites | lib/lyric_object/src/bytecode_builder.cpp:512-516 | its own patch writes, 64 KiB or a multiple of that before it, a byte of a distance between truncated offsets, which spoils any plain statement that had another byte there |
| Limits.OrderMatters | lib/lyric_assembler/src/proc_handle.cpp:553-564 | a concrete procedure for which two orders of the patch pass build different code |
| Limits.LongLoopAccepted | lib/lyric_assembler/src/code_fragment.cpp:951-960 | a concrete loop of more than 64 KiB is accepted although its code is not what the fragment says |
| Limits.CopiedJumpLost | lib/lyric_assembler/src/code_fragment.cpp:971-975 | of two jumps with one target only the last is patched; the first is right exactly when its label follows it |
| Limits.CopiedJumpAccepted | lib/lyric_assembler/src/code_fragment.cpp:91-117 | a concrete five-statement fragment with a jump spliced twice is accepted, with these bytes, although they are not what the fragment says |
| Limits.SplicedTwice | lib/lyric_assembler/src/code_fragment.cpp:91-117 | splicing a fragment twice keeps labels and targets distinct exactly when it has none |
| Limits.SplicedJumpLost | lib/lyric_assembler/src/code_fragment.cpp:91-117 | of a jump in a fragment that is spliced twice one copy in the built code is right exactly when its label follows it |
| BlockHandles.SymbolCache.InsertSymbol | lib/lyric_assembler/src/symbol_cache.cpp:115-138 | replaces nothing but a typename |
| BlockHandles.ProcFrame.AllocateLocal | lib/lyric_assembler/src/proc_handle.cpp:144-151 | the next slot, or the invalid address when there are no more |
| BlockHandles.ProcFrame.AllocateLexical | lib/lyric_assembler/src/proc_handle.cpp:177-190 | appends the record and returns its index |
| BlockHandles.BlockHandle.DefinitionFound | lib/lyric_assembler/src/block_handle.cpp:174-182 | following the parents finds the definition of the nearest block that has one |
| BlockHandles.BlockHandle.DeclareVariable | lib/lyric_assembler/src/block_handle.cpp:651-685 | the reference and the state that declaring a local leaves, or the failure for a taken name, a type that cannot be made or a taken url |
| BlockHandles.BlockHandle.DeclareTemporary | lib/lyric_assembler/src/block_handle.cpp:687-721 | the same for a temporary named after the number of locals |
| BlockHandles.BlockHandle.ResolveReference | lib/lyric_assembler/src/block_handle.cpp:826-972 | the reference and the state that resolving a name leaves: within the procedure, in an outer one, captured, global or missing |
| Scopes.DeclaresExactlyWhenFree | lib/lyric_assembler/src/block_handle.cpp:651-685 | a variable can be declared exactly when its block lacks the name, its type can be made and the url is free; then the name means the next slot, and a slot is used even when only the url is taken |
| Scopes.DeclaredIsVisible | lib/lyric_assembler/src/block_handle.cpp:651-721 | a declared name resolves, in the procedure, to the reference that its declaration gave, a variable or value of the type asked for, and can be captured from procedures inside exactly when it is not hidden |
| Scopes.TemporariesNeverClash | lib/lyric_assembler/src/block_handle.cpp:687-721 | over any run in which no client takes the name of a temporary, another temporary can be declared exactly when its type can be made |
| Scopes.DefinitionNearest | lib/lyric_assembler/src/block_handle.cpp:174-182 | urls of a block's symbols extend the definition of the nearest block that has one |
| Scopes.RefusedDeclarationUsesSlot | lib/lyric_assembler/src/block_handle.cpp:668-672 | a concrete procedure in which a refused declaration uses a slot up |
| Scopes.ResolvesInnermost | lib/lyric_assembler/src/block_handle.cpp:826-972 | a name that resolves without capture is the binding of the innermost block that has it, or the global one, or what it is an alias of, and nothing changes |
| Scopes.SlotsResolve | lib/lyric_assembler/src/block_handle.cpp:832-861 | a name of the procedure itself that means a slot (argument, local or lexical) resolves to its binding |
| Scopes.ResolvesExactly | lib/lyric_assembler/src/block_handle.cpp:826-972 | a name resolves exactly when its innermost or global binding is of a known symbol that is freestanding, an alias that leads somewhere, a variable, constant or synthetic symbol of the procedure itself, or a local of an outer one that is not hidden |
| Scopes.RefusedWith | lib/lyric_assembler/src/block_handle.cpp:826-972 | the condition that is reported for a name that does not resolve, with the state unchanged |
| Scopes.InvalidExactlyWhenInvisible | lib/lyric_assembler/src/block_handle.cpp:886-933 | a name of an outer procedure is refused exactly when it is a hidden local, an argument, a lexical or another symbol that procedures do not share |
| Scopes.CaptureFaithful | lib/lyric_assembler/src/block_handle.cpp:864-955 | a captured name means the variable that the innermost enclosing block declares, exactly when the new lexical's url is free or already means that variable |
| Scopes.FreshCapture | lib/lyric_assembler/src/block_handle.cpp:935-954 | with a fresh url the new slot k is the next one and lexical k is the local, its slot and the call of its declaring procedure |
| Scopes.ResolveAgain | lib/lyric_assembler/src/block_handle.cpp:826-862 | resolving again from the block or from same-procedure blocks inside it gives the same reference and allocates nothing |
| Scopes.SiblingShadowsCapture | lib/lyric_assembler/src/block_handle.cpp:941-945 | a concrete program whose capture means a sibling block's variable |
| Scopes.StepSound | lib/lyric_assembler/src/block_handle.cpp:651-955 | every declaration and reference keeps the locals of a procedure in slots of their own and its lexicals recorded, and moves nothing |
| Scopes.RunSound | lib/lyric_assembler/src/block_handle.cpp:651-955 | the same over any run of a procedure's blocks in any order |
| Scopes.CaptureLasts | lib/lyric_assembler/src/block_handle.cpp:935-955 | a safe capture goes on meaning the same variable through any later run |
| Activations.ImportLexicals | lib/lyric_runtime/src/subroutine_manager.cpp:46-89 | the lexicals of a called procedure are fetched exactly when each record has an activation of its call on the stack and names an argument or local; each value is that of the nearest such activation |
| Activations.FetchesVariable | lib/lyric_runtime/src/subroutine_manager.cpp:58-82 | what is fetched for a record is the value of the variable that the record stands for |
| Captures.CaptureFetched | lib/lyric_assembler/src/block_handle.cpp:935-955 | the whole way of a safe capture, whatever follows it in the procedure: the load of the name is encoded with a lexical slot, and what is fetched into that slot is the local of the nearest activation of the declaring procedure |
| ObjectWriters.ObjectWriter.InsertImport | lib/lyric_assembler/src/object_writer.cpp:438-450 | enters a location once |
| ObjectWriters.ObjectWriter.AddSymbol | lib/lyric_assembler/src/object_writer.cpp:452-485 | enters an imported symbol as a link, with its module as an import, and any other in the vector of its section |
| ObjectWriters.ObjectWriter.InsertSymbol | lib/lyric_assembler/src/object_writer.cpp:487-585 | inserts a symbol once, refuses what cannot be tracked, and under the symbol's own url keeps the index consistent and moves nothing |
| ObjectWriters.ObjectWriter.InsertType | lib/lyric_assembler/src/object_writer.cpp:606-623 | enters a type once |
| ObjectWriters.ObjectWriter.TouchLiteral | lib/lyric_assembler/src/object_writer.cpp:704-713 | enters a literal once |
| ObjectWriters.ObjectWriter.GetSectionAddress | lib/lyric_assembler/src/object_writer.cpp:281-317 | the address of an entered url in the demanded section, or a failure |
| ObjectWriters.ObjectWriter.GetLiteralAddress | lib/lyric_assembler/src/object_writer.cpp:118-126 | the index of an entered literal, or a failure |
| ObjectWriters.ObjectWriter.GetTypeOffset | lib/lyric_assembler/src/object_writer.cpp:374-382 | the index of an entered type, or a failure |
| SymbolIndex.RunConsistent | lib/lyric_assembler/src/object_writer.cpp:438-585 | over any run of insertions every url owns one entry, every entry its symbol or link, every link's module is imported, and nothing moves |
| SymbolIndex.RunHoldsExactly | lib/lyric_assembler/src/object_writer.cpp:438-585 | over any run from the empty index, it holds exactly what was inserted: each url as the symbol it was first inserted with, the types, the literals, and the modules of imports and imported symbols |
| SymbolIndex.FarExactlyWhenImported | lib/lyric_assembler/src/object_writer.cpp:452-485 | over any such run a url has a far address exactly when the symbol it was entered with is imported; the address leads back to it in the section of the symbol, and its module is imported |
| SymbolIndex.VectorsHoldDefinitions | lib/lyric_assembler/src/object_writer.cpp:474-483 | over any such run a section vector holds exactly the symbols of its kind that were entered and are not imported |
| SymbolIndex.InsertsExactly | lib/lyric_assembler/src/object_writer.cpp:487-585 | a symbol is refused exactly when its url is new and no object contains symbols of its kind; the result says whether the url was entered already |
| Symbols.SectionsDiffer | lib/lyric_assembler/src/object_writer.cpp:498-580 | every kind of symbol that an object contains has a section of its own, and these are all but seven kinds |
| SymbolIndex.AddressesStable | lib/lyric_assembler/src/object_writer.cpp:281-317 | an address handed out once is handed out for ever |
| SymbolIndex.OffsetsStable | lib/lyric_assembler/src/object_writer.cpp:374-382 | so are the offsets of types and literals |
| SymbolIndex.AddressDenotes | lib/lyric_assembler/src/object_writer.cpp:281-317 | an address leads back to its url, so different urls of a section have different addresses |
| SymbolIndex.AddressedInOwnSection | lib/lyric_assembler/src/object_writer.cpp:281-317 | a url can be addressed in the section it was entered under and in no other |
| SymbolIndex.ForeignUrlMovesAddresses | lib/lyric_assembler/src/object_writer.cpp:452-498 | inserting under a foreign url moves nothing exactly when that url was entered or the symbol's own was not |
| SymbolIndex.EnteredTwiceMoves | lib/lyric_assembler/src/object_writer.cpp:452-498 | from the empty index: a class entered under its own url and then under another one has another address |
| TypeResolution.SucceedsExactlyWhenAccepted | lib/lyric_assembler/src/binding_symbol.cpp:214-273 | resolution succeeds exactly when every placeholder of the binding that it reaches has an argument, which may stand where the placeholder stands, and no invalid type is reached |
| TypeResolution.TargetResolvesExactly | lib/lyric_assembler/src/binding_symbol.cpp:276-290 | a binding that is not generic resolves exactly without arguments, a generic one exactly when its target accepts them |
| TypeResolution.FixedResolves | lib/lyric_assembler/src/binding_symbol.cpp:214-273 | a type whose placeholders of the binding stand for themselves, or that has none where resolution looks, resolves to itself |
| TypeResolution.TargetResolvesTo | lib/lyric_assembler/src/binding_symbol.cpp:276-290 | what a binding resolves to: its target when it is not generic or its placeholders stand for themselves, the argument when it is a placeholder, and by composed arguments what it becomes by the first and then the second ones |
| TypeResolution.ResolveWellFormed | lib/lyric_common/src/type_def.cpp:54-166 | resolution keeps unions flat and without duplicates, and intersections of concrete types and placeholders |
| TypeResolution.LeavesOnlyTheHidden | lib/lyric_assembler/src/binding_symbol.cpp:220-233 | with arguments free of them, placeholders of the binding are left exactly where another template's placeholder hides them |
| TypeResolution.HiddenPlaceholderStays | lib/lyric_assembler/src/binding_symbol.cpp:220-233 | a concrete type that resolution leaves as it is although a placeholder of the binding occurs in it |
| TypeResolution.SuccessiveResolution | lib/lyric_assembler/src/binding_symbol.cpp:214-273 | when both succeed, resolving by two argument lists in turn is resolving by the composed list |
| TypeResolution.CompositionExactly | lib/lyric_assembler/src/binding_symbol.cpp:214-273 | resolving by two lists in turn is resolving by the composed list, for every well-formed target, exactly when first arguments keep being able to join unions and none becomes able to join an intersection only by being resolved |
| TypeResolution.CollapsedUnionBreaksComposition | lib/lyric_assembler/src/binding_symbol.cpp:245-254 | a concrete union that resolves by two lists in turn but not by the composed list |
| TypeResolution.CollapsingUnionBreaksComposition | lib/lyric_assembler/src/binding_symbol.cpp:256-266 | a concrete intersection that resolves by the composed list but not by two lists in turn |
| TypeSignatures.TypeSignature.Compare | lib/lyric_assembler/src/assembler_types.cpp:273-289 | equal, extends, super and disjoint are equality, proper extension, proper prefix and neither, on signatures that are not empty |
| TypeSignatures.ExtendsConverse | lib/lyric_assembler/src/assembler_types.cpp:273-289 | extends and super are converse |
| TypeSignatures.ExtendsTransitive | lib/lyric_assembler/src/assembler_types.cpp:273-289 | extends is transitive |
| TypeSignatures.AncestorsComparable | lib/lyric_assembler/src/assembler_types.cpp:273-289 | two types that a common type extends or equals are related |
| TypeSignatures.DisjointStaysDisjoint | lib/lyric_assembler/src/assembler_types.cpp:273-289 | a type that extends one of two disjoint types is disjoint from the other |
| ClassSymbols.ClassSymbol.FindExistingOrOverriddenBinding | lib/lyric_assembler/src/class_symbol.cpp:482-507 | the class itself, or the nearest superclass that binds the name to a descriptor |
| ClassSymbols.ClassSymbol.DeclareMember | lib/lyric_assembler/src/class_symbol.cpp:510-549 | declares a field exactly when neither the class nor a superclass has the name |
| ClassSymbols.ClassSymbol.DeclareMethod | lib/lyric_assembler/src/class_symbol.cpp:756-846 | declares a method that overrides the nearest stub or non-final method, or refuses |
| ClassSymbols.ClassSymbol.DeclareStub | lib/lyric_assembler/src/class_symbol.cpp:951-1010 | declares a stub, which makes the class abstract, exactly when neither the class nor a superclass has the name |
| ClassSymbols.ClassSymbol.PrepareMethod | lib/lyric_assembler/src/class_symbol.cpp:848-910 | calls the nearest method or stub by way of what it overrides, or refuses a missing, hidden or unbound method or an invalid base |
| ClassChain.DeclareKeeps | lib/lyric_assembler/src/class_symbol.cpp:756-846 | a declaration by a class whose descendants lack the name keeps the discipline of overriding |
| ClassChain.DeclaresExactly | lib/lyric_assembler/src/class_symbol.cpp:482-549 | a class can declare a name exactly when it does not bind it and the nearest superclass with a descriptor of the name, if any, has a stub or non-final method, while a method is declared; the declaration is what was asked for, with that superclass for its base |
| ClassChain.DeclaredGoverns | lib/lyric_assembler/src/class_symbol.cpp:756-910 | after a declaration a hidden method or stub can be called only by an inherited receiver, and a derived class can override it exactly when it is a stub or a method not declared final |
| ClassChain.KeepsExactlyWhenFirst | lib/lyric_assembler/src/class_symbol.cpp:482-507 | a declaration keeps the discipline exactly when no derived class has the name |
| ClassChain.SuperclassDeclaresLate | lib/lyric_assembler/src/class_symbol.cpp:482-507 | a concrete chain that loses the discipline because the superclass declares a name after the derived class |
| ClassChain.RunDisciplined | lib/lyric_assembler/src/class_symbol.cpp:510-1010 | over any run in which ancestors declare first, every name is a single field, or an optional stub followed by methods of which only the most derived may be final, each overriding the one before it |
| ClassChain.CallRefusedWith | lib/lyric_assembler/src/class_symbol.cpp:848-910 | in any chain: a call is refused as missing when no class has a method or stub of the name, as invalid access when the nearest one is hidden, and otherwise with an invariant |
| ClassChain.CallsNearest | lib/lyric_assembler/src/class_symbol.cpp:848-910 | where the discipline is kept, a call is refused exactly for a missing, hidden or unbound method, and otherwise refers to the declaration that the nearest one overrides, never to an invalid base |

## Left out

- Operands wider than the representatives: of the immediates only the unsigned integers, booleans, nil and undef are modelled; signed integers, floats and characters are encoded in the same shapes.
- Traps, plugins and inline calls: they add an encoding of a shape that is modelled for other opcodes.
- Cleanup intervals: the builder never fills the cleanup table, so only its empty count is modelled.
- Serialization of the object (`toObject`) and the vectors for impls, templates and macros: plumbing around the index that is modelled.
- What touching a symbol tracks besides the symbol (its type, its receiver, its parameters): an arbitrary run of further insertions, a parameter of the touch pass.
- Import resolution: a symbol that is not in the cache is looked up in a given map of importable symbols, and importing adds nothing to the cache that could be captured.
- `resolveBinding`, `resolveDefinition` and aliases: lookups along paths of namespaces that change no state and would only add easy members; the target of a binding symbol is a parameter of `resolveReference`.
- The interpreter: only how control moves from instruction to instruction, and how a handler is found and entered in one activation; what instructions compute is left to an oracle that says which value a branch finds on the stack and of which types a raised exception is. An exception that its own activation does not catch ends the run; the search goes on in the callers' activations with the offset of the raising instruction.
- Byte appenders: `BytesAppender` is not part of this model; its words are taken to be big-endian, as the reader `proc_utils.cpp` has them.
- Vectors of 2^32 and more elements: counts are unbounded, except where the source casts them to 16 or 32 bits and the cast is stated.
- Enum, struct, instance, concept and existential symbols: near copies of the class symbol.
- Constructors and initializers of classes: the discipline of overriding is about the other names.
- Linkage symbols, which `ObjectWriter::initialize` enters before procedures are touched: the index theorems hold from any consistent index.
- Placements.OpPlaced: checks are opened and closed by appending both labels to one fragment, innermost first, and a fragment is not spliced while a check in it is open, as `try_handler.cpp` does it; a check whose two labels stand in different fragments is not modelled.
- TypeResolution.SucceedsExactlyWhenAccepted: does not say which condition a failure reports, because the order in which members are tried is that of a sort by printed form.
- ClassSymbols.ClassSymbol.DeclareMethod: leaves out template parameters and the symbol objects themselves; a base is named by the rank of its class in the chain.
