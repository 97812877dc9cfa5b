# Kotlin bytecode optimiser: a Dafny model

This project models the method-local bytecode optimiser of the Kotlin compiler's
JVM back end (package `org.jetbrains.jet.codegen.optimization`), in three layers:

1. **The control-flow graph builder** (`DataFlowGraph`). It turns an instruction
   list and its try/catch table into one successor list per instruction index.
   Jumps, switches, fall-through, ATHROW, returns and exception-handler edges
   each follow their own rule.
2. **The abstract value lattices.**
   - The base lattice of value kinds (`OptimizationBasicValue`) with the
     interpreter's transfer tables and merge (`OptimizationBasicInterpreter`).
   - The loaded-value wrapper of the redundant-store pass. It remembers which
     load or DUP pushed a stack value.
   - The reaching-definitions wrapper of copy propagation. It holds the set of
     store/IINC indices that may have written a local.
3. **The three passes** over the per-instruction frames:
   - dead-code elimination;
   - redundant-store elimination;
   - copy propagation, with its memoised resolution of copy chains.

Everything is functional.
- Instructions form a datatype. Jump, switch and handler targets are indices
  into the same list.
- Values are datatypes. A Java `null` is `Option.None`. A thrown exception is a
  `Result.Fail`.
- Each pass decides its edits on a snapshot of the list and then applies them
  (module `SnapshotEdits`): removals by index, and single-instruction
  replacements.
- Analyzer frames are an input, `seq<Option<Frame<V>>>`. `None` marks an
  instruction the analyzer never reached.
- Liveness is an input too. `alive[k]` is the set of variables live on entry to
  instruction `k`.
- The "null frame exactly where unreachable" pattern is derived separately. A
  worklist (`Reachability.ReachableFromEntry`) computes reachability over the
  graph's edges, and `DeadCodeElimination.EliminateUnreachable` composes the
  graph builder, that worklist and the pass.

Modules, one per source concept:

| module | file | models |
|---|---|---|
| `Wrappers` | wrappers.dfy | nullable references and the exceptions thrown |
| `Opcodes` | opcodes.dfy | the JVM opcode numbers the code names |
| `Insns` | insns.dfy | instruction nodes, ASM types, LDC constants, try/catch blocks |
| `Frames` | frames.dfy | an analyzer frame and `getStackTop` |
| `DataFlowGraph` | dataflow_graph.dfy | `DataFlowGraph.build`, `buildExceptionHandlers` |
| `Reachability` | reachability.dfy | which instructions have a frame |
| `OptimizationBasicValues` | basic_values.dfy | `OptimizationBasicValue` |
| `OptimizationBasicInterpreter` | basic_interpreter.dfy | `OptimizationBasicInterpreter` |
| `SnapshotEdits` | snapshot_edits.dfy | applying removals and replacements after a scan |
| `DeadCodeElimination` | dead_code.dfy | `DeadCodeEliminationMethodTransformer` |
| `LoadedValues` | loaded_values.dfy | `LoadedValue`, `LoadedValueInterpreter` |
| `RedundantStoreElimination` | redundant_store.dfy | `RedundantStoreMethodTransformer` |
| `ReachingDefinitions` | reaching_definitions.dfy | `ReachingDefinitionsValue`, `VariablesCopyPropagationInterpreter` |
| `CopyPropagation` | copy_propagation.dfy | `VariablesCopyPropagationResolver`, `VariablesCopyPropagationMethodTransformer` |

The second branch of the redundant-store pass (RedundantStoreMethodTransformer.kt:57-58)
tests only that the next instruction is a load, not which variable it reads.
`RedundantStoreElimination.ReadOnceLoadReadsStoredVariable` shows that this load reads the
stored variable whenever liveness obeys the load's transfer rule.

## Model

| member | source | states |
|---|---|---|
| `Insns.ObjectTypeOf` | compiler/backend/src/org/jetbrains/jet/codegen/optimization/common/OptimizationBasicInterpreter.java:144-145 | an internal class name denotes an array type exactly when it starts with `[`; otherwise it is the object type of that name |
| `Insns.WellBuiltOpcodeTests` | compiler/backend/src/org/jetbrains/jet/codegen/optimization/variables/RedundantStoreMethodTransformer.kt:46-58 | on the node classes ASM builds, testing the node class and the opcode range (`insn is VarInsnNode` with `isStoreOperation`) agrees with testing the opcode alone (`isLoadOperation`, `isStoreOperation`) |
| `DataFlowGraph.HandlersAt` | compiler/backend/src/org/jetbrains/jet/codegen/optimization/common/DataFlowGraph.kt:95-106 | an index collects at most one handler per try/catch block |
| `DataFlowGraph.HandlersAtMembership` | compiler/backend/src/org/jetbrains/jet/codegen/optimization/common/DataFlowGraph.kt:95-106 | a handler is listed for index `i` exactly when some block whose range [start, end) contains `i` names it |
| `DataFlowGraph.HandlersAtAppend` | compiler/backend/src/org/jetbrains/jet/codegen/optimization/common/DataFlowGraph.kt:95-106 | overlapping blocks accumulate handlers in declaration order: the handlers of a split table are those of the first part followed by those of the second |
| `DataFlowGraph.BuildExceptionHandlers` | compiler/backend/src/org/jetbrains/jet/codegen/optimization/common/DataFlowGraph.kt:91-110 | the nested loop yields one list per instruction, and each list holds exactly the handlers of the blocks covering that index, in declaration order |
| `DataFlowGraph.EdgesOf` | compiler/backend/src/org/jetbrains/jet/codegen/optimization/common/DataFlowGraph.kt:33 | the graph has exactly one successor list per instruction index |
| `DataFlowGraph.Build` | compiler/backend/src/org/jetbrains/jet/codegen/optimization/common/DataFlowGraph.kt:36-78 | the loop builds, for every index, the successor list of the edge rules, with handler edges after the normal ones |
| `DataFlowGraph.ReturnHasNoSuccessors` | compiler/backend/src/org/jetbrains/jet/codegen/optimization/common/DataFlowGraph.kt:44 | a return has no successors at all, not even the handler of a block covering it |
| `DataFlowGraph.JumpSuccessors` | compiler/backend/src/org/jetbrains/jet/codegen/optimization/common/DataFlowGraph.kt:48-53 | GOTO's only normal successor is its target; any other jump first falls through, when an instruction follows, then goes to its target |
| `DataFlowGraph.SwitchSuccessors` | compiler/backend/src/org/jetbrains/jet/codegen/optimization/common/DataFlowGraph.kt:54-65 | a lookup or table switch goes to its default, then to every case label in order, and never falls through |
| `DataFlowGraph.PlainSuccessors` | compiler/backend/src/org/jetbrains/jet/codegen/optimization/common/DataFlowGraph.kt:66-68 | ATHROW has only exception edges; any other plain instruction falls through to the next index, and the missing successor of the last instruction is skipped |
| `DataFlowGraph.ExceptionEdges` | compiler/backend/src/org/jetbrains/jet/codegen/optimization/common/DataFlowGraph.kt:70-74 | every non-return instruction has an edge to the handler of every block covering it; an index outside every range gets no exception edge |
| `DataFlowGraph.SuccessorCharacterisation` | compiler/backend/src/org/jetbrains/jet/codegen/optimization/common/DataFlowGraph.kt:42-74 | both directions: `j` is a successor of a non-return `i` exactly when it is a normal successor or the handler of a block covering `i` |
| `DataFlowGraph.OnlyLabelsAreJoinPoints` | compiler/backend/src/org/jetbrains/jet/codegen/optimization/common/DataFlowGraph.kt:42-74 | when every target is a label, an instruction that is not a label is entered only from the instruction just before it |
| `DataFlowGraph.EdgesStayInList` | compiler/backend/src/org/jetbrains/jet/codegen/optimization/common/DataFlowGraph.kt:81-85 | when every target lies in the list, every edge index lies in the graph |
| `DataFlowGraph.EdgeInList` | compiler/backend/src/org/jetbrains/jet/codegen/optimization/common/DataFlowGraph.kt:81-85 | an edge leaving an instruction in the list ends at an index inside the list |
| `Reachability.ReachableFromEntry` | compiler/backend/src/org/jetbrains/jet/codegen/optimization/DeadCodeEliminationMethodTransformer.kt:31 | the worklist marks an instruction exactly when a path of graph edges leads to it from instruction 0; it stands in for the null/non-null pattern of the analyzer's frames |
| `Reachability.Visit` | compiler/backend/src/org/jetbrains/jet/codegen/optimization/DeadCodeEliminationMethodTransformer.kt:31 | one worklist step marks every successor, only ever adds marks, keeps every mark reachable, and appends to the worklist exactly the newly marked successors |
| `OptimizationBasicValues.TypeOf` | compiler/backend/src/org/jetbrains/jet/codegen/optimization/common/OptimizationBasicValue.kt:24-37 | only the uninitialized value carries no type; no value carries void, an array or a method type; exactly the object values carry an object type |
| `OptimizationBasicValues.EqualIffSameType` | compiler/backend/src/org/jetbrains/jet/codegen/optimization/common/OptimizationBasicValue.kt:39-44 | two values are equal exactly when their types are equal, so distinct kinds are unequal |
| `OptimizationBasicValues.StoreOpcodeFor` | compiler/backend/src/org/jetbrains/jet/codegen/optimization/common/OptimizationBasicInterpreter.java:328-329 | the store opcode a value type needs is always one of the five typed stores |
| `OptimizationBasicValues.IntStorableKinds` | compiler/backend/src/org/jetbrains/jet/codegen/optimization/common/OptimizationBasicInterpreter.java:327-331 | the kinds an int variable holds are exactly int, boolean, char, byte and short |
| `OptimizationBasicInterpreter.NewValue` | compiler/backend/src/org/jetbrains/jet/codegen/optimization/common/OptimizationBasicInterpreter.java:33-64 | no type gives the uninitialized value; void gives no value; an array gives java/lang/Object; only a method type fails; every other type gives back a value of that very type |
| `OptimizationBasicInterpreter.NewValueOfTypeOf` | compiler/backend/src/org/jetbrains/jet/codegen/optimization/common/OptimizationBasicInterpreter.java:33-64 | round trip: `newValue` rebuilds every value from its own type |
| `OptimizationBasicInterpreter.LdcOfSmallIntegralYieldsInt` | compiler/backend/src/org/jetbrains/jet/codegen/optimization/common/OptimizationBasicInterpreter.java:68-81 | an LDC of an integer, boolean, short, byte or char constant pushes an int |
| `OptimizationBasicInterpreter.ConstantsMatchTypePrefix` | compiler/backend/src/org/jetbrains/jet/codegen/optimization/common/OptimizationBasicInterpreter.java:92-115 | every constant-pushing opcode pushes a value whose store opcode matches its mnemonic's type prefix: A for ACONST_NULL; I for ICONST_*, BIPUSH and SIPUSH; L, F and D for the rest |
| `OptimizationBasicInterpreter.NegationsFollowOpcodeLayout` | compiler/backend/src/org/jetbrains/jet/codegen/optimization/common/OptimizationBasicInterpreter.java:154-177 | INEG, LNEG, FNEG and DNEG yield int, long, float and double |
| `OptimizationBasicInterpreter.ConversionsFollowOpcodeLayout` | compiler/backend/src/org/jetbrains/jet/codegen/optimization/common/OptimizationBasicInterpreter.java:156-177 | each conversion I2L..D2F yields its target kind, never its source kind |
| `OptimizationBasicInterpreter.NarrowingConversionsYieldInt` | compiler/backend/src/org/jetbrains/jet/codegen/optimization/common/OptimizationBasicInterpreter.java:159-162 | I2B, I2C and I2S push an int, not a byte, char or short |
| `OptimizationBasicInterpreter.ControlTransfersYieldNoValue` | compiler/backend/src/org/jetbrains/jet/codegen/optimization/common/OptimizationBasicInterpreter.java:178-232 | one-operand branches, switches, value returns and ATHROW push nothing |
| `OptimizationBasicInterpreter.ArrayLoadsFollowOpcodeLayout` | compiler/backend/src/org/jetbrains/jet/codegen/optimization/common/OptimizationBasicInterpreter.java:243-287 | array loads push the element kind, with byte, char and short elements widened to int and references as java/lang/Object |
| `OptimizationBasicInterpreter.ArithmeticFollowsOpcodeLayout` | compiler/backend/src/org/jetbrains/jet/codegen/optimization/common/OptimizationBasicInterpreter.java:247-285 | each binary arithmetic opcode yields the kind its position in the int/long/float/double cycle names |
| `OptimizationBasicInterpreter.ShiftsAndLogicFollowOpcodeLayout` | compiler/backend/src/org/jetbrains/jet/codegen/optimization/common/OptimizationBasicInterpreter.java:252-278 | shifts and bitwise operations alternate int and long |
| `OptimizationBasicInterpreter.ComparisonsYieldIntOrNothing` | compiler/backend/src/org/jetbrains/jet/codegen/optimization/common/OptimizationBasicInterpreter.java:288-303 | LCMP, FCMPx and DCMPx push an int; IF_ICMPxx, IF_ACMPxx and PUTFIELD push nothing |
| `OptimizationBasicInterpreter.MergeIdempotent` | compiler/backend/src/org/jetbrains/jet/codegen/optimization/common/OptimizationBasicInterpreter.java:314-335 | `merge(v, v) == v` |
| `OptimizationBasicInterpreter.MergeCommutative` | compiler/backend/src/org/jetbrains/jet/codegen/optimization/common/OptimizationBasicInterpreter.java:314-335 | merge is symmetric in its arguments |
| `OptimizationBasicInterpreter.MergeAssociative` | compiler/backend/src/org/jetbrains/jet/codegen/optimization/common/OptimizationBasicInterpreter.java:311-336 | merge is associative, so the order in which the analyzer merges incoming frames does not matter |
| `OptimizationBasicInterpreter.MergeByClass` | compiler/backend/src/org/jetbrains/jet/codegen/optimization/common/OptimizationBasicInterpreter.java:311-336 | merging two different values depends only on whether both are objects, both are stored as int, or neither |
| `OptimizationBasicInterpreter.MergeWithUninitialized` | compiler/backend/src/org/jetbrains/jet/codegen/optimization/common/OptimizationBasicInterpreter.java:315-317 | merging with the uninitialized value, on either side, gives the uninitialized value |
| `OptimizationBasicInterpreter.MergeOfDistinct` | compiler/backend/src/org/jetbrains/jet/codegen/optimization/common/OptimizationBasicInterpreter.java:314-333 | two distinct object values meet at java/lang/Object; two distinct int-storable kinds meet at int; any other mismatch, such as int and float, gives the uninitialized value |
| `OptimizationBasicInterpreter.MergeKeepsExisting` | compiler/backend/src/org/jetbrains/jet/codegen/optimization/common/OptimizationBasicInterpreter.java:311-336 | both directions: merging `w` into `v` leaves `v` unchanged exactly when they are equal, `v` is uninitialized, `v` is java/lang/Object and `w` an object, or `v` is int and `w` int-storable |
| `OptimizationBasicInterpreter.MergeClimbs` | compiler/backend/src/org/jetbrains/jet/codegen/optimization/common/OptimizationBasicInterpreter.java:311-336 | a merge that changes a slot moves it strictly up a lattice of height two, so each slot changes at most twice |
| `SnapshotEdits.Kept` | compiler/backend/src/org/jetbrains/jet/codegen/optimization/DeadCodeEliminationMethodTransformer.kt:35-37 | the surviving snapshot indices are in range, outside the removed set, and strictly increasing |
| `SnapshotEdits.KeptComplete` | compiler/backend/src/org/jetbrains/jet/codegen/optimization/DeadCodeEliminationMethodTransformer.kt:35-37 | every index outside the removed set survives |
| `SnapshotEdits.ApplyKeepsSurvivors` | compiler/backend/src/org/jetbrains/jet/codegen/optimization/DeadCodeEliminationMethodTransformer.kt:37 | removing and replacing after the scan leaves exactly the surviving snapshot instructions, in order, each replaced where a replacement was recorded |
| `SnapshotEdits.ApplyWithoutRemovals` | compiler/backend/src/org/jetbrains/jet/codegen/optimization/variables/VariablesCopyPropagationMethodTransformer.kt:94-96 | with nothing removed, `set` keeps every position and changes only the replaced ones |
| `SnapshotEdits.ApplySingleReplacement` | compiler/backend/src/org/jetbrains/jet/codegen/optimization/variables/VariablesCopyPropagationMethodTransformer.kt:94-96 | replacing one instruction and removing none changes exactly that position |
| `SnapshotEdits.ApplyNothing` | compiler/backend/src/org/jetbrains/jet/codegen/optimization/variables/VariablesCopyPropagationMethodTransformer.kt:94-96 | an empty edit list leaves the instructions unchanged |
| `DeadCodeElimination.Transform` | compiler/backend/src/org/jetbrains/jet/codegen/optimization/DeadCodeEliminationMethodTransformer.kt:30-38 | the pass only removes: the result is the instructions at the surviving snapshot indices, in order, unchanged, and none of them is dead |
| `DeadCodeElimination.SurvivesIffReachedOrBookkeeping` | compiler/backend/src/org/jetbrains/jet/codegen/optimization/DeadCodeEliminationMethodTransformer.kt:35-37 | both directions: an instruction survives exactly when it has a frame or is not meaningful (labels, line numbers and frames always stay) |
| `DeadCodeElimination.TransformIdempotent` | compiler/backend/src/org/jetbrains/jet/codegen/optimization/DeadCodeEliminationMethodTransformer.kt:30-38 | with every survivor keeping its frame, a second run removes nothing |
| `DeadCodeElimination.EliminateUnreachable` | compiler/backend/src/org/jetbrains/jet/codegen/optimization/DeadCodeEliminationMethodTransformer.kt:30-38 | built on the control-flow graph, the pass keeps exactly the instructions that are reachable from the entry along its edges or are bookkeeping, in order; graph reachability stands in for the analyzer's frames |
| `LoadedValues.LvValue.DupInsnOrThis` | compiler/backend/src/org/jetbrains/jet/codegen/optimization/variables/RedundantStoreMethodTransformer.kt:111 | the recorded DUP if there is one, otherwise the pushing instruction |
| `LoadedValues.EqualsIsEquivalence` | compiler/backend/src/org/jetbrains/jet/codegen/optimization/variables/RedundantStoreMethodTransformer.kt:113-116 | `equals` is reflexive, symmetric and transitive |
| `LoadedValues.EqualsCharacterisation` | compiler/backend/src/org/jetbrains/jet/codegen/optimization/variables/RedundantStoreMethodTransformer.kt:113-116 | loaded values are equal exactly when they share the pushing instruction, whatever they wrap; plain values exactly when their types match; a loaded value never equals a plain one, even of the same type |
| `LoadedValues.CopyOperation` | compiler/backend/src/org/jetbrains/jet/codegen/optimization/variables/RedundantStoreMethodTransformer.kt:76-88 | a load or DUP pushes a loaded value tagged with itself, wrapping the original; only a DUP changes the original, setting its recorded DUP to itself; any other copy hands the value on; base values are preserved throughout |
| `LoadedValues.Merge` | compiler/backend/src/org/jetbrains/jet/codegen/optimization/variables/RedundantStoreMethodTransformer.kt:90-128 | the result stays loaded exactly when both are loaded from the same instruction, and then shares a recorded DUP, the first argument's winning; any other mismatch collapses to the loaded side's fully unwrapped base value; two plain values use the base merge |
| `LoadedValues.MergeIdempotent` | compiler/backend/src/org/jetbrains/jet/codegen/optimization/variables/RedundantStoreMethodTransformer.kt:90-104 | merging a value with itself returns it |
| `LoadedValues.MergeKeepsBaseWhenLoaded` | compiler/backend/src/org/jetbrains/jet/codegen/optimization/variables/RedundantStoreMethodTransformer.kt:90-109 | a merge that stays loaded keeps the base value and equals both inputs |
| `LoadedValues.MergeCollapseIgnoresOtherSide` | compiler/backend/src/org/jetbrains/jet/codegen/optimization/variables/RedundantStoreMethodTransformer.kt:95-100 | a collapse keeps the loaded side's base value instead of meeting both: a loaded int merged with a plain float gives int, where the base merge gives uninitialized |
| `RedundantStoreElimination.AppropriatePop` | compiler/backend/src/org/jetbrains/jet/codegen/optimization/variables/RedundantStoreMethodTransformer.kt:131-137 | the replacement is an operand-less pop, and POP2 exactly for LSTORE and DSTORE |
| `RedundantStoreElimination.PopMatchesStoredWidth` | compiler/backend/src/org/jetbrains/jet/codegen/optimization/variables/RedundantStoreMethodTransformer.kt:131-137 | the pop discards exactly the stack words of any value the store's opcode fits |
| `RedundantStoreElimination.SafeWindowIsStraightLine` | compiler/backend/src/org/jetbrains/jet/codegen/optimization/variables/RedundantStoreMethodTransformer.kt:69-72 | when no jump or label lies between the pushing instruction and the store, every instruction after the pushing one up to the store is entered only from its predecessor |
| `RedundantStoreElimination.EditAt` | compiler/backend/src/org/jetbrains/jet/codegen/optimization/variables/RedundantStoreMethodTransformer.kt:44-65 | only stores are ever edited |
| `RedundantStoreElimination.Transform` | compiler/backend/src/org/jetbrains/jet/codegen/optimization/variables/RedundantStoreMethodTransformer.kt:38-67 | the result is the surviving snapshot instructions in order, each store that became a pop replaced by it |
| `RedundantStoreElimination.DeadStoreNeverKept` | compiler/backend/src/org/jetbrains/jet/codegen/optimization/variables/RedundantStoreMethodTransformer.kt:47-55 | a store whose variable is dead after it is removed or becomes the pop of its width; it never stays unchanged |
| `RedundantStoreElimination.RemovableLoadGoesWithStore` | compiler/backend/src/org/jetbrains/jet/codegen/optimization/variables/RedundantStoreMethodTransformer.kt:48-51 | the store goes together with the recorded DUP if there is one, otherwise with the load that pushed the value |
| `RedundantStoreElimination.UnremovableLoadLeavesPop` | compiler/backend/src/org/jetbrains/jet/codegen/optimization/variables/RedundantStoreMethodTransformer.kt:53-55 | a dead store whose pushing instruction cannot go is replaced by its pop |
| `RedundantStoreElimination.StoreThenLoadBothGo` | compiler/backend/src/org/jetbrains/jet/codegen/optimization/variables/RedundantStoreMethodTransformer.kt:57-63 | a live store whose variable is dead two instructions on, with a load next, is removed together with that load |
| `RedundantStoreElimination.ReadOnceLoadReadsStoredVariable` | compiler/backend/src/org/jetbrains/jet/codegen/optimization/variables/RedundantStoreMethodTransformer.kt:57-58 | under liveness that obeys the load's transfer rule, the load removed in that branch reads the stored variable |
| `RedundantStoreElimination.OnlyStoresAndTheirCopiesChange` | compiler/backend/src/org/jetbrains/jet/codegen/optimization/variables/RedundantStoreMethodTransformer.kt:44-65 | with the analyzer's frames, only stores, loads and DUPs are removed, and only stores are replaced, always by their pop; every other instruction survives unchanged |
| `RedundantStoreElimination.StoreFate` | compiler/backend/src/org/jetbrains/jet/codegen/optimization/variables/RedundantStoreMethodTransformer.kt:44-65 | both directions, for each store: removed exactly in the two removal branches; replaced exactly when dead with an unremovable load; unchanged exactly when neither branch applies |
| `RedundantStoreElimination.PartnerIsCopy` | compiler/backend/src/org/jetbrains/jet/codegen/optimization/variables/RedundantStoreMethodTransformer.kt:48-51 | the instruction removed together with a store is always a load or a DUP, never a store |
| `RedundantStoreElimination.StoreThenReturnEdits` | compiler/backend/src/org/jetbrains/jet/codegen/optimization/variables/RedundantStoreMethodTransformer.kt:57-63 | in `int x = 0; return x;` the store is live only until the load right after it, so branch 2 takes it with that load and leaves every other instruction alone |
| `RedundantStoreElimination.DeadCopyEdits` | compiler/backend/src/org/jetbrains/jet/codegen/optimization/variables/RedundantStoreMethodTransformer.kt:47-51 | in `y = x` with `y` never read, branch 1 takes the dead store together with the removable load before it, and nothing else |
| `RedundantStoreElimination.DeadComputedStoreEdits` | compiler/backend/src/org/jetbrains/jet/codegen/optimization/variables/RedundantStoreMethodTransformer.kt:53-55 | a dead long store whose stack top was computed rather than loaded gets a POP2 in its place, and nothing else |
| `RedundantStoreElimination.StoreThenReturnScenario` | compiler/backend/src/org/jetbrains/jet/codegen/optimization/variables/RedundantStoreMethodTransformer.kt:57-63 | `int x = 0; return x;` loses its store and load, returning the constant from the stack |
| `RedundantStoreElimination.DeadCopyScenario` | compiler/backend/src/org/jetbrains/jet/codegen/optimization/variables/RedundantStoreMethodTransformer.kt:47-51 | a copy `y = x` with `y` never read loses both its load and its store |
| `RedundantStoreElimination.DeadComputedStoreScenario` | compiler/backend/src/org/jetbrains/jet/codegen/optimization/variables/RedundantStoreMethodTransformer.kt:53-55 | a dead store of a computed long becomes POP2 and nothing else changes |
| `RedundantStoreElimination.SharedPartnerEdits` | compiler/backend/src/org/jetbrains/jet/codegen/optimization/variables/RedundantStoreMethodTransformer.kt:44-65 | in `x = 0; y = x;` with neither read again, branch 2 takes the store to `x` with the load after it, and branch 1 takes the store to `y` with that same load |
| `RedundantStoreElimination.SharedPartnerScenario` | compiler/backend/src/org/jetbrains/jet/codegen/optimization/variables/RedundantStoreMethodTransformer.kt:44-65 | two stores can name one partner: the snapshot removes both stores and the shared load once, leaving the constant on the stack |
| `ReachingDefinitions.First` | compiler/backend/src/org/jetbrains/jet/codegen/optimization/variables/VariablesCopyPropagationInterpreter.kt:59 | `first()` yields a member of the index set |
| `ReachingDefinitions.CreateByDefinitionIndex` | compiler/backend/src/org/jetbrains/jet/codegen/optimization/variables/VariablesCopyPropagationInterpreter.kt:33-37 | the new value holds exactly the one given definition index and the stored value's base value |
| `ReachingDefinitions.CreateUnwrapsNested` | compiler/backend/src/org/jetbrains/jet/codegen/optimization/variables/VariablesCopyPropagationInterpreter.kt:41-46 | wrapping a reaching-definitions value never nests: the base value is the innermost one |
| `ReachingDefinitions.EqualsIsStructural` | compiler/backend/src/org/jetbrains/jet/codegen/optimization/variables/VariablesCopyPropagationInterpreter.kt:53-56 | both directions: two values are equal exactly when they have the same index set and equal base value, or are plain with the same type; the classes never mix |
| `ReachingDefinitions.Merge` | compiler/backend/src/org/jetbrains/jet/codegen/optimization/variables/VariablesCopyPropagationInterpreter.kt:83-95 | the result carries definitions exactly when both inputs do, and then the union of their index sets and the first input's base value; otherwise it is the base merge of the unwrapped values |
| `ReachingDefinitions.MergeContainsBoth` | compiler/backend/src/org/jetbrains/jet/codegen/optimization/variables/VariablesCopyPropagationInterpreter.kt:48-51 | the merged set contains both inputs' sets |
| `ReachingDefinitions.MergeLaws` | compiler/backend/src/org/jetbrains/jet/codegen/optimization/variables/VariablesCopyPropagationInterpreter.kt:83-95 | merge is idempotent; the merged index set does not depend on argument order or grouping; merging in a value whose definitions are already present changes nothing |
| `ReachingDefinitions.CopyOperation` | compiler/backend/src/org/jetbrains/jet/codegen/optimization/variables/VariablesCopyPropagationInterpreter.kt:69-74 | a store produces a single-definition value naming its own index; any other copy hands its value on; the base value is preserved |
| `ReachingDefinitions.UnaryOperation` | compiler/backend/src/org/jetbrains/jet/codegen/optimization/variables/VariablesCopyPropagationInterpreter.kt:76-81 | IINC produces a single-definition value naming its own index with the variable's base value; any other instruction behaves as the base interpreter, with a plain result |
| `ReachingDefinitions.GetVarIndex` | compiler/backend/src/org/jetbrains/jet/codegen/optimization/variables/VariablesCopyPropagationInterpreter.kt:58-65 | succeeds exactly when the first definition is a variable instruction or an IINC and then answers its variable; otherwise fails with the assertion error |
| `ReachingDefinitions.GetVarIndexAtDefinitions` | compiler/backend/src/org/jetbrains/jet/codegen/optimization/variables/VariablesCopyPropagationInterpreter.kt:58-65 | on values whose indices name stores and IINCs it never fails, and when they all write one variable it answers that variable, whichever index comes first |
| `ReachingDefinitions.StoreDefinesItsVariable` | compiler/backend/src/org/jetbrains/jet/codegen/optimization/variables/VariablesCopyPropagationInterpreter.kt:69-74 | the value a store produces names only that store, which writes the store's own variable |
| `ReachingDefinitions.IincDefinesItsVariable` | compiler/backend/src/org/jetbrains/jet/codegen/optimization/variables/VariablesCopyPropagationInterpreter.kt:76-81 | the value an IINC produces names only that IINC, which writes the IINC's own variable |
| `ReachingDefinitions.MergeKeepsDefinesVariable` | compiler/backend/src/org/jetbrains/jet/codegen/optimization/variables/VariablesCopyPropagationInterpreter.kt:83-95 | merging two values whose definitions all write variable `x` gives a value whose definitions all write `x` |
| `CopyPropagation.StoredValue` | compiler/backend/src/org/jetbrains/jet/codegen/optimization/variables/VariablesCopyPropagationMethodTransformer.kt:53 | the value a reached store takes off the stack names only definitions |
| `CopyPropagation.ProvisionalEntrySound` | compiler/backend/src/org/jetbrains/jet/codegen/optimization/variables/VariablesCopyPropagationMethodTransformer.kt:48 | entering a definition provisionally as itself keeps every memo entry reachable along copies from its index |
| `CopyPropagation.ResolveFollowsStore` | compiler/backend/src/org/jetbrains/jet/codegen/optimization/variables/VariablesCopyPropagationMethodTransformer.kt:48-61 | resolving a single-definition store whose stored value has definitions follows that value, then overwrites its own provisional memo entry with the result |
| `CopyPropagation.Resolve` | compiler/backend/src/org/jetbrains/jet/codegen/optimization/variables/VariablesCopyPropagationMethodTransformer.kt:43-62 | several definitions return unchanged with the memo untouched; a memo hit returns its entry; otherwise the answer is reached from the definition along stores of copied values, names only definitions, and is memoised; existing entries never change; the recursion terminates, cycles included |
| `CopyPropagation.EmptyMemo` | compiler/backend/src/org/jetbrains/jet/codegen/optimization/variables/VariablesCopyPropagationMethodTransformer.kt:41 | one unresolved entry per instruction |
| `CopyPropagation.ResolveOriginalDefinition` | compiler/backend/src/org/jetbrains/jet/codegen/optimization/variables/VariablesCopyPropagationMethodTransformer.kt:48-57 | an unresolved single definition that is an IINC, an unreached store or a store of a value without definitions resolves to itself and is memoised as itself, whatever the rest of the memo holds |
| `CopyPropagation.ResolveFollowsChain` | compiler/backend/src/org/jetbrains/jet/codegen/optimization/variables/VariablesCopyPropagationMethodTransformer.kt:43-62 | completeness: along a chain of copies with no repeated and no memoised definition that ends at an original definition, resolution follows the whole chain, answers the value the last copy stored (naming the definition at the chain's end alone), and memoises that answer for every definition on the chain |
| `CopyPropagation.CopyCycleResolvesToItself` | compiler/backend/src/org/jetbrains/jet/codegen/optimization/variables/VariablesCopyPropagationMethodTransformer.kt:46-48 | a store of a variable's own value resolves to itself through its provisional entry |
| `CopyPropagation.ResolveStoreOfJoin` | compiler/backend/src/org/jetbrains/jet/codegen/optimization/variables/VariablesCopyPropagationMethodTransformer.kt:43-59 | a chain that reaches a store of a value with several definitions, as after a join, ends there: the store resolves to that value and is memoised with it, never with itself |
| `CopyPropagation.LoadDecision` | compiler/backend/src/org/jetbrains/jet/codegen/optimization/variables/VariablesCopyPropagationMethodTransformer.kt:76-91 | only a reached load of a variable with reaching definitions is looked at, and anything else leaves the memo untouched; the memo stays sound |
| `CopyPropagation.LoadDecisionSound` | compiler/backend/src/org/jetbrains/jet/codegen/optimization/variables/VariablesCopyPropagationMethodTransformer.kt:82-89 | a rewrite loads, with the same opcode, a different variable that holds exactly the definitions the loaded value resolves to |
| `CopyPropagation.LoadDecisionRewritesExactly` | compiler/backend/src/org/jetbrains/jet/codegen/optimization/variables/VariablesCopyPropagationMethodTransformer.kt:82-90 | both directions: with `p` the resolved definitions and `c` the variable they write, the load is rewritten exactly when `c` is another variable that still holds exactly `p`, and then to a load of `c` |
| `CopyPropagation.Scan` | compiler/backend/src/org/jetbrains/jet/codegen/optimization/variables/VariablesCopyPropagationMethodTransformer.kt:76-92 | every rewrite collected lies at or after the scan position |
| `CopyPropagation.ScanSound` | compiler/backend/src/org/jetbrains/jet/codegen/optimization/variables/VariablesCopyPropagationMethodTransformer.kt:76-92 | every rewrite the scan collects is sound |
| `CopyPropagation.ScanRecordsDecisions` | compiler/backend/src/org/jetbrains/jet/codegen/optimization/variables/VariablesCopyPropagationMethodTransformer.kt:76-92 | the scan records a rewrite at `j` exactly when the loop body, run on each instruction in turn, decides one at `j`, and records that rewrite |
| `CopyPropagation.DecisionAtUsesThreadedMemo` | compiler/backend/src/org/jetbrains/jet/codegen/optimization/variables/VariablesCopyPropagationMethodTransformer.kt:76-92 | the decision at `j` is the loop body's at `j`, on the memo the earlier instructions of the scan have built |
| `CopyPropagation.Transform` | compiler/backend/src/org/jetbrains/jet/codegen/optimization/variables/VariablesCopyPropagationMethodTransformer.kt:66-98 | no instruction is added, removed or moved; each either stays or is a sound redirection of a load |
| `CopyPropagation.TransformFollowsDecisions` | compiler/backend/src/org/jetbrains/jet/codegen/optimization/variables/VariablesCopyPropagationMethodTransformer.kt:76-96 | each instruction of the result is the rewrite the loop body decides at its index, on the memo built by the instructions before it, or else the original |
| `CopyPropagation.TransformRewritesLoad` | compiler/backend/src/org/jetbrains/jet/codegen/optimization/variables/VariablesCopyPropagationMethodTransformer.kt:76-96 | both directions for a reached load of a variable with reaching definitions: the pass changes it exactly when the variable its resolved definitions write is another variable still holding exactly them, and then to a load of that variable with the same opcode |
| `CopyPropagation.RewritesFollowSingleDefinitions` | compiler/backend/src/org/jetbrains/jet/codegen/optimization/variables/VariablesCopyPropagationMethodTransformer.kt:44-88 | when every local holds only definitions of itself, every instruction the pass changes is a reached load of a variable with exactly one reaching definition |
| `CopyPropagation.SeveralDefinitionsNeverRewritten` | compiler/backend/src/org/jetbrains/jet/codegen/optimization/variables/VariablesCopyPropagationMethodTransformer.kt:44 | when a variable's definitions all write that variable, a load reached by several of them is never rewritten |
| `CopyPropagation.ExampleWellFormed` | compiler/backend/src/org/jetbrains/jet/codegen/optimization/variables/VariablesCopyPropagationMethodTransformer.kt:31-38 | the example's frames fit its instructions |
| `CopyPropagation.ExampleResolvesOne` | compiler/backend/src/org/jetbrains/jet/codegen/optimization/variables/VariablesCopyPropagationMethodTransformer.kt:50-57 | a store of a constant resolves to itself |
| `CopyPropagation.ExampleResolvesThree` | compiler/backend/src/org/jetbrains/jet/codegen/optimization/variables/VariablesCopyPropagationMethodTransformer.kt:59-61 | definition 3 resolves through definition 1, and both are memoised |
| `CopyPropagation.ExampleResolvesThreeThroughMemo` | compiler/backend/src/org/jetbrains/jet/codegen/optimization/variables/VariablesCopyPropagationMethodTransformer.kt:46 | once definition 1 is memoised, definition 3 takes its entry |
| `CopyPropagation.ExampleResolvesFive` | compiler/backend/src/org/jetbrains/jet/codegen/optimization/variables/VariablesCopyPropagationMethodTransformer.kt:59-61 | definition 5 resolves through 3 to 1 |
| `CopyPropagation.ResolverCommentExample` | compiler/backend/src/org/jetbrains/jet/codegen/optimization/variables/VariablesCopyPropagationMethodTransformer.kt:28-40 | from an empty memo, definitions 5, 3 and 1 all resolve to definition 1 and are memoised, as the comment's table says |
| `CopyPropagation.ExampleNonLoadsUntouched` | compiler/backend/src/org/jetbrains/jet/codegen/optimization/variables/VariablesCopyPropagationMethodTransformer.kt:77 | instructions other than loads are skipped |
| `CopyPropagation.ExampleLoadOfZero` | compiler/backend/src/org/jetbrains/jet/codegen/optimization/variables/VariablesCopyPropagationMethodTransformer.kt:87 | a load of the variable the definitions wrote is not redirected |
| `CopyPropagation.ExampleLoadOfOne` | compiler/backend/src/org/jetbrains/jet/codegen/optimization/variables/VariablesCopyPropagationMethodTransformer.kt:82-89 | the load of variable 1 becomes a load of variable 0 |
| `CopyPropagation.ExampleScanFromLoadOfOne` | compiler/backend/src/org/jetbrains/jet/codegen/optimization/variables/VariablesCopyPropagationMethodTransformer.kt:76-92 | from instruction 3 on, the scan records exactly the one rewrite |
| `CopyPropagation.ExampleScanTail` | compiler/backend/src/org/jetbrains/jet/codegen/optimization/variables/VariablesCopyPropagationMethodTransformer.kt:76-92 | after the last load of the example, the scan records no rewrite |
| `CopyPropagation.ExampleScan` | compiler/backend/src/org/jetbrains/jet/codegen/optimization/variables/VariablesCopyPropagationMethodTransformer.kt:76-92 | the whole scan records exactly one rewrite: instruction 4 to ILOAD 0 |
| `CopyPropagation.CopyPropagationCommentExample` | compiler/backend/src/org/jetbrains/jet/codegen/optimization/variables/VariablesCopyPropagationMethodTransformer.kt:28-40 | on the comment's program the pass turns `ILOAD 1` into `ILOAD 0` and changes nothing else |
| `CopyPropagation.JoinResolvesEleven` | compiler/backend/src/org/jetbrains/jet/codegen/optimization/variables/VariablesCopyPropagationMethodTransformer.kt:43-62 | in `y = c != 0 ? b : a`, the store of `y` takes the join's value and so resolves to both stores, `{1, 3}` |
| `CopyPropagation.InPlaceMergeBreaksOwnDefinitions` | compiler/backend/src/org/jetbrains/jet/codegen/optimization/variables/VariablesCopyPropagationInterpreter.kt:48-51 | once the join has grown the value local 1 shares with the stack, local 1 names the store of `b` to variable 2, so not every local holds only its own definitions |
| `CopyPropagation.InPlaceMergeRedirectsLoad` | compiler/backend/src/org/jetbrains/jet/codegen/optimization/variables/VariablesCopyPropagationMethodTransformer.kt:76-90 | on those frames the load of `y` is redirected to local 1, which reads `a` on the path where `y` is `b` |
| `CopyPropagation.ValueMergeKeepsOwnDefinitions` | compiler/backend/src/org/jetbrains/jet/codegen/optimization/variables/VariablesCopyPropagationInterpreter.kt:83-86 | with a merge that returns a new value, the join's `{1, 3}` is the merge of the two branches, local 1 keeps `{1}`, and every local holds only its own definitions |
| `CopyPropagation.ValueMergeKeepsLoad` | compiler/backend/src/org/jetbrains/jet/codegen/optimization/variables/VariablesCopyPropagationMethodTransformer.kt:82-90 | on those frames the load of `y` is left alone, because local 1 no longer holds `y`'s resolved definitions |
| `CopyPropagation.RedirectedLoadReadsOwnDefinitions` | compiler/backend/src/org/jetbrains/jet/codegen/optimization/variables/VariablesCopyPropagationMethodTransformer.kt:82-89 | when every local holds only its own definitions, a redirected load reads a variable that every one of its resolved definitions writes |

## Left out

- The fixed-point engine (`MethodTransformer.analyze`, ASM's `Analyzer` and `Frame`) is not part of this model. Frames are an input.
- `Reachability.ReachableFromEntry`: computed over `DataFlowGraph`'s edges, not the analyzer's. ASM's analyzer also gives a return inside a try block an edge to the handler, which DataFlowGraph.kt:44 drops. A handler reached only from such returns has a frame in the analyzer but is not reachable here.
- `DeadCodeElimination.EliminateUnreachable`: for the same reason it removes a handler reached only from returns inside its try block, which the pass run on the analyzer's frames keeps.
- Liveness (`analyzeLiveness`, `isAlive`) is not part of this model. It is an input, one set of live variables per instruction.
- `isMeaningful`, `isLoadOperation`, `isStoreOperation`, `isReturnOperation` and `InsnStream` are not part of this model. They are predicates on the instruction datatype: a pseudo-instruction is a label, line number or frame node, and the window of `isSafeToRemoveLoad` is [load, store).
- The operations `OptimizationBasicInterpreter` inherits from ASM's `BasicInterpreter` (`copyOperation`, `ternaryOperation`, `naryOperation`, `returnOperation`) are not part of this model. A copy hands its value on unchanged.
- Descriptor strings are not parsed. Field types are given as types, and array descriptors built for NEWARRAY, ANEWARRAY, GETFIELD and CHECKCAST collapse to java/lang/Object. Method invocations carry no descriptor.
- Floating point: only the float and double kinds are tracked, never values.
- Object identity and sharing are modelled as values. `LoadedValue.dupInsn` is mutated in place and seen by every frame that shares the object. `ReachingDefinitionsValue.merge` grows `v`'s set in place, so the analyzer's frame merge sees no change. The model returns new values instead and does not follow the aliasing between frames. One consequence of the in-place merge is not promised by the model's lemmas: a local that shares its value with a joined stack slot comes to name definitions of other variables, and the copy-propagation pass can then redirect a load wrongly (see "## Findings"). `CopyPropagation.LocalsHoldOwnDefinitions`, `RewritesFollowSingleDefinitions` and `RedirectedLoadReadsOwnDefinitions` hold for frames built with value semantics, not for the frames the source computes.
- The redundant-store pass edits the live list while scanning. The model decides every edit on the snapshot and applies them all afterwards.
- `RedundantStoreElimination.Transform`: when two stores name the same partner, the model removes that partner once. This happens in three ways. A load taken by branch 2 can be the pushing instruction of a later dead store (`RedundantStoreElimination.SharedPartnerScenario`). DUP_X1 and DUP_X2 hand on one loaded value twice, so two dead stores can name the same load. Two dead stores can store values copied by one DUP. The source then removes an already detached node again, and for a later store looks up a removed node with `indexOf`. What happens then is decided by ASM's `InsnList` and by `InsnStream`, which are not part of this model.
- `ReachingDefinitions.First`: the model takes the least index, where the source takes whatever the hash set yields first. `ReachingDefinitions.GetVarIndexAtDefinitions` shows the choice does not matter when all definitions write one variable.
- A null frame array (`loadedFrames?`) is modelled as one `None` frame per instruction.
- Index-out-of-range and empty-stack exceptions are not modelled. `RedundantStoreElimination.Shaped` and `CopyPropagation.WellFormed` exclude them, as the analyzer's frames do: one frame and one liveness set per instruction, a store never last, a reached store finding a value on the stack, every variable a slot.
- The live list's `indexOf` on instructions not in the list is not modelled. Targets are indices, and `DataFlowGraph.TargetsInList` keeps them in range.
- `Insns.Insn` admits nodes ASM never builds, such as an operand-less ILOAD or a variable instruction carrying IADD. `Insn.WellBuilt` names the shapes ASM builds, and `Insns.WellBuiltOpcodeTests` shows that on them the model's node-class tests agree with the opcode-only tests. The passes do not require it.
- `OptimizationBasicValue.equals` with a null or foreign-class argument is not modelled as such. Each wrapper domain's `Equals` states that the classes never mix.

## Findings

| source | as written | input that shows it | evidently intended | confidence | as-written member | corrected member |
|---|---|---|---|---|---|---|
| compiler/backend/src/org/jetbrains/jet/codegen/optimization/variables/VariablesCopyPropagationInterpreter.kt:48-51 | `merge` adds the other value's definitions to the receiver and returns the receiver. A load hands on the same object (kt:73), so a local that shares it with the stack grows too. | `y = c != 0 ? b : a; return y + y`, compiled as `ICONST_2; ISTORE 1; ICONST_3; ISTORE 2; ILOAD 0; IFEQ L1; ILOAD 2; GOTO L2; L1: ILOAD 1; L2: ISTORE 3; ILOAD 3; ILOAD 3; IADD; IRETURN`. ASM's worklist reaches `L2` first from `ILOAD 1`; merging the other branch grows local 1 to `{1, 3}`, and the first `ILOAD 3` becomes `ILOAD 1`, which reads `a` on the path where `y` is `b` | merge returns a new value holding the union, so each local names only its own definitions and the load of `y` stays (`CopyPropagation.ValueMergeKeepsLoad`) | medium, not executed: it depends on ASM's worklist order, which is not part of this model | `CopyPropagation.InPlaceMergeRedirectsLoad` | `CopyPropagation.RedirectedLoadReadsOwnDefinitions` |
