# Two LLVM function passes, modelled and proved in Dafny

This project models the two passes of the repository over a small abstract
IR and proves what their code does.

**The duplicate-function merger** (`OurMergeFunctionPass`).
- For every function `F` of a module, it scans the functions in module order.
- It queues every function that has no uses, and every function that passes two tests against `F`:
  - `equalArguments` compares the signature, the block count and the instruction count;
  - `checkSyntax` is a position-by-position comparison of the bodies, built on `zip` and `checkNumberOfConstants`.
- For a duplicate, `replaceFunctionCalls` first redirects every call that uses the duplicate to `F`.
- After the scan, the queued functions are erased and the queue is emptied. The set of functions already replaced survives between invocations.

**The strength-reduction pass** (`OurStrengthReduction`).
- `mul` by an integer constant that passes `isPowerOfTwo` becomes `shl` by `powerOfTwo` of that constant.
- `srem` by such a constant becomes `and` with the constant minus one.
- Each replacement is inserted right after the instruction it replaces, and every use is redirected to it.
- The replaced instruction goes on a removal list, and the list is erased after the walk.
- `removeAllInstructions` appends a call and everything after it in its block to the two member lists.

Layout:
- `merge_ir.dfy`: values, instructions, functions and modules of the merger. LLVM's uniqued types and constants are identities compared by equality.
- `merge_compare.dfy`:
  - `zip` as a method, with the function it computes;
  - `checkNumberOfConstants`;
  - `checkSyntax` as a recursive comparison of the zipped blocks that ends at the first decisive pair;
  - `equalArguments` with its multiset-erase loop;
  - the lemmas about all of these.
- `merge_pass.dfy`:
  - `replaceFunctionCalls` as a method with its two loops, proved equal to a redirect function;
  - the scan of `runOnFunction` as a function;
  - the pass object, a class holding `FunctionsToDelete` and `AlreadyReplaced`, whose `RunOnFunction` runs the scan loop and the erase loop.
- `merge_properties.dfy`: what one invocation does to the module:
  - what it erases and what it keeps;
  - that no call to an erased function remains;
  - when it changes nothing.
- `strength_bits.dfy`:
  - the 32-bit tests `isPowerOfTwo` and `powerOfTwo` (the latter a loop method);
  - the bit-vector facts behind the two rewrites, with `srem` read as C's truncating remainder.
- `strength_ir.dfy`: blocks of instructions with identities, and what `insertAfter`, `replaceAllUsesWith` and `eraseFromParent` do to them.
- `strength_scan.dfy`: the choice of rewrite for each instruction, and the walk over the blocks as a function.
- `strength_walk.dfy`: the shape of the function after the walk and after the erase: each rewritten instruction is replaced in place by its new instruction, and every use is renamed to it.
- `strength_pass.dfy`: the pass object, a class holding `InstructionsToRemove` and `InstructionsToCopy`, with `RemoveAllInstructions` and `RunOnFunction` as loop methods.
- `strength_semantics.dfy`: when the replacement computes the same value as the instruction it replaces.

The model follows the code where the pass's evident intent differs from it:
- The merger's scan breaks at `F` itself. So only functions before `F` are compared with it, and a later duplicate is merged only when the pass later visits that function.
- `checkSyntax` accepts `a - b` against `b - a` when the operand types agree.
- `isPowerOfTwo` tests only the sign bit.
- The `and` rewrite does not preserve `srem` for negative dividends.

The lemmas state each of these behaviours as the code has it.

## Model

| member | source | states |
|---|---|---|
| MergeCompare.Zip | OurMergeFunctionPass/OurMergeFunctionPass.cpp:27-41 | the result has as many pairs as the shorter input, and its i-th pair is the i-th element of each input |
| MergeCompare.ZipSeqAt | OurMergeFunctionPass/OurMergeFunctionPass.cpp:27-41 | the zipped sequence has the length of the shorter input and pairs elements of equal position |
| MergeCompare.ZipSeqIgnoresTail | OurMergeFunctionPass/OurMergeFunctionPass.cpp:27-41 | elements of the longer input past the shorter one's length do not change the zip |
| MergeCompare.ConstantCount | OurMergeFunctionPass/OurMergeFunctionPass.cpp:43-54 | the per-side constant count is at most 2, is 0 exactly when neither operand is constant and 2 exactly when both are |
| MergeCompare.BinaryPairRejections | OurMergeFunctionPass/OurMergeFunctionPass.cpp:63-122 | a binary first instruction is rejected against a non-binary one, against another opcode, or against a different constant count, and never ends the comparison with acceptance |
| MergeCompare.NonBinaryAgainstBinaryContinues | OurMergeFunctionPass/OurMergeFunctionPass.cpp:63-64 | the comparison is asymmetric: a non-binary first instruction against a binary one continues, the same pair the other way round rejects |
| MergeCompare.AllConstantOperands | OurMergeFunctionPass/OurMergeFunctionPass.cpp:70-105 | with four constant operands, a pair passes exactly when the constants agree in position, or swapped for a commutative opcode |
| MergeCompare.NoConstantOperands | OurMergeFunctionPass/OurMergeFunctionPass.cpp:96-118 | with no constant operand, a pair passes exactly when the operand types agree in position, or swapped for a commutative opcode |
| MergeCompare.NonCommutativeCrossedConstants | OurMergeFunctionPass/OurMergeFunctionPass.cpp:100-119 | a non-commutative pair with constants on opposite sides passes exactly when the positional types agree; the constants themselves are not compared |
| MergeCompare.SwappedSubtractionNotRejected | OurMergeFunctionPass/OurMergeFunctionPass.cpp:100-119 | `sub a, b` against `sub b, a` with equal operand types is not rejected |
| MergeCompare.BinaryPairSymmetric | OurMergeFunctionPass/OurMergeFunctionPass.cpp:63-122 | between two binary instructions the verdict does not depend on which function each comes from |
| MergeCompare.CommutativeSwapInvariant | OurMergeFunctionPass/OurMergeFunctionPass.cpp:70-99 | for a commutative opcode, swapping the second instruction's operands does not change the verdict |
| MergeCompare.ReturnPairs | OurMergeFunctionPass/OurMergeFunctionPass.cpp:124-143 | two constant returns decide at once by identity; one constant return rejects; two non-constant returns accept on equal types and otherwise continue |
| MergeCompare.ConstantReturnDecidesAtOnce | OurMergeFunctionPass/OurMergeFunctionPass.cpp:124-135 | when both functions start with a constant return, `checkSyntax` holds exactly when the two constants are the same |
| MergeCompare.CompareInstrsAppend | OurMergeFunctionPass/OurMergeFunctionPass.cpp:58-145 | a decisive verdict in an earlier segment of instruction pairs hides everything after it |
| MergeCompare.CompareBlocksFlattened | OurMergeFunctionPass/OurMergeFunctionPass.cpp:56-147 | the nested loops over block pairs decide as one loop over all aligned instruction pairs, block after block |
| MergeCompare.CompareInstrsFirstDecisive | OurMergeFunctionPass/OurMergeFunctionPass.cpp:60-146 | the comparison does not reject exactly when every rejecting pair comes after an accepting pair |
| MergeCompare.CheckSyntaxNoRejectBeforeAccept | OurMergeFunctionPass/OurMergeFunctionPass.cpp:56-147 | `checkSyntax` holds exactly when no aligned instruction pair rejects before some pair accepts |
| MergeCompare.CheckSyntaxReflexive | OurMergeFunctionPass/OurMergeFunctionPass.cpp:56-147 | every function passes `checkSyntax` against itself |
| MergeCompare.CheckSyntaxIgnoresExtraBlocks | OurMergeFunctionPass/OurMergeFunctionPass.cpp:57-58 | blocks of the second function beyond the first's block count do not change `checkSyntax` |
| MergeCompare.CheckSyntaxIgnoresExtraInstructions | OurMergeFunctionPass/OurMergeFunctionPass.cpp:60-61 | instructions beyond the shorter block of an aligned pair do not change `checkSyntax` |
| MergeCompare.ZipSeqIgnoresFirstTail | OurMergeFunctionPass/OurMergeFunctionPass.cpp:27-41 | elements of the first input past the second one's length do not change the zip |
| MergeCompare.CheckSyntaxIgnoresFirstExtraBlocks | OurMergeFunctionPass/OurMergeFunctionPass.cpp:57-58 | blocks of the first function beyond the second's block count do not change `checkSyntax` |
| MergeCompare.CheckSyntaxIgnoresFirstExtraInstructions | OurMergeFunctionPass/OurMergeFunctionPass.cpp:60-61 | instructions of the first function beyond the second's block length in an aligned pair do not change `checkSyntax` |
| MergeCompare.EraseEachIsDifference | OurMergeFunctionPass/OurMergeFunctionPass.cpp:154-166 | erasing one occurrence per parameter type of the first function leaves exactly the multiset difference |
| MergeCompare.EqualArgumentsIff | OurMergeFunctionPass/OurMergeFunctionPass.cpp:149-177 | `equalArguments` holds exactly when parameter counts, return types, parameter-type multisets, block counts and instruction counts all agree |
| MergeCompare.EqualArgumentsPermutationInvariant | OurMergeFunctionPass/OurMergeFunctionPass.cpp:154-170 | permuting either function's parameters never changes `equalArguments` |
| MergeCompare.EqualArgumentsSymmetric | OurMergeFunctionPass/OurMergeFunctionPass.cpp:149-177 | `equalArguments` does not depend on the order of its two arguments |
| MergePass.CollectCallUses | OurMergeFunctionPass/OurMergeFunctionPass.cpp:200-206 | the collected uses are exactly the call instructions that mention the function, as callee or as argument |
| MergePass.SetCalledFunctions | OurMergeFunctionPass/OurMergeFunctionPass.cpp:207-215 | the callee of every collected call becomes the survivor; every other instruction and the module's shape are unchanged |
| MergePass.ReplaceFunctionCalls | OurMergeFunctionPass/OurMergeFunctionPass.cpp:199-216 | every call that mentions the duplicate now calls the survivor with its arguments unchanged; nothing else changes |
| MergePass.RedirectCallsUses | OurMergeFunctionPass/OurMergeFunctionPass.cpp:199-216 | afterwards no call targets the duplicate, no other function gains a use or a call, and a non-call use of the duplicate keeps it used |
| MergePass.RedirectCallsRetargets | OurMergeFunctionPass/OurMergeFunctionPass.cpp:211 | redirecting changes only callees, and only to the survivor |
| MergePass.ComparisonsIgnoreCallees | OurMergeFunctionPass/OurMergeFunctionPass.cpp:245-246 | calls redirected earlier in the scan do not change `equalArguments` or `checkSyntax` for later pairs |
| MergePass.MergeFunctionPass.constructor | OurMergeFunctionPass/OurMergeFunctionPass.cpp:18-25 | a new pass has an empty queue and an empty replaced set |
| MergePass.MergeFunctionPass.RunOnFunction | OurMergeFunctionPass/OurMergeFunctionPass.cpp:231-262 | the resulting module and the replaced set are those of the scan followed by the erase; the queue is empty again and the result is true |
| MergeProperties.ScanSkipsAll | OurMergeFunctionPass/OurMergeFunctionPass.cpp:236-237 | when the current function is a declaration or `main`, the scan changes nothing |
| MergeProperties.ScanAlreadyReplaced | OurMergeFunctionPass/OurMergeFunctionPass.cpp:238-253 | a current function already replaced stops the scan at the first candidate, so nothing changes |
| MergeProperties.ScanRetargets | OurMergeFunctionPass/OurMergeFunctionPass.cpp:235-254 | the scan changes only callees, and only to the current function |
| MergeProperties.ScanExtends | OurMergeFunctionPass/OurMergeFunctionPass.cpp:238-252 | the scan only appends to the queue, adds to the replaced set exactly what it queues, and queues nothing for a non-candidate or an already replaced current function |
| MergeProperties.ScanQueuesEarlierCandidates | OurMergeFunctionPass/OurMergeFunctionPass.cpp:235-253 | every queued function is a non-declaration, non-`main` function that comes before the current one |
| MergeProperties.ScanQueuesMergeable | OurMergeFunctionPass/OurMergeFunctionPass.cpp:238-252 | every earlier candidate that had no uses, or passed both tests, in the module as the scan found it is queued |
| MergeProperties.ScanNoCallToQueued | OurMergeFunctionPass/OurMergeFunctionPass.cpp:239-251 | after the scan no call targets a queued function |
| MergeProperties.VisitUncalled | OurMergeFunctionPass/OurMergeFunctionPass.cpp:239-250 | queuing a dead function or redirecting a duplicate leaves it, and every function queued before, without callers |
| MergeProperties.ScanNoChange | OurMergeFunctionPass/OurMergeFunctionPass.cpp:235-254 | when no earlier candidate is dead or a duplicate, the scan changes nothing |
| MergeProperties.MergeOnceErasesOnlyEarlierCandidates | OurMergeFunctionPass/OurMergeFunctionPass.cpp:235-259 | only earlier candidates are erased, only for a candidate current function not yet replaced, and the replaced set grows by exactly the erased functions |
| MergeProperties.MergeOnceKeepsProtected | OurMergeFunctionPass/OurMergeFunctionPass.cpp:235-259 | the current function, every later function, `main` and every declaration survive the invocation |
| MergeProperties.MergeOnceErasesDeadAndDuplicates | OurMergeFunctionPass/OurMergeFunctionPass.cpp:239-258 | an earlier candidate with no uses, or one that passes both tests, is erased and recorded as replaced |
| MergeProperties.MergeOnceNoCallToErased | OurMergeFunctionPass/OurMergeFunctionPass.cpp:245-258 | no erased function remains, and no call to one remains |
| MergeProperties.MergeOnceOnlyRetargetsAndErases | OurMergeFunctionPass/OurMergeFunctionPass.cpp:231-262 | the resulting module is the original with some callees redirected to the current function and the erased functions removed |
| MergeProperties.MergeOnceIdentity | OurMergeFunctionPass/OurMergeFunctionPass.cpp:235-259 | with no dead or duplicate earlier candidate, the invocation leaves module and replaced set as they were |
| MergeProperties.MergeOnceErasesStillMentioned | OurMergeFunctionPass/OurMergeFunctionPass.cpp:245-258 | a duplicate that a retargeted call still passes as an argument is erased all the same, and the call still names it |
| MergeProperties.MergeOnceSkipsNonCandidate | OurMergeFunctionPass/OurMergeFunctionPass.cpp:236-253 | an invocation on a declaration, on `main` or on an already replaced function changes nothing |
| StrengthBits.IsPowerOfTwoIffNonNegative | OurStrengthReduction/OurStrenghtReduction.cpp:31-34 | the test holds exactly for the non-negative 32-bit values |
| StrengthBits.IsPowerOfTwoAdmitsSix | OurStrengthReduction/OurStrenghtReduction.cpp:31-34 | 6 passes the test although it is no power of two |
| StrengthBits.Log2 | OurStrengthReduction/OurStrenghtReduction.cpp:36-48 | for a value with at most one bit set below the sign bit: 0 for 0, otherwise the position of that bit |
| StrengthBits.Log2OfOneBit | OurStrengthReduction/OurStrenghtReduction.cpp:36-48 | the logarithm of `1 << k` is `k` for every `k` up to 30 |
| StrengthBits.PowerOfTwo | OurStrengthReduction/OurStrenghtReduction.cpp:36-48 | the mask loop returns 0 for 0 and otherwise the position of the single set bit |
| StrengthBits.MulByOneBitIsShl | OurStrengthReduction/OurStrenghtReduction.cpp:134 | multiplying by `1 << k` in 32-bit wrapping arithmetic is shifting left by `k` |
| StrengthBits.MulByZeroDiffers | OurStrengthReduction/OurStrenghtReduction.cpp:131-145 | 0 passes the test and the loop returns 0 for it, but `x << 0` differs from `x * 0` for every non-zero `x` |
| StrengthBits.SRemByOneBitIsAnd | OurStrengthReduction/OurStrenghtReduction.cpp:149 | for a non-negative dividend, masking with `2^k - 1` gives the truncating remainder by `2^k` |
| StrengthBits.SRemByOneBitNegative | OurStrengthReduction/OurStrenghtReduction.cpp:149 | for a negative dividend, the mask gives the remainder exactly when the dividend is a multiple of `2^k` |
| StrengthBits.SRemBySixDiffers | OurStrengthReduction/OurStrenghtReduction.cpp:147-153 | 6 passes the test, yet `6 & 5` is 4 while `6 srem 6` is 0 |
| StrengthScan.SelectMul | OurStrengthReduction/OurStrenghtReduction.cpp:131-146 | a `mul` is shifted exactly when one operand is a constant passing the test and the other is not a constant, the left constant first; with two constants or none it is kept |
| StrengthScan.SelectSRem | OurStrengthReduction/OurStrenghtReduction.cpp:147-153 | an `srem` is masked exactly when its divisor is a constant passing the test and its dividend is not a constant |
| StrengthScan.SelectOther | OurStrengthReduction/OurStrenghtReduction.cpp:128-154 | every instruction other than `mul` and `srem` is left alone |
| StrengthScan.Replacement | OurStrengthReduction/OurStrenghtReduction.cpp:134-149 | the new instruction is a binary `shl` or `and` with a fresh identity, and the walk never rewrites it |
| StrengthScan.RewriteFacts | OurStrengthReduction/OurStrenghtReduction.cpp:134-137 | a rewrite leaves one fewer `mul` or `srem` ahead in the block, so the walk ends even though it visits each inserted instruction |
| StrengthScan.ScanRemovesSelected | OurStrengthReduction/OurStrenghtReduction.cpp:125-153 | the walk appends to the removal list exactly the selected instructions from its position on, in block order |
| StrengthScan.ScanRemovesSelectedOfFunction | OurStrengthReduction/OurStrenghtReduction.cpp:125-153 | over a whole function, the removal list grows by exactly the selected instructions, in block order |
| StrengthScan.ScanLeavesNoUse | OurStrengthReduction/OurStrenghtReduction.cpp:134-152 | after the walk no instruction uses a replaced one, when the new identities are fresh |
| StrengthScan.ScanSettles | OurStrengthReduction/OurStrenghtReduction.cpp:125-153 | after the walk every instruction the rules would still rewrite is on the removal list |
| StrengthWalk.RenameInstrByUses | OurStrengthReduction/OurStrenghtReduction.cpp:136 | renaming turns each use of an identity into a use of its image, and leaves no use of a renamed identity that is no image |
| StrengthWalk.RenameAfterBy | OurStrengthReduction/OurStrenghtReduction.cpp:136 | one more `replaceAllUsesWith` after a batch of renamings is the batch extended by that one entry |
| StrengthWalk.InsertAfterRenamedBy | OurStrengthReduction/OurStrenghtReduction.cpp:135 | inserting an instruction and renaming uses commute |
| StrengthWalk.FreshAt | OurStrengthReduction/OurStrenghtReduction.cpp:134 | the k-th selected instruction of the walk gets the k-th new identity |
| StrengthWalk.WalkRewrite | OurStrengthReduction/OurStrenghtReduction.cpp:134-137 | one rewrite of the partly walked function gives the partial state one instruction further on, with the renaming extended by the replaced instruction |
| StrengthWalk.WalkShape | OurStrengthReduction/OurStrenghtReduction.cpp:125-153 | from any position, the rest of the walk ends in the function with every replacement inserted after its instruction and every use renamed |
| StrengthWalk.WalkResult | OurStrengthReduction/OurStrenghtReduction.cpp:125-153 | over a function with unique identities below the first new one, the walk inserts each replacement right after its instruction and renames every use to the replacement; kept instructions stay in order |
| StrengthWalk.SelectedFromNoDuplicates | OurStrengthReduction/OurStrenghtReduction.cpp:125-153 | with unique identities, the removal list the walk builds has no duplicates |
| StrengthWalk.EraseAllBlock | OurStrengthReduction/OurStrenghtReduction.cpp:187-189 | erasing a list keeps, in each block, exactly the unlisted instructions in their order |
| StrengthWalk.WithoutExpansion | OurStrengthReduction/OurStrenghtReduction.cpp:135-137 | erasing the replaced instructions from a block with replacements inserted leaves each replacement where its instruction was |
| StrengthWalk.RunInPlace | OurStrengthReduction/OurStrenghtReduction.cpp:125-189 | the walk followed by the erase replaces each selected instruction in place by its replacement, with every use renamed |
| StrengthWalk.InPlaceAt | OurStrengthReduction/OurStrenghtReduction.cpp:125-189 | block and instruction counts are kept; a kept instruction keeps its identity and position and each of its uses is renamed to the replacement; a selected instruction's position holds its replacement |
| StrengthScan.SettledEraseSelectsNothing | OurStrengthReduction/OurStrenghtReduction.cpp:187-189 | once the removal list is erased, no instruction left is one the rules would rewrite |
| StrengthSemantics.ShlByLog2 | OurStrengthReduction/OurStrenghtReduction.cpp:134-141 | shifting by the loop's result equals multiplying by the constant exactly when the constant is non-zero or `x` is 0 |
| StrengthSemantics.AndByPredecessor | OurStrengthReduction/OurStrenghtReduction.cpp:149 | masking with `c - 1` gives `srem` by `c` exactly when the dividend is non-negative or a multiple of `c` |
| StrengthSemantics.SelectShl | OurStrengthReduction/OurStrenghtReduction.cpp:131-145 | a shifted instruction is a `mul` whose non-constant operand is shifted by its constant operand, in either order |
| StrengthSemantics.ShlReplacesMulByLeftConstant | OurStrengthReduction/OurStrenghtReduction.cpp:132-138 | with the constant on the left, the `shl` computes the product in every environment exactly when the constant is non-zero or the other operand is 0 |
| StrengthSemantics.ShlReplacesMulByRightConstant | OurStrengthReduction/OurStrenghtReduction.cpp:139-145 | the same with the constant on the right |
| StrengthSemantics.AndReplacesSRem | OurStrengthReduction/OurStrenghtReduction.cpp:147-153 | the `and` masks the dividend with the divisor minus one, and computes the `srem` exactly when the dividend is non-negative or a multiple of the divisor |
| StrengthSemantics.AndReplacesSRemBySixWrongly | OurStrengthReduction/OurStrenghtReduction.cpp:147-153 | `srem x, 6` is rewritten to `and x, 5`, which differs from `srem` for `x = 6` |
| StrengthSemantics.MulBySixDoesNotTerminate | OurStrengthReduction/OurStrenghtReduction.cpp:36-48 | `mul x, 6` is selected for a shift; the mask starts on a reachable mask, every shift keeps it reachable, and `6 & mask != 6` on every reachable mask, so the exit test at line 42 never passes |
| StrengthBits.ReachableMaskStep | OurStrengthReduction/OurStrenghtReduction.cpp:38-45 | the mask starts at 1, and a wrapping shift of 0 or a single set bit is again 0 or a single set bit |
| StrengthBits.MaskTestNeverPasses | OurStrengthReduction/OurStrenghtReduction.cpp:42 | for a value that passes `isPowerOfTwo` with two or more bits set, the exit test fails on every reachable mask |
| StrengthIr.UsesInsertAfter | OurStrengthReduction/OurStrenghtReduction.cpp:135 | inserting the replacement adds its own uses and no other |
| StrengthIr.UsesRenamed | OurStrengthReduction/OurStrenghtReduction.cpp:136 | after `replaceAllUsesWith` nothing uses the replaced instruction and every other use is as before |
| StrengthIr.EraseFromBlock | OurStrengthReduction/OurStrenghtReduction.cpp:188 | erasing keeps exactly the instructions of the block with another identity |
| StrengthIr.EraseAllMembers | OurStrengthReduction/OurStrenghtReduction.cpp:187-189 | after erasing a list, a block holds exactly its instructions whose identity is not listed |
| StrengthIr.EraseAllHasInstr | OurStrengthReduction/OurStrenghtReduction.cpp:187-189 | an instruction is present after the erase exactly when it was present before and is not listed |
| StrengthIr.EraseAllUses | OurStrengthReduction/OurStrenghtReduction.cpp:187-189 | erasing creates no use |
| StrengthPass.FirstIndex | OurStrengthReduction/OurStrenghtReduction.cpp:110-113 | the position of the first instruction with the call's identity, or the block length when there is none |
| StrengthPass.SuffixFromSpec | OurStrengthReduction/OurStrenghtReduction.cpp:107-120 | what is collected is a suffix of the block's identities: empty when the call is absent, otherwise starting at its first occurrence |
| StrengthPass.EraseListed | OurStrengthReduction/OurStrenghtReduction.cpp:187-189 | the erase loop erases every listed instruction, in order |
| StrengthPass.StrengthReduction.constructor | OurStrengthReduction/OurStrenghtReduction.cpp:14-18 | a new pass has both lists empty |
| StrengthPass.StrengthReduction.RemoveAllInstructions | OurStrengthReduction/OurStrenghtReduction.cpp:107-120 | both lists keep their entries and gain the call and every instruction after it in the block, in block order |
| StrengthPass.StrengthReduction.RunOnBlock | OurStrengthReduction/OurStrenghtReduction.cpp:126-153 | the loop over one block leaves the function and the removal list as the walk has them at the next block, and `InstructionsToCopy` unchanged |
| StrengthPass.StrengthReduction.RunOnFunction | OurStrengthReduction/OurStrenghtReduction.cpp:122-192 | the result is the walk followed by the erase; the removal list grows by the selected instructions, none of them is left or used afterwards, nothing left would be rewritten, and the result is true; with unique identities below `firstId` and no earlier entry of the list in the function, every selected instruction is replaced in place by its replacement, every use renamed to it, and every other instruction kept in order |

## Left out

- `errs()` output in both passes: diagnostics only.
- Pass registration, pass IDs and the pass manager. Each `RunOnFunction` models one invocation, and the member fields carry state between invocations.
- The commented-out argument mapping of the merger: it is dead code.
- `ret void`: every return carries a value, as line 126 of the merger reads the operand unconditionally.
- LLVM's use lists: a function's uses are the instructions that mention it, and only calls are redirected.
- The `abs` call expansion of the strength-reduction pass (its lines 61-105 and 155-182), `mapVariables` and `exit(1)`. These are control-flow surgery through `IRBuilder`, phi nodes and cloned instructions. `removeAllInstructions` is modelled as a method of its own, but `RunOnFunction` treats every call, `abs` included, as an ordinary instruction and never calls it.
- StrengthPass.StrengthReduction.RunOnFunction: keeps `InstructionsToCopy` unchanged, which the source does only for a function without an `abs` call. Line 156 also dereferences `getCalledFunction()` without a check, which fails for an indirect call; the model has no indirect calls.
- Constants other than `ConstantInt`: `isConstInt` (line 20) tests only for `ConstantInt`, so an `undef`, a constant expression or a global's address counts as non-constant. With such an operand `IRBuilder` folds the new `shl` or `and` to a constant, and the cast and `insertAfter` at lines 134-135, 141-142 and 149-150 act on something that is no instruction. The model has only `ConstantInt` constants and non-constant values, so the replacement is always a new instruction.
- Integer constants other than `i32`: every `ConstantInt` is a 32-bit value, and `getSExtValue` is the identity on it.
- The value of a shift by 32 or more, which LLVM makes poison: the loop never returns such a count for an input it ends on.
- StrengthPass.StrengthReduction.RunOnFunction: requires that every `mul` selected for a shift has a constant with at most one bit set. For any other constant that passes the test (6, say), the source's mask loop never ends, as `MulBySixDoesNotTerminate` shows, so such input is outside the model.
- StrengthBits.PowerOfTwo: requires a value with at most one bit set below the sign bit, the inputs on which the source's loop ends.
- StrengthPass.StrengthReduction.RunOnFunction: "no use of a replaced instruction remains" is proved only when every identity in the function is below `firstId`. The model's fresh identities stand for LLVM's newly allocated instructions.
- StrengthSemantics.MulBySixDoesNotTerminate: reads `mask <<= 1` as a wrapping 32-bit shift. In C++ shifting into the sign bit of an `int` is undefined, so what is proved is that the exit test fails on every mask the loop can hold under that reading.
- The merger's erase ignores uses that are not calls: a duplicate still passed as an argument, or otherwise used, is erased (`MergeOnceErasesStillMentioned`), where LLVM's `eraseFromParent` at line 257 aborts on a function that still has uses.
- `InstructionsToRemove` is never cleared by the source. A later invocation erases the old entries again, which in LLVM touches freed instructions; in the model, erasing an absent identity changes nothing.
