# Branch-hint pass, modelled in Dafny

This project models the LLVM module pass in `Hello.cpp`. The pass looks for
conditional branches whose condition comes from a call to a user-written hint
function whose name contains `__builtin_expect_`. It attaches `prof`
branch-weight metadata to each such branch and, when the hint expects zero,
swaps the branch's two successors.

The pass handles each branch in three steps:

- **Recognize** (`descendedFromLikelyCall`). The branch must be conditional.
  Its condition must be a comparison with predicate `ICMP_NE`. The first
  operand of that comparison that is a call is taken, and the callee's name
  must contain `__builtin_expect_` as a substring.
- **Validate** (`calledCorrectly`). The call's second argument must be a
  constant integer. Any value is accepted.
- **Annotate** (`adjustLikelihood`). If the expected value is one, the
  weights are `(2000, 1)`; for any other value they are `(1, 2000)`. If the
  expected value is zero, the successors are swapped first. The weight node
  then replaces any `prof` node the branch already had.

The model has six modules:

- `IR`: the IR the pass reads. A `Value` is an integer constant, a
  comparison, a call or anything else. `Branch` is a class whose fields
  (condition, successors, `prof`) change in place. It also models the two
  LLVM primitives the pass calls, `swapSuccessors` and `setMetadata`.
- `Strings`: `StringRef::find`.
- `Recognizer`, `Annotator`, `Pass`: the three steps and the driver.
  `Pass.RunOnModule` walks an array of instructions in visiting order. It is
  proved to apply `Pass.Visit` to every branch and to touch nothing else.

Notable behaviours of `Hello.cpp`, all stated in the model:

- the callee name is matched as a substring, not exactly;
- any constant is accepted as the expected value, not only 0 or 1;
- a hint of one gets `(2000, 1)` and every other constant `(1, 2000)`;
- a hint of zero swaps the successors;
- a bare call used as the condition is not recognized.

Swapping the successors does not invert the condition, so after a zero hint
the branch jumps to its former false successor when the condition holds
(`Pass.ZeroHintRedirects`).

## Model

| member | source | states |
|---|---|---|
| `IR.Swapped` | Hello.cpp:99 | swapping keeps the condition, exchanges successor 0 and successor 1, and exchanges the two weights of an attached pair (as LLVM's `swapSuccessors` does); no pair stays no pair |
| `IR.SwappedTwice` | Hello.cpp:99 | swapping twice restores the branch, weights included |
| `IR.Branch.SwapSuccessors` | Hello.cpp:99 | the branch's new state is the swapped old state |
| `IR.Branch.SetProfMetadata` | Hello.cpp:102 | `prof` is replaced by the new weight pair; condition and successors unchanged |
| `Strings.Find` | Hello.cpp:57 | the result is the lowest index where the fragment occurs; `None` means it occurs nowhere |
| `Strings.FindNoneIffAbsent` | Hello.cpp:57 | `find` returns `npos` exactly when the name does not contain the fragment |
| `Recognizer.FnName` | Hello.cpp:26 | the fragment searched for in the callee name is `"__builtin_expect_"` |
| `Recognizer.FirstCall` | Hello.cpp:47-52 | the result is the lowest-indexed operand that is a call; `None` means no operand is a call |
| `Recognizer.FindFirstCall` | Hello.cpp:47-52 | the operand loop stops at a call with no call before it, or reports that there is no call |
| `Recognizer.DerefsNull` | Hello.cpp:47-56 | the inputs on which line 56 dereferences null: an `icmp ne` with no call operand, or whose first call has no statically known callee |
| `Recognizer.DerefsNullIffNoResolvableCall` | Hello.cpp:47-56 | the code dereferences null exactly when the condition is an `icmp ne` and no first call operand has a statically known callee |
| `Recognizer.DescendedFromLikelyCallAsWritten` | Hello.cpp:28-62 | the code as written, defined only where it does not dereference null; a returned call is the hint call the condition descends from |
| `Recognizer.PlainCompareDerefsNull` | Hello.cpp:47-56 | a branch on `x != 0` with `x` not a call, or on an indirect call compared with 0, is outside what the code as written can handle |
| `Recognizer.Recognize` | Hello.cpp:35-44 | a call is returned only for a conditional branch on an `ICMP_NE` comparison |
| `Recognizer.RecognizeIffHinted` | Hello.cpp:28-62 | recognition returns `c` exactly when the condition is an `ICMP_NE` comparison, `c` is its first call operand, and `c`'s callee name contains `__builtin_expect_` |
| `Recognizer.NotNeCompareNotHinted` | Hello.cpp:35-44 | no condition, a condition that is not a comparison, or any predicate other than `ICMP_NE` means not hinted; a bare call as condition is not hinted |
| `Recognizer.FirstCallDecides` | Hello.cpp:47-59 | if the first call operand is not a hint call, the branch is not hinted even when a later operand is |
| `Recognizer.AsWrittenAgrees` | Hello.cpp:47-61 | wherever the code as written does not crash, the recognizer used by the pass gives the same answer |
| `Recognizer.DescendedFromLikelyCall` | Hello.cpp:28-62 | the method with the operand loop returns what `Recognize` specifies, and any call it returns is the hint call the condition descends from |
| `Annotator.CalledCorrectly` | Hello.cpp:64-74 | validation succeeds exactly when the second argument is a constant integer, of any value |
| `Annotator.TrueWeight` | Hello.cpp:24 | the weight of the favoured successor is 2000 |
| `Annotator.FalseWeight` | Hello.cpp:25 | the weight of the other successor is 1 |
| `Annotator.WeightsFor` | Hello.cpp:86-92 | the pair is `(2000, 1)` or `(1, 2000)`; both weights are positive and unequal; edge 0 gets more weight exactly when the expected value is one |
| `Annotator.Annotated` | Hello.cpp:76-106 | annotation keeps the branch well formed (two successors when conditional) |
| `Annotator.AnnotatedEffect` | Hello.cpp:86-102 | the condition is kept; `prof` becomes the expected value's pair whatever was attached before; successors are swapped exactly when the expected value is zero |
| `Annotator.ReannotateSameWeights` | Hello.cpp:95-102 | annotating twice gives the same weight pair; for a zero hint the second swap restores the original successor order |
| `Annotator.AdjustLikelihood` | Hello.cpp:76-106 | the branch's new state is the annotated old state for the call's constant second argument |
| `Pass.Visit` | Hello.cpp:109-118 | visiting keeps a branch well formed and keeps the conditions under which it may be visited |
| `Pass.VisitKeepsCondition` | Hello.cpp:109-118 | visiting never changes the branch condition |
| `Pass.VisitUnconditional` | Hello.cpp:35 | an unconditional branch is left exactly as it was |
| `Pass.VisitUnhintedOrInvalid` | Hello.cpp:111-116 | a branch that is not recognized, or whose hint has a non-constant second argument, is left exactly as it was |
| `Pass.VisitHinted` | Hello.cpp:111-118 | a recognized, validated branch keeps its condition, gets `(2000, 1)` for one and `(1, 2000)` for any other constant, and has its successors swapped exactly when the constant is zero |
| `Pass.ZeroHintRedirects` | Hello.cpp:95-100 | after a zero hint the condition is unchanged but the two successors have traded places, so the branch goes the other way |
| `Pass.DerefsNullLeftAlone` | Hello.cpp:47-56 | a branch on which the code as written dereferences null is not hinted and is left exactly as it was |
| `Pass.VisitTwice` | Hello.cpp:95-102 | visiting a branch twice leaves the same weights and condition; for a zero hint it restores the original successor order |
| `Pass.VisitBranchInst` | Hello.cpp:109-118 | the branch's new state is `Visit` of its old state |
| `Pass.RunOnModule` | Hello.cpp:138-142 | every branch of the module ends in `Visit` of its old state; instructions that are not branches and objects outside the module's branches are not touched |

## Left out

- Pass registration, the `ModulePass` constructor and the `true` that `runOnModule` always returns (Hello.cpp:134-148): boilerplate with no behaviour to model.
- `MDBuilder`, `LLVMContext`, `dyn_cast` and `InstVisitor` dispatch: modelled as datatype matches and a plain `prof` field. Metadata kinds other than `prof` are not modelled.
- Diagnostics written to `errs()` (Hello.cpp:69, Hello.cpp:104): output with no effect on the IR.
- The header comment on moving loads and stores (Hello.cpp:1-12): no code implements it. The commented-out block at Hello.cpp:120-129 is not modelled.
- Functions and basic blocks: the module is a flat array of instructions in the order `InstVisitor` visits them. Each branch is handled independently, so the grouping has no effect.
- Integer widths: `ConstInt` holds the constant's bit pattern as an unsigned number, which is what `isOne` and `isZero` test. Weights are unbounded naturals; 2000 and 1 fit in the source's `uint32_t`.
- `InvokeInst` and other call-like instructions: `dyn_cast<CallInst>` does not match them, so they are `Other` values.
- `Annotator.CalledCorrectly`, `Annotator.AdjustLikelihood`, `Pass.Visit`, `Pass.VisitBranchInst`, `Pass.RunOnModule`: these require the recognized call to have a second argument. The code reads `getArgOperand(1)` without checking, so the model has no behaviour for a one-argument hint function.
- `Pass.RunOnModule`: requires each branch object to appear once in the module, as LLVM instructions do. Aliased entries would be visited twice.
- The test programs (`test.c`, `test.rs`, `tests/test.rs`, `tests/test.cpp`): driver programs compiled by a host toolchain, not part of the pass.

## Findings

| source | as written | input that shows it | evidently intended | confidence | as-written member | corrected member |
|---|---|---|---|---|---|---|
| Hello.cpp:47-56 | `Call` stays null when no operand of the `icmp ne` is a call and is then dereferenced; `getCalledFunction()` is dereferenced without a null check | a conditional branch on `icmp ne %x, 0` where `%x` is a load (any `if (x != 0)`), or on an indirect call compared with 0 | such a branch is not hinted and is left alone | high (not executed) | `Recognizer.DescendedFromLikelyCallAsWritten`, `Recognizer.PlainCompareDerefsNull` | `Recognizer.Recognize`, `Recognizer.RecognizeIffHinted`, `Pass.DerefsNullLeftAlone` |

The pass uses `Recognizer.Recognize`, through `Recognizer.DescendedFromLikelyCall`.
`Recognizer.AsWrittenAgrees` shows that on every input where the code as
written does not crash, the two give the same result.
