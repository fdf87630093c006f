/**
  * Validation of a recognized hint call (`calledCorrectly`, Hello.cpp:64-74)
  * and the in-place annotation of its branch (`adjustLikelihood`,
  * Hello.cpp:76-106).
  */
module Annotator {
  import opened Wrappers
  import opened IR

  /** Weight given to the successor the hint favours. */
  const TrueWeight: nat := 2000
  /** Weight given to the other successor. */
  const FalseWeight: nat := 1

  /** The call's second argument, `getArgOperand(1)`, exists: the code reads
      it without checking. */
  predicate HasExpectedArg(c: CallInst)
  {
    |c.args| >= 2
  }

  /** The hint was called with a constant integer as its second argument.
      Any value is accepted; there is no check for 0 or 1. */
  function CalledCorrectly(c: CallInst): (ok: bool)
    requires HasExpectedArg(c)
    ensures ok <==> exists n :: c.args[1] == ConstInt(n)
  {
    c.args[1].ConstInt?
  }

  /** The weight pair for an expected value: edge 0 is favoured exactly when
      the expected value is one. */
  function WeightsFor(expected: nat): (w: Weights)
    ensures w == Weights(TrueWeight, FalseWeight) || w == Weights(FalseWeight, TrueWeight)
    ensures w.w0 > 0 && w.w1 > 0 && w.w0 != w.w1
    ensures w.w0 > w.w1 <==> expected == 1
  {
    if expected == 1 then Weights(TrueWeight, FalseWeight)
    else Weights(FalseWeight, TrueWeight)
  }

  /** A branch may be annotated with `expected` if it can be swapped when
      `expected` is zero, i.e. it is conditional in that case. */
  predicate CanAnnotate(s: BranchState, expected: nat)
  {
    WellShaped(s) && (expected == 0 ==> s.cond.Some?)
  }

  /** The branch after `adjustLikelihood` with expected value `expected`:
      swapped when the value is zero, then given the weight pair, which
      replaces any `prof` node already there. */
  function Annotated(s: BranchState, expected: nat): (t: BranchState)
    requires CanAnnotate(s, expected)
    ensures WellShaped(t)
  {
    var swapped := if expected == 0 then Swapped(s) else s;
    swapped.(prof := Some(WeightsFor(expected)))
  }

  /** What annotation does to each part of the branch: the condition stays,
      the weights are those of the expected value whatever was attached
      before, and the successors trade places exactly when the value is zero. */
  lemma AnnotatedEffect(s: BranchState, expected: nat)
    requires CanAnnotate(s, expected)
    ensures Annotated(s, expected).cond == s.cond
    ensures Annotated(s, expected).prof == Some(WeightsFor(expected))
    ensures expected == 0 ==> Annotated(s, expected).succs == [s.succs[1], s.succs[0]]
    ensures expected != 0 ==> Annotated(s, expected).succs == s.succs
  {
    if expected == 0 {
      assert Annotated(s, expected).succs == Swapped(s).succs;
    }
  }

  /** Annotating an annotated branch again leaves the same weight pair (it is
      overwritten, not accumulated); for a zero hint the second swap puts the
      successors back in their original order. */
  lemma ReannotateSameWeights(s: BranchState, expected: nat)
    requires CanAnnotate(s, expected)
    ensures CanAnnotate(Annotated(s, expected), expected)
    ensures Annotated(Annotated(s, expected), expected).prof == Annotated(s, expected).prof
    ensures Annotated(Annotated(s, expected), expected).succs ==
            (if expected == 0 then s.succs else Annotated(s, expected).succs)
  {
    AnnotatedEffect(s, expected);
    AnnotatedEffect(Annotated(s, expected), expected);
  }

  /** `adjustLikelihood`. Its callers validate first (Hello.cpp:77-78), so
      the second argument is a constant integer. */
  method AdjustLikelihood(b: Branch, c: CallInst)
    requires b.Valid() && HasExpectedArg(c) && CalledCorrectly(c)
    requires CanAnnotate(b.State(), c.args[1].n)
    modifies b
    ensures b.Valid() && b.State() == Annotated(old(b.State()), c.args[1].n)
  {
    var expected := c.args[1].n;
    var node := if expected == 1 then Weights(TrueWeight, FalseWeight)
                else Weights(FalseWeight, TrueWeight);
    if expected == 0 {
      b.SwapSuccessors();
    }
    b.SetProfMetadata(node);
  }
}
