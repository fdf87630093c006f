/**
  * The small slice of LLVM IR that the branch-hint pass looks at: values
  * (integer constants, comparisons, calls, everything else), branch
  * instructions with their successors and their `prof` metadata, and the two
  * LLVM primitives the pass uses to change a branch in place.
  */
module IR {
  import opened Wrappers

  /** A basic block, named by a label; the pass only ever reorders them. */
  type BlockLabel = nat

  /** Comparison predicates. Every floating-point predicate is folded into
      `FCmp`: the pass only ever asks whether a predicate is `ICmpNe`. */
  datatype Predicate =
    | ICmpEq | ICmpNe
    | ICmpUgt | ICmpUge | ICmpUlt | ICmpUle
    | ICmpSgt | ICmpSge | ICmpSlt | ICmpSle
    | FCmp

  /** A call instruction: the statically known callee name (`None` when
      `getCalledFunction()` is null, e.g. an indirect call) and the
      argument operands in order. */
  datatype CallInst = CallInst(callee: Option<string>, args: seq<Value>)

  /** An IR value as the pass sees it. `ConstInt(n)` is a `ConstantInt` whose
      bit pattern, read as an unsigned number, is `n` (what APInt's `isOne`
      and `isZero` test); `Cmp` is any `CmpInst` with its operands; `Other`
      is every value the pass does not look into. */
  datatype Value =
    | ConstInt(n: nat)
    | Cmp(pred: Predicate, ops: seq<Value>)
    | Call(call: CallInst)
    | Other

  /** The operands of a `branch_weights` `prof` node: one weight per successor. */
  datatype Weights = Weights(w0: nat, w1: nat)

  /** The abstract value of a branch instruction: its condition (`None` for an
      unconditional branch), its successors in operand order, and its `prof`
      metadata. */
  datatype BranchState = BranchState(cond: Option<Value>, succs: seq<BlockLabel>, prof: Option<Weights>)

  /** A conditional branch has two successors, an unconditional one has one. */
  predicate WellShaped(s: BranchState)
  {
    |s.succs| == if s.cond.Some? then 2 else 1
  }

  /** The state after `BranchInst::swapSuccessors`: the two successors trade
      places and, as LLVM does, an attached weight pair trades places too. */
  function Swapped(s: BranchState): (t: BranchState)
    requires WellShaped(s) && s.cond.Some?
    ensures WellShaped(t) && t.cond == s.cond
    ensures t.succs[0] == s.succs[1] && t.succs[1] == s.succs[0]
    ensures s.prof.None? ==> t.prof.None?
    ensures s.prof.Some? ==> t.prof == Some(Weights(s.prof.value.w1, s.prof.value.w0))
  {
    var prof := match s.prof
      case None => None
      case Some(w) => Some(Weights(w.w1, w.w0));
    BranchState(s.cond, [s.succs[1], s.succs[0]], prof)
  }

  /** Swapping twice gives back the branch it started from. */
  lemma SwappedTwice(s: BranchState)
    requires WellShaped(s) && s.cond.Some?
    ensures Swapped(Swapped(s)) == s
  {
    assert Swapped(Swapped(s)).succs == s.succs;
  }

  /** A branch instruction, updated in place by the pass. */
  class Branch {
    var cond: Option<Value>
    var succs: seq<BlockLabel>
    var prof: Option<Weights>

    function State(): BranchState
      reads this
    {
      BranchState(cond, succs, prof)
    }

    ghost predicate Valid()
      reads this
    {
      WellShaped(State())
    }

    constructor (cond: Option<Value>, succs: seq<BlockLabel>)
      requires WellShaped(BranchState(cond, succs, None))
      ensures Valid() && State() == BranchState(cond, succs, None)
    {
      this.cond := cond;
      this.succs := succs;
      this.prof := None;
    }

    /** `BranchInst::swapSuccessors`; only defined on a conditional branch. */
    method SwapSuccessors()
      requires Valid() && cond.Some?
      modifies this
      ensures Valid() && State() == Swapped(old(State()))
    {
      succs := [succs[1], succs[0]];
      if prof.Some? {
        prof := Some(Weights(prof.value.w1, prof.value.w0));
      }
    }

    /** `setMetadata(MD_prof, node)`: replaces whatever `prof` node was there. */
    method SetProfMetadata(w: Weights)
      requires Valid()
      modifies this
      ensures Valid() && State() == old(State()).(prof := Some(w))
    {
      prof := Some(w);
    }
  }
}
