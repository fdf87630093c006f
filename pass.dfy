/**
  * The pass driver: `IdentifyBranches::visitBranchInst` (Hello.cpp:108-132)
  * applied to every instruction of a module in visiting order, as
  * `Hello::runOnModule` does through `IB.visit(M)` (Hello.cpp:138-142).
  */
module Pass {
  import opened Wrappers
  import opened IR
  import opened Recognizer
  import opened Annotator

  /** The recognized hint call, if any, has the second argument the
      validation reads. */
  predicate HintArgsPresent(cond: Option<Value>)
  {
    Recognize(cond).Some? ==> HasExpectedArg(Recognize(cond).value)
  }

  /** What visiting a branch does to it: recognize, validate, annotate. */
  function Visit(s: BranchState): (t: BranchState)
    requires WellShaped(s) && HintArgsPresent(s.cond)
    ensures WellShaped(t) && HintArgsPresent(t.cond)
  {
    match Recognize(s.cond)
    case None => s
    case Some(c) =>
      if CalledCorrectly(c) then Annotated(s, c.args[1].n) else s
  }

  /** Visiting never changes the condition. */
  lemma VisitKeepsCondition(s: BranchState)
    requires WellShaped(s) && HintArgsPresent(s.cond)
    ensures Visit(s).cond == s.cond
  {
    match Recognize(s.cond)
    case None =>
    case Some(c) =>
      if CalledCorrectly(c) {
        AnnotatedEffect(s, c.args[1].n);
      }
  }

  /** An unconditional branch is left exactly as it was. */
  lemma VisitUnconditional(s: BranchState)
    requires WellShaped(s) && s.cond.None?
    ensures HintArgsPresent(s.cond) && Visit(s) == s
  {
  }

  /** A branch that is not recognized, or whose hint's second argument is not
      a constant integer, is left exactly as it was. */
  lemma VisitUnhintedOrInvalid(s: BranchState)
    requires WellShaped(s) && HintArgsPresent(s.cond)
    requires Recognize(s.cond).None? || !CalledCorrectly(Recognize(s.cond).value)
    ensures Visit(s) == s
  {
  }

  /** A recognized branch whose hint expects the constant `n` keeps its
      condition, gets the weight pair for `n` in place of any earlier one, and
      has its successors swapped exactly when `n` is zero. */
  lemma VisitHinted(s: BranchState, c: CallInst, n: nat)
    requires WellShaped(s) && HintArgsPresent(s.cond)
    requires Recognize(s.cond) == Some(c) && c.args[1] == ConstInt(n)
    ensures Visit(s).cond == s.cond
    ensures Visit(s).prof == Some(if n == 1 then Weights(2000, 1) else Weights(1, 2000))
    ensures Visit(s).succs == if n == 0 then [s.succs[1], s.succs[0]] else s.succs
  {
    AnnotatedEffect(s, n);
  }

  /** A zero hint redirects the branch: the condition is unchanged, but the
      successor taken when it holds is the one formerly taken when it failed,
      and the other way round. */
  lemma ZeroHintRedirects(s: BranchState, c: CallInst)
    requires WellShaped(s) && HintArgsPresent(s.cond)
    requires Recognize(s.cond) == Some(c) && c.args[1] == ConstInt(0)
    ensures Visit(s).cond == s.cond
    ensures Visit(s).succs[0] == s.succs[1] && Visit(s).succs[1] == s.succs[0]
  {
    VisitHinted(s, c, 0);
  }

  /** A branch on which the code as written dereferences null is, in this
      model, not hinted and left exactly as it was. */
  lemma DerefsNullLeftAlone(s: BranchState)
    requires WellShaped(s) && DerefsNull(s.cond)
    ensures Recognize(s.cond) == None
    ensures HintArgsPresent(s.cond) && Visit(s) == s
  {
  }

  /** Visiting a visited branch again leaves the same weights; for a zero
      hint the successors return to their original order. */
  lemma VisitTwice(s: BranchState)
    requires WellShaped(s) && HintArgsPresent(s.cond)
    ensures Visit(Visit(s)).prof == Visit(s).prof
    ensures Visit(Visit(s)).cond == s.cond
    ensures Recognize(s.cond).Some? && CalledCorrectly(Recognize(s.cond).value)
              && Recognize(s.cond).value.args[1] == ConstInt(0)
            ==> Visit(Visit(s)).succs == s.succs
  {
    VisitKeepsCondition(s);
    VisitKeepsCondition(Visit(s));
    match Recognize(s.cond)
    case None =>
    case Some(c) =>
      if CalledCorrectly(c) {
        ReannotateSameWeights(s, c.args[1].n);
      }
  }

  /** `IdentifyBranches::visitBranchInst`. */
  method VisitBranchInst(b: Branch)
    requires b.Valid() && HintArgsPresent(b.cond)
    modifies b
    ensures b.Valid() && b.State() == Visit(old(b.State()))
  {
    var likelyCall := DescendedFromLikelyCall(b.cond);
    if likelyCall.None? {
      return;
    }
    if !CalledCorrectly(likelyCall.value) {
      return;
    }
    AdjustLikelihood(b, likelyCall.value);
  }

  /** An instruction of the module: a branch, or anything else. */
  datatype Inst = Br(br: Branch) | NonBranch

  /** The branch objects of a module. */
  ghost function BranchesOf(m: array<Inst>): set<Branch>
    reads m
  {
    set i | 0 <= i < m.Length && m[i].Br? :: m[i].br
  }

  /** Every branch appears once, is well formed, and its hint call, if any,
      has a second argument. */
  ghost predicate ModuleOk(m: array<Inst>)
    reads m, BranchesOf(m)
  {
    (forall i, j :: 0 <= i < j < m.Length && m[i].Br? && m[j].Br? ==> m[i].br != m[j].br) &&
    (forall i :: 0 <= i < m.Length && m[i].Br? ==> m[i].br.Valid() && HintArgsPresent(m[i].br.cond))
  }

  /** `Hello::runOnModule`: visits the instructions in order; branches are
      updated by `VisitBranchInst`, nothing else is touched. */
  method RunOnModule(m: array<Inst>)
    requires ModuleOk(m)
    modifies BranchesOf(m)
    ensures forall i :: 0 <= i < m.Length && m[i].Br? ==>
              m[i].br.Valid() && m[i].br.State() == Visit(old(m[i].br.State()))
  {
    var k := 0;
    while k < m.Length
      invariant 0 <= k <= m.Length
      invariant forall i :: 0 <= i < k && m[i].Br? ==>
                  m[i].br.Valid() && m[i].br.State() == Visit(old(m[i].br.State()))
      invariant forall i :: k <= i < m.Length && m[i].Br? ==>
                  m[i].br.State() == old(m[i].br.State())
    {
      if m[k].Br? {
        VisitBranchInst(m[k].br);
      }
      k := k + 1;
    }
  }
}
