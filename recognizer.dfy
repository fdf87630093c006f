/**
  * Recognition of a hint-derived branch (`descendedFromLikelyCall`,
  * Hello.cpp:28-62): the branch must be conditional, its condition an
  * `icmp ne`, and the first operand of that comparison that is a call must
  * call a function whose name contains `__builtin_expect_`.
  */
module Recognizer {
  import opened Wrappers
  import opened IR
  import opened Strings

  /** The fragment searched for in the callee's name. */
  const FnName: string := "__builtin_expect_"

  /** The condition is a comparison whose predicate is `ICMP_NE`; an
      unconditional branch (no condition) is not one. */
  predicate IsNeCompare(cond: Option<Value>)
  {
    cond.Some? && cond.value.Cmp? && cond.value.pred == ICmpNe
  }

  /** `ops[k]` is a call and no operand before it is. */
  predicate IsFirstCall(ops: seq<Value>, k: nat)
  {
    k < |ops| && ops[k].Call? && forall j :: 0 <= j < k ==> !ops[j].Call?
  }

  /** The callee is statically known and its name contains `FnName`. */
  ghost predicate IsHintCall(c: CallInst)
  {
    c.callee.Some? && Contains(c.callee.value, FnName)
  }

  /** `c` is the call the branch condition `cond` descends from: `cond` is an
      `icmp ne`, `c` is its first call operand, and `c` calls the hint. */
  ghost predicate HintedBy(cond: Option<Value>, c: CallInst)
  {
    IsNeCompare(cond) && IsHintCall(c) &&
    exists k: nat :: IsFirstCall(cond.value.ops, k) && cond.value.ops[k] == Call(c)
  }

  /** Index of the lowest operand that is a call, if any. */
  function FirstCall(ops: seq<Value>): (k: Option<nat>)
    ensures k.Some? ==> IsFirstCall(ops, k.value)
    ensures k.None? ==> forall j :: 0 <= j < |ops| ==> !ops[j].Call?
  {
    if |ops| == 0 then None
    else if ops[0].Call? then Some(0)
    else match FirstCall(ops[1..])
      case None => None
      case Some(k) => Some(k + 1)
  }

  /** At most one index is the first call. */
  lemma FirstCallUnique(ops: seq<Value>, k: nat, m: nat)
    requires IsFirstCall(ops, k) && IsFirstCall(ops, m)
    ensures k == m
  {
  }

  /** The operand scan at Hello.cpp:48-52: stops at the first operand that
      is a call. */
  method FindFirstCall(ops: seq<Value>) returns (k: Option<nat>)
    ensures k.Some? ==> IsFirstCall(ops, k.value)
    ensures k.None? ==> forall j :: 0 <= j < |ops| ==> !ops[j].Call?
  {
    var i := 0;
    while i < |ops|
      invariant 0 <= i <= |ops|
      invariant forall j :: 0 <= j < i ==> !ops[j].Call?
    {
      if ops[i].Call? {
        return Some(i);
      }
      i := i + 1;
    }
    return None;
  }

  /** The inputs on which Hello.cpp:56 dereferences a null pointer: an
      `icmp ne` none of whose operands is a call, or whose first call has no
      statically known callee. */
  predicate DerefsNull(cond: Option<Value>)
  {
    IsNeCompare(cond) &&
    match FirstCall(cond.value.ops)
    case None => true
    case Some(k) => cond.value.ops[k].call.callee.None?
  }

  /** The code as written dereferences null exactly when the condition is an
      `icmp ne` that has no first call operand with a statically known callee. */
  lemma DerefsNullIffNoResolvableCall(cond: Option<Value>)
    ensures DerefsNull(cond) <==>
              IsNeCompare(cond) &&
              forall k: nat :: IsFirstCall(cond.value.ops, k) ==> cond.value.ops[k].call.callee.None?
  {
    if IsNeCompare(cond) {
      var ops := cond.value.ops;
      forall k: nat | IsFirstCall(ops, k)
        ensures FirstCall(ops) == Some(k)
      {
        FirstCallUnique(ops, k, FirstCall(ops).value);
      }
    }
  }

  /** `descendedFromLikelyCall` as written: only defined where it does not
      dereference null. */
  function DescendedFromLikelyCallAsWritten(cond: Option<Value>): (r: Option<CallInst>)
    requires !DerefsNull(cond)
    ensures r.Some? ==> HintedBy(cond, r.value)
  {
    if cond.None? then None
    else if !cond.value.Cmp? || cond.value.pred != ICmpNe then None
    else
      var k := FirstCall(cond.value.ops).value;
      var c := cond.value.ops[k].call;
      if Find(c.callee.value, FnName) == None then None
      else Some(c)
  }

  /** A branch on `x != 0` where `x` is not a call, and a branch on an
      indirect call compared with 0, both make the code as written
      dereference null. */
  lemma PlainCompareDerefsNull(x: Value, args: seq<Value>)
    requires !x.Call?
    ensures DerefsNull(Some(Cmp(ICmpNe, [x, ConstInt(0)])))
    ensures DerefsNull(Some(Cmp(ICmpNe, [Call(CallInst(None, args)), ConstInt(0)])))
  {
  }

  /** Recognition with the two null dereferences read as "not hinted".
      Deliberate deviation from Hello.cpp:47-56: this is the recognizer the
      pass uses; it agrees with the code as written wherever that code does
      not crash (`AsWrittenAgrees`). */
  function Recognize(cond: Option<Value>): (r: Option<CallInst>)
    ensures r.Some? ==> IsNeCompare(cond)
  {
    if !IsNeCompare(cond) then None
    else match FirstCall(cond.value.ops)
      case None => None
      case Some(k) =>
        var c := cond.value.ops[k].call;
        if c.callee.Some? && Find(c.callee.value, FnName).Some? then Some(c)
        else None
  }

  /** Recognition finds exactly the call the condition descends from. */
  lemma RecognizeIffHinted(cond: Option<Value>, c: CallInst)
    ensures Recognize(cond) == Some(c) <==> HintedBy(cond, c)
  {
    if Recognize(cond) == Some(c) {
      var k := FirstCall(cond.value.ops).value;
      FindNoneIffAbsent(c.callee.value, FnName);
      assert IsFirstCall(cond.value.ops, k) && cond.value.ops[k] == Call(c);
    }
    if HintedBy(cond, c) {
      var k: nat :| IsFirstCall(cond.value.ops, k) && cond.value.ops[k] == Call(c);
      FirstCallUnique(cond.value.ops, k, FirstCall(cond.value.ops).value);
      FindNoneIffAbsent(c.callee.value, FnName);
    }
  }

  /** An unconditional branch, a condition that is not a comparison, and a
      comparison with any predicate but `ICMP_NE` are never hinted; neither
      is a bare call used as the condition. */
  lemma NotNeCompareNotHinted(cond: Option<Value>)
    requires !IsNeCompare(cond)
    ensures Recognize(cond) == None
    ensures forall c :: !HintedBy(cond, c)
  {
  }

  /** A later hint call does not rescue a comparison whose first call
      operand calls something else. */
  lemma FirstCallDecides(cond: Option<Value>, k: nat)
    requires IsNeCompare(cond) && IsFirstCall(cond.value.ops, k)
    requires !IsHintCall(cond.value.ops[k].call)
    ensures Recognize(cond) == None
  {
    FirstCallUnique(cond.value.ops, k, FirstCall(cond.value.ops).value);
    var c := cond.value.ops[k].call;
    if c.callee.Some? {
      FindNoneIffAbsent(c.callee.value, FnName);
    }
  }

  /** Where the code as written is defined, the recognizer agrees with it. */
  lemma AsWrittenAgrees(cond: Option<Value>)
    requires !DerefsNull(cond)
    ensures Recognize(cond) == DescendedFromLikelyCallAsWritten(cond)
  {
  }

  /** `descendedFromLikelyCall`, with the operand scan as a loop. */
  method DescendedFromLikelyCall(cond: Option<Value>) returns (r: Option<CallInst>)
    ensures r == Recognize(cond)
    ensures r.Some? ==> HintedBy(cond, r.value)
  {
    if cond.None? {
      return None;
    }
    var v := cond.value;
    if !v.Cmp? || v.pred != ICmpNe {
      return None;
    }
    var k := FindFirstCall(v.ops);
    if k.None? {
      // the source dereferences null here; read as "not hinted"
      assert FirstCall(v.ops) == None;
      return None;
    }
    FirstCallUnique(v.ops, k.value, FirstCall(v.ops).value);
    var c := v.ops[k.value].call;
    if c.callee.None? {
      // the source dereferences null here too
      return None;
    }
    if Find(c.callee.value, FnName).None? {
      return None;
    }
    r := Some(c);
    RecognizeIffHinted(cond, c);
  }
}
