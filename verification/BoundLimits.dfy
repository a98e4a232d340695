/** The bounds are no looser than they have to be: what the rules answer is attained. */
module BoundLimits {
  import opened Basics
  import opened Bits
  import opened Expressions
  import opened LocalBounds

  /** There is an answer, and the expression can be that much. */
  ghost predicate Attained(e: Expr, depth: nat)
    requires WellTyped(e) && depth <= MAX_DEPTH + 1
  {
    LocalBound(e, depth).Some? && exists env: Env :: Eval(e, env) == LocalBound(e, depth).value
  }

  function Holding(x: nat): Env {
    Env((_: nat) => x, (_: nat) => x, (_: nat, _: seq<nat>) => 0)
  }

  lemma RegisterHolds(w: nat, reg: nat, x: nat)
    requires 1 <= w <= WORD && x < Pow2(w)
    ensures WellTyped(EntryReg(w, reg)) && Eval(EntryReg(w, reg), Holding(x)) == x
  {
    hide Pow2;
    SmallMod(x, Pow2(w));
  }

  lemma RegisterUnbounded(w: nat, reg: nat, depth: nat)
    requires depth <= MAX_DEPTH + 1
    ensures LocalBound(EntryReg(w, reg), depth) == None
  {}

  // ----- one operation on a register

  /** A zero-extension and a truncation can be all ones of the narrower width. */
  lemma CastAttained(c: CastOp, from: nat, w: nat, reg: nat, depth: nat)
    requires 1 <= from <= WORD && 1 <= w <= WORD && depth <= MAX_DEPTH
    requires (c.ZExt? && from <= w) || (c.Trunc? && w <= from)
    ensures WellTyped(Cast(c, w, EntryReg(from, reg))) && Attained(Cast(c, w, EntryReg(from, reg)), depth)
  {
    hide Pow2;
    var e := Cast(c, w, EntryReg(from, reg));
    var x := Pow2(if c.ZExt? then from else w) - 1;
    Pow2Monotone(if c.ZExt? then from else w, from);
    RegisterHolds(from, reg, x);
    RegisterUnbounded(from, reg, depth + 1);
    if c.Trunc? { SmallMod(x, Pow2(w)); }
    assert Eval(e, Holding(x)) == x;
  }

  lemma {:induction false} AndSelf(x: nat)
    ensures Bitwise(And, x, x) == x
  {
    if x != 0 {
      AndSelf(x / 2);
      BitwiseParts(And, x, x);
    }
  }

  function Masked(w: nat, reg: nat, mask: nat, maskOnLeft: bool): Expr {
    if maskOnLeft then Bin(BitAnd, w, Const(w, mask), EntryReg(w, reg))
    else Bin(BitAnd, w, EntryReg(w, reg), Const(w, mask))
  }

  /** A register under a mask can be the mask. */
  lemma MaskAttained(w: nat, reg: nat, mask: nat, maskOnLeft: bool, depth: nat)
    requires 1 <= w <= WORD && mask < Pow2(w) && depth <= MAX_DEPTH
    ensures WellTyped(Masked(w, reg, mask, maskOnLeft)) && Attained(Masked(w, reg, mask, maskOnLeft), depth)
    ensures LocalBound(Masked(w, reg, mask, maskOnLeft), depth) == Some(mask)
  {
    hide Pow2, Bitwise;
    var e := Masked(w, reg, mask, maskOnLeft);
    RegisterHolds(w, reg, mask);
    RegisterUnbounded(w, reg, depth + 1);
    AndSelf(mask);
    SmallMod(mask, Pow2(w));
    assert Eval(e, Holding(mask)) == mask;
  }

  /** A register shifted right can be all ones of what is left. */
  lemma ShiftAttained(w: nat, reg: nat, k: nat, depth: nat)
    requires 1 <= w <= WORD && k < Pow2(w) && depth <= MAX_DEPTH
    ensures var e := Bin(ShrU, w, EntryReg(w, reg), Const(w, k)); WellTyped(e) && Attained(e, depth)
  {
    hide Pow2, Bitwise;
    var e := Bin(ShrU, w, EntryReg(w, reg), Const(w, k));
    RegisterHolds(w, reg, Pow2(w) - 1);
    RegisterUnbounded(w, reg, depth + 1);
    if w <= k < WORD {
      Pow2Monotone(w, k);
      ModUnique(Pow2(w) - 1, Pow2(k), 0, Pow2(w) - 1);
    }
    assert Eval(e, Holding(Pow2(w) - 1)) == LocalBound(e, depth).value;
  }

  lemma AllOnes(w: nat)
    ensures SignificantBits(Pow2(w) - 1) == w
  {
    hide Pow2;
    SignificantBitsWithin(Pow2(w) - 1, w);
    SignificantBitsBound(Pow2(w) - 1);
    var n := SignificantBits(Pow2(w) - 1);
    if n < w {
      Pow2Monotone(n + 1, w);
      PowStep(n);
    }
  }

  lemma PowStep(n: nat)
    ensures Pow2(n + 1) == 2 * Pow2(n)
  {}

  /** A register ORed with a literal can be all ones. */
  lemma OrAttained(w: nat, reg: nat, literal: nat, depth: nat)
    requires 1 <= w <= WORD && literal < Pow2(w) && depth <= MAX_DEPTH
    ensures var e := Bin(BitOr, w, EntryReg(w, reg), Const(w, literal)); WellTyped(e) && Attained(e, depth)
  {
    hide Pow2, Bitwise, SignificantBits;
    var e := Bin(BitOr, w, EntryReg(w, reg), Const(w, literal));
    var x := Pow2(w) - 1;
    RegisterHolds(w, reg, x);
    RegisterUnbounded(w, reg, depth + 1);
    AllOnes(w);
    BitwiseWithin(Or, x, literal, w);
    SmallMod(Bitwise(Or, x, literal), Pow2(w));
    assert Eval(e, Holding(x)) == LocalBound(e, depth).value;
  }

  // ----- operations that keep a bound attained

  /** Adding or subtracting a literal moves an attained bound along, as far as that neither wraps nor borrows. */
  lemma OffsetAttained(op: BinOp, w: nat, inner: Expr, k: nat, depth: nat)
    requires (op.Add? || op.Sub?) && depth <= MAX_DEPTH && WellTyped(inner) && inner.Width() == w && k < Pow2(w)
    requires Attained(inner, depth + 1)
    requires var bound := LocalBound(inner, depth + 1).value; if op.Add? then bound + k < Pow2(w) else k <= bound
    ensures WellTyped(Bin(op, w, inner, Const(w, k))) && Attained(Bin(op, w, inner, Const(w, k)), depth)
    ensures var bound := LocalBound(inner, depth + 1).value;
            LocalBound(Bin(op, w, inner, Const(w, k)), depth) == Some(if op.Add? then bound + k else bound - k)
  {
    hide Pow2, Bitwise, Apply;
    var e := Bin(op, w, inner, Const(w, k));
    var bound := LocalBound(inner, depth + 1).value;
    var env: Env :| Eval(inner, env) == bound;
    ApplyAdd(bound, k, w);
    ApplySub(bound, k, w);
    OffsetAnswer(op, w, inner, k, depth);
    assert Eval(e, env) == LocalBound(e, depth).value;
  }

  lemma OffsetAnswer(op: BinOp, w: nat, inner: Expr, k: nat, depth: nat)
    requires (op.Add? || op.Sub?) && depth <= MAX_DEPTH && 1 <= w <= WORD && k < Pow2(w)
    requires LocalBound(inner, depth + 1).Some?
    requires var bound := LocalBound(inner, depth + 1).value; if op.Add? then bound + k < Pow2(w) else k <= bound
    ensures var bound := LocalBound(inner, depth + 1).value;
            LocalBound(Bin(op, w, inner, Const(w, k)), depth) == Some(if op.Add? then bound + k else bound - k)
  {
    hide Pow2, Bitwise;
  }

  /** A literal less something that can be nothing can be the literal. */
  lemma LessAttained(w: nat, k: nat, inner: Expr, depth: nat, zero: Env)
    requires depth <= MAX_DEPTH && WellTyped(inner) && inner.Width() == w && k < Pow2(w) && !inner.Const?
    requires LocalBound(inner, depth + 1).Some? && LocalBound(inner, depth + 1).value <= k && Eval(inner, zero) == 0
    ensures WellTyped(Bin(Sub, w, Const(w, k), inner)) && Attained(Bin(Sub, w, Const(w, k), inner), depth)
    ensures LocalBound(Bin(Sub, w, Const(w, k), inner), depth) == Some(k)
  {
    hide Pow2, Bitwise, Apply;
    var e := Bin(Sub, w, Const(w, k), inner);
    ApplySub(k, 0, w);
    LessAnswer(w, k, inner, depth);
    assert Eval(e, zero) == k;
  }

  lemma LessAnswer(w: nat, k: nat, inner: Expr, depth: nat)
    requires depth <= MAX_DEPTH && 1 <= w <= WORD && k < Pow2(w) && !inner.Const?
    requires LocalBound(inner, depth + 1).Some? && LocalBound(inner, depth + 1).value <= k
    ensures LocalBound(Bin(Sub, w, Const(w, k), inner), depth) == Some(k)
  {
    hide Pow2, Bitwise;
  }

  /** So does a zero-extension. */
  lemma WideningAttained(w: nat, inner: Expr, depth: nat)
    requires depth <= MAX_DEPTH && WellTyped(inner) && inner.Width() <= w <= WORD && Attained(inner, depth + 1)
    ensures WellTyped(Cast(ZExt, w, inner)) && Attained(Cast(ZExt, w, inner), depth)
    ensures LocalBound(Cast(ZExt, w, inner), depth) == LocalBound(inner, depth + 1)
  {
    hide Pow2, Bitwise;
    var e := Cast(ZExt, w, inner);
    var env: Env :| Eval(inner, env) == LocalBound(inner, depth + 1).value;
    assert Eval(e, env) == LocalBound(e, depth).value;
  }

  // ----- a clamp

  /** `x < limit ? x : otherwise`. */
  function Clamp(w: nat, reg: nat, limit: nat, otherwise: nat): Expr {
    Select(w, Cmp(LtU, EntryReg(w, reg), Const(w, limit)), EntryReg(w, reg), Const(w, otherwise))
  }

  /** A branchless clamp of a register is bounded by the greater of what either arm can be, and is that much. */
  lemma ClampAttained(w: nat, reg: nat, limit: nat, otherwise: nat, depth: nat)
    requires 1 <= w <= WORD && 1 <= limit < Pow2(w) && otherwise < Pow2(w) && depth < MAX_DEPTH
    ensures WellTyped(Clamp(w, reg, limit, otherwise)) && Attained(Clamp(w, reg, limit, otherwise), depth)
    ensures LocalBound(Clamp(w, reg, limit, otherwise), depth) == Some(Max(limit - 1, otherwise))
  {
    hide Pow2, Bitwise;
    var x := if limit - 1 >= otherwise then limit - 1 else limit;
    RegisterHolds(w, reg, x);
    ClampTyped(w, reg, limit, otherwise);
    ClampAnswer(w, reg, limit, otherwise, depth);
    ClampValue(w, reg, limit, otherwise, x);
    assert Eval(Clamp(w, reg, limit, otherwise), Holding(x)) == Max(limit - 1, otherwise);
  }

  lemma ClampTyped(w: nat, reg: nat, limit: nat, otherwise: nat)
    requires 1 <= w <= WORD && limit < Pow2(w) && otherwise < Pow2(w)
    ensures WellTyped(Clamp(w, reg, limit, otherwise))
  {
    hide Pow2;
    assert WellTyped(Clamp(w, reg, limit, otherwise).cond);
  }

  lemma ClampValue(w: nat, reg: nat, limit: nat, otherwise: nat, x: nat)
    requires WellTyped(Clamp(w, reg, limit, otherwise)) && 1 <= w <= WORD && x < Pow2(w)
    ensures Eval(Clamp(w, reg, limit, otherwise), Holding(x)) == if x < limit then x else otherwise
  {
    hide Pow2, Bitwise;
    RegisterHolds(w, reg, x);
    var cond := Clamp(w, reg, limit, otherwise).cond;
    assert Eval(cond, Holding(x)) == if x < limit then 1 else 0;
  }

  lemma ClampAnswer(w: nat, reg: nat, limit: nat, otherwise: nat, depth: nat)
    requires 1 <= w <= WORD && 1 <= limit && depth < MAX_DEPTH
    ensures LocalBound(Clamp(w, reg, limit, otherwise), depth) == Some(Max(limit - 1, otherwise))
  {
    hide Pow2, Bitwise;
    var e := Clamp(w, reg, limit, otherwise);
    RegisterUnbounded(w, reg, depth + 1);
    assert Decide(e.cond, depth) == None;
    assert ArmBound(e.cond, e.onTrue, true, depth) == Some(limit - 1);
    assert ReadComparison(e.cond, e.onFalse) == None;
    assert LocalBound(e.onFalse, depth + 1) == Some(otherwise);
    assert ArmBound(e.cond, e.onFalse, false, depth) == Some(otherwise);
  }

  // ----- conditions decided by a range

  /** A comparison is decided exactly when it comes out the same for the whole range. */
  lemma DecidedExactly(op: CmpOp, r: Range, hi: nat)
    ensures DecideRange(op, r, hi).Some? <==> forall x: nat | x <= hi :: CompareAt(op, r, x) == CompareAt(op, r, 0)
  {
    if DecideRange(op, r, hi).Some? {
      forall x: nat | x <= hi ensures CompareAt(op, r, x) == CompareAt(op, r, 0) {
        EndsDecide(op, r, hi, x);
        EndsDecide(op, r, hi, 0);
      }
    } else {
      var x := if op.Eq? || op.Ne? then (if r.constant == 0 then hi else r.constant) else hi;
      assert CompareAt(op, r, x) != CompareAt(op, r, 0);
    }
  }

  /** A guard's bound, read through a literal the arm adds or takes away, moves with the value: to what the
      arm is where the guarded value is at its bound, or to 0 where it would be below. */
  lemma ShiftedBoundMoves(cond: Expr, arm: Expr, onTrueEdge: bool, bound: nat)
    requires WellTyped(arm) && arm.Bin? && (arm.op.Add? || arm.op.Sub?) && arm.right.Const?
    requires GuardBound(cond, arm.left, onTrueEdge) == Some(bound) && bound < Pow2(arm.width)
    ensures ShiftedGuardBound(cond, arm, onTrueEdge)
            == var k := arm.right.value;
               if arm.op.Sub? then Some(if bound < k then 0 else Apply(Sub, bound, k, arm.width))
               else if bound + k < Pow2(arm.width) then Some(Apply(Add, bound, k, arm.width))
               else None
  {
    hide Pow2, Bitwise, Apply, GuardBound;
    ApplyAdd(bound, arm.right.value, arm.width);
    ApplySub(bound, arm.right.value, arm.width);
    assert WellTyped(arm.right);
  }
}
