/** The upper bound an expression's own structure proves, and when it is one. */
module LocalBounds {
  import opened Basics
  import opened Bits
  import opened Expressions

  const MAX_DEPTH: nat := 12
  const INT64_MAX: nat := 0x7FFF_FFFF_FFFF_FFFF

  /** An unsigned comparison of an index against a constant. */
  datatype Comparison = Comparison(orEqual: bool, indexOnLeft: bool, constant: nat)

  function ReadComparison(cond: Expr, index: Expr): Option<Comparison> {
    if !cond.Cmp? || !(cond.cmp.LtU? || cond.cmp.LeU?) then None
    else if SameValue(cond.left, index) && cond.right.Const? then
      Some(Comparison(cond.cmp.LeU?, true, cond.right.value))
    else if SameValue(cond.right, index) && cond.left.Const? then
      Some(Comparison(cond.cmp.LeU?, false, cond.left.value))
    else None
  }

  /** What the comparison limits the index to when it comes out as this edge needs it, if it limits it at all. */
  function UpperBound(c: Comparison, onTrueEdge: bool): Option<nat> {
    if c.indexOnLeft then
      if !onTrueEdge then None
      else if c.orEqual then Some(c.constant)
      else if c.constant == 0 then None else Some(c.constant - 1)
    else if onTrueEdge then None
    else if c.orEqual then
      if c.constant == 0 then None else Some(c.constant - 1)
    else Some(c.constant)
  }

  function Tightest(inner: Option<nat>, bound: nat): Option<nat> {
    if inner.Some? then Some(Min(inner.value, bound)) else Some(bound)
  }

  /** The constant side of a binary operation and the other operand; the right side is asked first. */
  function ConstantSide(e: Expr): Option<(nat, Expr)>
    requires e.Bin?
  {
    if e.right.Const? then Some((e.right.value, e.left))
    else if e.left.Const? then Some((e.left.value, e.right))
    else None
  }

  function NonNegativeBound(e: Expr, depth: nat): Option<nat>
    requires depth <= MAX_DEPTH + 1
    decreases MAX_DEPTH + 1 - depth, 3
  {
    var bound := LocalBound(e, depth);
    if bound.None? || bound.value > INT64_MAX then None else bound
  }

  /** The range end and the constant a comparison is decided by, and which side the constant is on. */
  datatype Range = Range(constant: nat, constantOnLeft: bool, variable: Expr)

  function ReadRange(cond: Expr): Option<Range> {
    if !cond.Cmp? then None
    else if cond.left.Const? then Some(Range(cond.left.value, true, cond.right))
    else if cond.right.Const? then Some(Range(cond.right.value, false, cond.left))
    else None
  }

  /** The comparison at one end of the range; the signed forms are read as unsigned ones. */
  function CompareAt(op: CmpOp, r: Range, x: nat): bool {
    var a, b := if r.constantOnLeft then r.constant else x, if r.constantOnLeft then x else r.constant;
    match op
    case LtU => a < b
    case LtS => a < b
    case LeU => a <= b
    case LeS => a <= b
    case Eq => a == b
    case Ne => a != b
  }

  /** What the two ends of `[0, hi]` say about the comparison. */
  function DecideRange(op: CmpOp, r: Range, hi: nat): Option<bool> {
    if (op.Eq? || op.Ne?) && r.constant > hi then Some(op.Ne?)
    else if (op.Eq? || op.Ne?) && hi != 0 then None
    else if CompareAt(op, r, 0) == CompareAt(op, r, hi) then Some(CompareAt(op, r, 0)) else None
  }

  /** Whether a condition is decided outright by the range of its variable side. */
  function Decide(cond: Expr, depth: nat): Option<bool>
    requires depth <= MAX_DEPTH
    decreases MAX_DEPTH + 1 - depth, 0
  {
    var range := ReadRange(cond);
    if range.None? then None else
    var bound := NonNegativeBound(range.value.variable, depth + 1);
    if bound.None? then None else DecideRange(cond.cmp, range.value, bound.value)
  }

  /** What a select's condition and an arm's own structure prove about that arm. */
  function ArmBound(cond: Expr, arm: Expr, onTrueEdge: bool, depth: nat): Option<nat>
    requires depth <= MAX_DEPTH
    decreases MAX_DEPTH + 1 - depth, 1
  {
    var decided := Decide(cond, depth);
    if decided.Some? && decided.value != onTrueEdge then Some(0) else
    var direct := GuardBound(cond, arm, onTrueEdge);
    if direct.Some? then direct else
    var shifted := ShiftedGuardBound(cond, arm, onTrueEdge);
    if shifted.Some? then shifted else LocalBound(arm, depth + 1)
  }

  function GuardBound(cond: Expr, value: Expr, onTrueEdge: bool): Option<nat> {
    var comparison := ReadComparison(cond, value);
    if comparison.None? then None else UpperBound(comparison.value, onTrueEdge)
  }

  /** An arm that is the compared value plus or minus a literal: the guard's bound, moved by as much. */
  function ShiftedGuardBound(cond: Expr, arm: Expr, onTrueEdge: bool): Option<nat> {
    if !arm.Bin? || !(arm.op.Add? || arm.op.Sub?) || !arm.right.Const? then None else
    var literal := arm.right.value;
    var bound := GuardBound(cond, arm.left, onTrueEdge);
    if bound.None? then None
    else if arm.op.Sub? then Some(if bound.value < literal then 0 else bound.value - literal)
    else
      var ceiling := LowMask(arm.width);
      if literal <= ceiling && bound.value <= ceiling - literal then Some(bound.value + literal) else None
  }

  /** The tightest bound provable from the expression alone. */
  function LocalBound(e: Expr, depth: nat): Option<nat>
    requires depth <= MAX_DEPTH + 1
    decreases MAX_DEPTH + 1 - depth, 2
  {
    if depth > MAX_DEPTH then None else
    match e
    case Const(_, v) => Some(v)
    case Cast(c, w, a) =>
      if c.ZExt? then Tightest(LocalBound(a, depth + 1), LowMask(a.Width()))
      else if c.Trunc? then Tightest(LocalBound(a, depth + 1), LowMask(w))
      else None
    case Bin(op, w, l, r) =>
      (match op
       case BitAnd =>
         var side := ConstantSide(e);
         if side.None? then None else Tightest(LocalBound(side.value.1, depth + 1), side.value.0)
       case ShrU =>
         if !r.Const? then None
         else if r.value >= WORD then Some(0)
         else
           var inner := LocalBound(l, depth + 1);
           Some((if inner.Some? then inner.value else LowMask(w)) / Pow2(r.value))
       case BitOr =>
         var side := ConstantSide(e);
         if side.None? then None else
         var inner := LocalBound(side.value.1, depth + 1);
         Some(Bitwise(Or, LowMask(SignificantBits(if inner.Some? then inner.value else LowMask(w))), side.value.0))
       case Add =>
         var side := ConstantSide(e);
         if side.None? then None else
         var inner := LocalBound(side.value.1, depth + 1);
         if inner.None? || side.value.0 > LowMask(w) || inner.value > LowMask(w) - side.value.0 then None
         else Some(inner.value + side.value.0)
       case Sub =>
         var side := ConstantSide(e);
         if side.None? then None else
         var inner := LocalBound(side.value.1, depth + 1);
         if inner.None? || side.value.0 > LowMask(w) then None
         else if !r.Const? then (if inner.value > side.value.0 then None else Some(side.value.0))
         else if inner.value < side.value.0 then None else Some(inner.value - side.value.0)
       case _ => None)
    case Select(_, c, t, f) =>
      var onTrue := ArmBound(c, t, true, depth);
      var onFalse := ArmBound(c, f, false, depth);
      if onTrue.None? || onFalse.None? then None else Some(Max(onTrue.value, onFalse.value))
    case _ => None
  }

  // ----- when the bound is one

  /** Where the negative half of a width starts. */
  function PositiveHalf(w: nat): nat { if w == 0 then 0 else Pow2(w - 1) }

  ghost predicate Signed(op: CmpOp) { op.LtS? || op.LeS? }

  /** Where a signed comparison is decided, constant and range end read the same signed or not. */
  ghost predicate DecisionTrusted(cond: Expr, depth: nat)
    requires depth <= MAX_DEPTH && WellTyped(cond)
  {
    cond.Cmp? && Signed(cond.cmp) && Decide(cond, depth).Some? ==>
      && ReadRange(cond).value.constant < PositiveHalf(cond.left.Width())
      && NonNegativeBound(ReadRange(cond).value.variable, depth + 1).value < PositiveHalf(cond.left.Width())
  }

  /** A subtraction of a constant from something of the given bound does not borrow, or the bound is
      so far past the width that the wrapped difference stays under it too. */
  ghost predicate NoBorrow(e: Expr, env: Env, bound: Option<nat>)
    requires WellTyped(e)
  {
    e.Bin? && e.op.Sub? && e.right.Const? && bound.Some? ==>
      Eval(e.left, env) >= e.right.value || bound.value >= Eval(e.left, env) + Pow2(e.width)
  }

  /** An operand's bound is the one that counts: it is below the mask that would hold without it. */
  predicate Counts(inner: Option<nat>, mask: nat) {
    inner.Some? && inner.value < mask
  }

  /** What the walk takes on trust about one evaluation: a subtraction whose bound counts does not borrow,
      and a signed comparison it decides is between values both readings agree on. Where it has no answer,
      or none below what the width or a mask allows by itself, it takes nothing on trust, and of a select
      only the arm that is taken matters. */
  ghost predicate Trusted(e: Expr, env: Env, depth: nat)
    requires WellTyped(e) && depth <= MAX_DEPTH + 1
    decreases MAX_DEPTH + 1 - depth, 1
  {
    if depth > MAX_DEPTH || !Counts(LocalBound(e, depth), LowMask(e.Width())) then true else
    match e
    case Cast(_, w, a) => Counts(LocalBound(a, depth + 1), LowMask(w)) ==> Trusted(a, env, depth + 1)
    case Bin(op, _, l, _) =>
      if op.ShrU? then Trusted(l, env, depth + 1)
      else if op.BitAnd? then
        var side := ConstantSide(e);
        side.Some? && Counts(LocalBound(side.value.1, depth + 1), side.value.0) ==>
          Trusted(side.value.1, env, depth + 1)
      else
        && NoBorrow(e, env, LocalBound(l, depth + 1))
        && (ConstantSide(e).Some? ==> Trusted(ConstantSide(e).value.1, env, depth + 1))
    case Select(_, c, t, f) =>
      && DecisionTrusted(c, depth) && RangeTrusted(c, env, depth)
      && (if Eval(c, env) != 0 then ArmTrusted(c, t, true, env, depth) else ArmTrusted(c, f, false, env, depth))
    case _ => true
  }

  /** The variable of a condition that its range decides. */
  ghost predicate RangeTrusted(cond: Expr, env: Env, depth: nat)
    requires WellTyped(cond) && depth <= MAX_DEPTH
    decreases MAX_DEPTH + 1 - depth, 0
  {
    Decide(cond, depth).Some? ==> Trusted(ReadRange(cond).value.variable, env, depth + 1)
  }

  /** An arm bounded by the condition itself takes nothing on trust, one bounded through an offset only
      that the offset does not borrow. */
  ghost predicate ArmTrusted(cond: Expr, arm: Expr, onTrueEdge: bool, env: Env, depth: nat)
    requires WellTyped(arm) && depth <= MAX_DEPTH
    decreases MAX_DEPTH + 1 - depth, 0
  {
    if GuardBound(cond, arm, onTrueEdge).Some? then true
    else if ShiftedGuardBound(cond, arm, onTrueEdge).Some?
      then NoBorrow(arm, env, GuardBound(cond, arm.left, onTrueEdge))
    else Trusted(arm, env, depth + 1)
  }

  // ----- what a guard limits a value to

  /** The comparison of `x` with the constant comes out as the edge needs it. */
  predicate Lets(op: CmpOp, constant: nat, constantOnLeft: bool, onTrueEdge: bool, x: nat, w: nat)
    requires w > 0
  {
    (if constantOnLeft then Compare(op, constant, x, w) else Compare(op, x, constant, w)) == onTrueEdge
  }

  /** `k` is the greatest value of the width that gets past. */
  ghost predicate Greatest(op: CmpOp, constant: nat, constantOnLeft: bool, onTrueEdge: bool, w: nat, k: nat)
    requires w > 0
  {
    && k < Pow2(w) && Lets(op, constant, constantOnLeft, onTrueEdge, k, w)
    && forall x: nat | x < Pow2(w) && Lets(op, constant, constantOnLeft, onTrueEdge, x, w) :: x <= k
  }

  /** On the edge where the value is the smaller side, the greatest value that gets past is answered if any
      does; on the other edge, which leaves large values, there is no answer. */
  lemma UpperBoundExactly(op: CmpOp, constant: nat, constantOnLeft: bool, onTrueEdge: bool, w: nat)
    requires (op.LtU? || op.LeU?) && w > 0 && constant < Pow2(w)
    ensures var bound := UpperBound(Comparison(op.LeU?, !constantOnLeft, constant), onTrueEdge);
            && (bound.Some? ==> Greatest(op, constant, constantOnLeft, onTrueEdge, w, bound.value))
            && (bound.Some? <==>
                  && onTrueEdge != constantOnLeft
                  && exists x: nat :: x < Pow2(w) && Lets(op, constant, constantOnLeft, onTrueEdge, x, w))
  {
    if onTrueEdge != constantOnLeft {
      assert Lets(op, constant, constantOnLeft, onTrueEdge, 0, w)
             <==> UpperBound(Comparison(op.LeU?, !constantOnLeft, constant), onTrueEdge).Some?;
    }
  }

  /** The condition compares the value with a constant, unsigned, and on this edge the value is the smaller
      side and at most `k`, which gets past. */
  ghost predicate LimitedBy(cond: Expr, value: Expr, onTrueEdge: bool, k: nat)
    requires WellTyped(cond)
  {
    && cond.Cmp? && (cond.cmp.LtU? || cond.cmp.LeU?) && cond.left.Width() > 0
    && if SameValue(cond.left, value) && cond.right.Const? then
         onTrueEdge && Greatest(cond.cmp, cond.right.value, false, onTrueEdge, cond.left.Width(), k)
       else
         && SameValue(cond.right, value) && cond.left.Const?
         && !onTrueEdge && Greatest(cond.cmp, cond.left.value, true, onTrueEdge, cond.left.Width(), k)
  }

  /** A guard's bound is exactly what the guard limits the value to. */
  lemma GuardBoundExactly(cond: Expr, value: Expr, onTrueEdge: bool, k: nat)
    requires WellTyped(cond)
    ensures GuardBound(cond, value, onTrueEdge) == Some(k) <==> LimitedBy(cond, value, onTrueEdge, k)
  {
    hide SameValue, UpperBound, Pow2, Lets;
    if cond.Cmp? && (cond.cmp.LtU? || cond.cmp.LeU?) {
      SidesTyped(cond);
      var w := cond.left.Width();
      if SameValue(cond.left, value) && cond.right.Const? {
        UpperBoundExactly(cond.cmp, cond.right.value, false, onTrueEdge, w);
      } else if SameValue(cond.right, value) && cond.left.Const? {
        UpperBoundExactly(cond.cmp, cond.left.value, true, onTrueEdge, w);
      }
    }
  }

  lemma SidesTyped(cond: Expr)
    requires WellTyped(cond) && cond.Cmp?
    ensures cond.left.Width() > 0
    ensures cond.left.Const? ==> cond.left.value < Pow2(cond.left.Width())
    ensures cond.right.Const? ==> cond.right.value < Pow2(cond.left.Width())
  {}

  /** `e` is `x` under any number of zero-extensions. */
  ghost predicate Widens(e: Expr, x: Expr) {
    e == x || (e.Cast? && e.cast.ZExt? && Widens(e.arg, x))
  }

  lemma {:induction false} StripIsBase(e: Expr, x: Expr)
    ensures Widens(e, StripWidening(e)) && !(StripWidening(e).Cast? && StripWidening(e).cast.ZExt?)
    ensures Widens(e, x) && !(x.Cast? && x.cast.ZExt?) ==> x == StripWidening(e)
  {
    if e.Cast? && e.cast.ZExt? {
      StripIsBase(e.arg, x);
    }
  }

  /** Two expressions count as one value exactly when one thing stands under the widenings of both. */
  lemma SameValueExactly(a: Expr, b: Expr)
    ensures SameValue(a, b) <==>
              exists x: Expr, y: Expr ::
                && Widens(a, x) && Widens(b, y)
                && !(x.Cast? && x.cast.ZExt?) && !(y.Cast? && y.cast.ZExt?)
                && (x == y || (x.Value? && y.Value? && x.id == y.id))
  {
    hide Widens;
    forall x: Expr
      ensures Widens(a, StripWidening(a)) && !(StripWidening(a).Cast? && StripWidening(a).cast.ZExt?)
      ensures Widens(b, StripWidening(b)) && !(StripWidening(b).Cast? && StripWidening(b).cast.ZExt?)
      ensures Widens(a, x) && !(x.Cast? && x.cast.ZExt?) ==> x == StripWidening(a)
      ensures Widens(b, x) && !(x.Cast? && x.cast.ZExt?) ==> x == StripWidening(b)
    {
      StripIsBase(a, x);
      StripIsBase(b, x);
    }
  }

  // ----- soundness

  lemma GuardBoundSound(cond: Expr, value: Expr, onTrueEdge: bool, env: Env, widths: nat -> nat)
    requires WellTyped(cond) && WellTyped(value) && ValueWidths(cond, widths) && ValueWidths(value, widths)
    requires (Eval(cond, env) != 0) == onTrueEdge && GuardBound(cond, value, onTrueEdge).Some?
    ensures Eval(value, env) <= GuardBound(cond, value, onTrueEdge).value
  {
    assert cond.Cmp?;
    if SameValue(cond.left, value) && cond.right.Const? {
      SameValueIsEqual(cond.left, value, env, widths);
    } else {
      SameValueIsEqual(cond.right, value, env, widths);
    }
  }

  lemma ShiftedGuardBoundSound(cond: Expr, arm: Expr, onTrueEdge: bool, env: Env, widths: nat -> nat)
    requires WellTyped(cond) && WellTyped(arm) && ValueWidths(cond, widths) && ValueWidths(arm, widths)
    requires (Eval(cond, env) != 0) == onTrueEdge && ShiftedGuardBound(cond, arm, onTrueEdge).Some?
    requires NoBorrow(arm, env, GuardBound(cond, arm.left, onTrueEdge))
    ensures Eval(arm, env) <= ShiftedGuardBound(cond, arm, onTrueEdge).value
  {
    hide ReadComparison, SameValue;
    GuardBoundSound(cond, arm.left, onTrueEdge, env, widths);
    var x, k := Eval(arm.left, env), arm.right.value;
    assert Eval(arm.right, env) == k && x < Pow2(arm.width);
    if arm.op.Sub? {
      ApplySub(x, k, arm.width);
    } else {
      SmallMod(x + k, Pow2(arm.width));
    }
  }

  /** Inside the positive half a comparison of either sign is the unsigned one. */
  lemma CompareReadings(op: CmpOp, r: Range, x: nat, w: nat)
    requires w > 0
    requires Signed(op) ==> r.constant < PositiveHalf(w) && x < PositiveHalf(w)
    ensures CompareAt(op, r, x) == if r.constantOnLeft then Compare(op, r.constant, x, w)
            else Compare(op, x, r.constant, w)
  {}

  /** The two ends agree only when everything between them does. */
  lemma EndsDecide(op: CmpOp, r: Range, hi: nat, x: nat)
    requires x <= hi && DecideRange(op, r, hi).Some?
    ensures CompareAt(op, r, x) == DecideRange(op, r, hi).value
  {}

  lemma RangeTyped(cond: Expr, env: Env, widths: nat -> nat)
    requires WellTyped(cond) && ValueWidths(cond, widths) && ReadRange(cond).Some?
    ensures var r := ReadRange(cond).value;
            && WellTyped(r.variable) && ValueWidths(r.variable, widths) && cond.left.Width() > 0
            && (Eval(cond, env) != 0)
               == (if r.constantOnLeft then Compare(cond.cmp, r.constant, Eval(r.variable, env), cond.left.Width())
                   else Compare(cond.cmp, Eval(r.variable, env), r.constant, cond.left.Width()))
  {}

  lemma DecideSound(cond: Expr, env: Env, depth: nat, widths: nat -> nat)
    requires WellTyped(cond) && ValueWidths(cond, widths) && depth <= MAX_DEPTH && DecisionTrusted(cond, depth)
    requires RangeTrusted(cond, env, depth) && Decide(cond, depth).Some?
    ensures Decide(cond, depth).value == (Eval(cond, env) != 0)
    decreases MAX_DEPTH + 1 - depth, 0
  {
    hide DecideRange, CompareAt, Compare, Eval, WellTyped, ValueWidths, LocalBound, Trusted;
    RangeVariableTyped(cond);
    var r := ReadRange(cond).value;
    RangeTyped(cond, env, widths);
    var hi := NonNegativeBound(r.variable, depth + 1).value;
    LocalBoundSound(r.variable, env, depth + 1, widths);
    var x := Eval(r.variable, env);
    EndsDecide(cond.cmp, r, hi, x);
    CompareReadings(cond.cmp, r, x, cond.left.Width());
  }

  lemma ArmBoundSound(cond: Expr, arm: Expr, onTrueEdge: bool, env: Env, depth: nat, widths: nat -> nat)
    requires WellTyped(cond) && ValueWidths(cond, widths) && WellTyped(arm) && ValueWidths(arm, widths)
             && depth <= MAX_DEPTH
    requires DecisionTrusted(cond, depth) && (Eval(cond, env) != 0) == onTrueEdge
    requires RangeTrusted(cond, env, depth) && ArmTrusted(cond, arm, onTrueEdge, env, depth)
    requires ArmBound(cond, arm, onTrueEdge, depth).Some?
    ensures Eval(arm, env) <= ArmBound(cond, arm, onTrueEdge, depth).value
    decreases MAX_DEPTH + 1 - depth, 1
  {
    hide DecideRange, Eval, WellTyped, ValueWidths, LocalBound, Trusted, GuardBound, ShiftedGuardBound,
      DecisionTrusted, Decide, RangeTrusted;
    var decided := Decide(cond, depth);
    if decided.Some? {
      DecideSound(cond, env, depth, widths);
    }
    if GuardBound(cond, arm, onTrueEdge).Some? {
      GuardBoundSound(cond, arm, onTrueEdge, env, widths);
    } else if ShiftedGuardBound(cond, arm, onTrueEdge).Some? {
      ShiftedGuardBoundSound(cond, arm, onTrueEdge, env, widths);
    } else {
      LocalBoundSound(arm, env, depth + 1, widths);
    }
  }

  /** Whenever the walk answers, the value never exceeds the answer. */
  lemma LocalBoundSound(e: Expr, env: Env, depth: nat, widths: nat -> nat)
    requires WellTyped(e) && ValueWidths(e, widths) && depth <= MAX_DEPTH + 1 && Trusted(e, env, depth)
    requires LocalBound(e, depth).Some?
    ensures Eval(e, env) <= LocalBound(e, depth).value
    decreases MAX_DEPTH + 1 - depth, 2
  {
    if !Counts(LocalBound(e, depth), LowMask(e.Width())) { return; }
    match e
    case Const(_, _) =>
    case Cast(_, _, _) => CastBoundSound(e, env, depth, widths);
    case Bin(op, _, _, _) =>
      if op.BitAnd? { AndBoundSound(e, env, depth, widths); }
      else if op.ShrU? { ShiftBoundSound(e, env, depth, widths); }
      else if op.BitOr? { OrBoundSound(e, env, depth, widths); }
      else { OffsetBoundSound(e, env, depth, widths); }
    case Select(_, c, t, f) => SelectBoundSound(e, env, depth, widths);
    case _ =>
  }

  lemma CastBoundSound(e: Expr, env: Env, depth: nat, widths: nat -> nat)
    requires e.Cast? && WellTyped(e) && ValueWidths(e, widths) && depth <= MAX_DEPTH && Trusted(e, env, depth)
    requires Counts(LocalBound(e, depth), LowMask(e.Width()))
    ensures Eval(e, env) <= LocalBound(e, depth).value
    decreases MAX_DEPTH + 1 - depth, 1
  {
    if Counts(LocalBound(e.arg, depth + 1), LowMask(e.width)) {
      LocalBoundSound(e.arg, env, depth + 1, widths);
    }
    if e.cast.Trunc? {
      ModBelow(Eval(e.arg, env), Pow2(e.width));
    }
  }

  lemma AndBoundSound(e: Expr, env: Env, depth: nat, widths: nat -> nat)
    requires e.Bin? && e.op.BitAnd? && WellTyped(e) && ValueWidths(e, widths) && depth <= MAX_DEPTH
             && Trusted(e, env, depth)
    requires Counts(LocalBound(e, depth), LowMask(e.Width()))
    ensures Eval(e, env) <= LocalBound(e, depth).value
    decreases MAX_DEPTH + 1 - depth, 1
  {
    hide Bitwise;
    var (mask, other) := ConstantSide(e).value;
    var a, b := Eval(e.left, env), Eval(e.right, env);
    AndBelow(a, b);
    ModBelow(Bitwise(And, a, b), Pow2(e.width));
    if Counts(LocalBound(other, depth + 1), mask) {
      LocalBoundSound(other, env, depth + 1, widths);
    }
  }

  lemma ShiftBoundSound(e: Expr, env: Env, depth: nat, widths: nat -> nat)
    requires e.Bin? && e.op.ShrU? && WellTyped(e) && ValueWidths(e, widths) && depth <= MAX_DEPTH
             && Trusted(e, env, depth)
    requires Counts(LocalBound(e, depth), LowMask(e.Width()))
    ensures Eval(e, env) <= LocalBound(e, depth).value
    decreases MAX_DEPTH + 1 - depth, 1
  {
    hide Bitwise;
    var inner := LocalBound(e.left, depth + 1);
    if inner.Some? {
      LocalBoundSound(e.left, env, depth + 1, widths);
    }
    if e.right.value < WORD && e.right.value < e.width {
      var top := if inner.Some? then inner.value else LowMask(e.width);
      DivMonotone(Eval(e.left, env), top, Pow2(e.right.value));
    }
  }

  lemma DivMonotone(a: nat, b: nat, d: nat)
    requires a <= b && d > 0
    ensures a / d <= b / d
  {
    var p, q := a / d, b / d;
    assert a == p * d + a % d && b == q * d + b % d;
    assert (p - q) * d == p * d - q * d;
    if p > q {
      AtLeastOnce(p - q, d);
    }
  }

  lemma OrBoundSound(e: Expr, env: Env, depth: nat, widths: nat -> nat)
    requires e.Bin? && e.op.BitOr? && WellTyped(e) && ValueWidths(e, widths) && depth <= MAX_DEPTH
             && Trusted(e, env, depth)
    requires Counts(LocalBound(e, depth), LowMask(e.Width()))
    ensures Eval(e, env) <= LocalBound(e, depth).value
    decreases MAX_DEPTH + 1 - depth, 1
  {
    hide Bitwise;
    var (literal, other) := ConstantSide(e).value;
    var inner := LocalBound(other, depth + 1);
    if inner.Some? {
      LocalBoundSound(other, env, depth + 1, widths);
    }
    OtherBoundSound(e, env, depth, if inner.Some? then inner.value else LowMask(e.width));
    var a, b := Eval(e.left, env), Eval(e.right, env);
    ModBelow(Bitwise(Or, a, b), Pow2(e.width));
  }

  /** A literal ORed with a value of known bound stays under the full mask of the bound ORed with it. */
  lemma OtherBoundSound(e: Expr, env: Env, depth: nat, bound: nat)
    requires e.Bin? && e.op.BitOr? && WellTyped(e) && ConstantSide(e).Some?
    requires Eval(ConstantSide(e).value.1, env) <= bound
    ensures Bitwise(Or, Eval(e.left, env), Eval(e.right, env))
            <= Bitwise(Or, LowMask(SignificantBits(bound)), ConstantSide(e).value.0)
  {
    hide Bitwise, SignificantBits, Apply;
    var (literal, other) := ConstantSide(e).value;
    var x := Eval(other, env);
    var k := if SignificantBits(bound) >= WORD then WORD else SignificantBits(bound);
    SignificantBitsBound(bound);
    Pow2Monotone(e.width, WORD);
    OrBelowMask(x, k, literal);
    if !e.right.Const? {
      BitwiseCommutes(Or, Eval(e.left, env), Eval(e.right, env));
    }
  }

  lemma OffsetBoundSound(e: Expr, env: Env, depth: nat, widths: nat -> nat)
    requires e.Bin? && WellTyped(e) && ValueWidths(e, widths) && depth <= MAX_DEPTH && Trusted(e, env, depth)
    requires e.op.Add? || e.op.Sub? || e.op.Mul? || e.op.BitXor? || e.op.Shl?
    requires Counts(LocalBound(e, depth), LowMask(e.Width()))
    ensures Eval(e, env) <= LocalBound(e, depth).value
    decreases MAX_DEPTH + 1 - depth, 1
  {
    hide Bitwise, Apply;
    var (literal, other) := ConstantSide(e).value;
    LocalBoundSound(other, env, depth + 1, widths);
    var x := Eval(other, env);
    var a, b := Eval(e.left, env), Eval(e.right, env);
    ApplyAdd(a, b, e.width);
    ApplySub(a, b, e.width);
  }

  lemma ApplyAdd(a: nat, b: nat, w: nat)
    ensures a + b < Pow2(w) ==> Apply(Add, a, b, w) == a + b
  {
    hide Pow2, Bitwise;
    if a + b < Pow2(w) { SmallMod(a + b, Pow2(w)); }
  }

  lemma ApplySub(a: nat, b: nat, w: nat)
    ensures b <= a < Pow2(w) ==> Apply(Sub, a, b, w) == a - b
    ensures a < b < Pow2(w) ==> Apply(Sub, a, b, w) == a - b + Pow2(w)
  {
    hide Pow2, Bitwise;
    if b <= a < Pow2(w) { SmallMod(a - b, Pow2(w)); }
    if a < b < Pow2(w) { ModUnique(a - b, Pow2(w), -1, a - b + Pow2(w)); }
  }

  lemma SelectBoundSound(e: Expr, env: Env, depth: nat, widths: nat -> nat)
    requires e.Select? && WellTyped(e) && ValueWidths(e, widths) && depth <= MAX_DEPTH && Trusted(e, env, depth)
    requires Counts(LocalBound(e, depth), LowMask(e.Width()))
    ensures Eval(e, env) <= LocalBound(e, depth).value
    decreases MAX_DEPTH + 1 - depth, 2, 0
  {
    hide Bitwise, ArmBound, DecisionTrusted, RangeTrusted, ArmTrusted;
    if Eval(e.cond, env) != 0 {
      ArmBoundSound(e.cond, e.onTrue, true, env, depth, widths);
    } else {
      ArmBoundSound(e.cond, e.onFalse, false, env, depth, widths);
    }
  }

  lemma RangeVariableTyped(cond: Expr)
    requires WellTyped(cond)
    ensures ReadRange(cond).Some? ==> WellTyped(ReadRange(cond).value.variable)
  {}

  // ----- the two rules that are looser than their comments

  /** The answer for `x - k` is a bound exactly when the subtraction does not borrow, but for a bound on
      `x` that the width has outgrown. */
  lemma SubBoundExactly(e: Expr, env: Env, depth: nat, widths: nat -> nat)
    requires WellTyped(e) && ValueWidths(e, widths) && depth <= MAX_DEPTH && LocalBound(e, depth).Some?
    requires e.Bin? && e.op.Sub? && e.right.Const? && Trusted(e.left, env, depth + 1)
    ensures Eval(e, env) <= LocalBound(e, depth).value <==> NoBorrow(e, env, LocalBound(e.left, depth + 1))
  {
    hide Bitwise, Apply, Pow2, Trusted, Eval;
    LocalBoundSound(e.left, env, depth + 1, widths);
    SubValue(e, env);
  }

  lemma SubValue(e: Expr, env: Env)
    requires WellTyped(e) && e.Bin? && e.op.Sub? && e.right.Const?
    ensures var x, k := Eval(e.left, env), e.right.value;
            k < Pow2(e.width) && Eval(e, env) == if x >= k then x - k else x - k + Pow2(e.width)
  {
    hide Pow2, Bitwise, Apply;
    ApplySub(Eval(e.left, env), e.right.value, e.width);
  }

  /** An arm bounded through an offset it subtracts is bounded rightly exactly when that does not borrow. */
  lemma ShiftedSubExactly(cond: Expr, arm: Expr, onTrueEdge: bool, env: Env, widths: nat -> nat)
    requires WellTyped(cond) && WellTyped(arm) && ValueWidths(cond, widths) && ValueWidths(arm, widths)
    requires (Eval(cond, env) != 0) == onTrueEdge && ShiftedGuardBound(cond, arm, onTrueEdge).Some? && arm.op.Sub?
    ensures Eval(arm, env) <= ShiftedGuardBound(cond, arm, onTrueEdge).value <==>
              NoBorrow(arm, env, GuardBound(cond, arm.left, onTrueEdge))
  {
    hide ReadComparison, SameValue, Pow2, Bitwise, Apply, Eval, GuardBound;
    GuardBoundSound(cond, arm.left, onTrueEdge, env, widths);
    SubValue(arm, env);
  }

  /** A signed comparison that is decided is decided rightly, for the whole range, exactly when the
      constant and the range end are in the positive half. */
  lemma SignedDecisionExactly(op: CmpOp, r: Range, hi: nat, w: nat)
    requires w > 0 && Signed(op) && r.constant < Pow2(w) && hi < Pow2(w) && DecideRange(op, r, hi).Some?
    ensures (forall x | 0 <= x <= hi :: DecideRange(op, r, hi).value
               == if r.constantOnLeft then Compare(op, r.constant, x, w) else Compare(op, x, r.constant, w))
            <==> r.constant < PositiveHalf(w) && hi < PositiveHalf(w)
  {
    if r.constant < PositiveHalf(w) && hi < PositiveHalf(w) {
      forall x | 0 <= x <= hi ensures DecideRange(op, r, hi).value
               == if r.constantOnLeft then Compare(op, r.constant, x, w) else Compare(op, x, r.constant, w) {
        EndsDecide(op, r, hi, x);
        CompareReadings(op, r, x, w);
      }
    } else {
      var bad := if r.constant >= PositiveHalf(w) then 0 else hi;
      assert DecideRange(op, r, hi).value
               != if r.constantOnLeft then Compare(op, r.constant, bad, w) else Compare(op, bad, r.constant, w);
    }
  }

  /** `(x & 7) - 3` is claimed to be at most 4, and is 253 on bytes when `x` is 0. */
  lemma SubBoundFails()
    ensures exists e: Expr, env: Env :: WellTyped(e) && LocalBound(e, 0).Some? && Eval(e, env) > LocalBound(e, 0).value
  {
    hide Bitwise;
    var masked := Bin(BitAnd, 8, EntryReg(8, 0), Const(8, 7));
    var e := Bin(Sub, 8, masked, Const(8, 3));
    var env := Env(_ => 0, _ => 0, (_, _) => 0);
    assert Pow2(8) == 256 by { assert Pow2(4) == 16; Pow2Add(4, 4); }
    assert Eval(masked, env) == 0 by { AndBelow(0, 7); }
    assert Eval(e, env) == 253;
    assert LocalBound(EntryReg(8, 0), 2) == None;
    assert LocalBound(masked, 1) == Some(7);
    assert LocalBound(e, 0) == Some(4);
  }

  lemma ByteSizes()
    ensures Pow2(8) == 256 && Pow2(7) == 128 && Pow2(1) == 2
  {
    assert Pow2(4) == 16;
    Pow2Add(4, 4);
  }

  /** `-1 < x` on signed bytes, with `x` at most 1, is decided false although it always holds: the
      select is claimed to be at most 1 and is 200. */
  lemma SignedDecisionFails()
    ensures exists e: Expr, env: Env :: WellTyped(e) && LocalBound(e, 0).Some? && Eval(e, env) > LocalBound(e, 0).value
  {
    hide Pow2, Bitwise;
    ByteSizes();
    var flag := Cast(ZExt, 8, EntryReg(1, 0));
    var cond := Cmp(LtS, Const(8, 255), flag);
    var e := Select(8, cond, Const(8, 200), flag);
    var env := Env(_ => 0, _ => 0, (_, _) => 0);
    assert Eval(flag, env) == 0;
    assert Eval(e, env) == 200;
    assert LocalBound(EntryReg(1, 0), 2) == None;
    assert LocalBound(flag, 1) == Some(1);
    assert DecideRange(LtS, Range(255, true, flag), 1) == Some(false);
    assert Decide(cond, 0) == Some(false);
    assert ArmBound(cond, Const(8, 200), true, 0) == Some(0);
    assert ReadComparison(cond, flag) == None;
    assert ArmBound(cond, flag, false, 0) == Some(1);
    assert LocalBound(e, 0) == Some(1);
  }
}
