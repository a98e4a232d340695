/** The value sets are no larger than they have to be, nor are they given up on too early. */
module ExactLimits {
  import opened Bits
  import opened Expressions
  import opened Basics
  import opened BitFactors
  import opened ExactValueSets

  /** Entry registers and literals under casts, shifts right by a literal, the other binary operations, and
      selects on a register, no register standing on two sides of one operation. */
  predicate Plain(e: Expr) {
    match e
    case Const(_, _) => true
    case EntryReg(_, _) => true
    case Cast(_, _, a) => Plain(a)
    case Bin(op, _, l, r) => Plain(l) && (if op.ShrU? then r.Const? else Plain(r) && Registers(l) !! Registers(r))
    case Select(_, c, t, f) => c.EntryReg? && Plain(t) && Plain(f) && c.reg !in Registers(t) + Registers(f)
    case _ => false
  }

  function Registers(e: Expr): set<nat> {
    match e
    case EntryReg(_, reg) => {reg}
    case Cast(_, _, a) => Registers(a)
    case Bin(_, _, l, r) => Registers(l) + Registers(r)
    case Select(_, c, t, f) => Registers(c) + Registers(t) + Registers(f)
    case _ => {}
  }

  /** How many bits the registers of a plain expression have between them. */
  function Freedom(e: Expr): nat {
    match e
    case EntryReg(w, _) => w
    case Cast(_, _, a) => Freedom(a)
    case Bin(_, _, l, r) => Freedom(l) + Freedom(r)
    case Select(_, c, t, f) => Freedom(c) + Freedom(t) + Freedom(f)
    case _ => 0
  }

  function Height(e: Expr): nat {
    match e
    case Cast(_, _, a) => 1 + Height(a)
    case Bin(_, _, l, r) => 1 + Max(Height(l), Height(r))
    case Select(_, _, t, f) => 1 + Max(Height(t), Height(f))
    case _ => 0
  }

  // ----- nothing in a plain expression is a complementary pair

  lemma {:induction false} PlainFactor(e: Expr)
    requires Plain(e) && MatchBitFactor(e).Some?
    ensures !MatchBitFactor(e).value.complemented
  {
    if e.Bin? && e.op.Mul? {
      PlainFactor(if e.right.Const? then e.left else e.right);
    } else if e.Bin? && e.op.Shl? {
      PlainFactor(e.left);
    } else if e.Cast? {
      PlainFactor(e.arg);
    }
  }

  lemma PlainApart(l: Expr, r: Expr)
    requires Plain(l) && Plain(r)
    ensures !Complementary(l, r)
  {
    hide MatchBitFactor;
    if MatchBitFactor(l).Some? { PlainFactor(l); }
    if MatchBitFactor(r).Some? { PlainFactor(r); }
  }

  lemma {:induction false} PlainLeaves(e: Expr)
    requires Plain(e)
    ensures forall a | a in OrLeaves(e) :: Plain(a)
  {
    if e.Bin? && e.op.BitOr? {
      PlainLeaves(e.left);
      PlainLeaves(e.right);
    }
  }

  lemma {:induction false} NoPairs(c: Context, leaves: seq<Expr>, w: nat, depth: nat)
    requires depth <= MAX_DEPTH && forall a | a in leaves :: Plain(a)
    ensures ChainGroups(c, leaves, w, depth).Some? ==> !ChainGroups(c, leaves, w, depth).value.anyPair
    decreases |leaves|
  {
    hide Complementary, Exact, JoinPair, MatchBitFactor;
    if leaves != [] {
      var j := Partner(leaves[0], leaves[1..]);
      if j.Some? {
        assert leaves[1..][j.value] in leaves;
        PlainApart(leaves[0], leaves[1..][j.value]);
      } else {
        NoPairs(c, leaves[1..], w, depth);
      }
    }
  }

  /** So its operations are answered from the answers of their operands. */
  lemma PlainBin(c: Context, e: Expr, depth: nat)
    requires e.Bin? && !e.op.ShrU? && Plain(e) && depth <= MAX_DEPTH
    ensures var l, r := Exact(c, e.left, depth + 1), Exact(c, e.right, depth + 1);
            Exact(c, e, depth) == if l.None? || r.None? || |l.value| * |r.value| > 64 then None
                                  else Capped(Cross(e.op, l.value, r.value, e.width))
  {
    hide Complementary, JoinPair, MatchBitFactor, ChainGroups, OrLeaves, FoldGroups, Cross;
    PlainApart(e.left, e.right);
    if e.op.BitOr? {
      PlainLeaves(e);
      NoPairs(c, OrLeaves(e), e.width, depth);
      assert ExactOrChain(c, e, e.width, depth) == None;
    }
    assert Exact(c, e, depth) == ExactBin(c, e, depth);
  }

  // ----- environments

  lemma {:induction false} SameRegisters(e: Expr, a: Env, b: Env)
    requires WellTyped(e) && Plain(e) && forall r | r in Registers(e) :: a.reg(r) == b.reg(r)
    ensures Eval(e, a) == Eval(e, b)
  {
    hide Bitwise, Pow2, Apply, Eval, WellTyped, CastValue;
    match e
    case Cast(c, w, x) =>
      CastTyped(e);
      SameRegisters(x, a, b);
      CastIsValue(c, w, x, a);
      CastIsValue(c, w, x, b);
    case Bin(op, _, l, r) =>
      BinIsApply(e, a);
      BinIsApply(e, b);
      SameRegisters(l, a, b);
      if op.ShrU? { SameLeaf(r, a, b); } else { SameRegisters(r, a, b); }
    case Select(_, c, t, f) =>
      SelectValue(e, a);
      SelectValue(e, b);
      SameLeaf(c, a, b);
      SameRegisters(t, a, b);
      SameRegisters(f, a, b);
    case _ => SameLeaf(e, a, b);
  }

  lemma CastTyped(e: Expr)
    requires WellTyped(e) && e.Cast?
    ensures WellTyped(e.arg)
  {
    hide Pow2;
  }

  lemma SameLeaf(e: Expr, a: Env, b: Env)
    requires WellTyped(e) && (e.Const? || e.EntryReg?) && forall r | r in Registers(e) :: a.reg(r) == b.reg(r)
    ensures Eval(e, a) == Eval(e, b)
  {
    hide Pow2;
  }

  /** The registers of `e` as in `a`, the others as in `b`. */
  ghost function Joined(e: Expr, a: Env, b: Env): Env {
    var own := Registers(e);
    Env(b.value, (r: nat) => if r in own then a.reg(r) else b.reg(r), b.other)
  }

  // ----- sizes

  lemma {:induction false} CrossSmall(op: BinOp, xs: set<nat>, ys: set<nat>, w: nat)
    ensures |Cross(op, xs, ys, w)| <= |xs| * |ys|
    decreases |xs|
  {
    hide Combine, Cross;
    CrossNothing(op, ys, w);
    if xs != {} {
      var x :| x in xs;
      CrossSmall(op, xs - {x}, ys, w);
      RowSmall(op, x, ys, w);
      CrossSplits(op, xs, ys, w, x);
      Once(|xs|, |ys|);
    }
  }

  lemma CrossNothing(op: BinOp, ys: set<nat>, w: nat)
    ensures Cross(op, {}, ys, w) == {}
  {
    hide Combine;
  }

  lemma CrossSplits(op: BinOp, xs: set<nat>, ys: set<nat>, w: nat, x: nat)
    requires x in xs
    ensures Cross(op, xs, ys, w) == Cross(op, xs - {x}, ys, w) + set y | y in ys :: Combine(op, x, y, w)
  {
    hide Combine;
  }

  lemma Once(a: nat, b: nat)
    requires a > 0
    ensures a * b == (a - 1) * b + b
  {}

  lemma {:induction false} RowSmall(op: BinOp, x: nat, ys: set<nat>, w: nat)
    ensures |set y | y in ys :: Combine(op, x, y, w)| <= |ys|
    decreases |ys|
  {
    hide Combine;
    if ys != {} {
      var y :| y in ys;
      RowSmall(op, x, ys - {y}, w);
      var row := set z | z in ys - {y} :: Combine(op, x, z, w);
      assert (set z | z in ys :: Combine(op, x, z, w)) == row + {Combine(op, x, y, w)};
    }
  }

  lemma ProductSmall(a: nat, b: nat, m: nat, n: nat)
    requires a <= Pow2(m) && b <= Pow2(n) && m + n <= 6
    ensures a * b <= Pow2(m + n) <= 64 && a + b <= Pow2(m + n + 1)
  {
    hide Pow2;
    TimesBoth(a, Pow2(m), b, Pow2(n), Pow2(m + n));
    SumSmall(a, b, m, n);
  }

  lemma SumSmall(a: nat, b: nat, m: nat, n: nat)
    requires a <= Pow2(m) && b <= Pow2(n) && m + n <= 6
    ensures Pow2(m) * Pow2(n) == Pow2(m + n) <= 64 && a + b <= Pow2(m + n + 1)
  {
    hide Pow2;
    Pow2Add(m, n);
    Pow2Monotone(m + n, 6);
    Pow2Monotone(m, m + n);
    Pow2Monotone(n, m + n);
    PowSix(m + n);
  }

  lemma TimesBoth(a: nat, p: nat, b: nat, q: nat, product: nat)
    requires a <= p && b <= q
    ensures p * q == product ==> a * b <= product
  {
    TimesMonotone(a, p, b);
    TimesMonotone(b, q, p);
    Swap(b, p);
    Swap(q, p);
  }

  lemma Swap(x: nat, y: nat)
    ensures x * y == y * x
  {}

  lemma PowSix(n: nat)
    ensures Pow2(6) == 64 && Pow2(n + 1) == 2 * Pow2(n)
  {}

  lemma NarrowListed(w: nat)
    requires 1 <= w <= 6
    ensures ValuesOfWidth(w).Some? && |ValuesOfWidth(w).value| == Pow2(w)
    ensures forall v: nat :: v in ValuesOfWidth(w).value <==> v < Pow2(w)
  {
    hide Pow2, UpTo;
    PowSix(0);
    Pow2Monotone(w, 6);
  }

  // ----- the theorem

  /** The answer lists the values the expression takes, and no others. */
  ghost predicate ListsExactly(c: Context, e: Expr, depth: nat)
    requires depth <= MAX_DEPTH && WellTyped(e)
  {
    && Exact(c, e, depth).Some? && |Exact(c, e, depth).value| <= Pow2(Freedom(e))
    && (forall v | v in Exact(c, e, depth).value :: Takes(e, v))
    && (forall env: Env {:trigger Eval(e, env)} :: Eval(e, env) in Exact(c, e, depth).value)
  }

  ghost predicate Takes(e: Expr, v: nat)
    requires WellTyped(e)
  {
    exists env: Env :: Eval(e, env) == v
  }

  /** A plain expression over registers of up to six bits in all, up to the depth limit, is answered with
      exactly the values it takes. */
  lemma {:induction false} PlainExactly(c: Context, e: Expr, depth: nat)
    requires WellTyped(e) && Plain(e) && Freedom(e) <= 6 && depth + Height(e) <= 12
    ensures ListsExactly(c, e, depth)
    decreases e
  {
    hide Bitwise, Pow2, Exact, ListsExactly, Eval, Takes;
    match e
    case Const(_, _) => ConstExactly(c, e, depth);
    case EntryReg(_, _) => RegisterExactly(c, e, depth);
    case Cast(_, _, a) =>
      PlainExactly(c, a, depth + 1);
      CastExactly(c, e, depth);
    case Bin(op, _, l, r) =>
      PlainExactly(c, l, depth + 1);
      if op.ShrU? {
        ShiftExactly(c, e, depth);
      } else {
        PlainExactly(c, r, depth + 1);
        BinExactly(c, e, depth);
      }
    case Select(_, _, t, f) =>
      PlainExactly(c, t, depth + 1);
      PlainExactly(c, f, depth + 1);
      SelectExactly(c, e, depth);
  }

  lemma ConstExactly(c: Context, e: Expr, depth: nat)
    requires WellTyped(e) && e.Const? && depth <= MAX_DEPTH
    ensures ListsExactly(c, e, depth)
  {
    hide Pow2, Bitwise;
    PowZero();
    var env: Env :| true;
    assert Eval(e, env) == e.value;
  }

  lemma PowZero()
    ensures Pow2(0) == 1
  {}

  lemma RegisterExactly(c: Context, e: Expr, depth: nat)
    requires WellTyped(e) && e.EntryReg? && e.width <= 6 && depth <= MAX_DEPTH
    ensures ListsExactly(c, e, depth)
  {
    hide Pow2, Bitwise, ValuesOfWidth;
    NarrowListed(e.width);
    forall v | v in ValuesOfWidth(e.width).value ensures Takes(e, v) {
      SmallMod(v, Pow2(e.width));
      assert Eval(e, Env(_ => 0, _ => v, (_, _) => 0)) == v;
    }
  }

  lemma CastExactly(c: Context, e: Expr, depth: nat)
    requires WellTyped(e) && e.Cast? && depth <= MAX_DEPTH - 1 && ListsExactly(c, e.arg, depth + 1)
    ensures ListsExactly(c, e, depth)
  {
    hide Pow2, Bitwise, CastValue, Eval;
    var inner := Exact(c, e.arg, depth + 1).value;
    CastImageSmall(e.cast, inner, e.arg.Width(), e.width);
    forall v | v in Exact(c, e, depth).value ensures Takes(e, v) {
      var x :| x in inner && v == CastValue(e.cast, x, e.arg.Width(), e.width);
      assert Takes(e.arg, x);
      var env: Env :| Eval(e.arg, env) == x;
      CastIsValue(e.cast, e.width, e.arg, env);
    }
    forall env: Env ensures Eval(e, env) in Exact(c, e, depth).value {
      CastIsValue(e.cast, e.width, e.arg, env);
    }
  }

  lemma ShiftExactly(c: Context, e: Expr, depth: nat)
    requires WellTyped(e) && e.Bin? && e.op.ShrU? && e.right.Const? && depth <= MAX_DEPTH - 1
    requires ListsExactly(c, e.left, depth + 1)
    ensures ListsExactly(c, e, depth)
  {
    hide Pow2, Bitwise, ShiftedValue, Eval;
    var inner := Exact(c, e.left, depth + 1).value;
    ShiftImageSmall(inner, e.width, e.right.value);
    assert Freedom(e) == Freedom(e.left);
    assert |Exact(c, e, depth).value| <= Pow2(Freedom(e)) by {
      if e.right.value < e.width {
        assert Exact(c, e, depth).value == set x | x in inner :: ShiftedValue(x, e.right.value, e.width);
      } else {
        assert Exact(c, e, depth).value == {0};
      }
    }
    var any: Env :| true;
    ShiftIsValue(e, any);
    forall v | v in Exact(c, e, depth).value ensures Takes(e, v) {
      if e.right.value < e.width {
        var x :| x in inner && v == ShiftedValue(x, e.right.value, e.width);
        assert Takes(e.left, x);
        var env: Env :| Eval(e.left, env) == x;
        ShiftIsValue(e, env);
      } else {
        assert Eval(e, any) == v;
      }
    }
    forall env: Env ensures Eval(e, env) in Exact(c, e, depth).value {
      ShiftIsValue(e, env);
    }
  }

  lemma BinExactly(c: Context, e: Expr, depth: nat)
    requires WellTyped(e) && e.Bin? && !e.op.ShrU? && Plain(e) && Freedom(e) <= 6 && depth <= MAX_DEPTH - 1
    requires ListsExactly(c, e.left, depth + 1) && ListsExactly(c, e.right, depth + 1)
    ensures ListsExactly(c, e, depth)
  {
    hide Pow2, Bitwise, Eval, Exact, Cross, Takes, Plain, WellTyped;
    OperandsTyped(e);
    var ls, rs := Exact(c, e.left, depth + 1).value, Exact(c, e.right, depth + 1).value;
    PlainBin(c, e, depth);
    ProductSmall(|ls|, |rs|, Freedom(e.left), Freedom(e.right));
    CrossSmall(e.op, ls, rs, e.width);
    forall v | v in Exact(c, e, depth).value ensures Takes(e, v) {
      CrossTaken(e, ls, rs, v);
    }
    forall env: Env ensures Eval(e, env) in Exact(c, e, depth).value {
      CrossListed(e, ls, rs, env);
    }
  }

  lemma OperandsTyped(e: Expr)
    requires WellTyped(e) && e.Bin? && !e.op.ShrU? && Plain(e)
    ensures WellTyped(e.left) && WellTyped(e.right)
    ensures e.left.Width() == e.width == e.right.Width() && 1 <= e.width <= WORD
    ensures Plain(e.left) && Plain(e.right) && Registers(e.left) !! Registers(e.right)
  {
    hide Pow2;
  }

  /** Operands that share no register take any two of their values together. */
  lemma CrossTaken(e: Expr, ls: set<nat>, rs: set<nat>, v: nat)
    requires WellTyped(e) && e.Bin? && !e.op.ShrU? && Plain(e) && v in Cross(e.op, ls, rs, e.width)
    requires WellTyped(e.left) && WellTyped(e.right)
    requires (forall x | x in ls :: Takes(e.left, x)) && (forall y | y in rs :: Takes(e.right, y))
    ensures Takes(e, v)
  {
    hide Pow2, Bitwise, Eval, Combine, Apply, WellTyped, Plain;
    OperandsTyped(e);
    var x, y :| x in ls && y in rs && v == Combine(e.op, x, y, e.width);
    assert Takes(e.left, x) && Takes(e.right, y);
    var a: Env :| Eval(e.left, a) == x;
    var b: Env :| Eval(e.right, b) == y;
    var env := Joined(e.left, a, b);
    SameRegisters(e.left, env, a);
    SameRegisters(e.right, env, b);
    CombineIsApply(e.op, x, y, e.width);
    BinIsApply(e, env);
  }

  lemma BinIsApply(e: Expr, env: Env)
    requires WellTyped(e) && e.Bin?
    ensures WellTyped(e.left) && WellTyped(e.right)
    ensures Eval(e, env) == Apply(e.op, Eval(e.left, env), Eval(e.right, env), e.width)
  {
    hide Pow2, Bitwise, Apply;
  }

  lemma SelectExactly(c: Context, e: Expr, depth: nat)
    requires WellTyped(e) && e.Select? && Plain(e) && Freedom(e) <= 6 && depth <= MAX_DEPTH - 1
    requires ListsExactly(c, e.onTrue, depth + 1) && ListsExactly(c, e.onFalse, depth + 1)
    ensures ListsExactly(c, e, depth)
  {
    hide Pow2, Bitwise, Eval, Takes, Exact, WellTyped, Plain;
    SelectParts(c, e, depth);
    var ts, fs := Exact(c, e.onTrue, depth + 1).value, Exact(c, e.onFalse, depth + 1).value;
    ProductSmall(|ts|, |fs|, Freedom(e.onTrue), Freedom(e.onFalse));
    Pow2Monotone(Freedom(e.onTrue) + Freedom(e.onFalse) + 1, 6);
    PowSix(0);
    assert |ts + fs| <= |ts| + |fs|;
    forall v | v in Exact(c, e, depth).value ensures Takes(e, v) {
      var onTrue := v in ts;
      ArmTaken(e, onTrue, v);
    }
    forall env: Env ensures Eval(e, env) in Exact(c, e, depth).value {
      SelectValue(e, env);
    }
  }

  lemma SelectParts(c: Context, e: Expr, depth: nat)
    requires WellTyped(e) && e.Select? && Plain(e) && depth <= MAX_DEPTH - 1
    ensures WellTyped(e.cond) && WellTyped(e.onTrue) && WellTyped(e.onFalse)
    ensures Freedom(e) == 1 + Freedom(e.onTrue) + Freedom(e.onFalse)
    ensures var t, f := Exact(c, e.onTrue, depth + 1), Exact(c, e.onFalse, depth + 1);
            t.Some? && f.Some? ==> Exact(c, e, depth) == Capped(t.value + f.value)
  {
    hide Pow2;
    assert Exact(c, e, depth) == ExactSelect(c, e, depth);
  }

  lemma SelectValue(e: Expr, env: Env)
    requires WellTyped(e) && e.Select?
    ensures WellTyped(e.cond) && WellTyped(e.onTrue) && WellTyped(e.onFalse)
    ensures Eval(e, env) == if Eval(e.cond, env) != 0 then Eval(e.onTrue, env) else Eval(e.onFalse, env)
  {
    hide Pow2;
  }

  /** The register a select is on leaves its arms free. */
  lemma ArmTaken(e: Expr, onTrue: bool, v: nat)
    requires WellTyped(e) && e.Select? && Plain(e) && WellTyped(if onTrue then e.onTrue else e.onFalse)
    requires Takes(if onTrue then e.onTrue else e.onFalse, v)
    ensures Takes(e, v)
  {
    hide Pow2, Bitwise, Eval;
    var arm := if onTrue then e.onTrue else e.onFalse;
    var a: Env :| Eval(arm, a) == v;
    var reg := e.cond.reg;
    var env := Env(a.value, (r: nat) => if r == reg then (if onTrue then 1 else 0) else a.reg(r), a.other);
    SameRegisters(arm, env, a);
    OneBitRegister(e.cond, env);
    SelectValue(e, env);
    assert Eval(e, env) == v;
  }

  lemma OneBitRegister(e: Expr, env: Env)
    requires WellTyped(e) && e.EntryReg? && e.width == 1 && env.reg(e.reg) <= 1
    ensures Eval(e, env) == env.reg(e.reg)
  {
    assert Pow2(1) == 2;
  }

  // ----- what is not looked into

  /** The answer lists every value of `w` bits, if those are no more than 64, and else there is none. */
  ghost predicate ListsWidth(c: Context, e: Expr, depth: nat, w: nat)
    requires depth <= MAX_DEPTH
  {
    && (Exact(c, e, depth).Some? <==> w <= 6)
    && (w <= 6 ==> forall v: nat :: v in Exact(c, e, depth).value <==> v < Pow2(w))
  }

  lemma WidthListedExactly(w: nat)
    requires 1 <= w <= WORD
    ensures ValuesOfWidth(w).Some? <==> w <= 6
    ensures w <= 6 ==> forall v: nat :: v in ValuesOfWidth(w).value <==> v < Pow2(w)
  {
    hide Pow2, UpTo;
    PowSix(6);
    if w <= 6 { NarrowListed(w); } else { Pow2Monotone(7, w); }
  }

  /** A register, a value no phi defines, and any operation not looked into can be anything of its width. */
  lemma OpaqueListed(c: Context, e: Expr, depth: nat)
    requires WellTyped(e) && depth <= MAX_DEPTH
    requires e.EntryReg? || e.Not? || e.Cmp? || e.Other? || (e.Value? && e.id in c.defined && e.id !in c.phis)
    ensures ListsWidth(c, e, depth, e.Width())
  {
    hide Pow2, ValuesOfWidth;
    WidthListedExactly(e.Width());
  }

  /** What a truncation or a shift right leaves of an operand without an answer can be anything that fits. */
  lemma RemainderListed(c: Context, e: Expr, depth: nat)
    requires WellTyped(e) && depth <= MAX_DEPTH
    requires (e.Cast? && e.cast.Trunc? && Exact(c, e.arg, depth + 1).None?)
             || (e.Bin? && e.op.ShrU? && e.right.Const? && e.right.value < e.width && Exact(c, e.left, depth + 1).None?)
    ensures ListsWidth(c, e, depth, if e.Cast? then e.width else e.width - e.right.value)
  {
    hide Pow2, ValuesOfWidth;
    WidthListedExactly(if e.Cast? then e.width else e.width - e.right.value);
  }

  /** And of a register it can: nothing listed is in vain. */
  lemma RemainderTaken(w: nat, reg: nat, n: nat, v: nat)
    requires 1 <= n <= w <= WORD && v < Pow2(n) && w - n < Pow2(w)
    ensures WellTyped(Cast(Trunc, n, EntryReg(w, reg))) && Takes(Cast(Trunc, n, EntryReg(w, reg)), v)
    ensures var e := Bin(ShrU, w, EntryReg(w, reg), Const(w, w - n)); WellTyped(e) && Takes(e, v)
  {
    hide Pow2, Bitwise;
    TruncTaken(w, reg, n, v);
    ShiftTaken(w, reg, n, v);
  }

  lemma TruncTaken(w: nat, reg: nat, n: nat, v: nat)
    requires 1 <= n <= w <= WORD && v < Pow2(n)
    ensures WellTyped(Cast(Trunc, n, EntryReg(w, reg))) && Takes(Cast(Trunc, n, EntryReg(w, reg)), v)
  {
    hide Pow2, Bitwise;
    Pow2Monotone(n, w);
    SmallMod(v, Pow2(w));
    SmallMod(v, Pow2(n));
    assert Eval(Cast(Trunc, n, EntryReg(w, reg)), Env(_ => 0, _ => v, (_, _) => 0)) == v;
  }

  lemma ShiftTaken(w: nat, reg: nat, n: nat, v: nat)
    requires 1 <= n <= w <= WORD && v < Pow2(n) && w - n < Pow2(w)
    ensures var e := Bin(ShrU, w, EntryReg(w, reg), Const(w, w - n)); WellTyped(e) && Takes(e, v)
  {
    hide Pow2, Bitwise, Eval, ShiftedValue, WellTyped;
    var e, x := Bin(ShrU, w, EntryReg(w, reg), Const(w, w - n)), v * Pow2(w - n);
    ShiftBack(v, n, w);
    RegisterValue(w, reg, x);
    ShiftTyped(w, reg, w - n);
    ShiftIsValue(e, Env(_ => 0, _ => x, (_, _) => 0));
  }

  lemma ShiftTyped(w: nat, reg: nat, k: nat)
    requires 1 <= w <= WORD && k < Pow2(w)
    ensures WellTyped(Bin(ShrU, w, EntryReg(w, reg), Const(w, k)))
  {
    hide Pow2;
  }

  lemma RegisterValue(w: nat, reg: nat, x: nat)
    requires 1 <= w <= WORD && x < Pow2(w)
    ensures WellTyped(EntryReg(w, reg)) && Eval(EntryReg(w, reg), Env(_ => 0, _ => x, (_, _) => 0)) == x
  {
    hide Pow2;
    SmallMod(x, Pow2(w));
  }

  lemma ShiftBack(v: nat, n: nat, w: nat)
    requires n <= w && v < Pow2(n)
    ensures v * Pow2(w - n) < Pow2(w) && ShiftedValue(v * Pow2(w - n), w - n, w) == v
  {
    hide Pow2;
    var p := Pow2(w - n);
    Pow2Add(n, w - n);
    TimesMonotone(v + 1, Pow2(n), p);
    assert (v + 1) * p == v * p + p;
    SmallMod(v * p, Pow2(w));
    ModUnique(v * p, p, v, 0);
  }

  // ----- phis, chains and offset arms

  /** Some arm of the first `n` lists the value. */
  ghost predicate ArmLists(c: Context, arms: seq<Expr>, depth: nat, v: nat)
    requires depth <= MAX_DEPTH
  {
    exists a :: a in arms && Exact(c, a, depth + 1).Some? && v in Exact(c, a, depth + 1).value
  }

  /** A phi's arms together list what each lists, and there is an answer exactly when each has one and they
      are no more than 64 values in all. */
  lemma {:induction false} UnionExactly(c: Context, arms: seq<Expr>, out: set<nat>, depth: nat, all: set<nat>)
    requires depth <= MAX_DEPTH && |out| <= 64
    requires forall v :: v in all <==> v in out || ArmLists(c, arms, depth, v)
    ensures UnionArms(c, arms, out, depth)
            == if |all| <= 64 && forall a | a in arms :: Exact(c, a, depth + 1).Some? then Some(all) else None
    decreases |arms|
  {
    hide Exact;
    if arms == [] {
      assert all == out;
    } else if Exact(c, arms[0], depth + 1).Some? {
      var values := Exact(c, arms[0], depth + 1).value;
      assert arms == [arms[0]] + arms[1..];
      assert forall a :: a in arms <==> a == arms[0] || a in arms[1..];
      forall v ensures v in all <==> v in out + values || ArmLists(c, arms[1..], depth, v) {
        if ArmLists(c, arms, depth, v) {
          var a :| a in arms && Exact(c, a, depth + 1).Some? && v in Exact(c, a, depth + 1).value;
          assert a == arms[0] || a in arms[1..];
        }
        if ArmLists(c, arms[1..], depth, v) {
          var a :| a in arms[1..] && Exact(c, a, depth + 1).Some? && v in Exact(c, a, depth + 1).value;
          assert a in arms;
        }
        if v in values { assert arms[0] in arms; }
      }
      assert out + values <= all;
      SubsetSmall(out + values, all);
      if |out + values| <= 64 {
        UnionExactly(c, arms[1..], out + values, depth, all);
      }
    } else {
      assert arms[0] in arms;
    }
  }

  lemma SubsetSmall(a: set<nat>, b: set<nat>)
    requires a <= b
    ensures |a| <= |b|
  {
    assert b == a + (b - a);
  }

  /** Three ORed terms, the outer two a complementary pair: the pair is resolved jointly across the nest, and
      what is listed is each of its two results with each value of the term between. */
  lemma ChainExactly(c: Context, l: Expr, m: Expr, r: Expr, w: nat, depth: nat)
    requires depth <= MAX_DEPTH && Complementary(l, r) && !Complementary(l, m) && 1 <= w <= WORD
    requires !(m.Bin? && m.op.BitOr?) && Exact(c, m, depth + 1).Some? && |Exact(c, m, depth + 1).value| <= 32
    ensures var e := Bin(BitOr, w, l, Bin(BitOr, w, m, r));
            var pair := JoinPair(BitOr, MatchBitFactor(l).value, MatchBitFactor(r).value, w);
            && Exact(c, e, depth).Some?
            && forall v :: v in Exact(c, e, depth).value <==>
                 exists x, y :: x in pair && y in Exact(c, m, depth + 1).value && v == Combine(BitOr, x, y, w)
  {
    hide Complementary, MatchBitFactor, Combine, JoinPair, Exact, FoldGroups;
    var f, h := MatchBitFactor(l), MatchBitFactor(r);
    MatchedSides(l, r);
    var e := Bin(BitOr, w, l, Bin(BitOr, w, m, r));
    var pair := JoinPair(BitOr, f.value, h.value, w);
    var values := Exact(c, m, depth + 1).value;
    ChainLeaves(l, m, r, w);
    ChainOfThree(c, l, m, r, w, depth);
    PairOfTwo(f.value, h.value, w);
    FoldTwo(pair, values, w);
    ChainFirst(c, e, depth);
  }

  lemma MatchedSides(l: Expr, r: Expr)
    requires Complementary(l, r)
    ensures MatchBitFactor(l).Some? && MatchBitFactor(r).Some?
    ensures !(l.Bin? && l.op.BitOr?) && !(r.Bin? && r.op.BitOr?)
  {}

  lemma ChainLeaves(l: Expr, m: Expr, r: Expr, w: nat)
    requires !(l.Bin? && l.op.BitOr?) && !(m.Bin? && m.op.BitOr?) && !(r.Bin? && r.op.BitOr?)
    ensures OrLeaves(Bin(BitOr, w, l, Bin(BitOr, w, m, r))) == [l, m, r]
  {
    assert OrLeaves(l) == [l] && OrLeaves(m) == [m] && OrLeaves(r) == [r];
    assert OrLeaves(Bin(BitOr, w, m, r)) == [m, r];
  }

  lemma ChainOfThree(c: Context, l: Expr, m: Expr, r: Expr, w: nat, depth: nat)
    requires depth <= MAX_DEPTH && Complementary(l, r) && !Complementary(l, m) && Exact(c, m, depth + 1).Some?
    ensures MatchBitFactor(l).Some? && MatchBitFactor(r).Some?
    ensures var pair := JoinPair(BitOr, MatchBitFactor(l).value, MatchBitFactor(r).value, w);
            ChainGroups(c, [l, m, r], w, depth) == Some(Groups([pair, Exact(c, m, depth + 1).value], true))
  {
    hide MatchBitFactor, JoinPair, Exact;
    MatchedSides(l, r);
    assert [l, m, r][1..] == [m, r] && [m, r][1..] == [r];
    assert Partner(l, [r]) == Some(0);
    assert Partner(l, [m, r]) == Some(1);
    assert Without([m, r], 1) == [m];
    assert [m][1..] == [];
    assert Partner(m, []) == None;
    assert ChainGroups(c, [], w, depth) == Some(Groups([], false));
    var values := Exact(c, m, depth + 1).value;
    assert [values] + [] == [values];
    assert ChainGroups(c, [m], w, depth) == Some(Groups([values], false));
    var pair := JoinPair(BitOr, MatchBitFactor(l).value, MatchBitFactor(r).value, w);
    assert [pair] + [values] == [pair, values];
    assert MatchBitFactor([m, r][1]) == MatchBitFactor(r);
  }

  lemma PairOfTwo(f: BitFactor, h: BitFactor, w: nat)
    ensures 1 <= |JoinPair(BitOr, f, h, w)| <= 2
    ensures forall x | x in JoinPair(BitOr, f, h, w) :: x < Pow2(w)
  {
    hide Pow2, Bitwise;
    var s := JoinPair(BitOr, f, h, w);
    var x := Combine(BitOr, Side(f, false), Side(h, false), w);
    var y := Combine(BitOr, Side(f, true), Side(h, true), w);
    assert s == {x} + {y};
  }

  /** Folding a pair and another group into nothing yet is taking one of each. */
  lemma FoldTwo(pair: set<nat>, values: set<nat>, w: nat)
    requires 1 <= w <= WORD && 1 <= |pair| <= 2 && |values| <= 32 && forall x | x in pair :: x < Pow2(w)
    ensures FoldGroups({0}, [pair, values], w) == Some(Cross(BitOr, pair, values, w))
  {
    hide Pow2, Combine, Bitwise, Cross;
    NothingWith(pair, w);
    CrossSmall(BitOr, pair, values, w);
    TimesMonotone(|pair|, 2, |values|);
    assert [pair, values][1..] == [values] && [values][1..] == [];
    assert |{0 as nat}| == 1;
    assert FoldGroups(Cross(BitOr, pair, values, w), [], w) == Some(Cross(BitOr, pair, values, w));
    assert FoldGroups(pair, [values], w) == Some(Cross(BitOr, pair, values, w));
  }

  lemma NothingWith(pair: set<nat>, w: nat)
    requires forall x | x in pair :: x < Pow2(w)
    ensures Cross(BitOr, {0}, pair, w) == pair
  {
    hide Pow2, Bitwise;
    forall x | x in pair ensures Combine(BitOr, 0, x, w) == x {
      OrZero(x);
      SmallMod(x, Pow2(w));
    }
  }

  /** A chain that is answered as one is the answer. */
  lemma ChainFirst(c: Context, e: Expr, depth: nat)
    requires e.Bin? && e.op.BitOr? && depth <= MAX_DEPTH && |OrLeaves(e)| > 2
    requires ChainGroups(c, OrLeaves(e), e.width, depth).Some?
    requires ChainGroups(c, OrLeaves(e), e.width, depth).value.anyPair
    requires FoldGroups({0}, ChainGroups(c, OrLeaves(e), e.width, depth).value.sets, e.width).Some?
    ensures Exact(c, e, depth) == FoldGroups({0}, ChainGroups(c, OrLeaves(e), e.width, depth).value.sets, e.width)
  {
    hide ChainGroups, FoldGroups, OrLeaves, Complementary, JoinPair, MatchBitFactor, Cross;
    assert Exact(c, e, depth) == ExactBin(c, e, depth);
  }

  /** An arm that is the other one plus or minus a literal adds that to each of the other's values. */
  lemma ShiftedArmExactly(known: Expr, values: set<nat>, op: BinOp, left: Expr, k: nat, w: nat)
    requires op.Add? || op.Sub?
    requires SameValue(left, known) && 1 <= w <= WORD && k < Pow2(w) && |values| <= 32
    requires forall x | x in values :: x < Pow2(w)
    ensures ShiftedArm(known, values, Bin(op, w, left, Const(w, k)), w).Some?
    ensures forall v :: v in ShiftedArm(known, values, Bin(op, w, left, Const(w, k)), w).value <==>
              v in values || exists x :: x in values && v == Apply(op, x, k, w)
  {
    hide Pow2, Bitwise, Combine, Apply, SameValue;
    forall x | x in values ensures Combine(op, x, k, w) == Apply(op, x, k, w) {
      CombineIsApply(op, x, k, w);
    }
    var shifted := set x | x in values :: Combine(op, x, k, w);
    OffsetsSmall(op, values, k, w);
    assert |values + shifted| <= |values| + |shifted|;
  }

  lemma {:induction false} OffsetsSmall(op: BinOp, values: set<nat>, k: nat, w: nat)
    ensures |set x | x in values :: Combine(op, x, k, w)| <= |values|
    decreases |values|
  {
    hide Combine;
    if values != {} {
      var x :| x in values;
      OffsetsSmall(op, values - {x}, k, w);
      var rest := set y | y in values - {x} :: Combine(op, y, k, w);
      assert (set y | y in values :: Combine(op, y, k, w)) == rest + {Combine(op, x, k, w)};
    }
  }
}
