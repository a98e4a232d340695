/** The scalar integer fragment of the value expressions, and what they denote. */
module Expressions {
  import opened Bits

  datatype CastOp = ZExt | SExt | Trunc

  datatype BinOp = Add | Sub | Mul | BitAnd | BitOr | BitXor | Shl | ShrU

  datatype CmpOp = Eq | Ne | LtU | LeU | LtS | LeS

  /** Structurally equal expressions are the same node, as interning makes them. `Other` stands for
      every pure operation the analyses here do not look into. */
  datatype Expr =
    | Const(width: nat, value: nat)
    | Value(width: nat, id: nat)
    | EntryReg(width: nat, reg: nat)
    | Cast(cast: CastOp, width: nat, arg: Expr)
    | Not(width: nat, arg: Expr)
    | Bin(op: BinOp, width: nat, left: Expr, right: Expr)
    | Cmp(cmp: CmpOp, left: Expr, right: Expr)
    | Select(width: nat, cond: Expr, onTrue: Expr, onFalse: Expr)
    | Other(width: nat, id: nat, args: seq<Expr>)
  {
    function Width(): nat {
      if Cmp? then 1 else width
    }
  }

  /** The typing rules of the verifier, on widths of 1 to 64 bits. */
  predicate WellTyped(e: Expr) {
    && 1 <= e.Width() <= WORD
    && match e
       case Const(w, v) => v < Pow2(w)
       case Value(_, _) => true
       case EntryReg(_, _) => true
       case Cast(c, w, a) => WellTyped(a) && (if c.Trunc? then w <= a.Width() else a.Width() <= w)
       case Not(w, a) => WellTyped(a) && a.Width() == w
       case Bin(_, w, l, r) => WellTyped(l) && WellTyped(r) && l.Width() == w && r.Width() == w
       case Cmp(_, l, r) => WellTyped(l) && WellTyped(r) && l.Width() == r.Width()
       case Select(w, c, t, f) => WellTyped(c) && c.Width() == 1 && WellTyped(t) && WellTyped(f) && t.Width() == w
         && f.Width() == w
       case Other(_, _, args) => forall a | a in args :: WellTyped(a)
  }

  /** What the leaves hold at some moment of a run. */
  datatype Env = Env(value: nat -> nat, reg: nat -> nat, other: (nat, seq<nat>) -> nat)

  function ToSigned(x: nat, w: nat): int
    requires w > 0
  {
    if x < Pow2(w - 1) then x else x - Pow2(w)
  }

  function Compare(op: CmpOp, a: nat, b: nat, w: nat): bool
    requires w > 0
  {
    match op
    case Eq => a == b
    case Ne => a != b
    case LtU => a < b
    case LeU => a <= b
    case LtS => ToSigned(a, w) < ToSigned(b, w)
    case LeS => ToSigned(a, w) <= ToSigned(b, w)
  }

  function Apply(op: BinOp, a: nat, b: nat, w: nat): (r: nat) {
    match op
    case Add => (a + b) % Pow2(w)
    case Sub => (a - b) % Pow2(w)
    case Mul => (a * b) % Pow2(w)
    case BitAnd => Bitwise(And, a, b) % Pow2(w)
    case BitOr => Bitwise(Or, a, b) % Pow2(w)
    case BitXor => Bitwise(Xor, a, b) % Pow2(w)
    case Shl => if b >= w then 0 else (a * Pow2(b)) % Pow2(w)
    case ShrU => if b >= w then 0 else Quotient(a, Pow2(b))
  }

  /** The value of an expression: a natural below two to its width. */
  function Eval(e: Expr, env: Env): (r: nat)
    requires WellTyped(e)
    ensures r < Pow2(e.Width())
  {
    match e
    case Const(w, v) => v
    case Value(w, id) => env.value(id) % Pow2(w)
    case EntryReg(w, reg) => env.reg(reg) % Pow2(w)
    case Cast(c, w, a) =>
      var x := Eval(a, env);
      (match c
       case ZExt => Pow2Monotone(a.Width(), w); x
       case SExt => ToSigned(x, a.Width()) % Pow2(w)
       case Trunc => x % Pow2(w))
    case Not(w, a) => Pow2(w) - 1 - Eval(a, env)
    case Bin(op, w, l, r) => ApplyWithin(op, Eval(l, env), Eval(r, env), w); Apply(op, Eval(l, env), Eval(r, env), w)
    case Cmp(op, l, r) => if Compare(op, Eval(l, env), Eval(r, env), l.Width()) then 1 else 0
    case Select(w, c, t, f) => if Eval(c, env) != 0 then Eval(t, env) else Eval(f, env)
    case Other(w, id, args) =>
      env.other(id, seq(|args|, i requires 0 <= i < |args| => Eval(args[i], env))) % Pow2(w)
  }

  lemma ApplyWithin(op: BinOp, a: nat, b: nat, w: nat)
    requires a < Pow2(w)
    ensures Apply(op, a, b, w) < Pow2(w)
  {
    if op.ShrU? && b < w {
      ShiftBelow(a, Pow2(b));
    }
  }

  lemma ShiftBelow(a: nat, d: nat)
    requires d >= 1
    ensures a / d <= a
  {
    assert a == (a / d) * d + a % d;
    if a / d >= 1 {
      assert (a / d) * d >= a / d by { AtLeastTimes(a / d, d); }
    }
  }

  lemma AtLeastTimes(q: nat, d: nat)
    requires d >= 1
    ensures q * d >= q
  {
    assert q * d == q * (d - 1) + q;
  }

  /** The value under the zero-extensions. */
  function StripWidening(e: Expr): Expr {
    if e.Cast? && e.cast.ZExt? then StripWidening(e.arg) else e
  }

  predicate SameValue(a: Expr, b: Expr) {
    var x, y := StripWidening(a), StripWidening(b);
    x == y || (x.Value? && y.Value? && x.id == y.id)
  }

  lemma {:induction false} StripKeepsValue(e: Expr, env: Env)
    requires WellTyped(e)
    ensures WellTyped(StripWidening(e)) && Eval(StripWidening(e), env) == Eval(e, env)
  {
    if e.Cast? && e.cast.ZExt? {
      StripKeepsValue(e.arg, env);
    }
  }

  /** One value has one width wherever it is referred to. */
  predicate ValueWidths(e: Expr, widths: nat -> nat) {
    match e
    case Const(_, _) => true
    case Value(w, id) => w == widths(id)
    case EntryReg(_, _) => true
    case Cast(_, _, a) => ValueWidths(a, widths)
    case Not(_, a) => ValueWidths(a, widths)
    case Bin(_, _, l, r) => ValueWidths(l, widths) && ValueWidths(r, widths)
    case Cmp(_, l, r) => ValueWidths(l, widths) && ValueWidths(r, widths)
    case Select(_, c, t, f) => ValueWidths(c, widths) && ValueWidths(t, widths) && ValueWidths(f, widths)
    case Other(_, _, args) => forall a | a in args :: ValueWidths(a, widths)
  }

  lemma {:induction false} StripKeepsWidths(e: Expr, widths: nat -> nat)
    requires ValueWidths(e, widths)
    ensures ValueWidths(StripWidening(e), widths)
  {
    if e.Cast? && e.cast.ZExt? {
      StripKeepsWidths(e.arg, widths);
    }
  }

  lemma SameValueIsEqual(a: Expr, b: Expr, env: Env, widths: nat -> nat)
    requires WellTyped(a) && WellTyped(b) && ValueWidths(a, widths) && ValueWidths(b, widths) && SameValue(a, b)
    ensures Eval(a, env) == Eval(b, env)
  {
    StripKeepsValue(a, env);
    StripKeepsValue(b, env);
    StripKeepsWidths(a, widths);
    StripKeepsWidths(b, widths);
  }
}
