/** One side of an operation reduced to a multiple of a single bit, and pairs of sides that read the
    same bit in opposite senses. */
module BitFactors {
  import opened Bits
  import opened Expressions
  import opened Basics

  datatype Question = SignBit(key: Expr, shift: nat) | Comparison(left: Expr, right: Expr)

  datatype BitFactor = BitFactor(question: Question, complemented: bool, multiplier: nat)

  /** The comparison under a chain of complements, and whether the chain flips it. */
  function Uncomplement(e: Expr): (Expr, bool) {
    if e.Not? then
      var (inner, negated) := Uncomplement(e.arg);
      (inner, !negated)
    else (e, false)
  }

  function Scaled(f: Option<BitFactor>, literal: nat): Option<BitFactor> {
    if f.None? then None else Some(f.value.(multiplier := (f.value.multiplier * literal) % WORD_SIZE))
  }

  function MatchBitFactor(e: Expr): Option<BitFactor> {
    if e.Bin? && e.op.Mul? then
      if e.right.Const? then Scaled(MatchBitFactor(e.left), e.right.value)
      else if e.left.Const? then Scaled(MatchBitFactor(e.right), e.left.value)
      else None
    else if e.Bin? && e.op.Shl? then
      if !e.right.Const? || e.right.value >= WORD then None
      else Scaled(MatchBitFactor(e.left), Pow2(e.right.value))
    else if e.Bin? && e.op.ShrU? then
      if !e.right.Const? then None
      else if e.left.Not? then Some(BitFactor(SignBit(e.left.arg, e.right.value), true, 1))
      else Some(BitFactor(SignBit(e.left, e.right.value), false, 1))
    else if e.Cast? && !e.cast.Trunc? && e.arg.Width() == 1 then
      MatchBitFactor(e.arg)
    else
      var (inner, negated) := Uncomplement(e);
      if inner.Cmp? && (inner.cmp.Eq? || inner.cmp.Ne?) then
        Some(BitFactor(Comparison(inner.left, inner.right), inner.cmp.Ne? != negated, 1))
      else None
  }

  /** Two sides that read the same bit in opposite senses. */
  predicate Complementary(l: Expr, r: Expr) {
    var f, h := MatchBitFactor(l), MatchBitFactor(r);
    f.Some? && h.Some? && f.value.question == h.value.question && f.value.complemented != h.value.complemented
  }

  /** The shapes for which a matched side really is a multiple of one bit: a shift leaves exactly the
      top bit, a one-bit value is not sign-extended, and a one-bit value is not shifted out. */
  predicate FactorTrusted(e: Expr) {
    if e.Bin? && e.op.Mul? then
      (if e.right.Const? then FactorTrusted(e.left) else FactorTrusted(e.right))
    else if e.Bin? && e.op.Shl? then
      (e.width == 1 ==> e.right.Const? && e.right.value == 0) && FactorTrusted(e.left)
    else if e.Bin? && e.op.ShrU? then
      e.right.Const? && e.right.value == e.width - 1
    else if e.Cast? then !e.cast.SExt? && FactorTrusted(e.arg)
    else true
  }

  /** The bit a question asks about. */
  ghost function AskedBit(q: Question, env: Env): bool
    requires QuestionTyped(q)
  {
    match q
    case SignBit(key, shift) => Eval(key, env) / Pow2(shift) == 1
    case Comparison(l, r) => Eval(l, env) == Eval(r, env)
  }

  ghost predicate QuestionTyped(q: Question) {
    match q
    case SignBit(key, shift) => WellTyped(key)
    case Comparison(l, r) => WellTyped(l) && WellTyped(r)
  }

  function Side(f: BitFactor, bit: bool): nat {
    if bit != f.complemented then f.multiplier else 0
  }

  lemma {:induction false} UncomplementValue(e: Expr, env: Env)
    requires WellTyped(e) && e.Width() == 1
    ensures var (inner, negated) := Uncomplement(e);
            WellTyped(inner) && inner.Width() == 1 && Eval(e, env) == if negated then 1 - Eval(inner, env)
              else Eval(inner, env)
  {
    assert Pow2(1) == 2;
    if e.Not? {
      UncomplementValue(e.arg, env);
    }
  }

  lemma {:induction false} ComparisonIsOneBit(e: Expr)
    requires WellTyped(e) && Uncomplement(e).0.Cmp?
    ensures e.Width() == 1
  {
    if e.Not? {
      ComparisonIsOneBit(e.arg);
    }
  }

  /** The top bit of a value, as a shift. */
  lemma TopBit(x: nat, w: nat)
    requires w > 0 && x < Pow2(w)
    ensures x / Pow2(w - 1) == if x >= Pow2(w - 1) then 1 else 0
  {
    var p := Pow2(w - 1);
    if x >= p {
      ModUnique(x, p, 1, x - p);
    } else {
      ModUnique(x, p, 0, x);
    }
  }

  /** The complement's top bit is the opposite one. */
  lemma ComplementTopBit(x: nat, w: nat)
    requires w > 0 && x < Pow2(w)
    ensures (Pow2(w) - 1 - x) / Pow2(w - 1) == 1 - x / Pow2(w - 1)
  {
    TopBit(x, w);
    TopBit(Pow2(w) - 1 - x, w);
  }

  lemma WordMod(x: int, w: nat)
    requires w <= WORD
    ensures (x % WORD_SIZE) % Pow2(w) == x % Pow2(w)
  {
    hide Pow2;
    Pow2Add(w, WORD - w);
    var q := x / WORD_SIZE;
    assert x == q * WORD_SIZE + x % WORD_SIZE;
    Regroup(q, Pow2(w), Pow2(WORD - w));
    ModAddMultiple(x % WORD_SIZE, Pow2(w), q * Pow2(WORD - w));
  }

  lemma Regroup(q: int, a: nat, b: nat)
    ensures q * (a * b) == (q * b) * a
  {}

  lemma ModTimes(a: int, b: int, m: nat)
    requires m > 0
    ensures ((a % m) * b) % m == (a * b) % m
  {
    var q := a / m;
    assert a == q * m + a % m;
    assert a * b == (a % m) * b + (q * b) * m by { Expand(q, m, a % m, b); }
    ModAddMultiple((a % m) * b, m, q * b);
  }

  lemma Expand(q: int, m: int, r: int, b: int)
    ensures (q * m + r) * b == r * b + (q * b) * m
  {}

  /** A matched side is its multiplier times the bit it reads, within its width. */
  lemma {:induction false} FactorValue(e: Expr, env: Env)
    requires WellTyped(e) && MatchBitFactor(e).Some? && FactorTrusted(e)
    ensures var f := MatchBitFactor(e).value;
            && QuestionTyped(f.question)
            && Eval(e, env) == Side(f, AskedBit(f.question, env)) % Pow2(e.Width())
            && (e.Width() == 1 ==> f.multiplier <= 1)
    decreases e, 0
  {
    hide AskedBit, Bitwise;
    if e.Bin? && e.op.Mul? {
      if e.right.Const? {
        ScaledValue(e, e.left, e.right.value, env);
      } else {
        ScaledValue(e, e.right, e.left.value, env);
      }
    } else if e.Bin? && e.op.Shl? {
      ScaledValue(e, e.left, Pow2(e.right.value), env);
    } else if e.Bin? && e.op.ShrU? {
      SignBitValue(e, env);
    } else if e.Cast? {
      FactorValue(e.arg, env);
      WidenedValue(e, env);
    } else {
      ComparisonValue(e, env);
    }
  }

  lemma ComparisonValue(e: Expr, env: Env)
    requires WellTyped(e) && Uncomplement(e).0.Cmp? && (Uncomplement(e).0.cmp.Eq? || Uncomplement(e).0.cmp.Ne?)
    requires MatchBitFactor(e)
             == Some(BitFactor(Comparison(Uncomplement(e).0.left, Uncomplement(e).0.right),
               Uncomplement(e).0.cmp.Ne? != Uncomplement(e).1, 1))
    ensures var f := MatchBitFactor(e).value;
            && QuestionTyped(f.question)
            && Eval(e, env) == Side(f, AskedBit(f.question, env)) % Pow2(e.Width())
            && f.multiplier <= 1
  {
    hide Bitwise, MatchBitFactor;
    ComparisonIsOneBit(e);
    UncomplementValue(e, env);
    assert Pow2(1) == 2;
  }

  lemma SignBitValue(e: Expr, env: Env)
    requires WellTyped(e) && e.Bin? && e.op.ShrU? && MatchBitFactor(e).Some? && FactorTrusted(e)
    ensures var f := MatchBitFactor(e).value;
            && QuestionTyped(f.question)
            && Eval(e, env) == Side(f, AskedBit(f.question, env)) % Pow2(e.Width())
            && f.multiplier <= 1
  {
    hide Bitwise;
    var f := MatchBitFactor(e).value;
    var x := Eval(f.question.key, env);
    TopBit(x, e.width);
    ComplementTopBit(x, e.width);
    SmallMod(Side(f, AskedBit(f.question, env)), Pow2(e.width));
  }

  lemma WidenedValue(e: Expr, env: Env)
    requires WellTyped(e) && e.Cast? && e.cast.ZExt? && e.arg.Width() == 1 && MatchBitFactor(e.arg).Some?
    requires var f := MatchBitFactor(e.arg).value;
             QuestionTyped(f.question) && f.multiplier <= 1
               && Eval(e.arg, env) == Side(f, AskedBit(f.question, env)) % Pow2(1)
    ensures var f := MatchBitFactor(e).value;
            Eval(e, env) == Side(f, AskedBit(f.question, env)) % Pow2(e.Width())
  {
    var side := Side(MatchBitFactor(e).value, AskedBit(MatchBitFactor(e).value.question, env));
    assert Pow2(1) == 2;
    Pow2Monotone(1, e.width);
    SmallMod(side, Pow2(e.width));
    SmallMod(side, Pow2(1));
  }

  /** `e` is `inner` times `literal`, as a product or as a left shift. */
  ghost predicate Scales(e: Expr, inner: Expr, literal: nat) {
    && e.Bin?
    && (|| (e.op.Mul? && inner == e.left && e.right.Const? && e.right.value == literal)
        || (e.op.Mul? && inner == e.right && e.left.Const? && e.left.value == literal)
        || (e.op.Shl? && inner == e.left && e.right.Const? && literal == Pow2(e.right.value)
             && (e.width == 1 ==> e.right.value == 0)))
  }

  /** Multiplying by a literal multiplies the factor. */
  lemma ScaledValue(e: Expr, inner: Expr, literal: nat, env: Env)
    requires WellTyped(e) && inner < e && Scales(e, inner, literal)
    requires FactorTrusted(inner) && MatchBitFactor(inner).Some?
             && MatchBitFactor(e) == Scaled(MatchBitFactor(inner), literal)
    ensures var f := MatchBitFactor(e).value;
            && QuestionTyped(f.question)
            && Eval(e, env) == Side(f, AskedBit(f.question, env)) % Pow2(e.Width())
            && (e.Width() == 1 ==> f.multiplier <= 1)
    decreases inner, 1
  {
    hide Bitwise, Pow2, Apply, AskedBit, MatchBitFactor, FactorTrusted, WellTyped, Eval, Scales;
    ScaledEval(e, inner, literal, env);
    FactorValue(inner, env);
    var h := MatchBitFactor(inner).value;
    var bit := AskedBit(h.question, env);
    ScaledSide(bit != h.complemented, Eval(inner, env), Eval(e, env), h.multiplier, literal, e.Width());
    if e.Width() == 1 {
      OneBitScale(e, h.multiplier, literal);
    }
  }

  lemma ScaledSide(on: bool, x: nat, y: nat, multiplier: nat, literal: nat, w: nat)
    requires w <= WORD && x == (if on then multiplier else 0) % Pow2(w) && y == (x * literal) % Pow2(w)
    ensures y == (if on then (multiplier * literal) % WORD_SIZE else 0) % Pow2(w)
  {
    hide Pow2;
    if on {
      ModTimes(multiplier, literal, Pow2(w));
      WordMod(multiplier * literal, w);
    } else {
      SmallMod(0, Pow2(w));
    }
  }

  lemma OneBitScale(e: Expr, multiplier: nat, literal: nat)
    requires multiplier <= 1 && literal <= 1
    ensures (multiplier * literal) % WORD_SIZE <= 1
  {
    ModBelow(multiplier * literal, WORD_SIZE);
  }

  lemma ScaledEval(e: Expr, inner: Expr, literal: nat, env: Env)
    requires WellTyped(e) && Scales(e, inner, literal)
    ensures e.Bin? && WellTyped(inner) && inner.Width() == e.width == e.Width() <= WORD
    ensures Eval(e, env) == (Eval(inner, env) * literal) % Pow2(e.width)
    ensures e.width == 1 ==> literal <= 1
  {
    hide Bitwise;
    assert Pow2(1) == 2 && Pow2(0) == 1;
    var x := Eval(inner, env);
    if e.op.Shl? {
      ShlTimes(x, e.right.value, e.width);
    } else {
      assert x * literal == literal * x;
    }
  }

  lemma ShlTimes(x: nat, k: nat, w: nat)
    ensures Apply(Shl, x, k, w) == (x * Pow2(k)) % Pow2(w)
  {
    hide Bitwise;
    if k >= w {
      Pow2Add(w, k - w);
      Regroup(x, Pow2(w), Pow2(k - w));
      ModAddMultiple(0, Pow2(w), x * Pow2(k - w));
      SmallMod(0, Pow2(w));
    }
  }

  // ----- joining the two sides of a pair

  /** The operation as the value sets apply it: in a machine word, then narrowed. */
  function Combine(op: BinOp, a: nat, b: nat, w: nat): nat {
    var word := match op
                case BitOr => Bitwise(Or, a, b)
                case BitAnd => Bitwise(And, a, b)
                case BitXor => Bitwise(Xor, a, b)
                case Add => (a + b) % WORD_SIZE
                case Sub => (a - b) % WORD_SIZE
                case Shl => if b >= w then 0 else (a * Pow2(b)) % WORD_SIZE
                case _ => (a * b) % WORD_SIZE;
    word % Pow2(w)
  }

  /** The results the two sides produce together, one for each value of the bit. */
  function JoinPair(op: BinOp, l: BitFactor, r: BitFactor, w: nat): set<nat> {
    {Combine(op, Side(l, false), Side(r, false), w), Combine(op, Side(l, true), Side(r, true), w)}
  }

  lemma ModAdd(a: int, b: int, m: nat)
    requires m > 0
    ensures (a % m + b % m) % m == (a + b) % m
    ensures (a % m - b % m) % m == (a - b) % m
  {
    ModOneSide(a, b % m, m);
    ModOneSide(b, a, m);
    ModOneSide(a, -(b % m), m);
    ModNegated(a, b, m);
  }

  lemma ModOneSide(a: int, b: int, m: nat)
    requires m > 0
    ensures (a % m + b) % m == (a + b) % m
  {
    assert a == (a / m) * m + a % m;
    ModAddMultiple(a % m + b, m, a / m);
  }

  lemma ModNegated(a: int, b: int, m: nat)
    requires m > 0
    ensures (a - b % m) % m == (a - b) % m
  {
    assert b == (b / m) * m + b % m;
    ModAddMultiple(a - b, m, b / m);
  }

  /** Narrowing the sides first changes nothing, but for a left shift's amount. */
  lemma CombineNarrow(op: BinOp, a: nat, b: nat, w: nat)
    requires w <= WORD && !op.ShrU? && (op.Shl? ==> b < Pow2(w))
    ensures Combine(op, a, b, w) == Apply(op, a % Pow2(w), b % Pow2(w), w)
  {
    hide Combine, Apply, Pow2;
    match op {
      case BitOr => NarrowBitwise(op, Or, a, b, w);
      case BitAnd => NarrowBitwise(op, And, a, b, w);
      case BitXor => NarrowBitwise(op, Xor, a, b, w);
      case Add => NarrowSum(op, a, b, w);
      case Sub => NarrowSum(op, a, b, w);
      case Shl => NarrowShl(a, b, w);
      case ShrU =>
      case Mul => NarrowMul(a, b, w);
    }
  }

  lemma NarrowBitwise(op: BinOp, bitwise: BitOp, a: nat, b: nat, w: nat)
    requires (op.BitOr? && bitwise.Or?) || (op.BitAnd? && bitwise.And?) || (op.BitXor? && bitwise.Xor?)
    ensures Combine(op, a, b, w) == Apply(op, a % Pow2(w), b % Pow2(w), w)
  {
    hide Pow2, Bitwise;
    BitwiseMod(bitwise, a, b, w);
  }

  lemma NarrowSum(op: BinOp, a: nat, b: nat, w: nat)
    requires w <= WORD && (op.Add? || op.Sub?)
    ensures Combine(op, a, b, w) == Apply(op, a % Pow2(w), b % Pow2(w), w)
  {
    hide Pow2, Bitwise;
    WordMod(a + b, w);
    WordMod(a - b, w);
    ModAdd(a, b, Pow2(w));
  }

  lemma NarrowMul(a: nat, b: nat, w: nat)
    requires w <= WORD
    ensures Combine(Mul, a, b, w) == Apply(Mul, a % Pow2(w), b % Pow2(w), w)
  {
    hide Pow2, Bitwise;
    WordMod(a * b, w);
    ModProduct(a, b, Pow2(w));
  }

  lemma NarrowShl(a: nat, b: nat, w: nat)
    requires w <= WORD && b < Pow2(w)
    ensures Combine(Shl, a, b, w) == Apply(Shl, a % Pow2(w), b % Pow2(w), w)
  {
    hide Pow2, Bitwise, Combine, Apply;
    SmallMod(b, Pow2(w));
    ShlParts(a, b, w);
    ShlParts(a % Pow2(w), b, w);
    NarrowShift(a, b, w);
  }

  lemma ShlParts(a: nat, b: nat, w: nat)
    ensures Combine(Shl, a, b, w) == if b >= w then 0 % Pow2(w) else ((a * Pow2(b)) % WORD_SIZE) % Pow2(w)
    ensures Apply(Shl, a, b, w) == if b >= w then 0 else (a * Pow2(b)) % Pow2(w)
  {
    hide Pow2, Bitwise;
  }

  lemma NarrowShift(a: nat, b: nat, w: nat)
    requires w <= WORD
    ensures ((a * Pow2(b)) % WORD_SIZE) % Pow2(w) == ((a % Pow2(w)) * Pow2(b)) % Pow2(w)
  {
    hide Pow2;
    WordMod(a * Pow2(b), w);
    ModTimes(a, Pow2(b), Pow2(w));
  }

  lemma ModProduct(a: int, b: int, m: nat)
    requires m > 0
    ensures ((a % m) * (b % m)) % m == (a * b) % m
  {
    ModTimes(a, b, m);
    ModTimes(b, a % m, m);
    Commute(a % m, b);
    Commute(b % m, a % m);
  }

  lemma Commute(x: int, y: int)
    ensures x * y == y * x
  {}

  /** Where one of the two sides is nothing, as in a pair, every join narrows freely: nothing shifted
      is nothing, and nothing is not a shift amount that could be lost. */
  lemma CombineOneSided(op: BinOp, a: nat, b: nat, w: nat)
    requires w <= WORD && !op.ShrU? && (a == 0 || b == 0)
    ensures Combine(op, a, b, w) == Apply(op, a % Pow2(w), b % Pow2(w), w)
  {
    hide Combine, Apply, Pow2;
    if !op.Shl? || b < Pow2(w) {
      CombineNarrow(op, a, b, w);
    } else {
      ShlParts(0, b, w);
      ShlParts(0, b % Pow2(w), w);
      SmallMod(0, Pow2(w));
      SmallMod(0, WORD_SIZE);
    }
  }

  /** The joint answer is sound: the operation's value is the result for the bit as it is. */
  lemma PairSound(op: BinOp, w: nat, l: Expr, r: Expr, env: Env)
    requires WellTyped(Bin(op, w, l, r)) && !op.ShrU?
    requires Complementary(l, r) && FactorTrusted(l) && FactorTrusted(r)
    ensures var f, h := MatchBitFactor(l).value, MatchBitFactor(r).value;
            && QuestionTyped(f.question)
            && Eval(Bin(op, w, l, r), env)
               == Combine(op, Side(f, AskedBit(f.question, env)), Side(h, AskedBit(f.question, env)), w)
            && Eval(Bin(op, w, l, r), env) in JoinPair(op, f, h, w)
  {
    hide Combine, Apply, AskedBit, MatchBitFactor, FactorTrusted, Pow2;
    FactorValue(l, env);
    FactorValue(r, env);
    var f, h := MatchBitFactor(l).value, MatchBitFactor(r).value;
    var bit := AskedBit(f.question, env);
    CombineOneSided(op, Side(f, bit), Side(h, bit), w);
  }

  /** The joint answer is precise: its members are the results for one value of the bit and for the
      other, so one side contributes its multiplier and the other nothing, never both and never neither. */
  lemma PairPrecise(op: BinOp, w: nat, l: BitFactor, r: BitFactor)
    requires w <= WORD && l.complemented != r.complemented && !op.ShrU?
    ensures forall v :: v in JoinPair(op, l, r, w) <==>
              exists bit: bool :: v == Apply(op, Side(l, bit) % Pow2(w), Side(r, bit) % Pow2(w), w)
    ensures JoinPair(op, l, r, w) == {Combine(op, l.multiplier, 0, w), Combine(op, 0, r.multiplier, w)}
  {
    hide Combine, Apply, Pow2;
    CombineOneSided(op, Side(l, false), Side(r, false), w);
    CombineOneSided(op, Side(l, true), Side(r, true), w);
  }
}
