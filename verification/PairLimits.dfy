/** Which complementary pairs are resolved rightly: the shapes the search takes for one bit although
    they are not, and exactly when its answer holds all the same. */
module PairLimits {
  import opened Bits
  import opened Expressions
  import opened Basics
  import opened BitFactors
  import opened ExactValueSets

  /** The search answers, and rightly so in every environment. */
  ghost predicate AnswersRightly(c: Context, e: Expr, depth: nat)
    requires depth <= MAX_DEPTH && WellTyped(e)
  {
    && Exact(c, e, depth).Some?
    && forall env: Env {:trigger Eval(e, env)} :: Eval(e, env) in Exact(c, e, depth).value
  }

  /** The expression takes every value of its width. */
  ghost predicate TakesAll(e: Expr)
    requires WellTyped(e)
  {
    forall v: nat | v < Pow2(e.Width()) :: Takes(e, v)
  }

  ghost predicate Takes(e: Expr, v: nat)
    requires WellTyped(e)
  {
    exists env: Env :: Eval(e, env) == v
  }

  /** A pair is answered jointly, whatever else could be said of its sides. */
  lemma PairAnswer(c: Context, op: BinOp, w: nat, l: Expr, r: Expr, depth: nat)
    requires depth <= MAX_DEPTH && !op.ShrU? && Complementary(l, r)
    requires op.BitOr? ==> !(l.Bin? && l.op.BitOr?) && !(r.Bin? && r.op.BitOr?)
    ensures Exact(c, Bin(op, w, l, r), depth) == Some(JoinPair(op, MatchBitFactor(l).value, MatchBitFactor(r).value, w))
  {
    hide Complementary, MatchBitFactor, JoinPair;
    var e := Bin(op, w, l, r);
    if op.BitOr? {
      assert OrLeaves(l) == [l] && OrLeaves(r) == [r];
      assert ExactOrChain(c, e, w, depth) == None;
    }
    assert Exact(c, e, depth) == ExactBin(c, e, depth);
  }

  // ----- operations with nothing on one side

  function LeftOnly(op: BinOp, v: nat): nat {
    if op.BitAnd? || op.Mul? then 0 else v
  }

  function RightOnly(op: BinOp, v: nat, w: nat): int {
    if op.BitAnd? || op.Mul? || op.Shl? then 0
    else if op.Sub? && v > 0 then Pow2(w) - v else v
  }

  lemma {:induction false} NothingAnded(v: nat)
    ensures Bitwise(And, v, 0) == 0 && Bitwise(And, 0, v) == 0
  {
    AndBelow(v, 0);
    AndBelow(0, v);
  }

  lemma {:induction false} NothingXored(v: nat)
    ensures Bitwise(Xor, v, 0) == v && Bitwise(Xor, 0, v) == v
  {
    if v != 0 {
      NothingXored(v / 2);
    }
  }

  lemma OneSided(op: BinOp, v: nat, w: nat)
    requires 1 <= w <= WORD && v < Pow2(w) && !op.ShrU?
    ensures Apply(op, v, 0, w) == Combine(op, v, 0, w) == LeftOnly(op, v)
    ensures Apply(op, 0, v, w) == Combine(op, 0, v, w) == RightOnly(op, v, w)
  {
    hide Combine, Pow2, Bitwise;
    CombineIsApply(op, v, 0, w);
    CombineIsApply(op, 0, v, w);
    NothingAnded(v);
    OrZero(v);
    NothingXored(v);
    SmallMod(v, Pow2(w));
    SmallMod(0, Pow2(w));
    PowZero();
    if op.Sub? && v > 0 {
      ModUnique(0 - v, Pow2(w), -1, Pow2(w) - v);
    }
    assert v * 1 == v && 0 * Pow2(v) == 0;
  }

  lemma PowZero()
    ensures Pow2(0) == 1 && Pow2(1) == 2 && Pow2(2) == 4
  {}

  /** What is listed for two factors of one bit each. */
  lemma UnitPair(op: BinOp, l: BitFactor, r: BitFactor, w: nat)
    requires 1 <= w <= WORD && !op.ShrU? && l.complemented != r.complemented && l.multiplier == r.multiplier == 1
    ensures forall v :: v in JoinPair(op, l, r, w) <==> v == LeftOnly(op, 1) || v == RightOnly(op, 1, w)
  {
    hide Combine, Pow2, JoinPair;
    PairPrecise(op, w, l, r);
    Pow2Monotone(1, w);
    PowZero();
    OneSided(op, 1, w);
  }

  // ----- a value and its complement, shifted

  function ShiftPair(op: BinOp, w: nat, k: nat, key: Expr): Expr {
    Bin(op, w, Bin(ShrU, w, key, Const(w, k)), Bin(ShrU, w, Not(w, key), Const(w, k)))
  }

  /** Whatever the shift, what is left of a value and of its complement is complementary. */
  lemma ShiftedParts(x: nat, w: nat, k: nat)
    requires k < w && x < Pow2(w)
    ensures Quotient(x, Pow2(k)) <= Pow2(w - k) - 1
    ensures Quotient(Pow2(w) - 1 - x, Pow2(k)) == Pow2(w - k) - 1 - Quotient(x, Pow2(k))
  {
    hide Pow2;
    var p, q := Pow2(k), Pow2(w - k);
    Pow2Add(w - k, k);
    QuotientBelow(x, p, q);
    var s, r := x / p, x % p;
    assert x == s * p + r;
    Spread(q, s, p);
    ModUnique(Pow2(w) - 1 - x, p, q - 1 - s, p - 1 - r);
  }

  lemma Spread(q: int, s: int, p: int)
    ensures (q - 1 - s) * p == q * p - p - s * p
  {}

  /** Pairs whose shifts leave other than one bit, and yet are answered rightly: nothing is left, or
      the operation makes the same of what is left. */
  predicate ShiftForgiven(op: BinOp, w: nat, k: nat) {
    op.BitAnd? || (k >= w && (op.Mul? || op.Shl?)) || (k == 0 && w == 2 && op.Sub?)
  }

  lemma {:induction false} ComplementsAnd(s: nat, n: nat)
    requires s < Pow2(n)
    ensures Bitwise(And, s, Pow2(n) - 1 - s) == 0
    decreases n
  {
    if n > 0 {
      ComplementsAnd(s / 2, n - 1);
      assert (Pow2(n) - 1 - s) / 2 == Pow2(n - 1) - 1 - s / 2;
      BitwiseParts(And, s, Pow2(n) - 1 - s);
    }
  }

  /** A value of the shifted key for which the pair's own value is not listed. */
  function Exposing(op: BinOp, n: nat): int
    requires n >= 2
  {
    if op.Sub? then Pow2(n - 1) + 1 else if op.Mul? then 1 else if op.Shl? then Pow2(n) - 1 else 0
  }

  lemma Exposed(op: BinOp, w: nat, n: nat)
    requires 2 <= n <= w <= WORD && !op.ShrU? && !op.BitAnd? && !(op.Sub? && w == 2)
    ensures 0 <= Exposing(op, n) <= Pow2(n) - 1
    ensures var v := Apply(op, Exposing(op, n), Pow2(n) - 1 - Exposing(op, n), w);
            v != LeftOnly(op, 1) && v != RightOnly(op, 1, w)
  {
    hide Pow2, Apply, Bitwise;
    PowZero();
    Pow2Monotone(2, n);
    Pow2Monotone(n, w);
    PowSteps(n);
    var s := Exposing(op, n);
    if op.Sub? {
      Pow2Monotone(3, w);
      PowSteps(3);
      ApplySmall(Sub, s, Pow2(n) - 1 - s, w);
    } else if op.Mul? {
      ApplySmall(Mul, 1, Pow2(n) - 2, w);
    } else {
      OneSided(op, Pow2(n) - 1, w);
    }
  }

  lemma PowSteps(n: nat)
    requires n >= 1
    ensures Pow2(n) == 2 * Pow2(n - 1)
  {}

  lemma ApplySmall(op: BinOp, a: nat, b: nat, w: nat)
    requires (op.Sub? && b <= a && a < Pow2(w)) || (op.Mul? && a == 1 && b < Pow2(w))
    ensures Apply(op, a, b, w) == if op.Sub? then a - b else b
  {
    hide Pow2, Bitwise;
    if op.Sub? { SmallMod(a - b, Pow2(w)); } else { SmallMod(b, Pow2(w)); }
  }

  lemma BinValue(op: BinOp, w: nat, l: Expr, r: Expr, env: Env)
    requires WellTyped(l) && WellTyped(r) && l.Width() == r.Width() == w
    ensures WellTyped(Bin(op, w, l, r)) && Eval(Bin(op, w, l, r), env) == Apply(op, Eval(l, env), Eval(r, env), w)
  {
    hide Pow2, Bitwise, Apply;
  }

  lemma NotValue(w: nat, arg: Expr, env: Env)
    requires WellTyped(arg) && arg.Width() == w
    ensures WellTyped(Not(w, arg)) && Eval(Not(w, arg), env) == Pow2(w) - 1 - Eval(arg, env)
  {
    hide Pow2;
  }

  lemma ShiftValue(w: nat, k: nat, arg: Expr, env: Env)
    requires WellTyped(arg) && arg.Width() == w && k < Pow2(w)
    ensures var e := Bin(ShrU, w, arg, Const(w, k));
            WellTyped(e) && Eval(e, env) == if k >= w then 0 else Quotient(Eval(arg, env), Pow2(k))
  {
    hide Pow2, Bitwise, Apply;
    BinValue(ShrU, w, arg, Const(w, k), env);
    ShrUParts(Eval(arg, env), k, w);
  }

  lemma ShrUParts(a: nat, k: nat, w: nat)
    ensures Apply(ShrU, a, k, w) == if k >= w then 0 else Quotient(a, Pow2(k))
  {
    hide Pow2, Bitwise;
  }

  /** The value of a pair of shifts. */
  lemma ShiftPairValue(op: BinOp, w: nat, k: nat, key: Expr, env: Env)
    requires WellTyped(key) && key.Width() == w && k < Pow2(w) && !op.ShrU?
    ensures WellTyped(ShiftPair(op, w, k, key))
    ensures var x := Eval(key, env);
            Eval(ShiftPair(op, w, k, key), env)
            == if k >= w then Apply(op, 0, 0, w)
              else Apply(op, Quotient(x, Pow2(k)), Quotient(Pow2(w) - 1 - x, Pow2(k)), w)
  {
    hide Pow2, Bitwise, Apply, Eval, WellTyped, Quotient;
    NotValue(w, key, env);
    ShiftValue(w, k, key, env);
    ShiftValue(w, k, Not(w, key), env);
    BinValue(op, w, Bin(ShrU, w, key, Const(w, k)), Bin(ShrU, w, Not(w, key), Const(w, k)), env);
  }

  lemma ShiftPairMatches(op: BinOp, w: nat, k: nat, key: Expr)
    requires !key.Not?
    ensures var e := ShiftPair(op, w, k, key);
            && Complementary(e.left, e.right) && MatchBitFactor(e.left) == Some(BitFactor(SignBit(key, k), false, 1))
            && MatchBitFactor(e.right) == Some(BitFactor(SignBit(key, k), true, 1))
  {}

  /** Reading a shift as one bit, whatever its amount, is right in every environment exactly when the
      amount leaves only the top bit, or the operation forgives another. */
  lemma ShiftPairExactly(c: Context, op: BinOp, w: nat, k: nat, key: Expr, depth: nat)
    requires depth <= MAX_DEPTH && WellTyped(key) && key.Width() == w && !key.Not? && TakesAll(key)
    requires k < Pow2(w) && !op.ShrU?
    ensures WellTyped(ShiftPair(op, w, k, key))
    ensures AnswersRightly(c, ShiftPair(op, w, k, key), depth) <==> k == w - 1 || ShiftForgiven(op, w, k)
  {
    hide Pow2, Bitwise, Apply, JoinPair, MatchBitFactor, Complementary, Exact, Eval, Exposing, TakesAll;
    var e := ShiftPair(op, w, k, key);
    var env: Env :| true;
    ShiftPairValue(op, w, k, key, env);
    ShiftPairMatches(op, w, k, key);
    PairAnswer(c, op, w, e.left, e.right, depth);
    UnitPair(op, MatchBitFactor(e.left).value, MatchBitFactor(e.right).value, w);
    if k == w - 1 || ShiftForgiven(op, w, k) {
      forall env: Env ensures Eval(e, env) in Exact(c, e, depth).value {
        ShiftPairListed(op, w, k, key, env);
      }
    } else {
      var env := Unlisted(op, w, k, key);
      assert Eval(e, env) !in Exact(c, e, depth).value;
    }
  }

  lemma ShiftPairListed(op: BinOp, w: nat, k: nat, key: Expr, env: Env)
    requires WellTyped(key) && key.Width() == w && k < Pow2(w) && !op.ShrU? && (k == w - 1 || ShiftForgiven(op, w, k))
    requires 1 <= w <= WORD
    ensures var e := ShiftPair(op, w, k, key);
            WellTyped(e) && (Eval(e, env) == LeftOnly(op, 1) || Eval(e, env) == RightOnly(op, 1, w))
  {
    hide Pow2, Bitwise, Apply, Eval, WellTyped, Quotient;
    ShiftPairValue(op, w, k, key, env);
    var x := Eval(key, env);
    PowZero();
    Pow2Monotone(1, w);
    if k >= w {
      OneSided(op, 0, w);
    } else {
      ShiftedParts(x, w, k);
      if op.BitAnd? {
        ComplementsAnd(Quotient(x, Pow2(k)), w - k);
        AndValue(Quotient(x, Pow2(k)), Pow2(w - k) - 1 - Quotient(x, Pow2(k)), w);
      } else if k == w - 1 {
        OneSided(op, 1, w);
      } else {
        TwoBitDifference(Quotient(x, Pow2(k)));
      }
    }
  }

  lemma AndValue(a: nat, b: nat, w: nat)
    requires Bitwise(And, a, b) == 0
    ensures Apply(BitAnd, a, b, w) == 0
  {
    hide Pow2, Bitwise;
    SmallMod(0, Pow2(w));
  }

  lemma TwoBitDifference(s: nat)
    requires s <= Pow2(2) - 1
    ensures Apply(Sub, s, Pow2(2) - 1 - s, 2) == 1 || Apply(Sub, s, Pow2(2) - 1 - s, 2) == Pow2(2) - 1
  {
    hide Bitwise;
    PowZero();
    assert s == 0 || s == 1 || s == 2 || s == 3;
  }

  /** A value of the key for which the pair's own is not listed. */
  lemma Unlisted(op: BinOp, w: nat, k: nat, key: Expr) returns (env: Env)
    requires WellTyped(key) && key.Width() == w && TakesAll(key) && k < Pow2(w) && !op.ShrU?
    requires k != w - 1 && !ShiftForgiven(op, w, k)
    ensures var e := ShiftPair(op, w, k, key);
            WellTyped(e) && Eval(e, env) != LeftOnly(op, 1) && Eval(e, env) != RightOnly(op, 1, w)
  {
    hide Pow2, Bitwise, Apply, Eval, Exposing;
    PowZero();
    Pow2Monotone(1, w);
    var x: nat := 0;
    if k < w {
      Exposed(op, w, w - k);
      x := Exposing(op, w - k) * Pow2(k);
      Pow2Add(w - k, k);
      TimesMonotone(Exposing(op, w - k), Pow2(w - k) - 1, Pow2(k));
      Spread(Pow2(w - k), 0, Pow2(k));
    }
    assert x < Pow2(w);
    assert Takes(key, x);
    env :| Eval(key, env) == x;
    ShiftPairValue(op, w, k, key, env);
    if k < w {
      ModUnique(x, Pow2(k), Exposing(op, w - k), 0);
      ShiftedParts(x, w, k);
    } else {
      OneSided(op, 0, w);
    }
  }

  /** Shifted by less, the two parts add up to every bit that is left, never to the one that is listed. */
  lemma WideShiftFails(c: Context, depth: nat, env: Env)
    requires depth <= MAX_DEPTH
    ensures var e := ShiftPair(Add, 8, 3, EntryReg(8, 0));
            WellTyped(e) && Exact(c, e, depth) == Some({1}) && Eval(e, env) == 31
  {
    hide Pow2, Bitwise, Apply, JoinPair, MatchBitFactor, Complementary, Exact, Eval, Quotient;
    var key := EntryReg(8, 0);
    EightBits();
    var e := ShiftPair(Add, 8, 3, key);
    ShiftPairValue(Add, 8, 3, key, env);
    ShiftPairMatches(Add, 8, 3, key);
    PairAnswer(c, Add, 8, e.left, e.right, depth);
    UnitPair(Add, MatchBitFactor(e.left).value, MatchBitFactor(e.right).value, 8);
    assert Exact(c, e, depth).value == {1};
    var x := Eval(key, env);
    ShiftedParts(x, 8, 3);
    SumOfByte(Quotient(x, Pow2(3)), 31 - Quotient(x, Pow2(3)));
  }

  lemma SumOfByte(a: nat, b: nat)
    requires a + b == 31
    ensures Apply(Add, a, b, 8) == 31
  {
    hide Pow2, Bitwise;
    EightBits();
  }

  lemma EightBits()
    ensures Pow2(8) == 256 && Pow2(5) == 32 && Pow2(3) == 8
  {
    Pow2Add(5, 3);
  }

  // ----- a sign-extended comparison and its opposite

  function SignedPair(op: BinOp, w: nat, a: Expr, b: Expr): Expr {
    Bin(op, w, Cast(SExt, w, Cmp(Eq, a, b)), Cast(SExt, w, Cmp(Ne, a, b)))
  }

  lemma SignedPairValue(op: BinOp, w: nat, a: Expr, b: Expr, env: Env)
    requires WellTyped(a) && WellTyped(b) && a.Width() == b.Width() && 1 <= w <= WORD && !op.ShrU?
    ensures WellTyped(SignedPair(op, w, a, b))
    ensures Eval(SignedPair(op, w, a, b), env)
            == if Eval(a, env) == Eval(b, env) then LeftOnly(op, Pow2(w) - 1) else RightOnly(op, Pow2(w) - 1, w)
  {
    hide Apply, Bitwise, Pow2;
    PowZero();
    Pow2Monotone(1, w);
    ModUnique(-1, Pow2(w), -1, Pow2(w) - 1);
    SmallMod(0, Pow2(w));
    OneSided(op, Pow2(w) - 1, w);
    SignedValue(w, Cmp(Eq, a, b), env);
    SignedValue(w, Cmp(Ne, a, b), env);
    BinValue(op, w, Cast(SExt, w, Cmp(Eq, a, b)), Cast(SExt, w, Cmp(Ne, a, b)), env);
  }

  lemma SignedValue(w: nat, e: Expr, env: Env)
    requires WellTyped(e) && e.Width() == 1 && 1 <= w <= WORD
    ensures WellTyped(Cast(SExt, w, e)) && Eval(Cast(SExt, w, e), env) == if Eval(e, env) == 0 then 0 else Pow2(w) - 1
  {
    PowZero();
    Pow2Monotone(1, w);
    ModUnique(-1, Pow2(w), -1, Pow2(w) - 1);
    SmallMod(0, Pow2(w));
  }

  lemma SignedPairMatches(op: BinOp, w: nat, a: Expr, b: Expr)
    ensures var e := SignedPair(op, w, a, b);
            && Complementary(e.left, e.right) && MatchBitFactor(e.left) == Some(BitFactor(Comparison(a, b), false, 1))
            && MatchBitFactor(e.right) == Some(BitFactor(Comparison(a, b), true, 1))
  {}

  /** Reading a sign-extended bit as 1 is right in every environment exactly when there is but one bit,
      or the operation makes the same of 1 and of all ones. */
  lemma SignedPairExactly(c: Context, op: BinOp, w: nat, a: Expr, b: Expr, depth: nat, equal: Env)
    requires depth <= MAX_DEPTH && WellTyped(a) && WellTyped(b) && a.Width() == b.Width() && 1 <= w <= WORD && !op.ShrU?
    requires Eval(a, equal) == Eval(b, equal)
    ensures WellTyped(SignedPair(op, w, a, b))
    ensures AnswersRightly(c, SignedPair(op, w, a, b), depth) <==> w == 1 || op.Sub? || op.BitAnd? || op.Mul?
  {
    hide Pow2, JoinPair, MatchBitFactor, Complementary, Exact, Eval;
    var e := SignedPair(op, w, a, b);
    SignedPairValue(op, w, a, b, equal);
    SignedPairMatches(op, w, a, b);
    PairAnswer(c, op, w, e.left, e.right, depth);
    UnitPair(op, MatchBitFactor(e.left).value, MatchBitFactor(e.right).value, w);
    PowZero();
    if w > 1 { Pow2Monotone(2, w); }
    if w == 1 || op.Sub? || op.BitAnd? || op.Mul? {
      forall env: Env ensures Eval(e, env) in Exact(c, e, depth).value {
        SignedPairValue(op, w, a, b, env);
      }
    } else {
      assert Eval(e, equal) == Pow2(w) - 1;
    }
  }

  // ----- a comparison shifted out of its one bit

  function ShiftedOutPair(op: BinOp, w: nat, s: nat, a: Expr, b: Expr): Expr {
    Bin(op, w, Cast(ZExt, w, Bin(Shl, 1, Cmp(Eq, a, b), Const(1, s))), Cast(ZExt, w, Cmp(Ne, a, b)))
  }

  lemma ShiftedOutValue(op: BinOp, w: nat, a: Expr, b: Expr, env: Env)
    requires WellTyped(a) && WellTyped(b) && a.Width() == b.Width() && 1 <= w <= WORD && !op.ShrU?
    ensures WellTyped(ShiftedOutPair(op, w, 1, a, b))
    ensures Eval(ShiftedOutPair(op, w, 1, a, b), env) == if Eval(a, env) == Eval(b, env) then 0 else RightOnly(op, 1, w)
  {
    hide Apply, Bitwise, Pow2;
    PowZero();
    Pow2Monotone(1, w);
    OneSided(op, 1, w);
    OneSided(op, 0, w);
    var bit := Cmp(Eq, a, b);
    ShiftedOut();
    BinValue(Shl, 1, bit, Const(1, 1), env);
    WidenedBit(w, Bin(Shl, 1, bit, Const(1, 1)), env);
    WidenedBit(w, Cmp(Ne, a, b), env);
    BinValue(op, w, Cast(ZExt, w, Bin(Shl, 1, bit, Const(1, 1))), Cast(ZExt, w, Cmp(Ne, a, b)), env);
  }

  lemma WidenedBit(w: nat, e: Expr, env: Env)
    requires WellTyped(e) && e.Width() == 1 && 1 <= w <= WORD
    ensures WellTyped(Cast(ZExt, w, e)) && Eval(Cast(ZExt, w, e), env) == Eval(e, env)
  {
    hide Pow2, Bitwise, Apply;
  }

  lemma ShiftedOut()
    ensures forall x: nat :: Apply(Shl, x, 1, 1) == 0
  {}

  lemma ShiftedOutMatches(op: BinOp, w: nat, a: Expr, b: Expr)
    ensures var e := ShiftedOutPair(op, w, 1, a, b);
            && Complementary(e.left, e.right) && MatchBitFactor(e.left) == Some(BitFactor(Comparison(a, b), false, 2))
            && MatchBitFactor(e.right) == Some(BitFactor(Comparison(a, b), true, 1))
  {
    hide Pow2;
    PowZero();
    PowSteps(WORD);
    Pow2Monotone(2, WORD);
    SmallMod(2, WORD_SIZE);
    var e := ShiftedOutPair(op, w, 1, a, b);
    assert MatchBitFactor(e.left.arg.left) == Some(BitFactor(Comparison(a, b), false, 1));
    assert MatchBitFactor(e.left.arg) == Scaled(MatchBitFactor(e.left.arg.left), Pow2(1));
    assert MatchBitFactor(e.left) == MatchBitFactor(e.left.arg);
    assert MatchBitFactor(e.right) == MatchBitFactor(e.right.arg);
  }

  /** Doubling a factor for a bit that was shifted out is right in every environment exactly when the
      two cannot be told apart: in one bit, or under an operation that makes nothing of them. */
  lemma ShiftedOutExactly(c: Context, op: BinOp, w: nat, a: Expr, b: Expr, depth: nat, equal: Env)
    requires depth <= MAX_DEPTH && WellTyped(a) && WellTyped(b) && a.Width() == b.Width() && 1 <= w <= WORD && !op.ShrU?
    requires Eval(a, equal) == Eval(b, equal)
    ensures WellTyped(ShiftedOutPair(op, w, 1, a, b))
    ensures AnswersRightly(c, ShiftedOutPair(op, w, 1, a, b), depth) <==> w == 1 || op.BitAnd? || op.Mul? || op.Shl?
  {
    hide Pow2, JoinPair, MatchBitFactor, Complementary, Exact, Eval;
    var e := ShiftedOutPair(op, w, 1, a, b);
    ShiftedOutValue(op, w, a, b, equal);
    ShiftedOutMatches(op, w, a, b);
    PairAnswer(c, op, w, e.left, e.right, depth);
    DoubledPair(op, MatchBitFactor(e.left).value, MatchBitFactor(e.right).value, w);
    PowZero();
    if w > 1 { Pow2Monotone(2, w); }
    if w == 1 || op.BitAnd? || op.Mul? || op.Shl? {
      forall env: Env ensures Eval(e, env) in Exact(c, e, depth).value {
        ShiftedOutValue(op, w, a, b, env);
      }
    } else {
      assert Eval(e, equal) == 0;
    }
  }

  lemma DoubledPair(op: BinOp, l: BitFactor, r: BitFactor, w: nat)
    requires 1 <= w <= WORD && !op.ShrU? && l.complemented != r.complemented && l.multiplier == 2 && r.multiplier == 1
    ensures forall v :: v in JoinPair(op, l, r, w) <==>
            v == LeftOnly(op, if w == 1 then 0 else 2) || v == RightOnly(op, 1, w)
  {
    hide Combine, Pow2, JoinPair;
    PairPrecise(op, w, l, r);
    PowZero();
    Pow2Monotone(1, w);
    OneSided(op, 1, w);
    if w == 1 {
      CombineOneSided(op, 2, 0, w);
      CombineOneSided(op, 0, 0, w);
      OneSided(op, 0, w);
    } else {
      Pow2Monotone(2, w);
      OneSided(op, 2, w);
    }
  }

  // ----- a comparison and its opposite, widened and scaled by literals

  function Times(w: nat, literal: nat, bit: Expr, literalOnLeft: bool): Expr {
    if literalOnLeft then Bin(Mul, w, Const(w, literal), Cast(ZExt, w, bit))
    else Bin(Mul, w, Cast(ZExt, w, bit), Const(w, literal))
  }

  function Opposite(a: Expr, b: Expr, byNot: bool): Expr {
    if byNot then Not(1, Cmp(Eq, a, b)) else Cmp(Ne, a, b)
  }

  function ScaledPair(op: BinOp, w: nat, m: nat, n: nat, a: Expr, b: Expr, byNot: bool, literalOnLeft: bool): Expr {
    Bin(op, w, Times(w, m, Cmp(Eq, a, b), literalOnLeft), Times(w, n, Opposite(a, b, byNot), literalOnLeft))
  }

  lemma TimesMatches(w: nat, literal: nat, bit: Expr, literalOnLeft: bool)
    requires bit.Width() == 1 && literal < WORD_SIZE
    requires MatchBitFactor(bit).Some? && MatchBitFactor(bit).value.multiplier == 1
    ensures MatchBitFactor(Times(w, literal, bit, literalOnLeft))
            == Some(MatchBitFactor(bit).value.(multiplier := literal))
  {
    hide Pow2;
    var e := Times(w, literal, bit, literalOnLeft);
    var cast := Cast(ZExt, w, bit);
    assert MatchBitFactor(cast) == MatchBitFactor(bit);
    assert MatchBitFactor(e) == Scaled(MatchBitFactor(cast), literal);
    SmallMod(literal, WORD_SIZE);
  }

  /** Such a pair is resolved jointly, with one literal or the other: never both, and never neither. */
  lemma ScaledPairAnswer(c: Context, op: BinOp, w: nat, m: nat, n: nat, a: Expr, b: Expr, byNot: bool,
      literalOnLeft: bool, depth: nat)
    requires depth <= MAX_DEPTH && w <= WORD && m < Pow2(w) && n < Pow2(w) && !op.ShrU?
    ensures Exact(c, ScaledPair(op, w, m, n, a, b, byNot, literalOnLeft), depth)
            == Some({Combine(op, m, 0, w), Combine(op, 0, n, w)})
  {
    hide Pow2, Combine, Exact, JoinPair, Complementary;
    Pow2Monotone(w, WORD);
    TimesMatches(w, m, Cmp(Eq, a, b), literalOnLeft);
    TimesMatches(w, n, Opposite(a, b, byNot), literalOnLeft);
    var e := ScaledPair(op, w, m, n, a, b, byNot, literalOnLeft);
    ScaledComplementary(op, w, m, n, a, b, byNot, literalOnLeft);
    PairAnswer(c, op, w, e.left, e.right, depth);
    PairPrecise(op, w, MatchBitFactor(e.left).value, MatchBitFactor(e.right).value);
  }

  lemma ScaledComplementary(op: BinOp, w: nat, m: nat, n: nat, a: Expr, b: Expr, byNot: bool, literalOnLeft: bool)
    requires m < WORD_SIZE && n < WORD_SIZE
    ensures var e := ScaledPair(op, w, m, n, a, b, byNot, literalOnLeft); Complementary(e.left, e.right)
  {
    hide Pow2;
    TimesMatches(w, m, Cmp(Eq, a, b), literalOnLeft);
    TimesMatches(w, n, Opposite(a, b, byNot), literalOnLeft);
  }

  // ----- every pair, whatever is around its sides

  /** The node a factor is read from, under the scalings and widenings of its side. */
  function Leaf(e: Expr): Expr {
    if e.Bin? && e.op.Mul? then (if e.right.Const? then Leaf(e.left) else Leaf(e.right))
    else if e.Bin? && e.op.Shl? then Leaf(e.left)
    else if e.Cast? then Leaf(e.arg)
    else e
  }

  /** What a side makes of the value of its leaf. */
  function Carried(e: Expr, v: nat): nat
    requires WellTyped(e)
  {
    if e.Bin? && e.op.Mul? then
      if e.right.Const? then Apply(Mul, Carried(e.left, v), e.right.value, e.width)
      else if e.left.Const? then Apply(Mul, e.left.value, Carried(e.right, v), e.width)
      else v
    else if e.Bin? && e.op.Shl? && e.right.Const? then Apply(Shl, Carried(e.left, v), e.right.value, e.width)
    else if e.Cast? then CastValue(e.cast, Carried(e.arg, v), e.arg.Width(), e.width)
    else v
  }

  lemma {:induction false} CarriedIsValue(e: Expr, env: Env)
    requires WellTyped(e) && MatchBitFactor(e).Some?
    ensures WellTyped(Leaf(e)) && Eval(e, env) == Carried(e, Eval(Leaf(e), env))
  {
    hide Pow2, Bitwise, Apply, CastValue;
    if e.Bin? && e.op.Mul? {
      CarriedIsValue(if e.right.Const? then e.left else e.right, env);
      BinValue(Mul, e.width, e.left, e.right, env);
    } else if e.Bin? && e.op.Shl? {
      CarriedIsValue(e.left, env);
      BinValue(Shl, e.width, e.left, e.right, env);
    } else if e.Cast? {
      CarriedIsValue(e.arg, env);
      CastIsValue(e.cast, e.width, e.arg, env);
    }
  }

  /** What decides the value of a leaf: the shifted value, or whether the compared ones are equal. */
  ghost function Reading(q: Question, env: Env): nat
    requires QuestionTyped(q)
  {
    match q
    case SignBit(key, _) => Eval(key, env)
    case Comparison(a, b) => if Eval(a, env) == Eval(b, env) then 1 else 0
  }

  ghost predicate Occurs(q: Question, x: nat)
    requires QuestionTyped(q)
  {
    exists env: Env :: Reading(q, env) == x
  }

  /** The value of the leaf at a reading. */
  function LeafAt(f: BitFactor, x: nat): int {
    match f.question
    case SignBit(key, shift) =>
      var w := key.Width();
      if shift >= w then 0 else (if f.complemented then Pow2(w) - 1 - x else x) / Pow2(shift)
    case Comparison(_, _) => if (x == 1) != f.complemented then 1 else 0
  }

  lemma {:induction false} LeafReads(e: Expr, env: Env)
    requires WellTyped(e) && MatchBitFactor(e).Some?
    ensures WellTyped(Leaf(e)) && QuestionTyped(MatchBitFactor(e).value.question)
    ensures Eval(Leaf(e), env) == LeafAt(MatchBitFactor(e).value, Reading(MatchBitFactor(e).value.question, env))
  {
    hide Pow2, Bitwise, Apply, Eval;
    if e.Bin? && e.op.Mul? {
      LeafReads(if e.right.Const? then e.left else e.right, env);
    } else if e.Bin? && e.op.Shl? {
      LeafReads(e.left, env);
    } else if e.Bin? && e.op.ShrU? {
      ShiftValue(e.width, e.right.value, e.left, env);
      if e.left.Not? { NotValue(e.width, e.left.arg, env); }
    } else if e.Cast? {
      LeafReads(e.arg, env);
    } else {
      ComparisonReads(e, env);
    }
  }

  lemma ComparisonReads(e: Expr, env: Env)
    requires WellTyped(e) && (Uncomplement(e).0.Cmp? && (Uncomplement(e).0.cmp.Eq? || Uncomplement(e).0.cmp.Ne?))
    ensures var (inner, negated) := Uncomplement(e);
            var equal := WellTyped(inner) && Eval(inner.left, env) == Eval(inner.right, env);
            WellTyped(inner) && Eval(e, env) == if equal != (inner.cmp.Ne? != negated) then 1 else 0
  {
    hide Pow2, Bitwise, Apply;
    ComparisonIsOneBit(e);
    UncomplementValue(e, env);
  }

  /** At this reading the operation's value is one of those listed. */
  predicate ListedAt(op: BinOp, w: nat, l: Expr, r: Expr, x: nat)
    requires WellTyped(l) && WellTyped(r) && Complementary(l, r)
  {
    var f, h := MatchBitFactor(l).value, MatchBitFactor(r).value;
    var a, b := LeafAt(f, x), LeafAt(h, x);
    0 <= a && 0 <= b && Apply(op, Carried(l, a), Carried(r, b), w) in JoinPair(op, f, h, w)
  }

  /** Joint resolution of any pair, scaled, widened and shifted as it may be, is right in every environment
      exactly when the numbers on its two sides combine to a listed result at every reading that occurs. */
  lemma PairExactly(c: Context, op: BinOp, w: nat, l: Expr, r: Expr, depth: nat)
    requires depth <= MAX_DEPTH && WellTyped(Bin(op, w, l, r)) && !op.ShrU? && Complementary(l, r)
    ensures QuestionTyped(MatchBitFactor(l).value.question)
    ensures AnswersRightly(c, Bin(op, w, l, r), depth)
            <==> forall x: nat | Occurs(MatchBitFactor(l).value.question, x) :: ListedAt(op, w, l, r, x)
  {
    hide Pow2, Bitwise, Apply, JoinPair, Exact, Eval, WellTyped, ListedAt, MatchBitFactor, Reading;
    PairTyped(op, w, l, r);
    MatchedIsNoOr(l);
    MatchedIsNoOr(r);
    PairAnswer(c, op, w, l, r, depth);
    var e, q := Bin(op, w, l, r), MatchBitFactor(l).value.question;
    forall env: Env ensures QuestionTyped(q)
      && (Eval(e, env) in Exact(c, e, depth).value <==> ListedAt(op, w, l, r, Reading(q, env))) {
      PairAt(op, w, l, r, env);
    }
    var any: Env :| true;
    PairAt(op, w, l, r, any);
    if AnswersRightly(c, e, depth) {
      forall x: nat | Occurs(q, x) ensures ListedAt(op, w, l, r, x) {
        var env: Env :| Reading(q, env) == x;
        assert Eval(e, env) in Exact(c, e, depth).value;
      }
    } else {
      var env: Env :| Eval(e, env) !in Exact(c, e, depth).value;
      assert Occurs(q, Reading(q, env));
    }
  }

  lemma PairTyped(op: BinOp, w: nat, l: Expr, r: Expr)
    requires WellTyped(Bin(op, w, l, r))
    ensures WellTyped(l) && WellTyped(r) && l.Width() == r.Width() == w
  {
    hide Pow2;
  }

  lemma MatchedIsNoOr(e: Expr)
    requires MatchBitFactor(e).Some?
    ensures !(e.Bin? && e.op.BitOr?)
  {}

  lemma PairAt(op: BinOp, w: nat, l: Expr, r: Expr, env: Env)
    requires WellTyped(Bin(op, w, l, r)) && WellTyped(l) && WellTyped(r) && Complementary(l, r)
    ensures var f, h := MatchBitFactor(l).value, MatchBitFactor(r).value;
            && QuestionTyped(f.question)
            && (ListedAt(op, w, l, r, Reading(f.question, env)) <==>
                Eval(Bin(op, w, l, r), env) in JoinPair(op, f, h, w))
  {
    hide Pow2, Bitwise, Apply, JoinPair, Eval, WellTyped, MatchBitFactor, Leaf, Carried, LeafAt;
    PairTyped(op, w, l, r);
    LeafReads(l, env);
    LeafReads(r, env);
    CarriedIsValue(l, env);
    CarriedIsValue(r, env);
    BinValue(op, w, l, r, env);
  }
}
