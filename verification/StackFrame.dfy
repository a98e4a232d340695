/** Where an address points, as far as its expression tells, and whether two accesses can meet. */
module StackFrames {
  import opened Bits
  import opened Expressions
  import opened Basics
  import BitFactors

  const MAX_DEPTH: nat := 64
  const MAX_BYTES: nat := 256

  /** Known relative to the entry stack pointer, known outright, or not known. */
  datatype AddressInfo = StackSlot(delta: int) | Global(address: nat) | Unclassified

  datatype AliasResult = Must | May | No

  /** Two's complement in 64 bits. */
  function Wrap64(x: int): int {
    ToSigned(x % WORD_SIZE, WORD)
  }

  /** How far from the entry stack pointer an address is, when literals added and subtracted are all there is. */
  function FrameDelta(sp: Option<nat>, e: Expr, depth: nat): Option<int> {
    if sp.None? || depth > MAX_DEPTH then None
    else if e.EntryReg? then (if e.reg == sp.value then Some(0) else None)
    else if e.Bin? && e.op.Add? then
      var left := if e.right.Const? then FrameDelta(sp, e.left, depth + 1) else None;
      if left.Some? then Some(Wrap64(left.value + e.right.value)) else
      var right := if e.left.Const? then FrameDelta(sp, e.right, depth + 1) else None;
      if right.Some? then Some(Wrap64(right.value + e.left.value)) else None
    else if e.Bin? && e.op.Sub? && e.right.Const? then
      var left := FrameDelta(sp, e.left, depth + 1);
      if left.Some? then Some(Wrap64(left.value - e.right.value)) else None
    else None
  }

  function Classify(sp: Option<nat>, e: Expr): AddressInfo {
    var delta := FrameDelta(sp, e, 0);
    if delta.Some? then StackSlot(delta.value)
    else if e.Const? then Global(e.value)
    else Unclassified
  }

  function Base(info: AddressInfo): nat {
    match info
    case StackSlot(delta) => delta % WORD_SIZE
    case Global(address) => address % WORD_SIZE
    case Unclassified => 0
  }

  function AliasOf(a: AddressInfo, sizeA: nat, b: AddressInfo, sizeB: nat): AliasResult {
    if a.Unclassified? || b.Unclassified? then May
    else if a.StackSlot? != b.StackSlot? then No
    else
      var endA, endB := (Base(a) + sizeA) % WORD_SIZE, (Base(b) + sizeB) % WORD_SIZE;
      if endA <= Base(b) || endB <= Base(a) then No
      else if Base(a) == Base(b) && sizeA == sizeB then Must
      else May
  }

  function MayAlias(sp: Option<nat>, a: Expr, sizeA: nat, b: Expr, sizeB: nat): AliasResult {
    AliasOf(Classify(sp, a), sizeA, Classify(sp, b), sizeB)
  }

  /** The values an expression reads. */
  function Leaves(e: Expr): set<nat> {
    match e
    case Const(_, _) => {}
    case Value(_, id) => {id}
    case EntryReg(_, _) => {}
    case Cast(_, _, a) => Leaves(a)
    case Not(_, a) => Leaves(a)
    case Bin(_, _, l, r) => Leaves(l) + Leaves(r)
    case Cmp(_, l, r) => Leaves(l) + Leaves(r)
    case Select(_, c, t, f) => Leaves(c) + Leaves(t) + Leaves(f)
    case Other(_, _, args) => set a, x | a in args && x in Leaves(a) :: x
  }

  // ----- what a classification means

  /** The address `d` bytes above `s`. */
  function Displace(s: int, d: int): nat {
    (s + d) % WORD_SIZE
  }

  lemma WrapMod(x: int)
    ensures Wrap64(x) % WORD_SIZE == x % WORD_SIZE
  {
    hide Pow2;
    ModUnique(Wrap64(x), WORD_SIZE, if x % WORD_SIZE < Pow2(WORD - 1) then 0 else -1, x % WORD_SIZE);
  }

  lemma DisplaceAgain(s: int, d: int, k: int)
    ensures Displace(Displace(s, d), k) == Displace(s, Wrap64(d + k))
  {
    hide Pow2, Wrap64;
    WrapMod(d + k);
    SameOffset(s, d, k, Wrap64(d + k), WORD_SIZE);
  }

  lemma SameOffset(s: int, d: int, k: int, w: int, m: nat)
    requires m > 0 && w % m == (d + k) % m
    ensures ((s + d) % m + k) % m == (s + w) % m
  {
    var q := (s + d) / m;
    assert s + d == m * q + (s + d) % m;
    ModAddMultiple((s + d) % m + k, m, q);
    var u, v := w / m, (d + k) / m;
    assert w == m * u + w % m && d + k == m * v + (d + k) % m;
    ModAddMultiple(s + w % m, m, u);
    ModAddMultiple(s + w % m, m, v);
  }

  function Offset(op: BinOp, c: int): int {
    if op.Sub? then -c else c
  }

  /** A chain's address is the entry stack pointer plus its displacement. */
  lemma {:induction false} FrameDeltaMeans(sp: Option<nat>, e: Expr, depth: nat, env: Env)
    requires WellTyped(e) && e.Width() == WORD && FrameDelta(sp, e, depth).Some?
    ensures sp.Some? && Eval(e, env) == Displace(env.reg(sp.value), FrameDelta(sp, e, depth).value)
    ensures Leaves(e) == {}
    decreases e
  {
    hide Pow2, Wrap64, Eval, Displace;
    if e.EntryReg? {
      EntryValue(e, env);
    } else {
      OffsetParts(e, env);
      if e.right.Const? && FrameDelta(sp, e.left, depth + 1).Some? {
        FrameDeltaMeans(sp, e.left, depth + 1, env);
        DisplaceAgain(env.reg(sp.value), FrameDelta(sp, e.left, depth + 1).value, Offset(e.op, e.right.value));
      } else {
        FrameDeltaMeans(sp, e.right, depth + 1, env);
        DisplaceAgain(env.reg(sp.value), FrameDelta(sp, e.right, depth + 1).value, e.left.value);
      }
    }
  }

  lemma EntryValue(e: Expr, env: Env)
    requires e.EntryReg? && WellTyped(e) && e.width == WORD
    ensures Eval(e, env) == Displace(env.reg(e.reg), 0)
  {}

  lemma OffsetParts(e: Expr, env: Env)
    requires e.Bin? && (e.op.Add? || e.op.Sub?) && WellTyped(e) && e.width == WORD
    ensures WellTyped(e.left) && WellTyped(e.right) && e.left.Width() == WORD && e.right.Width() == WORD
    ensures e.right.Const? ==> Eval(e, env) == Displace(Eval(e.left, env), Offset(e.op, e.right.value))
    ensures e.left.Const? && e.op.Add? ==> Eval(e, env) == Displace(Eval(e.right, env), e.left.value)
  {
    hide Pow2, Bitwise;
  }

  /** What a classified address evaluates to, in any environment with these entry registers. */
  function Located(sp: Option<nat>, info: AddressInfo, reg: nat -> nat): nat {
    match info
    case StackSlot(delta) => if sp.Some? then Displace(reg(sp.value), delta) else 0
    case Global(address) => address % WORD_SIZE
    case Unclassified => 0
  }

  lemma ClassifiedMeans(sp: Option<nat>, e: Expr, env: Env)
    requires WellTyped(e) && e.Width() == WORD && !Classify(sp, e).Unclassified?
    ensures Eval(e, env) == Located(sp, Classify(sp, e), env.reg) && Leaves(e) == {}
    ensures Classify(sp, e).StackSlot? ==> sp.Some?
  {
    hide Pow2, Bitwise;
    if FrameDelta(sp, e, 0).Some? {
      FrameDeltaMeans(sp, e, 0, env);
    } else {
      SmallMod(e.value, WORD_SIZE);
    }
  }

  // ----- what is classified

  /** One literal added on either side or subtracted on the right. */
  datatype Step = Step(op: BinOp, literalOnLeft: bool, literal: nat)

  predicate IsStep(s: Step) {
    (s.op.Add? || (s.op.Sub? && !s.literalOnLeft)) && s.literal < WORD_SIZE
  }

  /** An entry register with the literals added and subtracted one after another. */
  function Stepped(reg: nat, steps: seq<Step>): Expr {
    if steps == [] then EntryReg(WORD, reg) else
    var s, inner := steps[|steps| - 1], Stepped(reg, steps[..|steps| - 1]);
    if s.literalOnLeft then Bin(s.op, WORD, Const(WORD, s.literal), inner)
    else Bin(s.op, WORD, inner, Const(WORD, s.literal))
  }

  function Moved(steps: seq<Step>): int {
    if steps == [] then 0 else Moved(steps[..|steps| - 1]) + Offset(steps[|steps| - 1].op, steps[|steps| - 1].literal)
  }

  /** Up to the depth limit, and no further, such a chain over the stack pointer has a displacement: the sum. */
  lemma {:induction false} SteppedDelta(sp: nat, steps: seq<Step>, depth: nat)
    requires forall s | s in steps :: IsStep(s)
    ensures FrameDelta(Some(sp), Stepped(sp, steps), depth)
            == if depth + |steps| <= 64 then Some(Wrap64(Moved(steps))) else None
    decreases |steps|
  {
    hide Pow2, Wrap64;
    if steps == [] {
      WrapZero();
    } else {
      var s, before := steps[|steps| - 1], steps[..|steps| - 1];
      assert s in steps;
      SteppedDelta(sp, before, depth + 1);
      SteppedIsNoConstant(sp, before);
      WrapAgain(Moved(before), Offset(s.op, s.literal));
    }
  }

  lemma WrapZero()
    ensures Wrap64(0) == 0
  {
    hide Pow2;
    SmallMod(0, WORD_SIZE);
  }

  lemma SteppedIsNoConstant(sp: nat, steps: seq<Step>)
    ensures !Stepped(sp, steps).Const?
  {}

  lemma WrapAgain(x: int, k: int)
    ensures Wrap64(Wrap64(x) + k) == Wrap64(x + k)
  {
    hide Pow2;
    WrapMod(x);
    SumMod(Wrap64(x), k);
    SumMod(x, k);
  }

  /** So up to 64 literals deep an address over the stack pointer is a slot at their sum; over another
      register it is never classified. */
  lemma SteppedSlot(sp: nat, reg: nat, steps: seq<Step>)
    requires forall s | s in steps :: IsStep(s)
    ensures Classify(Some(sp), Stepped(reg, steps))
            == if reg == sp && |steps| <= 64 then StackSlot(Wrap64(Moved(steps))) else Unclassified
  {
    hide Pow2, Wrap64;
    SteppedIsNoConstant(reg, steps);
    if reg == sp {
      SteppedDelta(sp, steps, 0);
    } else {
      OtherRegister(sp, reg, steps, 0);
    }
  }

  lemma {:induction false} OtherRegister(sp: nat, reg: nat, steps: seq<Step>, depth: nat)
    requires reg != sp && forall s | s in steps :: IsStep(s)
    ensures FrameDelta(Some(sp), Stepped(reg, steps), depth) == None
    decreases |steps|
  {
    hide Pow2, Wrap64;
    if steps != [] {
      assert steps[|steps| - 1] in steps;
      OtherRegister(sp, reg, steps[..|steps| - 1], depth + 1);
      SteppedIsNoConstant(reg, steps[..|steps| - 1]);
    }
  }

  /** Across kinds of storage the answer is always `No`, nothing is known of an unclassified address, and
      `Must` is answered exactly for the same bytes, unless they wrap. */
  lemma AliasExactly(a: AddressInfo, sizeA: nat, b: AddressInfo, sizeB: nat)
    requires 1 <= sizeA <= MAX_BYTES && 1 <= sizeB <= MAX_BYTES
    ensures a.Unclassified? || b.Unclassified? ==> AliasOf(a, sizeA, b, sizeB) == May
    ensures (a.StackSlot? && b.Global?) || (a.Global? && b.StackSlot?) ==> AliasOf(a, sizeA, b, sizeB) == No
    ensures AliasOf(a, sizeA, b, sizeB) == Must <==>
              && !a.Unclassified? && !b.Unclassified? && a.StackSlot? == b.StackSlot?
              && sizeA == sizeB && !Wraps(a, sizeA)
              && (if a.StackSlot? then a.delta % WORD_SIZE == b.delta % WORD_SIZE
                  else a.address % WORD_SIZE == b.address % WORD_SIZE)
  {
    hide Pow2;
    WordsAreWide();
    if !a.Unclassified? && !b.Unclassified? {
      EndMod(Base(a), sizeA);
      EndMod(Base(b), sizeB);
    }
  }

  // ----- when the alias answer is right

  /** The access of `n` bytes at `a` reaches the byte at `p`. */
  predicate Touches(a: nat, n: nat, p: nat) {
    (p - a) % WORD_SIZE < n
  }

  ghost predicate Disjoint(a: nat, n: nat, b: nat, m: nat) {
    forall p: nat | p < WORD_SIZE :: !(Touches(a, n, p) && Touches(b, m, p))
  }

  /** The end of the access does not fit a 64-bit word. For a stack slot: it ends at the entry stack
      pointer or crosses it. */
  predicate Wraps(info: AddressInfo, size: nat) {
    Base(info) + size >= WORD_SIZE
  }

  /** Of two accesses to one kind of storage: they share no byte, or neither wraps. */
  ghost predicate RightlyJudged(a: AddressInfo, sizeA: nat, b: AddressInfo, sizeB: nat) {
    !a.Unclassified? && !b.Unclassified? && a.StackSlot? == b.StackSlot? ==>
      Disjoint(Base(a), sizeA, Base(b), sizeB) || (!Wraps(a, sizeA) && !Wraps(b, sizeB))
  }

  lemma TouchesLinear(a: nat, n: nat, p: nat)
    requires a < WORD_SIZE && p < WORD_SIZE && n <= WORD_SIZE
    ensures Touches(a, n, p) <==> a <= p < a + n || p + WORD_SIZE < a + n
  {
    hide Pow2;
    if p >= a { ModUnique(p - a, WORD_SIZE, 0, p - a); } else { ModUnique(p - a, WORD_SIZE, -1, p - a + WORD_SIZE); }
  }

  lemma WordsAreWide()
    ensures WORD_SIZE > 8 * MAX_BYTES
  {
    Pow2Monotone(12, WORD);
    assert Pow2(6) == 64;
    Pow2Add(6, 6);
  }

  /** Within one kind of storage the answer `No` is given exactly when the accesses share no byte, or
      one of them wraps: the answer is wrong for every pair that overlaps and wraps, and only there. */
  lemma NoAliasExactly(a: AddressInfo, sizeA: nat, b: AddressInfo, sizeB: nat)
    requires !a.Unclassified? && a.StackSlot? == b.StackSlot? && !b.Unclassified?
    requires 1 <= sizeA <= MAX_BYTES && 1 <= sizeB <= MAX_BYTES
    ensures AliasOf(a, sizeA, b, sizeB) == No
            <==> Disjoint(Base(a), sizeA, Base(b), sizeB) || Wraps(a, sizeA) || Wraps(b, sizeB)
    ensures (AliasOf(a, sizeA, b, sizeB) == No ==> Disjoint(Base(a), sizeA, Base(b), sizeB)) <==>
            RightlyJudged(a, sizeA, b, sizeB)
  {
    hide Pow2, Touches;
    WordsAreWide();
    var x, y := Base(a), Base(b);
    EndMod(x, sizeA);
    EndMod(y, sizeB);
    if !Wraps(a, sizeA) && !Wraps(b, sizeB) {
      if AliasOf(a, sizeA, b, sizeB) == No {
        forall p: nat | p < WORD_SIZE ensures !(Touches(x, sizeA, p) && Touches(y, sizeB, p)) {
          TouchesLinear(x, sizeA, p);
          TouchesLinear(y, sizeB, p);
        }
      } else {
        var p := if x < y then y else x;
        TouchesLinear(x, sizeA, p);
        TouchesLinear(y, sizeB, p);
      }
    }
  }

  lemma EndMod(x: nat, n: nat)
    requires x < WORD_SIZE && n <= MAX_BYTES
    ensures (x + n) % WORD_SIZE == if x + n >= WORD_SIZE then x + n - WORD_SIZE else x + n
  {
    hide Pow2;
    WordsAreWide();
    ModUnique(x + n, WORD_SIZE, if x + n >= WORD_SIZE then 1 else 0, if x + n >= WORD_SIZE then x + n - WORD_SIZE
      else x + n);
  }

  /** Moving both accesses by the same amount keeps them apart. */
  lemma DisjointMoves(s: nat, d: int, n: nat, e: int, m: nat)
    requires Disjoint(d % WORD_SIZE, n, e % WORD_SIZE, m)
    ensures Disjoint((s + d) % WORD_SIZE, n, (s + e) % WORD_SIZE, m)
  {
    hide Pow2, Touches;
    var a, b := (s + d) % WORD_SIZE, (s + e) % WORD_SIZE;
    forall p: nat | p < WORD_SIZE ensures !(Touches(a, n, p) && Touches(b, m, p)) {
      TouchesMoves(s, d, n, p);
      TouchesMoves(s, e, m, p);
    }
  }

  lemma TouchesMoves(s: nat, d: int, n: nat, p: nat)
    ensures Touches((s + d) % WORD_SIZE, n, p) == Touches(d % WORD_SIZE, n, (p - s) % WORD_SIZE)
  {
    hide Pow2, WORD_SIZE;
    OffsetMoves(s, d, p);
  }

  lemma OffsetMoves(s: int, d: int, p: int)
    ensures (p - (s + d) % WORD_SIZE) % WORD_SIZE == ((p - s) % WORD_SIZE - d % WORD_SIZE) % WORD_SIZE
  {
    hide Pow2;
    DiffMod(p, s + d);
    DiffMod((p - s) % WORD_SIZE, d);
    SumMod(p - s, -d);
    assert p - (s + d) == p - s + -d;
  }

  lemma DiffMod(p: int, x: int)
    ensures (p - x % WORD_SIZE) % WORD_SIZE == (p - x) % WORD_SIZE
  {
    hide Pow2;
    assert x == WORD_SIZE * (x / WORD_SIZE) + x % WORD_SIZE;
    ModAddMultiple(p - x, WORD_SIZE, x / WORD_SIZE);
  }

  /** The answer `No` is right for accesses that do not both overlap and wrap, given that frame and image
      are apart. */
  lemma NoAliasSound(sp: Option<nat>, a: Expr, sizeA: nat, b: Expr, sizeB: nat, envA: Env, envB: Env)
    requires WellTyped(a) && WellTyped(b) && a.Width() == WORD && b.Width() == WORD && envA.reg == envB.reg
    requires MayAlias(sp, a, sizeA, b, sizeB) == No && sizeA <= MAX_BYTES && sizeB <= MAX_BYTES
    requires RightlyJudged(Classify(sp, a), sizeA, Classify(sp, b), sizeB)
    requires Classify(sp, a).StackSlot? != Classify(sp, b).StackSlot? ==>
             Disjoint(Eval(a, envA), sizeA, Eval(b, envB), sizeB)
    ensures Disjoint(Eval(a, envA), sizeA, Eval(b, envB), sizeB)
  {
    hide Pow2, Classify, RightlyJudged, Eval, Touches;
    ClassifiedMeans(sp, a, envA);
    ClassifiedMeans(sp, b, envB);
    if Classify(sp, a).StackSlot? == Classify(sp, b).StackSlot? && sizeA >= 1 && sizeB >= 1 {
      SameKindSound(sp, Classify(sp, a), sizeA, Classify(sp, b), sizeB, envA.reg);
    } else if sizeA == 0 || sizeB == 0 {
      forall p: nat | p < WORD_SIZE ensures !(Touches(Eval(a, envA), sizeA, p) && Touches(Eval(b, envB), sizeB, p)) {
        EmptyTouches(Eval(a, envA), p);
        EmptyTouches(Eval(b, envB), p);
      }
    }
  }

  lemma EmptyTouches(a: nat, p: nat)
    ensures !Touches(a, 0, p)
  {
    hide Pow2;
  }

  lemma SameKindSound(sp: Option<nat>, a: AddressInfo, sizeA: nat, b: AddressInfo, sizeB: nat, reg: nat -> nat)
    requires !a.Unclassified? && !b.Unclassified? && a.StackSlot? == b.StackSlot? && (a.StackSlot? ==> sp.Some?)
    requires AliasOf(a, sizeA, b, sizeB) == No && 1 <= sizeA <= MAX_BYTES && 1 <= sizeB <= MAX_BYTES
    requires RightlyJudged(a, sizeA, b, sizeB)
    ensures Disjoint(Located(sp, a, reg), sizeA, Located(sp, b, reg), sizeB)
  {
    hide Pow2, RightlyJudged, Disjoint, AliasOf;
    NoAliasExactly(a, sizeA, b, sizeB);
    if a.StackSlot? {
      DisjointMoves(reg(sp.value), a.delta, sizeA, b.delta, sizeB);
    }
  }
}
