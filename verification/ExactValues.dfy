/** Every value an index can take, when its structure leaves only a handful. */
module ExactValueSets {
  import opened Bits
  import opened Expressions
  import opened Basics
  import opened BitFactors

  const SET_CAP: nat := 64
  const MAX_DEPTH: nat := 12

  type Values = Option<set<nat>>

  /** The values the function defines, and the incoming arms of those a phi defines. */
  datatype Context = Context(defined: set<nat>, phis: map<nat, seq<Expr>>)

  function UpTo(n: nat): (s: set<nat>)
    ensures forall v: nat :: v in s <==> v <= n
    ensures |s| == n + 1
  {
    if n == 0 then {0} else {n} + UpTo(n - 1)
  }

  /** Every value of a narrow type. */
  function ValuesOfWidth(w: nat): Values {
    if LowMask(w) >= SET_CAP then None else Some(UpTo(LowMask(w)))
  }

  function Capped(s: set<nat>): Values {
    if |s| > SET_CAP then None else Some(s)
  }

  function ShiftedValue(x: nat, k: nat, w: nat): nat {
    (x % Pow2(w)) / Pow2(k)
  }

  function CastValue(c: CastOp, x: nat, from: nat, w: nat): nat
    requires from > 0
  {
    if c.SExt? then ToSigned(x % Pow2(from), from) % Pow2(w) else x % Pow2(w)
  }

  /** An entry register next to a computed arm is dropped. */
  function KeptArms(arms: seq<Expr>): (kept: seq<Expr>)
    ensures forall a :: a in kept <==> a in arms && (a.EntryReg? ==> forall b | b in arms :: b.EntryReg?)
  {
    if exists a :: a in arms && !a.EntryReg? then Computed(arms) else arms
  }

  function Computed(arms: seq<Expr>): (kept: seq<Expr>)
    ensures forall a :: a in kept <==> a in arms && !a.EntryReg?
  {
    if arms == [] then [] else
    (if arms[0].EntryReg? then [] else [arms[0]]) + Computed(arms[1..])
  }

  /** The leaves of a nest of ORs. */
  function OrLeaves(e: Expr): (leaves: seq<Expr>)
    ensures leaves != []
  {
    if e.Bin? && e.op.BitOr? then OrLeaves(e.left) + OrLeaves(e.right) else [e]
  }

  /** The first leaf that reads the same bit as `e` in the opposite sense. */
  function Partner(e: Expr, leaves: seq<Expr>): (j: Option<nat>)
    ensures j.Some? ==> j.value < |leaves| && Complementary(e, leaves[j.value])
    ensures j.None? ==> forall i | 0 <= i < |leaves| :: !Complementary(e, leaves[i])
  {
    if leaves == [] then None
    else if Complementary(e, leaves[0]) then Some(0)
    else
      var rest := Partner(e, leaves[1..]);
      if rest.None? then None else Some(rest.value + 1)
  }

  function Without(leaves: seq<Expr>, j: nat): seq<Expr>
    requires j < |leaves|
  {
    leaves[..j] + leaves[j + 1..]
  }

  /** The value sets of an OR chain's groups, and whether any complementary pair was among them. */
  datatype Groups = Groups(sets: seq<set<nat>>, anyPair: bool)

  function ChainGroups(c: Context, leaves: seq<Expr>, w: nat, depth: nat): Option<Groups>
    requires depth <= MAX_DEPTH
    decreases MAX_DEPTH + 1 - depth, 0, |leaves|
  {
    if leaves == [] then Some(Groups([], false)) else
    var head, tail := leaves[0], leaves[1..];
    var j := Partner(head, tail);
    if j.Some? then
      var pair := JoinPair(BitOr, MatchBitFactor(head).value, MatchBitFactor(tail[j.value]).value, w);
      var rest := ChainGroups(c, Without(tail, j.value), w, depth);
      if rest.None? then None else Some(Groups([pair] + rest.value.sets, true))
    else
      var values := Exact(c, head, depth + 1);
      if values.None? then None else
      var rest := ChainGroups(c, tail, w, depth);
      if rest.None? then None else Some(Groups([values.value] + rest.value.sets, rest.value.anyPair))
  }

  function Cross(op: BinOp, xs: set<nat>, ys: set<nat>, w: nat): set<nat> {
    set x, y | x in xs && y in ys :: Combine(op, x, y, w)
  }

  function FoldGroups(out: set<nat>, sets: seq<set<nat>>, w: nat): Values
    decreases |sets|
  {
    if sets == [] then Capped(out)
    else if |out| * |sets[0]| > SET_CAP then None
    else FoldGroups(Cross(BitOr, out, sets[0], w), sets[1..], w)
  }

  /** Answers for nests of more than two leaves in which some leaf has a partner. */
  function ExactOrChain(c: Context, e: Expr, w: nat, depth: nat): Values
    requires depth <= MAX_DEPTH
    decreases MAX_DEPTH + 1 - depth, 1
  {
    var leaves := OrLeaves(e);
    if |leaves| <= 2 then None else
    var groups := ChainGroups(c, leaves, w, depth);
    if groups.None? || !groups.value.anyPair then None else FoldGroups({0}, groups.value.sets, w)
  }

  /** The union of the arms' values; one arm without an answer leaves the whole without one. */
  function UnionArms(c: Context, arms: seq<Expr>, out: set<nat>, depth: nat): Values
    requires depth <= MAX_DEPTH
    decreases MAX_DEPTH + 1 - depth, 0, |arms|
  {
    if arms == [] then Some(out) else
    var values := Exact(c, arms[0], depth + 1);
    if values.None? || |out + values.value| > SET_CAP then None
    else UnionArms(c, arms[1..], out + values.value, depth)
  }

  /** One arm without an answer that is the other one plus or minus a literal. */
  function ShiftedArm(known: Expr, values: set<nat>, other: Expr, w: nat): Values {
    if other.Bin? && (other.op.Add? || other.op.Sub?) && SameValue(other.left, known) && other.right.Const? then
      Capped(values + set x | x in values :: Combine(other.op, x, other.right.value, w))
    else None
  }

  function ExactBin(c: Context, e: Expr, depth: nat): Values
    requires e.Bin? && !e.op.ShrU? && depth <= MAX_DEPTH
    decreases MAX_DEPTH + 1 - depth, 2
  {
    var chained := if e.op.BitOr? then ExactOrChain(c, e, e.width, depth) else None;
    if chained.Some? then chained
    else if Complementary(e.left, e.right) then
      Some(JoinPair(e.op, MatchBitFactor(e.left).value, MatchBitFactor(e.right).value, e.width))
    else
      var l, r := Exact(c, e.left, depth + 1), Exact(c, e.right, depth + 1);
      if l.None? || r.None? || |l.value| * |r.value| > SET_CAP then None
      else Capped(Cross(e.op, l.value, r.value, e.width))
  }

  function ExactSelect(c: Context, e: Expr, depth: nat): Values
    requires e.Select? && depth <= MAX_DEPTH
    decreases MAX_DEPTH + 1 - depth, 2
  {
    var t, f := Exact(c, e.onTrue, depth + 1), Exact(c, e.onFalse, depth + 1);
    if t.Some? && f.Some? then Capped(t.value + f.value)
    else if t.Some? then ShiftedArm(e.onTrue, t.value, e.onFalse, e.width)
    else if f.Some? then ShiftedArm(e.onFalse, f.value, e.onTrue, e.width)
    else None
  }

  function Exact(c: Context, e: Expr, depth: nat): Values
    requires depth <= MAX_DEPTH + 1
    decreases MAX_DEPTH + 1 - depth, 3
  {
    if depth > MAX_DEPTH then None else
    match e
    case Const(_, v) => Some({v})
    case Cast(k, w, a) =>
      var inner := Exact(c, a, depth + 1);
      if inner.None? then (if k.Trunc? then ValuesOfWidth(w) else None)
      else if a.Width() == 0 then None
      else Some(set x | x in inner.value :: CastValue(k, x, a.Width(), w))
    case Value(w, id) =>
      if id !in c.defined then None
      else if id !in c.phis then ValuesOfWidth(w)
      else UnionArms(c, KeptArms(c.phis[id]), {}, depth)
    case Bin(op, w, l, r) =>
      if op.ShrU? then
        if !r.Const? then None
        else if r.value >= w then Some({0})
        else
          var inner := Exact(c, l, depth + 1);
          if inner.Some? then Some(set x | x in inner.value :: ShiftedValue(x, r.value, w))
          else ValuesOfWidth(w - r.value)
      else ExactBin(c, e, depth)
    case Select(_, _, _, _) => ExactSelect(c, e, depth)
    case _ => ValuesOfWidth(e.Width())
  }

  // ----- at most 64 values

  lemma {:induction false} FoldGroupsSmall(out: set<nat>, sets: seq<set<nat>>, w: nat)
    requires FoldGroups(out, sets, w).Some?
    ensures |FoldGroups(out, sets, w).value| <= SET_CAP
    decreases |sets|
  {
    if sets != [] {
      FoldGroupsSmall(Cross(BitOr, out, sets[0], w), sets[1..], w);
    }
  }

  lemma {:induction false} UnionArmsSmall(c: Context, arms: seq<Expr>, out: set<nat>, depth: nat)
    requires depth <= MAX_DEPTH && |out| <= SET_CAP && UnionArms(c, arms, out, depth).Some?
    ensures |UnionArms(c, arms, out, depth).value| <= SET_CAP
    decreases |arms|
  {
    if arms != [] {
      UnionArmsSmall(c, arms[1..], out + Exact(c, arms[0], depth + 1).value, depth);
    }
  }

  lemma {:induction false} CastImageSmall(c: CastOp, s: set<nat>, from: nat, w: nat)
    requires from > 0
    ensures |set x | x in s :: CastValue(c, x, from, w)| <= |s|
    decreases |s|
  {
    hide CastValue;
    if s != {} {
      var x :| x in s;
      CastImageSmall(c, s - {x}, from, w);
      var image := set y | y in s - {x} :: CastValue(c, y, from, w);
      assert (set y | y in s :: CastValue(c, y, from, w)) == image + {CastValue(c, x, from, w)};
    }
  }

  lemma {:induction false} ShiftImageSmall(s: set<nat>, w: nat, k: nat)
    ensures |set x | x in s :: ShiftedValue(x, k, w)| <= |s|
    decreases |s|
  {
    hide ShiftedValue;
    if s != {} {
      var x :| x in s;
      ShiftImageSmall(s - {x}, w, k);
      var image := set y | y in s - {x} :: ShiftedValue(y, k, w);
      assert (set y | y in s :: ShiftedValue(y, k, w)) == image + {ShiftedValue(x, k, w)};
    }
  }

  /** An answer is never larger than the cap. */
  lemma {:induction false} ExactSmall(c: Context, e: Expr, depth: nat)
    requires depth <= MAX_DEPTH + 1 && Exact(c, e, depth).Some?
    ensures |Exact(c, e, depth).value| <= SET_CAP
    decreases e
  {
    hide Combine, CastValue, ShiftedValue, Bitwise, Pow2, Complementary, MatchBitFactor;
    match e
    case Cast(k, w, a) =>
      if Exact(c, a, depth + 1).Some? {
        ExactSmall(c, a, depth + 1);
        CastImageSmall(k, Exact(c, a, depth + 1).value, a.Width(), w);
      }
    case Value(_, id) =>
      if id in c.phis {
        UnionArmsSmall(c, KeptArms(c.phis[id]), {}, depth);
      }
    case Bin(op, w, l, r) =>
      if op.ShrU? {
        if r.value < w && Exact(c, l, depth + 1).Some? {
          ExactSmall(c, l, depth + 1);
          ShiftImageSmall(Exact(c, l, depth + 1).value, w, r.value);
        }
      } else if op.BitOr? && ExactOrChain(c, e, w, depth).Some? {
        FoldGroupsSmall({0}, ChainGroups(c, OrLeaves(e), w, depth).value.sets, w);
      }
    case _ =>
  }

  // ----- soundness

  ghost predicate Typed(c: Context, widths: nat -> nat) {
    forall id | id in c.phis :: forall a | a in c.phis[id] ::
      WellTyped(a) && ValueWidths(a, widths) && a.Width() == widths(id)
  }

  /** In every environment of the family, a phi holds what one of its kept arms evaluated to in some
      environment of the family: the one on the edge control last came in by. */
  ghost predicate PhisArrive(c: Context, envs: iset<Env>, widths: nat -> nat) {
    forall env, id | env in envs && id in c.phis :: exists a, source :: FromArm(c, envs, widths(id), env, id, a, source)
  }

  ghost predicate FromArm(c: Context, envs: iset<Env>, w: nat, env: Env, id: nat, a: Expr, source: Env) {
    && id in c.phis && a in KeptArms(c.phis[id]) && source in envs
    && WellTyped(a) && a.Width() == w && env.value(id) == Eval(a, source)
  }

  /** The sides of every pair the walk resolves jointly, and of no other, are trusted; where it gives
      no answer nothing is. */
  ghost predicate Trusted(c: Context, e: Expr, depth: nat)
    requires depth <= MAX_DEPTH + 1
    decreases MAX_DEPTH + 1 - depth, 1, 0
  {
    if depth > MAX_DEPTH || Exact(c, e, depth).None? then true else
    match e
    case Cast(_, _, a) => Trusted(c, a, depth + 1)
    case Value(_, id) => id in c.phis ==> forall a | a in KeptArms(c.phis[id]) :: Trusted(c, a, depth + 1)
    case Bin(op, w, l, r) =>
      if op.ShrU? then Trusted(c, l, depth + 1)
      else if op.BitOr? && ExactOrChain(c, e, w, depth).Some? then ChainTrusted(c, OrLeaves(e), depth)
      else if Complementary(l, r) then FactorTrusted(l) && FactorTrusted(r)
      else Trusted(c, l, depth + 1) && Trusted(c, r, depth + 1)
    case Select(_, _, t, f) => Trusted(c, t, depth + 1) && Trusted(c, f, depth + 1)
    case _ => true
  }

  /** Of a chain, each leaf with its partner, or by itself if it has none. */
  ghost predicate ChainTrusted(c: Context, leaves: seq<Expr>, depth: nat)
    requires depth <= MAX_DEPTH
    decreases MAX_DEPTH + 1 - depth, 0, |leaves|
  {
    if leaves == [] then true else
    var head, tail := leaves[0], leaves[1..];
    var j := Partner(head, tail);
    if j.Some? then FactorTrusted(head) && FactorTrusted(tail[j.value])
      && ChainTrusted(c, Without(tail, j.value), depth)
    else Trusted(c, head, depth + 1) && ChainTrusted(c, tail, depth)
  }

  ghost predicate Leaves(leaves: seq<Expr>, w: nat) {
    forall a | a in leaves :: WellTyped(a) && a.Width() == w
  }

  ghost function OrAll(leaves: seq<Expr>, w: nat, env: Env): nat
    requires Leaves(leaves, w)
  {
    if leaves == [] then 0 else Bitwise(Or, Eval(leaves[0], env), OrAll(leaves[1..], w, env))
  }

  lemma {:induction false} OrAllWithin(leaves: seq<Expr>, w: nat, env: Env)
    requires Leaves(leaves, w)
    ensures OrAll(leaves, w, env) < Pow2(w)
    decreases |leaves|
  {
    hide Bitwise;
    if leaves != [] {
      OrAllWithin(leaves[1..], w, env);
      BitwiseWithin(Or, Eval(leaves[0], env), OrAll(leaves[1..], w, env), w);
    }
  }

  lemma {:induction false} OrAllConcat(a: seq<Expr>, b: seq<Expr>, w: nat, env: Env)
    requires Leaves(a, w) && Leaves(b, w)
    ensures Leaves(a + b, w) && OrAll(a + b, w, env) == Bitwise(Or, OrAll(a, w, env), OrAll(b, w, env))
    decreases |a|
  {
    hide Bitwise;
    if a == [] {
      assert a + b == b;
      OrZero(OrAll(b, w, env));
    } else {
      OrAllConcat(a[1..], b, w, env);
      assert (a + b)[1..] == a[1..] + b;
      OrAssociates(Eval(a[0], env), OrAll(a[1..], w, env), OrAll(b, w, env));
    }
  }

  lemma {:induction false} OrAllWithout(leaves: seq<Expr>, j: nat, w: nat, env: Env)
    requires Leaves(leaves, w) && j < |leaves|
    ensures Leaves(Without(leaves, j), w)
    ensures OrAll(leaves, w, env) == Bitwise(Or, Eval(leaves[j], env), OrAll(Without(leaves, j), w, env))
  {
    hide Bitwise, Eval, WellTyped;
    var a, b := leaves[..j], leaves[j + 1..];
    assert leaves == a + ([leaves[j]] + b);
    OrAllConcat(a, [leaves[j]] + b, w, env);
    assert ([leaves[j]] + b)[1..] == b;
    OrAllConcat(a, b, w, env);
    var x, y, z := OrAll(a, w, env), Eval(leaves[j], env), OrAll(b, w, env);
    OrAssociates(x, y, z);
    BitwiseCommutes(Or, x, y);
    OrAssociates(y, x, z);
  }

  /** An OR nest denotes the OR of its leaves. */
  lemma {:induction false} OrLeavesValue(e: Expr, env: Env)
    requires WellTyped(e)
    ensures Leaves(OrLeaves(e), e.Width()) && Eval(e, env) == OrAll(OrLeaves(e), e.Width(), env)
  {
    hide Bitwise;
    if e.Bin? && e.op.BitOr? {
      OrLeavesValue(e.left, env);
      OrLeavesValue(e.right, env);
      OrAllConcat(OrLeaves(e.left), OrLeaves(e.right), e.width, env);
      BitwiseWithin(Or, Eval(e.left, env), Eval(e.right, env), e.width);
      SmallMod(Bitwise(Or, Eval(e.left, env), Eval(e.right, env)), Pow2(e.width));
    } else {
      assert OrLeaves(e)[1..] == [];
      OrZero(Eval(e, env));
    }
  }

  lemma CrossOr(out: set<nat>, group: set<nat>, a: nat, v: nat, w: nat)
    requires a in out && v in group && a < Pow2(w) && v < Pow2(w)
    ensures Bitwise(Or, a, v) in Cross(BitOr, out, group, w) && Bitwise(Or, a, v) < Pow2(w)
  {
    BitwiseWithin(Or, a, v, w);
    SmallMod(Bitwise(Or, a, v), Pow2(w));
    assert Combine(BitOr, a, v, w) == Bitwise(Or, a, v);
  }

  lemma PairOrSound(l: Expr, r: Expr, w: nat, env: Env)
    requires WellTyped(l) && WellTyped(r) && l.Width() == w && r.Width() == w
    requires Complementary(l, r) && FactorTrusted(l) && FactorTrusted(r)
    ensures Bitwise(Or, Eval(l, env), Eval(r, env))
            in JoinPair(BitOr, MatchBitFactor(l).value, MatchBitFactor(r).value, w)
    ensures Bitwise(Or, Eval(l, env), Eval(r, env)) < Pow2(w)
  {
    hide Bitwise, JoinPair, MatchBitFactor, FactorTrusted;
    assert 1 <= w <= WORD;
    PairSound(BitOr, w, l, r, env);
    BitwiseWithin(Or, Eval(l, env), Eval(r, env), w);
    SmallMod(Bitwise(Or, Eval(l, env), Eval(r, env)), Pow2(w));
  }

  /** The leaves of a chain have answers of their own: what the induction on depth provides. */
  ghost predicate LeavesSound(c: Context, leaves: seq<Expr>, w: nat, env: Env, depth: nat)
    requires Leaves(leaves, w) && depth <= MAX_DEPTH
  {
    forall a | a in leaves && Trusted(c, a, depth + 1) && Exact(c, a, depth + 1).Some? ::
      Eval(a, env) in Exact(c, a, depth + 1).value
  }

  lemma {:induction false} ChainSound(c: Context, leaves: seq<Expr>, w: nat, env: Env, depth: nat, out: set<nat>,
      a: nat)
    requires depth <= MAX_DEPTH && Leaves(leaves, w) && ChainTrusted(c, leaves, depth)
             && LeavesSound(c, leaves, w, env, depth)
    requires ChainGroups(c, leaves, w, depth).Some?
             && FoldGroups(out, ChainGroups(c, leaves, w, depth).value.sets, w).Some?
    requires a in out && a < Pow2(w)
    ensures Bitwise(Or, a, OrAll(leaves, w, env))
            in FoldGroups(out, ChainGroups(c, leaves, w, depth).value.sets, w).value
    decreases |leaves|, 0
  {
    hide Bitwise, JoinPair, MatchBitFactor, FactorTrusted, Eval, WellTyped, Exact, Cross, Complementary, Trusted;
    if leaves == [] {
      OrZero(a);
    } else {
      var head, tail := leaves[0], leaves[1..];
      var groups := ChainGroups(c, leaves, w, depth).value.sets;
      var j := Partner(head, tail);
      if j.Some? {
        var rest := Without(tail, j.value);
        OrAllWithout(tail, j.value, w, env);
        assert tail[j.value] in leaves;
        PairOrSound(head, tail[j.value], w, env);
        var v := Bitwise(Or, Eval(head, env), Eval(tail[j.value], env));
        ChainStep(c, rest, w, env, depth, out, a, groups, v);
        OrAssociates(Eval(head, env), Eval(tail[j.value], env), OrAll(rest, w, env));
      } else {
        EvalWithin(head, env, w);
        ChainStep(c, tail, w, env, depth, out, a, groups, Eval(head, env));
      }
    }
  }

  lemma EvalWithin(e: Expr, env: Env, w: nat)
    requires WellTyped(e) && e.Width() == w
    ensures Eval(e, env) < Pow2(w)
  {}

  lemma ChainStep(c: Context, rest: seq<Expr>, w: nat, env: Env, depth: nat, out: set<nat>, a: nat,
      groups: seq<set<nat>>, v: nat)
    requires depth <= MAX_DEPTH && Leaves(rest, w) && ChainTrusted(c, rest, depth)
             && LeavesSound(c, rest, w, env, depth)
    requires groups != [] && ChainGroups(c, rest, w, depth).Some?
             && groups[1..] == ChainGroups(c, rest, w, depth).value.sets
    requires FoldGroups(out, groups, w).Some? && a in out && a < Pow2(w) && v in groups[0] && v < Pow2(w)
    ensures Bitwise(Or, a, Bitwise(Or, v, OrAll(rest, w, env))) in FoldGroups(out, groups, w).value
    decreases |rest|, 1
  {
    hide Bitwise, JoinPair, MatchBitFactor, FactorTrusted, Eval, WellTyped, Exact, Cross, Complementary, ChainGroups,
      Trusted, ChainTrusted;
    CrossOr(out, groups[0], a, v, w);
    ChainSound(c, rest, w, env, depth, Cross(BitOr, out, groups[0], w), Bitwise(Or, a, v));
    OrAssociates(a, v, OrAll(rest, w, env));
  }

  /** What the induction on depth provides for a part: in every environment its value is listed. */
  ghost predicate Listed(c: Context, e: Expr, depth: nat, envs: iset<Env>)
    requires depth <= MAX_DEPTH + 1 && WellTyped(e)
  {
    Exact(c, e, depth).Some? ==> forall env | env in envs :: Eval(e, env) in Exact(c, e, depth).value
  }

  lemma WordsAreMany()
    ensures Pow2(WORD) > 2 * SET_CAP - 1
  {
    Pow2Monotone(7, WORD);
    assert Pow2(7) == 128;
  }

  lemma WidthListed(x: nat, w: nat)
    requires x < Pow2(w) && ValuesOfWidth(w).Some?
    ensures x in ValuesOfWidth(w).value
  {
    hide Pow2;
    WordsAreMany();
  }

  lemma CastIsValue(k: CastOp, w: nat, a: Expr, env: Env)
    requires WellTyped(Cast(k, w, a))
    ensures Eval(Cast(k, w, a), env) == CastValue(k, Eval(a, env), a.Width(), w)
  {
    hide Bitwise;
    var x := Eval(a, env);
    SmallMod(x, Pow2(a.Width()));
    if k.ZExt? {
      Pow2Monotone(a.Width(), w);
      SmallMod(x, Pow2(w));
    }
  }

  lemma CastSound(c: Context, k: CastOp, w: nat, a: Expr, depth: nat, envs: iset<Env>)
    requires depth <= MAX_DEPTH && WellTyped(Cast(k, w, a)) && Listed(c, a, depth + 1, envs)
    ensures Listed(c, Cast(k, w, a), depth, envs)
  {
    hide Bitwise, CastValue, Eval, ValuesOfWidth;
    var e := Cast(k, w, a);
    if Exact(c, e, depth).Some? {
      forall env | env in envs ensures Eval(e, env) in Exact(c, e, depth).value {
        CastIsValue(k, w, a, env);
        EvalWithin(e, env, w);
        if Exact(c, a, depth + 1).None? {
          WidthListed(Eval(e, env), w);
        }
      }
    }
  }

  lemma ShiftSound(c: Context, e: Expr, depth: nat, envs: iset<Env>)
    requires e.Bin? && e.op.ShrU? && depth <= MAX_DEPTH && WellTyped(e) && Listed(c, e.left, depth + 1, envs)
    ensures Listed(c, e, depth, envs)
  {
    hide Bitwise, Eval, ValuesOfWidth, ShiftedValue, Pow2;
    if Exact(c, e, depth).Some? {
      forall env | env in envs ensures Eval(e, env) in Exact(c, e, depth).value {
        ShiftIsValue(e, env);
        if e.right.value < e.width && Exact(c, e.left, depth + 1).None? {
          WidthListed(Eval(e, env), e.width - e.right.value);
        }
      }
    }
  }

  /** A shift right by a literal, and the bits it leaves standing. */
  lemma ShiftIsValue(e: Expr, env: Env)
    requires e.Bin? && e.op.ShrU? && WellTyped(e)
    ensures e.right.Const? && e.right.value >= e.width ==> Eval(e, env) == 0
    ensures e.right.Const? && e.right.value < e.width ==>
              Eval(e, env) == ShiftedValue(Eval(e.left, env), e.right.value, e.width)
              && Eval(e, env) < Pow2(e.width - e.right.value)
  {
    hide Bitwise;
    if e.right.Const? && e.right.value < e.width {
      var x, k := Eval(e.left, env), e.right.value;
      SmallMod(x, Pow2(e.width));
      Pow2Add(e.width - k, k);
      QuotientBelow(x, Pow2(k), Pow2(e.width - k));
    }
  }

  lemma QuotientBelow(x: nat, d: nat, q: nat)
    requires d > 0 && x < q * d
    ensures x / d < q
  {
    assert x == (x / d) * d + x % d;
    if x / d >= q {
      TimesMonotone(q, x / d, d);
    }
  }

  lemma {:induction false} TimesMonotone(a: nat, b: nat, d: nat)
    requires a <= b
    ensures a * d <= b * d
    decreases b - a
  {
    if a < b { TimesMonotone(a + 1, b, d); }
  }

  lemma {:induction false} ArmsSound(c: Context, arms: seq<Expr>, out: set<nat>, depth: nat, envs: iset<Env>)
    requires depth <= MAX_DEPTH && UnionArms(c, arms, out, depth).Some?
    requires forall a | a in arms :: WellTyped(a) && Listed(c, a, depth + 1, envs)
    ensures out <= UnionArms(c, arms, out, depth).value
    ensures forall a, env | a in arms && env in envs :: Eval(a, env) in UnionArms(c, arms, out, depth).value
    decreases |arms|
  {
    hide Eval, WellTyped, Exact;
    if arms != [] {
      var values := Exact(c, arms[0], depth + 1).value;
      ArmsSound(c, arms[1..], out + values, depth, envs);
      forall a, env | a in arms && env in envs ensures Eval(a, env) in UnionArms(c, arms, out, depth).value {
        if a == arms[0] {
          assert Eval(a, env) in values;
        } else {
          assert a in arms[1..];
        }
      }
    }
  }

  lemma Arrival(c: Context, envs: iset<Env>, widths: nat -> nat, env: Env, id: nat) returns (a: Expr, source: Env)
    requires id in c.phis && env in envs && PhisArrive(c, envs, widths)
    ensures FromArm(c, envs, widths(id), env, id, a, source)
  {
    hide FromArm;
    a, source :| FromArm(c, envs, widths(id), env, id, a, source);
  }

  ghost predicate PhiIn(c: Context, id: nat, w: nat, depth: nat, env: Env)
    requires depth <= MAX_DEPTH && id in c.phis
  {
    UnionArms(c, KeptArms(c.phis[id]), {}, depth).Some? ==>
      env.value(id) % Pow2(w) in UnionArms(c, KeptArms(c.phis[id]), {}, depth).value
  }

  lemma PhiListed(c: Context, w: nat, id: nat, depth: nat, envs: iset<Env>, env: Env, a: Expr, source: Env)
    requires depth <= MAX_DEPTH && id in c.phis && FromArm(c, envs, w, env, id, a, source)
    requires forall a | a in KeptArms(c.phis[id]) :: WellTyped(a) && Listed(c, a, depth + 1, envs)
    ensures PhiIn(c, id, w, depth, env)
  {
    hide KeptArms, UnionArms, Exact, Listed, Pow2, WellTyped, Eval;
    if UnionArms(c, KeptArms(c.phis[id]), {}, depth).Some? {
      ArmsSound(c, KeptArms(c.phis[id]), {}, depth, envs);
      EvalWithin(a, source, w);
      SmallMod(Eval(a, source), Pow2(w));
    }
  }

  lemma ValueSound(c: Context, w: nat, id: nat, depth: nat, envs: iset<Env>, widths: nat -> nat)
    requires depth <= MAX_DEPTH && WellTyped(Value(w, id)) && w == widths(id)
    requires Typed(c, widths) && PhisArrive(c, envs, widths)
    requires id in c.phis ==> forall a | a in KeptArms(c.phis[id]) :: WellTyped(a) && Listed(c, a, depth + 1, envs)
    ensures Listed(c, Value(w, id), depth, envs)
  {
    hide ValuesOfWidth, Pow2, PhisArrive, Typed, KeptArms, UnionArms;
    var e := Value(w, id);
    if Exact(c, e, depth).Some? {
      forall env | env in envs ensures Eval(e, env) in Exact(c, e, depth).value {
        if id in c.phis {
          var a, source := Arrival(c, envs, widths, env, id);
          PhiListed(c, w, id, depth, envs, env, a, source);
        } else {
          WidthListed(Eval(e, env), w);
        }
      }
    }
  }

  lemma SelectSound(c: Context, e: Expr, depth: nat, envs: iset<Env>, widths: nat -> nat)
    requires e.Select? && depth <= MAX_DEPTH && WellTyped(e) && ValueWidths(e, widths)
    requires Listed(c, e.onTrue, depth + 1, envs) && Listed(c, e.onFalse, depth + 1, envs)
    ensures Listed(c, e, depth, envs)
  {
    hide Pow2, Bitwise, Combine;
    assert Exact(c, e, depth) == ExactSelect(c, e, depth);
    if Exact(c, e, depth).Some? {
      forall env | env in envs ensures Eval(e, env) in Exact(c, e, depth).value {
        var t, f := Exact(c, e.onTrue, depth + 1), Exact(c, e.onFalse, depth + 1);
        if t.Some? && f.None? {
          ShiftedArmSound(e.onTrue, t.value, e.onFalse, e.width, env, widths);
        } else if t.None? && f.Some? {
          ShiftedArmSound(e.onFalse, f.value, e.onTrue, e.width, env, widths);
        }
      }
    }
  }

  lemma ShiftedArmSound(known: Expr, values: set<nat>, other: Expr, w: nat, env: Env, widths: nat -> nat)
    requires WellTyped(known) && WellTyped(other) && other.Width() == w && known.Width() == w
    requires ValueWidths(known, widths) && ValueWidths(other, widths)
    requires Eval(known, env) in values && ShiftedArm(known, values, other, w).Some?
    ensures Eval(known, env) in ShiftedArm(known, values, other, w).value
    ensures Eval(other, env) in ShiftedArm(known, values, other, w).value
  {
    hide Pow2, Bitwise, Combine, SameValue;
    SameValueIsEqual(other.left, known, env, widths);
    CombineIsApply(other.op, Eval(known, env), other.right.value, w);
    assert Eval(other, env) == Combine(other.op, Eval(known, env), other.right.value, w);
  }

  /** On values of the width, combining 64-bit words and keeping the low bits is the operation. */
  lemma CombineIsApply(op: BinOp, a: nat, b: nat, w: nat)
    requires 1 <= w <= WORD && a < Pow2(w) && b < Pow2(w) && !op.ShrU?
    ensures Combine(op, a, b, w) == Apply(op, a, b, w)
  {
    hide Pow2, Bitwise;
    SmallMod(a, Pow2(w));
    SmallMod(b, Pow2(w));
    if op.Shl? {
      if b < w { WordMod(a * Pow2(b), w); }
    } else {
      hide Combine, Apply;
      CombineNarrow(op, a, b, w);
    }
  }

  lemma PairListed(c: Context, e: Expr, depth: nat, env: Env)
    requires e.Bin? && !e.op.ShrU? && WellTyped(e) && Complementary(e.left, e.right)
    requires FactorTrusted(e.left) && FactorTrusted(e.right)
    ensures Eval(e, env) in JoinPair(e.op, MatchBitFactor(e.left).value, MatchBitFactor(e.right).value, e.width)
  {
    hide JoinPair, MatchBitFactor, FactorTrusted, Eval, Bitwise;
    PairSound(e.op, e.width, e.left, e.right, env);
  }

  lemma CrossListed(e: Expr, ls: set<nat>, rs: set<nat>, env: Env)
    requires e.Bin? && !e.op.ShrU? && WellTyped(e) && Eval(e.left, env) in ls && Eval(e.right, env) in rs
    ensures Eval(e, env) in Cross(e.op, ls, rs, e.width)
  {
    hide Bitwise, Combine, Apply, Pow2;
    CombineIsApply(e.op, Eval(e.left, env), Eval(e.right, env), e.width);
  }

  lemma ChainListed(c: Context, e: Expr, depth: nat, envs: iset<Env>, env: Env)
    requires depth <= MAX_DEPTH && e.Bin? && e.op.BitOr? && WellTyped(e) && env in envs
    requires ExactOrChain(c, e, e.width, depth).Some? && ChainTrusted(c, OrLeaves(e), depth)
    requires forall a | a in OrLeaves(e) && Trusted(c, a, depth + 1) :: WellTyped(a) && Listed(c, a, depth + 1, envs)
    ensures Eval(e, env) in ExactOrChain(c, e, e.width, depth).value
  {
    hide Bitwise, Eval, ChainGroups, FoldGroups, Exact, ChainTrusted, Trusted, OrLeaves, WellTyped;
    OrLeavesValue(e, env);
    OrAllWithin(OrLeaves(e), e.Width(), env);
    ChainSound(c, OrLeaves(e), e.Width(), env, depth, {0}, 0);
    OrZero(OrAll(OrLeaves(e), e.Width(), env));
  }

  lemma BinSound(c: Context, e: Expr, depth: nat, envs: iset<Env>)
    requires depth <= MAX_DEPTH && e.Bin? && !e.op.ShrU? && WellTyped(e)
    requires Trusted(c, e, depth)
    requires Trusted(c, e.left, depth + 1) ==> Listed(c, e.left, depth + 1, envs)
    requires Trusted(c, e.right, depth + 1) ==> Listed(c, e.right, depth + 1, envs)
    requires e.op.BitOr? ==> forall a | a in OrLeaves(e) && Trusted(c, a, depth + 1) ::
             WellTyped(a) && Listed(c, a, depth + 1, envs)
    ensures Listed(c, e, depth, envs)
  {
    hide Bitwise, Eval, JoinPair, Cross, Complementary, FactorTrusted, ChainTrusted, OrLeaves, ExactOrChain;
    assert Exact(c, e, depth) == ExactBin(c, e, depth);
    if Exact(c, e, depth).Some? {
      forall env | env in envs ensures Eval(e, env) in Exact(c, e, depth).value {
        if e.op.BitOr? && ExactOrChain(c, e, e.width, depth).Some? {
          ChainListed(c, e, depth, envs, env);
        } else if Complementary(e.left, e.right) {
          PairListed(c, e, depth, env);
        } else {
          CrossListed(e, Exact(c, e.left, depth + 1).value, Exact(c, e.right, depth + 1).value, env);
        }
      }
    }
  }

  lemma {:induction false} LeavesTyped(e: Expr, widths: nat -> nat)
    requires WellTyped(e) && ValueWidths(e, widths)
    ensures forall a | a in OrLeaves(e) :: WellTyped(a) && ValueWidths(a, widths)
  {
    if e.Bin? && e.op.BitOr? {
      LeavesTyped(e.left, widths);
      LeavesTyped(e.right, widths);
    }
  }

  /** The value an expression has, in any environment of the family, is among those listed for it. */
  lemma {:induction false} ExactSound(c: Context, e: Expr, depth: nat, envs: iset<Env>, widths: nat -> nat)
    requires depth <= MAX_DEPTH + 1 && WellTyped(e) && ValueWidths(e, widths)
    requires Typed(c, widths) && PhisArrive(c, envs, widths) && Trusted(c, e, depth)
    ensures Listed(c, e, depth, envs)
    decreases MAX_DEPTH + 1 - depth, 1
  {
    hide Bitwise, Listed, FactorTrusted, ChainTrusted, OrLeaves, Pow2, PhisArrive, Typed, KeptArms, Complementary,
      ExactOrChain;
    if Exact(c, e, depth).None? {
      NothingListed(c, e, depth, envs);
    } else {
      match e
      case Cast(k, w, a) =>
        ExactSound(c, a, depth + 1, envs, widths);
        CastSound(c, k, w, a, depth, envs);
      case Value(w, id) =>
        if id in c.phis {
          forall a | a in KeptArms(c.phis[id]) ensures WellTyped(a) && Listed(c, a, depth + 1, envs) {
            ArmTyped(c, id, a, widths);
            ExactSound(c, a, depth + 1, envs, widths);
          }
        }
        ValueSound(c, w, id, depth, envs, widths);
      case Bin(op, _, l, _) =>
        if op.ShrU? {
          ExactSound(c, l, depth + 1, envs, widths);
          ShiftSound(c, e, depth, envs);
        } else {
          CombinedSound(c, e, depth, envs, widths);
        }
      case Select(_, _, t, f) =>
        ExactSound(c, t, depth + 1, envs, widths);
        ExactSound(c, f, depth + 1, envs, widths);
        SelectSound(c, e, depth, envs, widths);
      case _ =>
        LeafSound(c, e, depth, envs);
    }
  }

  lemma CombinedSound(c: Context, e: Expr, depth: nat, envs: iset<Env>, widths: nat -> nat)
    requires depth <= MAX_DEPTH && e.Bin? && !e.op.ShrU? && WellTyped(e) && ValueWidths(e, widths)
    requires Typed(c, widths) && PhisArrive(c, envs, widths) && Trusted(c, e, depth)
    ensures Listed(c, e, depth, envs)
    decreases MAX_DEPTH + 1 - depth, 0
  {
    hide Bitwise, Listed, Trusted, OrLeaves, Pow2, PhisArrive, Typed, Exact, ExactOrChain;
    if Trusted(c, e.left, depth + 1) {
      ExactSound(c, e.left, depth + 1, envs, widths);
    }
    if Trusted(c, e.right, depth + 1) {
      ExactSound(c, e.right, depth + 1, envs, widths);
    }
    if e.op.BitOr? {
      LeavesTyped(e, widths);
      forall a | a in OrLeaves(e) && Trusted(c, a, depth + 1) ensures WellTyped(a) && Listed(c, a, depth + 1, envs) {
        ExactSound(c, a, depth + 1, envs, widths);
      }
    }
    BinSound(c, e, depth, envs);
  }

  lemma NothingListed(c: Context, e: Expr, depth: nat, envs: iset<Env>)
    requires depth <= MAX_DEPTH + 1 && WellTyped(e) && Exact(c, e, depth).None?
    ensures Listed(c, e, depth, envs)
  {}

  lemma ArmTyped(c: Context, id: nat, a: Expr, widths: nat -> nat)
    requires Typed(c, widths) && id in c.phis && a in KeptArms(c.phis[id])
    ensures WellTyped(a) && ValueWidths(a, widths)
  {
    assert a in c.phis[id];
  }

  lemma LeafSound(c: Context, e: Expr, depth: nat, envs: iset<Env>)
    requires depth <= MAX_DEPTH && WellTyped(e) && !e.Cast? && !e.Value? && !e.Bin? && !e.Select?
    ensures Listed(c, e, depth, envs)
  {
    hide Pow2, Bitwise, ValuesOfWidth;
    if Exact(c, e, depth).Some? && !e.Const? {
      forall env | env in envs ensures Eval(e, env) in Exact(c, e, depth).value {
        EvalWithin(e, env, e.Width());
        WidthListed(Eval(e, env), e.Width());
      }
    }
  }

  // ----- a dropped arm

  lemma {:induction false} SomeValueUnlisted(s: set<nat>, n: nat)
    requires |s| < n
    ensures exists v: nat :: v < n && v !in s
    decreases n
  {
    if n - 1 in s {
      SomeValueUnlisted(s - {n - 1}, n - 1);
      var v: nat :| v < n - 1 && v !in s - {n - 1};
      assert v < n && v !in s;
    } else {
      assert n - 1 < n && n - 1 !in s;
    }
  }

  /** The phi arrives by the entry-register arm holding what the answer does not list. */
  ghost predicate ArrivesUnlisted(values: set<nat>, id: nat, w: nat, reg: nat, env: Env)
    requires 1 <= w <= WORD
  {
    env.value(id) == Eval(EntryReg(w, reg), env) && Eval(Value(w, id), env) !in values
  }

  /** Dropping an entry register next to a computed arm loses a value exactly when the remaining arms
      leave some value of the width out: always, when the phi is wider than the cap. */
  lemma DroppedArmFails(c: Context, id: nat, w: nat, depth: nat, reg: nat)
    requires 1 <= w <= WORD && depth <= MAX_DEPTH && id in c.phis
    requires EntryReg(w, reg) in c.phis[id] && (exists a :: a in c.phis[id] && !a.EntryReg?)
    requires Exact(c, Value(w, id), depth).Some?
    ensures var values := Exact(c, Value(w, id), depth).value;
            && ((exists env: Env :: ArrivesUnlisted(values, id, w, reg, env)) <==>
                 exists v: nat :: v < Pow2(w) && v !in values)
            && (w >= 7 ==> exists env: Env :: ArrivesUnlisted(values, id, w, reg, env))
  {
    hide Bitwise, Exact, Pow2;
    var values := Exact(c, Value(w, id), depth).value;
    if w >= 7 {
      ExactSmall(c, Value(w, id), depth);
      Pow2Monotone(7, w);
      WordsOfSeven();
      SomeValueUnlisted(values, Pow2(w));
    }
    if v: nat :| v < Pow2(w) && v !in values {
      var env := Env((_: nat) => v, (_: nat) => v, (_: nat, _: seq<nat>) => 0);
      SmallMod(v, Pow2(w));
      assert ArrivesUnlisted(values, id, w, reg, env);
    }
    if env: Env :| ArrivesUnlisted(values, id, w, reg, env) {
      EvalWithin(Value(w, id), env, w);
    }
  }

  lemma WordsOfSeven()
    ensures Pow2(7) == 128
  {}
}
