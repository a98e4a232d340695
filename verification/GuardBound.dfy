/** The bound a dominating branch proves on an index, on every run that reaches the dispatch. */
module GuardBounds {
  import opened Graphs
  import opened Expressions
  import opened Basics
  import opened Bits
  import LB = LocalBounds
  import DQ = DominatorQueries

  datatype Terminator = CondBranch(cond: Expr, targets: seq<nat>) | OtherEnd

  /** A function as the climb sees it: its graph, how each block ends, and where each value is defined. */
  datatype Function = Function(g: Graph, ends: seq<Terminator>, def: nat -> nat, widths: nat -> nat) {

    ghost predicate Valid() {
      && g.Valid() && |ends| == g.n
      && (forall b: nat | b < g.n && ends[b].CondBranch? ::
            g.succ[b] == ends[b].targets && WellTyped(ends[b].cond) && ValueWidths(ends[b].cond, widths))
    }

    /** Definitions dominate the branches that use them. */
    ghost predicate Ssa() {
      forall b: nat, v: nat | b < |ends| && ends[b].CondBranch? && Reachable(g, b) && v in Values(ends[b].cond) ::
        Dominates(g, def(v), b)
    }
  }

  ghost function Values(e: Expr): set<nat> {
    match e
    case Const(_, _) => {}
    case Value(_, id) => {id}
    case EntryReg(_, _) => {}
    case Cast(_, _, a) => Values(a)
    case Not(_, a) => Values(a)
    case Bin(_, _, l, r) => Values(l) + Values(r)
    case Cmp(_, l, r) => Values(l) + Values(r)
    case Select(_, c, t, f) => Values(c) + Values(t) + Values(f)
    case Other(_, _, args) => set a, v | a in args && v in Values(a) :: v
  }

  // ----- runs

  /** Entering a block redefines only the values it defines. */
  ghost predicate Enters(f: Function, b: nat, before: Env, after: Env) {
    && after.reg == before.reg && after.other == before.other
    && (forall v: nat | f.def(v) != b :: after.value(v) == before.value(v))
  }

  /** A conditional branch goes to its first target when its condition holds, else to its second. */
  ghost predicate Follows(f: Function, b: nat, env: Env, next: nat)
    requires f.Valid() && b < f.g.n
  {
    f.ends[b].CondBranch? && |f.ends[b].targets| == 2 ==>
      next == if Eval(f.ends[b].cond, env) != 0 then f.ends[b].targets[0] else f.ends[b].targets[1]
  }

  /** `envs[i]` holds at the end of `blocks[i]`. */
  ghost predicate Run(f: Function, blocks: seq<nat>, envs: seq<Env>)
    requires f.Valid()
  {
    && IsPath(f.g, blocks) && blocks[0] == f.g.entry && |envs| == |blocks|
    && (forall i, j | 0 <= i < j < |blocks| && j == i + 1 ::
          Follows(f, blocks[i], envs[i], blocks[j]) && Enters(f, blocks[j], envs[i], envs[j]))
  }

  lemma {:induction false} SameLeaves(e: Expr, a: Env, b: Env)
    requires WellTyped(e) && a.reg == b.reg && a.other == b.other
    requires forall v | v in Values(e) :: a.value(v) == b.value(v)
    ensures Eval(e, a) == Eval(e, b)
  {
    match e
    case Cast(_, _, x) => SameLeaves(x, a, b);
    case Not(_, x) => SameLeaves(x, a, b);
    case Bin(_, _, l, r) => SameLeaves(l, a, b); SameLeaves(r, a, b);
    case Cmp(_, l, r) => SameLeaves(l, a, b); SameLeaves(r, a, b);
    case Select(_, c, t, f) => SameLeaves(c, a, b); SameLeaves(t, a, b); SameLeaves(f, a, b);
    case Other(_, id, args) =>
      forall i | 0 <= i < |args| ensures Eval(args[i], a) == Eval(args[i], b) {
        assert args[i] in args;
        SameLeaves(args[i], a, b);
      }
      assert seq(|args|, i requires 0 <= i < |args| => Eval(args[i], a))
        == seq(|args|, i requires 0 <= i < |args| => Eval(args[i], b));
    case _ =>
  }

  /** Over a stretch of a run that defines none of its values, an expression keeps its value. */
  lemma {:induction false} Unredefined(f: Function, blocks: seq<nat>, envs: seq<Env>, e: Expr, i: nat, j: nat)
    requires f.Valid() && Run(f, blocks, envs) && WellTyped(e) && i <= j < |blocks|
    requires forall k, v | i < k <= j && v in Values(e) :: f.def(v) != blocks[k]
    ensures Eval(e, envs[i]) == Eval(e, envs[j])
    decreases j - i
  {
    if i < j {
      Unredefined(f, blocks, envs, e, i, j - 1);
      assert Enters(f, blocks[j], envs[j - 1], envs[j]);
      SameLeaves(e, envs[j - 1], envs[j]);
    }
  }

  // ----- the edge every path takes

  /** Every path to a block can be cut short at its first visit. */
  lemma FirstVisit(g: Graph, b: nat) returns (p: seq<nat>)
    requires Reachable(g, b)
    ensures PathFrom(g, g.entry, b, p) && forall i | 0 <= i < |p| - 1 :: p[i] != b
  {
    p :| PathFrom(g, g.entry, b, p);
    while exists i :: 0 <= i < |p| - 1 && p[i] == b
      invariant PathFrom(g, g.entry, b, p)
      decreases |p|
    {
      var i :| 0 <= i < |p| - 1 && p[i] == b;
      PrefixPath(g, g.entry, b, p, i);
      p := p[..i + 1];
    }
  }

  lemma DominatesAntisym(g: Graph, a: nat, b: nat)
    requires Reachable(g, b) && Dominates(g, a, b) && Dominates(g, b, a)
    ensures a == b
  {
    var p := FirstVisit(g, b);
    var i :| 0 <= i < |p| && p[i] == a;
    PrefixPath(g, g.entry, b, p, i);
    assert b in p[..i + 1];
  }

  /** Dominance as the object answers it: an unreachable block has only itself above it. */
  ghost predicate Above(g: Graph, a: nat, b: nat) {
    if Reachable(g, b) then Dominates(g, a, b) else a == b
  }

  /** The only way into `via` is from `from`, and every path to `reached` passes `via`. */
  ghost predicate EdgeDominates(g: Graph, from: nat, via: nat, reached: nat) {
    && Above(g, via, reached) && via < |g.pred| && g.pred[via] != []
    && (forall p | p in g.pred[via] :: p == from)
  }

  ghost predicate TakesEdge(p: seq<nat>, from: nat, via: nat, i: nat) {
    i + 1 < |p| && p[i] == from && p[i + 1] == via
  }

  lemma IntoVia(g: Graph, from: nat, via: nat, reached: nat, p: seq<nat>, k: nat)
    requires g.Valid() && EdgeDominates(g, from, via, reached) && IsPath(g, p) && 0 < k < |p| && p[k] == via
    ensures TakesEdge(p, from, via, k - 1)
  {
    assert g.Edge(p[k - 1], p[k]);
  }

  /** A block that dominates the guard has a path to it on which `via` has not been entered. */
  lemma PathBeforeVia(g: Graph, from: nat, via: nat, reached: nat, x: nat) returns (p: seq<nat>)
    requires g.Valid() && EdgeDominates(g, from, via, reached) && via != g.entry
    requires Reachable(g, from) && Dominates(g, x, from)
    ensures PathFrom(g, g.entry, x, p) && via !in p
  {
    var q := FirstVisit(g, from);
    var i :| 0 <= i < |q| && q[i] == x;
    PrefixPath(g, g.entry, from, q, i);
    p := q[..i + 1];
    if via in p {
      var k :| 0 <= k < |p| && p[k] == via;
      IntoVia(g, from, via, reached, q, k);
      assert false;
    }
  }

  /** After its last pass over the edge, a path to `reached` meets no block that dominates the guard. */
  lemma NoDefinitionAfter(g: Graph, from: nat, via: nat, reached: nat, p: seq<nat>, i: nat, j: nat)
    requires g.Valid() && EdgeDominates(g, from, via, reached) && via != g.entry
    requires PathFrom(g, g.entry, reached, p) && TakesEdge(p, from, via, i) && forall k | i < k < |p| ::
             !TakesEdge(p, from, via, k)
    requires i < j < |p|
    ensures !Dominates(g, p[j], from)
  {
    if Dominates(g, p[j], from) {
      PrefixPath(g, g.entry, reached, p, i);
      var q := PathBeforeVia(g, from, via, reached, p[j]);
      SuffixPath(g, g.entry, reached, p, j);
      ConcatPath(g, g.entry, p[j], reached, q, p[j..]);
      var r := q + p[j..][1..];
      assert via in r;
      var k :| 0 <= k < |r| && r[k] == via;
      assert k >= |q|;
      assert p[j + 1 + k - |q|] == via;
      IntoVia(g, from, via, reached, p, j + 1 + k - |q|);
      assert false;
    }
  }

  /** Away from the function's entry, every path to `reached` has a last pass over the edge. */
  lemma LastPass(g: Graph, from: nat, via: nat, reached: nat, p: seq<nat>) returns (i: nat)
    requires g.Valid() && EdgeDominates(g, from, via, reached) && via != g.entry && PathFrom(g, g.entry, reached, p)
    ensures TakesEdge(p, from, via, i) && forall k | i < k < |p| :: !TakesEdge(p, from, via, k)
  {
    var k :| 0 <= k < |p| && p[k] == via;
    IntoVia(g, from, via, reached, p, k);
    i := k - 1;
    while exists j :: i < j < |p| && TakesEdge(p, from, via, j)
      invariant TakesEdge(p, from, via, i)
      decreases |p| - i
    {
      var j :| i < j < |p| && TakesEdge(p, from, via, j);
      i := j;
    }
  }

  /** The test the climb uses is right exactly when the edge does not lead back to the function's
      entry, which is reached first without taking any edge. */
  lemma EdgeDominatesExactly(g: Graph, from: nat, via: nat, reached: nat)
    requires g.Valid() && EdgeDominates(g, from, via, reached) && Reachable(g, reached)
    ensures (forall p | PathFrom(g, g.entry, reached, p) :: exists i :: TakesEdge(p, from, via, i)) <==> via != g.entry
  {
    if via != g.entry {
      forall p | PathFrom(g, g.entry, reached, p) ensures exists i :: TakesEdge(p, from, via, i) {
        var i := LastPass(g, from, via, reached, p);
      }
    } else {
      var p := FirstFromEntry(g, reached);
      forall i ensures !TakesEdge(p, from, via, i) {}
    }
  }

  /** Every reachable block has a path that does not come back to the entry. */
  lemma FirstFromEntry(g: Graph, b: nat) returns (p: seq<nat>)
    requires Reachable(g, b)
    ensures PathFrom(g, g.entry, b, p) && forall i | 0 < i < |p| :: p[i] != g.entry
  {
    p :| PathFrom(g, g.entry, b, p);
    while exists i :: 0 < i < |p| && p[i] == g.entry
      invariant PathFrom(g, g.entry, b, p)
      decreases |p|
    {
      var i :| 0 < i < |p| && p[i] == g.entry;
      SuffixPath(g, g.entry, b, p, i);
      p := p[i..];
    }
  }

  // ----- the climb

  method TestEdge(f: Function, dominators: DQ.Dominators, from: nat, via: nat, reached: nat) returns (r: bool)
    requires f.Valid() && dominators.Valid() && dominators.g == f.g && via < f.g.n
    ensures r <==> EdgeDominates(f.g, from, via, reached)
  {
    hide Dominates, DQ.Dominators.Valid;
    if Reachable(f.g, reached) && Dominates(f.g, via, reached) {
      DominatorIsReachable(f.g, via, reached);
    }
    DominatesItself(f.g, reached);
    r := dominators.IsDominator(via, reached);
    if !r {
      return;
    }
    var preds := f.g.pred[via];
    if preds == [] {
      return false;
    }
    for k := 0 to |preds|
      invariant forall p | p in preds[..k] :: p == from
    {
      if preds[k] != from {
        assert preds[k] in preds;
        return false;
      }
      assert preds[..k + 1] == preds[..k] + [preds[k]];
    }
    assert preds[..|preds|] == preds;
  }

  lemma DominatorIsReachable(g: Graph, a: nat, b: nat)
    requires Reachable(g, b) && Dominates(g, a, b)
    ensures Reachable(g, a)
  {
    var p :| PathFrom(g, g.entry, b, p);
    var i :| 0 <= i < |p| && p[i] == a;
    PrefixPath(g, g.entry, b, p, i);
  }

  /** Which edge of the block is the only way to `reached`, when exactly one passes the test. */
  method GuardedEdge(f: Function, dominators: DQ.Dominators, block: nat, reached: nat) returns (r: Option<bool>)
    requires f.Valid() && dominators.Valid() && dominators.g == f.g && block < f.g.n
    ensures forall onTrueEdge :: r == Some(onTrueEdge) <==> Guards(f, block, onTrueEdge, reached)
  {
    hide Dominates, DQ.Dominators.Valid, EdgeDominates;
    if !f.ends[block].CondBranch? || |f.ends[block].targets| != 2 {
      return None;
    }
    var targets := f.ends[block].targets;
    TargetsInRange(f, block);
    assert targets[0] in targets && targets[1] in targets;
    var viaTrue := TestEdge(f, dominators, block, targets[0], reached);
    var viaFalse := TestEdge(f, dominators, block, targets[1], reached);
    if viaTrue == viaFalse {
      return None;
    }
    r := Some(viaTrue);
  }

  ghost predicate Guards(f: Function, block: nat, onTrueEdge: bool, reached: nat)
    requires f.Valid() && block < f.g.n
  {
    && f.ends[block].CondBranch? && |f.ends[block].targets| == 2
    && EdgeDominates(f.g, block, f.ends[block].targets[0], reached) == onTrueEdge
    && EdgeDominates(f.g, block, f.ends[block].targets[1], reached) == !onTrueEdge
  }

  lemma TargetsInRange(f: Function, block: nat)
    requires f.Valid() && block < f.g.n && f.ends[block].CondBranch?
    ensures forall t | t in f.ends[block].targets :: t < f.g.n
  {
    forall t | t in f.ends[block].targets ensures t < f.g.n {
      assert f.g.Edge(block, t);
    }
  }

  /** The block the edge of a guard leads to. */
  ghost function Via(f: Function, block: nat, onTrueEdge: bool): nat
    requires f.Valid() && block < f.g.n && f.ends[block].CondBranch? && |f.ends[block].targets| == 2
  {
    f.ends[block].targets[if onTrueEdge then 0 else 1]
  }

  /** A run of the function that ends at the dispatch. */
  ghost predicate Arrives(f: Function, blocks: seq<nat>, envs: seq<Env>, dispatch: nat)
    requires f.Valid()
  {
    Run(f, blocks, envs) && blocks[|blocks| - 1] == dispatch
  }

  /** `bound` is a bound on the index at the end of the dispatch block, on every run that gets there. */
  ghost predicate Bounds(f: Function, dispatch: nat, index: Expr, bound: nat)
    requires f.Valid() && WellTyped(index)
  {
    forall blocks: seq<nat>, envs: seq<Env> | Arrives(f, blocks, envs, dispatch) ::
      Eval(index, envs[|blocks| - 1]) <= bound
  }

  /** The same, for the runs on which what the index's own structure takes on trust holds. */
  ghost predicate BoundsTrusted(f: Function, dispatch: nat, index: Expr, bound: nat)
    requires f.Valid() && WellTyped(index)
  {
    forall blocks: seq<nat>, envs: seq<Env> | Arrives(f, blocks, envs, dispatch)
      && LB.Trusted(index, envs[|blocks| - 1], 0) ::
      Eval(index, envs[|blocks| - 1]) <= bound
  }

  /** The guard at the end of `block` is met on the climb from the dispatch and proves `bound`. */
  ghost predicate Proves(f: Function, dispatch: nat, index: Expr, block: nat, onTrueEdge: bool, bound: nat)
    requires f.Valid()
  {
    && block < f.g.n && Above(f.g, block, dispatch) && Guards(f, block, onTrueEdge, dispatch)
    && LB.LimitedBy(f.ends[block].cond, index, onTrueEdge, bound)
  }

  /** What a guard proves holds on every run, unless its edge leads to the function's entry. The
      comparison held at the last pass over the edge, and nothing it speaks of has been redefined since:
      in a loop this is what block dominance alone does not give. */
  lemma GuardBounds(f: Function, dispatch: nat, index: Expr, block: nat, onTrueEdge: bool, bound: nat)
    requires f.Valid() && f.Ssa() && WellTyped(index) && ValueWidths(index, f.widths)
    requires Proves(f, dispatch, index, block, onTrueEdge, bound) && Via(f, block, onTrueEdge) != f.g.entry
    ensures Bounds(f, dispatch, index, bound)
  {
    hide LB.GuardBound, Dominates;
    forall blocks: seq<nat>, envs: seq<Env> | Arrives(f, blocks, envs, dispatch)
      ensures Eval(index, envs[|blocks| - 1]) <= bound
    {
      GuardBoundsRun(f, dispatch, index, block, onTrueEdge, bound, blocks, envs);
    }
  }

  lemma GuardBoundsRun(f: Function, dispatch: nat, index: Expr, block: nat, onTrueEdge: bool, bound: nat,
                       blocks: seq<nat>, envs: seq<Env>)
    requires f.Valid() && f.Ssa() && WellTyped(index) && ValueWidths(index, f.widths)
    requires Proves(f, dispatch, index, block, onTrueEdge, bound) && Via(f, block, onTrueEdge) != f.g.entry
    requires Arrives(f, blocks, envs, dispatch)
    ensures Eval(index, envs[|blocks| - 1]) <= bound
  {
    hide LB.GuardBound, LB.LimitedBy, Dominates, EdgeDominates, WellTyped, ValueWidths, Eval, Above;
    var cond, via := f.ends[block].cond, Via(f, block, onTrueEdge);
    LB.GuardBoundExactly(cond, index, onTrueEdge, bound);
    RunPrefixReachable(f, blocks, envs, |blocks| - 1);
    var i := LastPass(f.g, block, via, dispatch, blocks);
    RunPrefixReachable(f, blocks, envs, i);
    assert Follows(f, blocks[i], envs[i], blocks[i + 1]);
    OtherTarget(f, block, dispatch);
    GuardValues(cond, index, onTrueEdge);
    forall k, v | i < k <= |blocks| - 1 && v in Values(index) ensures f.def(v) != blocks[k] {
      NoDefinitionAfter(f.g, block, via, dispatch, blocks, i, k);
      assert Dominates(f.g, f.def(v), block);
    }
    Unredefined(f, blocks, envs, index, i, |blocks| - 1);
    LB.GuardBoundSound(cond, index, onTrueEdge, envs[i], f.widths);
  }

  /** The two edges of a guard lead to different blocks. */
  lemma OtherTarget(f: Function, block: nat, dispatch: nat)
    requires f.Valid() && block < f.g.n && exists onTrueEdge :: Guards(f, block, onTrueEdge, dispatch)
    ensures f.ends[block].targets[0] != f.ends[block].targets[1]
  {
    hide EdgeDominates;
  }

  lemma RunPrefixReachable(f: Function, blocks: seq<nat>, envs: seq<Env>, i: nat)
    requires f.Valid() && Run(f, blocks, envs) && i < |blocks|
    ensures Reachable(f.g, blocks[i]) && PathFrom(f.g, f.g.entry, blocks[|blocks| - 1], blocks)
  {
    PrefixPath(f.g, f.g.entry, blocks[|blocks| - 1], blocks, i);
  }

  lemma {:induction false} StripKeepsLeaves(e: Expr)
    ensures Values(StripWidening(e)) == Values(e)
  {
    if e.Cast? && e.cast.ZExt? {
      StripKeepsLeaves(e.arg);
    }
  }

  /** What a comparison bounds, it mentions. */
  lemma GuardValues(cond: Expr, index: Expr, onTrueEdge: bool)
    requires LB.GuardBound(cond, index, onTrueEdge).Some?
    ensures Values(index) <= Values(cond)
  {
    StripKeepsLeaves(index);
    StripKeepsLeaves(cond.left);
    StripKeepsLeaves(cond.right);
  }

  /** `best` is at most what any guard at `b` proves. */
  ghost predicate Accounted(f: Function, dispatch: nat, index: Expr, best: Option<nat>, b: nat)
    requires f.Valid()
  {
    forall onTrueEdge, bound: nat | Proves(f, dispatch, index, b, onTrueEdge, bound) ::
      best.Some? && best.value <= bound
  }

  /** `best` is the index's own bound or a guard's. */
  ghost predicate Justified(f: Function, dispatch: nat, index: Expr, best: Option<nat>)
    requires f.Valid()
  {
    best.Some? ==> best == LB.LocalBound(index, 0) || exists b: nat, onTrueEdge ::
      Proves(f, dispatch, index, b, onTrueEdge, best.value)
  }

  /** The smallest of the index's own bound and the bounds of the guards met on the climb, if any. */
  ghost predicate IsTightest(f: Function, dispatch: nat, index: Expr, best: Option<nat>)
    requires f.Valid()
  {
    && (forall b: nat | Above(f.g, b, dispatch) :: Accounted(f, dispatch, index, best, b))
    && (LB.LocalBound(index, 0).Some? ==> best.Some? && best.value <= LB.LocalBound(index, 0).value)
    && Justified(f, dispatch, index, best)
  }

  /** A guard whose edge does not lead to the function's entry proves `bound`. */
  ghost predicate SoundlyGuarded(f: Function, dispatch: nat, index: Expr, bound: nat)
    requires f.Valid()
  {
    exists b: nat, onTrueEdge :: Proves(f, dispatch, index, b, onTrueEdge, bound) && Via(f, b, onTrueEdge) != f.g.entry
  }

  lemma GuardedBounds(f: Function, dispatch: nat, index: Expr, bound: nat)
    requires f.Valid() && f.Ssa() && WellTyped(index) && ValueWidths(index, f.widths)
    requires SoundlyGuarded(f, dispatch, index, bound)
    ensures Bounds(f, dispatch, index, bound)
  {
    hide Bounds, LB.GuardBound, EdgeDominates, Above;
    var b: nat, onTrueEdge :| Proves(f, dispatch, index, b, onTrueEdge, bound) && Via(f, b, onTrueEdge) != f.g.entry;
    GuardBounds(f, dispatch, index, b, onTrueEdge, bound);
  }

  lemma OneEdge(f: Function, block: nat, dispatch: nat, index: Expr, r: Option<bool>)
    requires f.Valid() && block < f.g.n && Above(f.g, block, dispatch)
    requires forall onTrueEdge :: r == Some(onTrueEdge) <==> Guards(f, block, onTrueEdge, dispatch)
    ensures forall onTrueEdge, bound: nat :: Proves(f, dispatch, index, block, onTrueEdge, bound) <==>
              r == Some(onTrueEdge) && f.ends[block].CondBranch?
                && LB.GuardBound(f.ends[block].cond, index, onTrueEdge) == Some(bound)
  {
    hide Above, EdgeDominates, LB.GuardBound, LB.LimitedBy;
    if r.Some? {
      assert Guards(f, block, r.value, dispatch);
      forall bound: nat
        ensures LB.GuardBound(f.ends[block].cond, index, r.value) == Some(bound) <==>
                  LB.LimitedBy(f.ends[block].cond, index, r.value, bound)
      {
        LB.GuardBoundExactly(f.ends[block].cond, index, r.value, bound);
      }
    }
  }

  lemma AccountedStays(f: Function, dispatch: nat, index: Expr, best: Option<nat>, lower: Option<nat>)
    requires f.Valid() && (best.Some? ==> lower.Some? && lower.value <= best.value)
    ensures forall b: nat | Accounted(f, dispatch, index, best, b) :: Accounted(f, dispatch, index, lower, b)
  {
    hide Proves;
  }

  /** The smallest of the index's own bound and the bounds of the guards up the dominator tree. An answer
      that is a guard's holds on every run, whatever the index is, unless only edges to the function's
      entry prove it; one that is the index's own needs what its structure takes on trust. */
  method BoundOnIndex(f: Function, dominators: DQ.Dominators, dispatch: nat, index: Expr) returns (best: Option<nat>)
    requires f.Valid() && f.Ssa() && dominators.Valid() && dominators.g == f.g && dispatch < f.g.n
    requires WellTyped(index) && ValueWidths(index, f.widths)
    ensures IsTightest(f, dispatch, index, best)
    ensures best.Some? && SoundlyGuarded(f, dispatch, index, best.value) ==> Bounds(f, dispatch, index, best.value)
    ensures best.Some? && best == LB.LocalBound(index, 0) ==> BoundsTrusted(f, dispatch, index, best.value)
  {
    hide Proves, Accounted, Justified, Reachable, Above, SoundlyGuarded;
    hide Dominates, DQ.Dominators.Valid, Guards, Bounds, BoundsTrusted, LB.LocalBound, LB.GuardBound, Function.Ssa,
      DQ.StrictDominators, Function.Valid;
    FunctionFacts(f);
    best := LB.LocalBound(index, 0);
    StartsJustified(f, dispatch, index);
    var block: int := dispatch;
    AboveItself(f.g, dispatch);
    while block != -1
      invariant block != -1 ==>
                0 <= block < f.g.n && Above(f.g, block, dispatch)
                && (Reachable(f.g, dispatch) ==> Reachable(f.g, block))
      invariant forall b: nat | Above(f.g, b, dispatch) ::
                (block != -1 && Above(f.g, b, block)) || Accounted(f, dispatch, index, best, b)
      invariant LB.LocalBound(index, 0).Some? ==> best.Some? && best.value <= LB.LocalBound(index, 0).value
      invariant Justified(f, dispatch, index, best)
      decreases if block == -1 then -1 else |DQ.StrictDominators(f.g, block)|
    {
      var onTrueEdge := GuardedEdge(f, dominators, block, dispatch);
      OneEdge(f, block, dispatch, index, onTrueEdge);
      ghost var was := best;
      if onTrueEdge.Some? {
        GuardsFacts(f, block, onTrueEdge.value, dispatch);
        var bound := LB.GuardBound(f.ends[block].cond, index, onTrueEdge.value);
        if bound.Some? {
          best := Some(if best.Some? then Min(best.value, bound.value) else bound.value);
          GuardJustifies(f, dispatch, index, was, block, onTrueEdge.value, bound.value);
        }
      }
      AccountedStays(f, dispatch, index, was, best);
      NowAccounted(f, dispatch, index, best, block);
      var next := dominators.Idom(block);
      if next != -1 {
        Higher(f.g, next, block, dispatch);
      } else {
        NothingHigher(f.g, block);
      }
      block := next;
    }
    if best.Some? && SoundlyGuarded(f, dispatch, index, best.value) {
      GuardedBounds(f, dispatch, index, best.value);
    }
    if LB.LocalBound(index, 0).Some? {
      OwnBound(f, dispatch, index);
    }
  }

  lemma GuardsFacts(f: Function, block: nat, onTrueEdge: bool, reached: nat)
    requires f.Valid() && block < f.g.n && Guards(f, block, onTrueEdge, reached)
    ensures f.ends[block].CondBranch?
  {}

  lemma StartsJustified(f: Function, dispatch: nat, index: Expr)
    requires f.Valid()
    ensures Justified(f, dispatch, index, LB.LocalBound(index, 0))
  {}

  lemma GuardJustifies(f: Function, dispatch: nat, index: Expr, was: Option<nat>, b: nat, onTrueEdge: bool, bound: nat)
    requires f.Valid() && Justified(f, dispatch, index, was) && Proves(f, dispatch, index, b, onTrueEdge, bound)
    ensures Justified(f, dispatch, index, Some(if was.Some? then Min(was.value, bound) else bound))
  {
    hide Proves, LB.LocalBound;
  }

  lemma NowAccounted(f: Function, dispatch: nat, index: Expr, best: Option<nat>, b: nat)
    requires f.Valid()
    requires forall onTrueEdge, bound: nat | Proves(f, dispatch, index, b, onTrueEdge, bound) ::
             best.Some? && best.value <= bound
    ensures Accounted(f, dispatch, index, best, b)
  {
    hide Proves;
  }

  /** Only the entry dominates the entry, and an unreachable block has nothing above it. */
  lemma NothingHigher(g: Graph, b: nat)
    requires (b == g.entry && g.entry < g.n) || !Reachable(g, b)
    ensures forall a: nat | Above(g, a, b) :: a == b
  {
    if Reachable(g, b) {
      assert PathFrom(g, b, b, [b]);
    }
  }

  lemma AboveItself(g: Graph, b: nat)
    ensures Above(g, b, b)
  {
    DominatesItself(g, b);
  }

  lemma FunctionFacts(f: Function)
    requires f.Valid()
    ensures f.g.Valid() && |f.ends| == f.g.n
  {}

  lemma OwnBound(f: Function, dispatch: nat, index: Expr)
    requires f.Valid() && WellTyped(index) && ValueWidths(index, f.widths) && LB.LocalBound(index, 0).Some?
    ensures BoundsTrusted(f, dispatch, index, LB.LocalBound(index, 0).value)
  {
    hide LB.Trusted, LB.LocalBound;
    forall blocks: seq<nat>, envs: seq<Env> | Arrives(f, blocks, envs, dispatch)
      && LB.Trusted(index, envs[|blocks| - 1], 0)
      ensures Eval(index, envs[|blocks| - 1]) <= LB.LocalBound(index, 0).value
    {
      LB.LocalBoundSound(index, envs[|blocks| - 1], 0, f.widths);
    }
  }

  lemma DominatesItself(g: Graph, b: nat)
    ensures Dominates(g, b, b)
  {}

  /** Climbing to the immediate dominator loses a strict dominator, and no other block above. */
  lemma Higher(g: Graph, next: nat, b: nat, dispatch: nat)
    requires g.Valid() && Reachable(g, b) && Dominates(g, next, b) && next != b && Above(g, b, dispatch)
    requires forall a: nat | a != b && Dominates(g, a, b) :: Dominates(g, a, next)
    ensures next < g.n && Reachable(g, next) && Above(g, next, dispatch)
    ensures forall a: nat | Above(g, a, b) && a != b :: Above(g, a, next)
    ensures |DQ.StrictDominators(g, next)| < |DQ.StrictDominators(g, b)|
  {
    hide Dominates;
    DominatorIsReachable(g, next, b);
    ReachableInRange(g, next);
    if Reachable(g, dispatch) {
      DominatesTrans(g, next, b, dispatch);
    }
    var s, t := DQ.StrictDominators(g, next), DQ.StrictDominators(g, b);
    forall a | a in s ensures a in t {
      DominatesTrans(g, a, next, b);
      if a == b {
        DominatesAntisym(g, next, b);
      }
    }
    assert next in t && next !in s;
    ProperSubset(s, t, next);
  }

  // ----- an edge to the function's entry

  /** Blocks 0 -> 1, 1 -> 0 when register 0 is below 4 and else 1 -> 2, 2 -> 2. */
  function EntryGuard(): Function {
    Function(Graph(3, 0, [[1], [0, 2], [2]], [[1], [0], [1, 2]]),
             [OtherEnd, CondBranch(Cmp(LtU, EntryReg(64, 0), Const(64, 4)), [0, 2]), OtherEnd], _ => 0, _ => 64)
  }

  lemma EntryGuardGraph()
    ensures EntryGuard().g.Valid() && EntryGuard().Valid() && EntryGuard().Ssa()
  {
    hide Graph.Valid, WellTyped, ValueWidths, Values;
    EntryGuardEdges();
    EntryGuardCondition();
    var f := EntryGuard();
    assert f.ends[0].OtherEnd? && f.ends[2].OtherEnd?;
  }

  lemma EntryGuardEdges()
    ensures EntryGuard().g.Valid()
  {
    var g := EntryGuard().g;
    assert g.succ[0] == [1] && g.succ[1] == [0, 2] && g.succ[2] == [2];
    assert g.pred[0] == [1] && g.pred[1] == [0] && g.pred[2] == [1, 2];
  }

  lemma EntryGuardCondition()
    ensures var e := EntryGuard().ends[1]; WellTyped(e.cond) && ValueWidths(e.cond, _ => 64) && Values(e.cond) == {}
  {
    hide Pow2;
    Pow2Monotone(3, 64);
    PowThree();
    assert WellTyped(Const(64, 4)) && WellTyped(EntryReg(64, 0));
  }

  /** The test takes the edge back to the entry for one that every path to block 2 passes. */
  lemma EntryGuardProves()
    ensures EntryGuard().Valid() && Proves(EntryGuard(), 2, EntryReg(64, 0), 1, true, 3) && Above(EntryGuard().g, 1, 2)
  {
    hide Function.Valid, Graph.Valid;
    EntryGuardGraph();
    var g := EntryGuard().g;
    assert PathFrom(g, 0, 2, [0, 1, 2]);
    forall p | PathFrom(g, 0, 2, p) ensures 0 in p && 1 in p {
      PassesGuard(p, |p| - 1);
    }
    assert 2 in g.pred[2];
  }

  lemma {:induction false} PassesGuard(p: seq<nat>, i: nat)
    requires IsPath(EntryGuard().g, p) && i < |p| && p[0] == 0 && p[i] == 2
    ensures 1 in p
  {
    if i > 0 {
      assert EntryGuard().g.Edge(p[i - 1], p[i]);
      if p[i - 1] == 2 { PassesGuard(p, i - 1); }
    }
  }

  function Fours(): Env {
    Env(_ => 0, _ => 4, (_, _) => 0)
  }

  /** The dispatch is reached straight from the entry with 4 in the register; any answer is at most 3. */
  lemma EntryGuardFails(best: Option<nat>)
    requires EntryGuard().Valid() && IsTightest(EntryGuard(), 2, EntryReg(64, 0), best)
    ensures best.Some? && best.value <= 3 && Via(EntryGuard(), 1, true) == EntryGuard().g.entry
    ensures WellTyped(EntryReg(64, 0)) && !Bounds(EntryGuard(), 2, EntryReg(64, 0), best.value)
  {
    hide Function.Valid, Justified, Proves, Run;
    EntryGuardProves();
    assert Accounted(EntryGuard(), 2, EntryReg(64, 0), best, 1);
    var blocks, envs := [0, 1, 2], [Fours(), Fours(), Fours()];
    EntryGuardRun();
    FourIsFour();
    assert Arrives(EntryGuard(), blocks, envs, 2);
    assert envs[|blocks| - 1] == Fours();
  }

  lemma FourIsFour()
    ensures WellTyped(EntryReg(64, 0)) && Eval(EntryReg(64, 0), Fours()) == 4
  {
    hide Pow2;
    Pow2Monotone(3, 64);
    PowThree();
    SmallMod(4, Pow2(64));
  }

  lemma PowThree()
    ensures Pow2(3) == 8
  {}

  lemma EntryGuardRun()
    ensures EntryGuard().Valid() && Run(EntryGuard(), [0, 1, 2], [Fours(), Fours(), Fours()])
  {
    hide Function.Valid, Pow2, Graph.Valid;
    EntryGuardGraph();
    FourIsFour();
    assert IsPath(EntryGuard().g, [0, 1, 2]);
    assert Eval(EntryGuard().ends[1].cond, Fours()) == 0;
  }

  lemma ProperSubset(s: set<nat>, t: set<nat>, x: nat)
    requires s <= t && x in t && x !in s
    ensures |s| < |t|
  {
    assert t == s + (t - s);
    assert x in t - s;
  }
}
