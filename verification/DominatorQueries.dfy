/** The computed dominator object and the questions the other analyses ask it. */
module DominatorQueries {
  import opened Graphs
  import RPO = ReversePostOrder
  import opened DominatorTree
  import opened DominatorSweep
  import DominatorAnalysis
  import opened DominanceFrontier

  const UNREACHABLE := -1

  method RankOf(g: Graph, rpo: seq<nat>) returns (rank: seq<int>)
    requires g.Valid() && RPO.IsRpo(g, rpo) && rpo != []
    ensures Flow(g, rpo, rank).Valid()
  {
    forall k | 0 <= k < |rpo| ensures rpo[k] < g.n {
      assert rpo[k] in rpo;
      var p :| PathFrom(g, g.entry, rpo[k], p);
    }
    var index := new int[g.n](_ => UNREACHABLE);
    for i := 0 to |rpo|
      invariant forall k | 0 <= k < i :: index[rpo[k]] == k
      invariant forall v | 0 <= v < g.n :: index[v] == UNREACHABLE || (0 <= index[v] < i && rpo[index[v]] == v)
    {
      assert rpo[i] in rpo;
      index[rpo[i]] := i;
    }
    rank := index[..];
  }

  /** What the depth pass computes: one less than the length of the chain. */
  ghost function ChainDepth(f: Flow, idom: seq<int>, v: nat): int
    requires Tree(f, idom)
  {
    if Assigned(idom, v) then |Chain(f, idom, v)| - 1 else -1
  }

  lemma DepthStep(f: Flow, idom: seq<int>, v: nat)
    requires Tree(f, idom) && Assigned(idom, v)
    ensures v == f.g.entry ==> ChainDepth(f, idom, v) == 0
    ensures v != f.g.entry ==> 0 <= idom[v] && 0 <= f.rank[idom[v]] < f.rank[v] && Assigned(idom, idom[v])
                               && ChainDepth(f, idom, v) == ChainDepth(f, idom, idom[v]) + 1
  {
    assert Parented(f, idom, v);
    if v != f.g.entry {
      assert v !in Chain(f, idom, idom[v]);
      assert Chain(f, idom, v) == {v} + Chain(f, idom, idom[v]);
    }
  }

  /** Every parent is earlier in the order than its children, so one walk of it fills depths and child lists. */
  method Levels(f: Flow, idom: array<int>) returns (depth: seq<int>, children: seq<seq<nat>>)
    requires IsDominatorTree(f, idom[..])
    ensures |depth| == |children| == f.g.n
    ensures forall v: nat | v < f.g.n :: depth[v] == ChainDepth(f, idom[..], v)
    ensures forall p: nat, c: nat | p < f.g.n :: c in children[p] <==>
            c != f.g.entry && Assigned(idom[..], c) && idom[c] == p
  {
    hide RPO.IsRpo, Chain, Dominates, ChainDepth, Parented;
    ghost var tree := idom[..];
    depth := seq(f.g.n, _ => -1);
    children := seq(f.g.n, _ => []);
    LevelsStart(f, tree);
    depth := depth[f.rpo[0] := 0];
    for i := 1 to |f.rpo|
      invariant |depth| == |children| == f.g.n
      invariant forall v: nat | v < f.g.n :: depth[v] == if f.rank[v] < i then ChainDepth(f, tree, v) else -1
      invariant forall p: nat, c: nat | p < f.g.n :: c in children[p] <==>
                c < f.g.n && 0 < f.rank[c] < i && tree[c] == p
    {
      var block := f.rpo[i];
      DepthStep(f, tree, block);
      var parent := idom[block];
      RanksAreDistinct(f, block);
      depth := depth[block := depth[parent] + 1];
      children := children[parent := children[parent] + [block]];
    }
    RanksAreDistinct(f, f.rpo[0]);
  }

  lemma LevelsStart(f: Flow, idom: seq<int>)
    requires IsDominatorTree(f, idom)
    ensures f.rpo[0] == f.g.entry
    ensures forall v: nat | v < f.g.n && f.rank[v] < 1 :: ChainDepth(f, idom, v) == if v == f.g.entry then 0 else -1
  {
    hide Chain, Dominates;
    forall v: nat | v < f.g.n && f.rank[v] < 1 ensures ChainDepth(f, idom, v) == if v == f.g.entry then 0 else -1 {
      RanksAreDistinct(f, f.rpo[0]);
      if v == f.g.entry {
        DepthStep(f, idom, v);
      }
    }
  }

  lemma RanksAreDistinct(f: Flow, b: nat)
    requires f.Valid() && b in f.rpo
    ensures b < f.g.n && f.rank[b] >= 0 && forall v: nat | v < f.g.n && f.rank[v] == f.rank[b] :: v == b
  {
    hide RPO.IsRpo;
    forall v: nat | v < f.g.n && f.rank[v] == f.rank[b] ensures v == b {
      assert f.rpo[f.rank[v]] == v;
    }
  }

  /** `joins[x]` holds the joins that have been recorded for `x`: those of `done`, and of `join` what
      the climbs from the first predecessors and the climb from `pred` up to `runner` passed. */
  ghost predicate Recording(f: Flow, idom: seq<int>, joins: seq<set<nat>>, done: seq<nat>)
    requires f.Valid() && Tree(f, idom)
  {
    && |joins| == f.g.n
    && (forall x: nat, j: nat | x < f.g.n :: j in joins[x] <==>
         j in done && Assigned(idom, j) && Recorded(f, idom, j, x))
  }

  ghost predicate Climbing(f: Flow, idom: seq<int>, before: seq<set<nat>>, joins: seq<set<nat>>, join: nat,
      preds: seq<nat>)
    requires f.Valid() && Tree(f, idom) && Assigned(idom, join)
  {
    && |joins| == |before| == f.g.n
    && (forall x: nat | x < f.g.n :: joins[x] == if Climbed(f, idom, preds, join, x) then before[x] + {join}
         else before[x])
  }

  /** The climb from one predecessor. */
  method Climb(f: Flow, idom: array<int>, joins: seq<set<nat>>, join: nat, pred: nat) returns (after: seq<set<nat>>)
    requires f.Valid() && Tree(f, idom[..]) && |joins| == f.g.n
    requires Assigned(idom[..], join) && Assigned(idom[..], pred)
    requires 0 <= idom[join] && idom[join] in Chain(f, idom[..], pred)
    ensures |after| == f.g.n && Assigned(idom[..], idom[join])
    ensures forall x: nat | x < f.g.n ::
              after[x] == if x in Chain(f, idom[..], pred) && x !in Chain(f, idom[..], idom[join])
                then joins[x] + {join} else joins[x]
  {
    ghost var tree := idom[..];
    hide RPO.IsRpo;
    after := joins;
    var runner := pred;
    ghost var stop := idom[join];
    assert Parented(f, tree, join);
    ChainTrans(f, tree, stop, pred);
    while runner != idom[join]
      invariant idom[..] == tree && 0 <= runner && Assigned(tree, runner) && stop in Chain(f, tree, runner)
      invariant Chain(f, tree, runner) <= Chain(f, tree, pred)
      invariant |after| == f.g.n
      invariant forall x: nat | x < f.g.n ::
                  after[x] == if x in Chain(f, tree, pred) && x !in Chain(f, tree, runner) then joins[x] + {join}
                    else joins[x]
      decreases f.rank[runner]
    {
      assert Parented(f, tree, runner);
      assert runner != f.g.entry;
      assert Chain(f, tree, runner) == {runner} + Chain(f, tree, tree[runner])
        && runner !in Chain(f, tree, tree[runner]);
      after := after[runner := after[runner] + {join}];
      runner := idom[runner];
    }
  }

  lemma ParentDominatesPred(f: Flow, idom: seq<int>, join: nat, pred: nat)
    requires IsDominatorTree(f, idom) && Assigned(idom, join) && Feeds(f, idom, pred, join)
    ensures 0 <= idom[join] && idom[join] in Chain(f, idom, pred)
  {
    hide RPO.IsRpo, Dominates;
    assert Parented(f, idom, join);
    if join != f.g.entry {
      assert idom[join] in Chain(f, idom, join);
      DominatesPred(f.g, idom[join], join, pred);
    }
  }

  lemma ClimbSkips(f: Flow, idom: seq<int>, before: seq<set<nat>>, joins: seq<set<nat>>, join: nat, preds: seq<nat>,
      pred: nat)
    requires f.Valid() && Tree(f, idom) && Assigned(idom, join) && !Assigned(idom, pred)
    requires Climbing(f, idom, before, joins, join, preds)
    ensures Climbing(f, idom, before, joins, join, preds + [pred])
  {
    hide RPO.IsRpo, Chain, Tree;
    assert Parented(f, idom, join) by { TreeParents(f, idom); }
    assert forall q :: q in preds + [pred] <==> q in preds || q == pred;
  }

  lemma TreeParents(f: Flow, idom: seq<int>)
    requires Tree(f, idom)
    ensures |idom| == |f.rank| && forall v: nat | Assigned(idom, v) :: Parented(f, idom, v)
  {}

  lemma ClimbAdds(f: Flow, idom: seq<int>, before: seq<set<nat>>, joins: seq<set<nat>>, after: seq<set<nat>>,
                  join: nat, preds: seq<nat>, pred: nat)
    requires f.Valid() && Tree(f, idom) && Assigned(idom, join) && Assigned(idom, pred)
    requires Climbing(f, idom, before, joins, join, preds)
    requires 0 <= idom[join] && Assigned(idom, idom[join]) && |after| == f.g.n
    requires forall x: nat | x < f.g.n ::
               after[x] == if x in Chain(f, idom, pred) && x !in Chain(f, idom, idom[join]) then joins[x] + {join}
                 else joins[x]
    ensures Climbing(f, idom, before, after, join, preds + [pred])
  {
    hide RPO.IsRpo, Chain;
    assert forall q :: q in preds + [pred] <==> q in preds || q == pred;
    forall x: nat | x < f.g.n
      ensures after[x] == if Climbed(f, idom, preds + [pred], join, x) then before[x] + {join} else before[x]
    {
      assert Climbed(f, idom, preds + [pred], join, x)
             <==> Climbed(f, idom, preds, join, x) || (x in Chain(f, idom, pred) && x !in Chain(f, idom, idom[join]));
    }
  }

  lemma RecordingGrows(f: Flow, idom: seq<int>, before: seq<set<nat>>, joins: seq<set<nat>>, done: seq<nat>, join: nat)
    requires f.Valid() && Tree(f, idom) && Assigned(idom, join) && join !in done
    requires Recording(f, idom, before, done)
    requires if |f.g.pred[join]| < 2 then joins == before else Climbing(f, idom, before, joins, join, f.g.pred[join])
    ensures Recording(f, idom, joins, done + [join])
  {
    hide RPO.IsRpo, Chain, Climbed;
  }

  method Frontiers(f: Flow, idom: array<int>) returns (joins: seq<set<nat>>)
    requires IsDominatorTree(f, idom[..])
    ensures Recording(f, idom[..], joins, f.rpo)
  {
    hide RPO.IsRpo, Chain, Climbing, Recording, Dominates, Climbed, Parented;
    ghost var tree := idom[..];
    joins := seq(f.g.n, _ => {});
    RecordingStarts(f, tree, joins);
    for k := 0 to |f.rpo|
      invariant Recording(f, tree, joins, f.rpo[..k])
    {
      var join := f.rpo[k];
      FreshJoin(f, k);
      var preds := f.g.pred[join];
      ghost var before := joins;
      if |preds| >= 2 {
        ClimbingStarts(f, tree, joins, f.rpo[..k], join);
        for m := 0 to |preds|
          invariant Climbing(f, tree, before, joins, join, preds[..m])
        {
          var pred := preds[m];
          assert pred in preds && f.g.Edge(pred, join);
          assert preds[..m + 1] == preds[..m] + [pred];
          if f.rank[pred] == UNREACHABLE {
            ClimbSkips(f, tree, before, joins, join, preds[..m], pred);
          } else {
            ParentDominatesPred(f, tree, join, pred);
            ClimbingLength(f, tree, before, joins, join, preds[..m]);
            var after := Climb(f, idom, joins, join, pred);
            ClimbAdds(f, tree, before, joins, after, join, preds[..m], pred);
            joins := after;
          }
        }
        assert preds[..|preds|] == preds;
      }
      RecordingGrows(f, tree, before, joins, f.rpo[..k], join);
      assert f.rpo[..k + 1] == f.rpo[..k] + [join];
    }
    assert f.rpo[..|f.rpo|] == f.rpo;
  }

  lemma RecordingStarts(f: Flow, idom: seq<int>, joins: seq<set<nat>>)
    requires f.Valid() && Tree(f, idom) && joins == seq(f.g.n, _ => {})
    ensures Recording(f, idom, joins, [])
  {}

  lemma ClimbingStarts(f: Flow, idom: seq<int>, joins: seq<set<nat>>, done: seq<nat>, join: nat)
    requires f.Valid() && Tree(f, idom) && Assigned(idom, join) && Recording(f, idom, joins, done)
    ensures Climbing(f, idom, joins, joins, join, [])
  {}

  lemma ClimbingLength(f: Flow, idom: seq<int>, before: seq<set<nat>>, joins: seq<set<nat>>, join: nat, preds: seq<nat>)
    requires f.Valid() && Tree(f, idom) && Assigned(idom, join) && Climbing(f, idom, before, joins, join, preds)
    ensures |joins| == f.g.n
  {}

  lemma FreshJoin(f: Flow, k: nat)
    requires f.Valid() && k < |f.rpo|
    ensures f.rpo[k] !in f.rpo[..k] && f.rpo[k] < f.g.n && f.rank[f.rpo[k]] == k
  {}

  /** `b` is the immediate dominator of `c`. */
  ghost predicate IsChild(g: Graph, b: nat, c: nat) {
    && Reachable(g, c) && c != g.entry && b != c && Dominates(g, b, c)
    && (forall a: nat | a != c && Dominates(g, a, c) :: Dominates(g, a, b))
  }

  lemma ParentIsIdom(f: Flow, idom: seq<int>, b: nat, c: nat)
    requires IsDominatorTree(f, idom) && Assigned(idom, c) && c != f.g.entry
    ensures IsChild(f.g, b, c) <==> idom[c] == b
  {
    hide RPO.IsRpo, Dominates, Reachable;
    RankedReachable(f, c);
    assert Parented(f, idom, c);
    assert idom[c] in Chain(f, idom, c);
    if IsChild(f.g, b, c) {
      assert b in Chain(f, idom, idom[c]);
      assert idom[c] in Chain(f, idom, b);
    }
  }

  ghost function StrictDominators(g: Graph, b: nat): set<nat> {
    set a: nat | a < g.n && a != b && Dominates(g, a, b)
  }

  lemma DepthCounts(f: Flow, idom: seq<int>, b: nat)
    requires IsDominatorTree(f, idom) && Assigned(idom, b)
    ensures ChainDepth(f, idom, b) == |StrictDominators(f.g, b)|
  {
    hide RPO.IsRpo, Dominates;
    assert Chain(f, idom, b) == StrictDominators(f.g, b) + {b};
  }

  /** The finished object. An unreachable block is outside the tree. */
  class Dominators {
    const g: Graph
    const rpo: seq<nat>
    const rpoIndex: seq<int>
    const idom: array<int>
    const depth: seq<int>
    const children: seq<seq<nat>>
    const frontier: seq<set<nat>>

    ghost function F(): Flow {
      Flow(g, rpo, rpoIndex)
    }

    ghost predicate Valid()
      reads idom
    {
      && g.Valid() && RPO.IsRpo(g, rpo) && |rpoIndex| == |depth| == |children| == |frontier| == idom.Length == g.n
      && (if rpo == [] then forall v: nat | v < g.n :: rpoIndex[v] == UNREACHABLE && idom[v] == -1 && depth[v] == -1
                                                       && children[v] == [] && frontier[v] == {}
          else && IsDominatorTree(F(), idom[..])
               && (forall v: nat | v < g.n :: depth[v] == ChainDepth(F(), idom[..], v))
               && (forall p: nat, c: nat | p < g.n :: c in children[p] <==>
                    c != g.entry && Assigned(idom[..], c) && idom[c] == p)
               && Recording(F(), idom[..], frontier, rpo))
    }

    constructor Compute(g: Graph)
      requires g.Valid()
      ensures Valid() && this.g == g && fresh(idom)
    {
      this.g := g;
      var rpo := RPO.Compute(g);
      this.rpo := rpo;
      if rpo == [] {
        rpoIndex := seq(g.n, _ => UNREACHABLE);
        idom := new int[g.n](_ => -1);
        depth := seq(g.n, _ => -1);
        children := seq(g.n, _ => []);
        frontier := seq(g.n, _ => {});
      } else {
        var rank := RankOf(g, rpo);
        var f := Flow(g, rpo, rank);
        var parents := DominatorAnalysis.ImmediateDominators(f);
        var depth, children := Levels(f, parents);
        var frontier := Frontiers(f, parents);
        rpoIndex := rank;
        idom := parents;
        this.depth := depth;
        this.children := children;
        this.frontier := frontier;
      }
    }

    lemma ReachableIsRanked(b: nat)
      requires Valid()
      ensures Reachable(g, b) <==> b < g.n && rpoIndex[b] != UNREACHABLE
      ensures Reachable(g, b) ==> rpo != [] && IsDominatorTree(F(), idom[..])
      ensures Reachable(g, b) <==> Assigned(idom[..], b)
    {
      hide Recording, Chain, Dominates, ChainDepth;
      assert b in rpo <==> Reachable(g, b);
      if rpo != [] {
        assert F().Valid();
        hide RPO.IsRpo;
        RankedReachable(F(), b);
        assert b < g.n ==> F().rank[b] == rpoIndex[b];
      }
    }

    method IsReachable(b: nat) returns (r: bool)
      requires Valid()
      ensures r <==> Reachable(g, b)
    {
      ReachableIsRanked(b);
      r := b < |rpoIndex| && rpoIndex[b] != UNREACHABLE;
    }

    /** The deepest strict dominator; `-1` for the entry and outside the tree. */
    method Idom(b: nat) returns (r: int)
      requires Valid()
      ensures r == -1 <==> !Reachable(g, b) || b == g.entry
      ensures r != -1 ==> 0 <= r && r != b && Dominates(g, r, b)
                          && forall a: nat | a != b && Dominates(g, a, b) :: Dominates(g, a, r)
    {
      hide Recording, Dominates, ChainDepth;
      ReachableIsRanked(b);
      var reachable := IsReachable(b);
      if !reachable || b == rpo[0] {
        assert reachable ==> rpo[0] == g.entry;
        return -1;
      }
      r := idom[b];
      assert Parented(F(), idom[..], b);
      assert r in Chain(F(), idom[..], b);
    }

    method Depth(b: nat) returns (r: int)
      requires Valid()
      ensures if Reachable(g, b) then r == |StrictDominators(g, b)| else r == -1
    {
      hide Recording, Dominates, Chain, StrictDominators;
      ReachableIsRanked(b);
      r := if b < |depth| then depth[b] else -1;
      if Reachable(g, b) {
        DepthCounts(F(), idom[..], b);
      }
    }

    /** A block that no path from the entry reaches is comparable with no block but itself. */
    method IsDominator(a: nat, b: nat) returns (r: bool)
      requires Valid()
      ensures r <==> if Reachable(g, a) && Reachable(g, b) then Dominates(g, a, b) else a == b
    {
      hide Recording, Dominates, ChainDepth;
      ReachableIsRanked(a);
      ReachableIsRanked(b);
      var reachableA := IsReachable(a);
      var reachableB := IsReachable(b);
      if !reachableA || !reachableB {
        return a == b;
      }
      var entry := rpo[0];
      var finger := b;
      while finger != a && finger != entry
        invariant 0 <= finger && Assigned(idom[..], finger)
        invariant a in Chain(F(), idom[..], b) <==> a in Chain(F(), idom[..], finger)
        decreases rpoIndex[finger]
      {
        assert Parented(F(), idom[..], finger);
        finger := idom[finger];
      }
      r := finger == a;
    }

    method Frontier(x: nat) returns (r: set<nat>)
      requires Valid() && x < g.n
      ensures forall join: nat | Reachable(g, join) && join != g.entry :: join in r <==> InFrontier(g, x, join)
      ensures g.entry in r <==> InFrontier(g, x, g.entry) && x != g.entry && g.entry < g.n && |g.pred[g.entry]| >= 2
      ensures forall join | join in r :: Reachable(g, join)
    {
      hide Dominates, ChainDepth, Chain, Recorded, InFrontier;
      r := frontier[x];
      forall join: nat
        ensures join in r ==> Reachable(g, join)
        ensures Reachable(g, join) && join != g.entry ==> (join in r <==> InFrontier(g, x, join))
      {
        ReachableIsRanked(join);
        if Reachable(g, join) && join != g.entry {
          RecordedIsFrontier(F(), idom[..], join, x);
        }
      }
      if rpo != [] {
        assert rpo[0] in rpo;
        ReachableIsRanked(g.entry);
        RecordedAtEntry(F(), idom[..], x);
      } else {
        EntryMissing(x);
      }
    }

    lemma EntryMissing(x: nat)
      requires Valid() && rpo == []
      ensures !InFrontier(g, x, g.entry)
    {
      forall v: nat ensures !Reachable(g, v) {
        assert v !in rpo;
      }
    }

    method Children(b: nat) returns (r: seq<nat>)
      requires Valid() && b < g.n
      ensures forall c: nat :: c in r <==> IsChild(g, b, c)
    {
      hide Recording, Dominates, Chain, ChainDepth;
      r := children[b];
      forall c: nat ensures c in r <==> IsChild(g, b, c) {
        ReachableIsRanked(c);
        if Reachable(g, c) && c != g.entry {
          ParentIsIdom(F(), idom[..], b, c);
        }
      }
    }
  }
}
