/** What the frontier climb collects, and when that is the dominance frontier. */
module DominanceFrontier {
  import opened Graphs
  import opened ReversePostOrder
  import opened DominatorTree
  import opened DominatorSweep

  /** The climb from one of `preds` up to the parent of `join` passes `x`. */
  ghost predicate Climbed(f: Flow, idom: seq<int>, preds: seq<nat>, join: nat, x: nat)
    requires Tree(f, idom) && Assigned(idom, join)
  {
    assert Parented(f, idom, join);
    exists p :: p in preds && Assigned(idom, p) && x in Chain(f, idom, p) && x !in Chain(f, idom, idom[join])
  }

  /** What the climbs record for `x`: only joins with at least two incoming edges are looked at. */
  ghost predicate Recorded(f: Flow, idom: seq<int>, join: nat, x: nat)
    requires f.Valid() && Tree(f, idom) && Assigned(idom, join)
  {
    |f.g.pred[join]| >= 2 && Climbed(f, idom, f.g.pred[join], join, x)
  }

  /** Cytron's frontier: `x` dominates a reachable predecessor of `join` but not `join` strictly. */
  ghost predicate InFrontier(g: Graph, x: nat, join: nat) {
    && (exists p: nat :: g.Edge(p, join) && Reachable(g, p) && Dominates(g, x, p))
    && !(x != join && Dominates(g, x, join))
  }

  lemma FeedsReachable(f: Flow, idom: seq<int>, join: nat)
    requires IsDominatorTree(f, idom) && join < f.g.n
    ensures forall p: nat :: p in f.g.pred[join] && Assigned(idom, p) <==> f.g.Edge(p, join) && Reachable(f.g, p)
  {
    hide IsRpo, Chain, Dominates, Reachable;
    forall p: nat ensures p in f.g.pred[join] && Assigned(idom, p) <==> f.g.Edge(p, join) && Reachable(f.g, p) {
      RankedReachable(f, p);
    }
  }

  /** Away from the entry the climbs record exactly the dominance frontier. */
  lemma RecordedIsFrontier(f: Flow, idom: seq<int>, join: nat, x: nat)
    requires IsDominatorTree(f, idom) && Assigned(idom, join) && join != f.g.entry
    ensures Recorded(f, idom, join, x) <==> InFrontier(f.g, x, join)
  {
    hide IsRpo, Dominates, Reachable;
    assert Parented(f, idom, join);
    FeedsReachable(f, idom, join);
    if InFrontier(f.g, x, join) {
      var p: nat :| f.g.Edge(p, join) && Reachable(f.g, p) && Dominates(f.g, x, p);
      assert x in Chain(f, idom, p);
      if |f.g.pred[join]| < 2 {
        OnlyPredecessor(f, idom, join, p, x);
      }
    }
  }

  /** A join with a single incoming edge is in no frontier. */
  lemma OnlyPredecessor(f: Flow, idom: seq<int>, join: nat, p: nat, x: nat)
    requires IsDominatorTree(f, idom) && Assigned(idom, join) && join != f.g.entry
    requires |f.g.pred[join]| < 2 && f.g.Edge(p, join) && Dominates(f.g, x, p)
    ensures x != join && Dominates(f.g, x, join)
  {
    hide Dominates, Chain, Reachable;
    assert f.g.pred[join] == [p];
    assert f.rank[join] > 0 && f.rpo[f.rank[join]] == join by {
      assert Parented(f, idom, join);
    }
    assert EarlierPred(f.g, f.rpo, f.rank[join]);
    var j :| 0 <= j < f.rank[join] && f.g.Edge(f.rpo[j], join);
    assert f.rpo[j] in f.g.pred[join];
    assert f.rpo[j] == p;
    DominatorIsEarlier(f, x, p);
    DominatesJoin(f.g, x, join);
  }

  /** At the entry the climbs stop one block short: the entry itself is never recorded, and a
      single incoming edge records nothing. */
  lemma RecordedAtEntry(f: Flow, idom: seq<int>, x: nat)
    requires IsDominatorTree(f, idom)
    ensures Recorded(f, idom, f.g.entry, x)
            <==> InFrontier(f.g, x, f.g.entry) && x != f.g.entry && |f.g.pred[f.g.entry]| >= 2
  {
    hide IsRpo, Dominates, Reachable;
    var e := f.g.entry;
    assert Parented(f, idom, e);
    FeedsReachable(f, idom, e);
    assert forall y: nat :: y in Chain(f, idom, e) <==> y == e;
  }

  /** A two-block loop through the entry: the frontier of the entry holds the entry, and the climbs
      do not record it. */
  lemma EntryFrontierIsMissed()
    ensures var g := Graph(2, 0, [[1], [0]], [[1], [0]]);
            && g.Valid() && InFrontier(g, 0, 0)
            && (forall rpo, rank, idom: seq<int> | IsDominatorTree(Flow(g, rpo, rank), idom) ::
                  !Recorded(Flow(g, rpo, rank), idom, 0, 0))
  {
    var g := Graph(2, 0, [[1], [0]], [[1], [0]]);
    assert g.Valid() by {
      forall u: nat, v: nat | g.Edge(u, v) ensures v < g.n && u in g.pred[v] {
        assert u == 0 || u == 1;
      }
      forall u: nat, v: nat | v < g.n && u in g.pred[v] ensures g.Edge(u, v) {
        assert v == 0 || v == 1;
      }
    }
    assert PathFrom(g, 0, 1, [0, 1]);
    assert Dominates(g, 0, 1) by {
      forall p | PathFrom(g, 0, 1, p) ensures 0 in p {
        assert p[0] == 0;
      }
    }
    assert g.Edge(1, 0) && Reachable(g, 1);
    forall rpo, rank, idom: seq<int> | IsDominatorTree(Flow(g, rpo, rank), idom)
      ensures !Recorded(Flow(g, rpo, rank), idom, 0, 0)
    {
      RecordedAtEntry(Flow(g, rpo, rank), idom, 0);
    }
  }
}
