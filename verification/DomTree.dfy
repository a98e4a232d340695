/** The theory of the immediate-dominator array while it is being computed: what an entry of the
    array promises, and what one step of the sweep keeps. The array is a sequence here; `-1` marks a
    block that has no entry yet, and the entry block is its own parent. */
module DominatorTree {
  import opened Graphs
  import opened ReversePostOrder

  /** A graph with its reverse post-order; `rank` is the inverse of `rpo`, `-1` on unreachable blocks. */
  datatype Flow = Flow(g: Graph, rpo: seq<nat>, rank: seq<int>) {

    ghost predicate Valid() {
      && g.Valid() && IsRpo(g, rpo) && rpo != [] && |rank| == g.n
      && (forall k | 0 <= k < |rpo| :: rpo[k] < g.n && rank[rpo[k]] == k)
      && (forall v | 0 <= v < g.n :: rank[v] == -1 || (0 <= rank[v] < |rpo| && rpo[rank[v]] == v))
    }
  }

  ghost predicate Assigned(idom: seq<int>, v: nat) {
    v < |idom| && idom[v] != -1
  }

  ghost predicate Parented(f: Flow, idom: seq<int>, v: nat)
    requires |idom| == |f.rank| && v < |idom|
  {
    && f.rank[v] >= 0
    && 0 <= idom[v] < |idom| && idom[idom[v]] != -1
    && (if v == f.g.entry then idom[v] == v else 0 <= f.rank[idom[v]] < f.rank[v])
  }

  /** Following parents always ends at the entry, because ranks fall. */
  ghost predicate Tree(f: Flow, idom: seq<int>) {
    && |idom| == |f.rank| && f.g.entry < |idom| && idom[f.g.entry] == f.g.entry
    && (forall v: nat | Assigned(idom, v) :: Parented(f, idom, v))
  }

  /** The blocks on the parent chain of `v`, `v` included. */
  ghost function Chain(f: Flow, idom: seq<int>, v: nat): (c: set<nat>)
    requires Tree(f, idom) && Assigned(idom, v)
    ensures v in c && f.g.entry in c
    ensures forall x | x in c :: Assigned(idom, x) && 0 <= f.rank[x] <= f.rank[v] && (x != v ==> f.rank[x] < f.rank[v])
    decreases f.rank[v]
  {
    assert Parented(f, idom, v);
    if v == f.g.entry then {v} else {v} + Chain(f, idom, idom[v])
  }

  lemma {:induction false} ChainTrans(f: Flow, idom: seq<int>, x: nat, v: nat)
    requires Tree(f, idom) && Assigned(idom, v) && x in Chain(f, idom, v)
    ensures Assigned(idom, x) && Chain(f, idom, x) <= Chain(f, idom, v)
    decreases f.rank[v]
  {
    assert Parented(f, idom, v);
    if x != v {
      ChainTrans(f, idom, x, idom[v]);
    }
  }

  /** `b` is given a parent of smaller rank. */
  ghost predicate Reparented(f: Flow, idom: seq<int>, idom': seq<int>, b: nat, parent: nat) {
    && Tree(f, idom) && Tree(f, idom')
    && b < |idom| && b != f.g.entry && idom' == idom[b := parent]
    && Assigned(idom, parent) && 0 <= f.rank[parent] < f.rank[b]
  }

  lemma TreeAfter(f: Flow, idom: seq<int>, b: nat, parent: nat)
    requires Tree(f, idom) && b < |idom| && b != f.g.entry && Assigned(idom, parent)
    requires 0 <= f.rank[parent] < f.rank[b]
    ensures Reparented(f, idom, idom[b := parent], b, parent)
  {
    var idom' := idom[b := parent];
    forall v: nat | Assigned(idom', v) ensures Parented(f, idom', v) {
      assert v != b ==> Assigned(idom, v) && Parented(f, idom, v);
    }
  }

  /** A chain that avoids `b` is not changed. */
  lemma {:induction false} ChainOff(f: Flow, idom: seq<int>, idom': seq<int>, b: nat, parent: nat, v: nat)
    requires Reparented(f, idom, idom', b, parent)
    requires Assigned(idom, v) && b !in Chain(f, idom, v)
    ensures Assigned(idom', v) && Chain(f, idom', v) == Chain(f, idom, v)
    decreases f.rank[v]
  {
    assert Parented(f, idom, v);
    if v != f.g.entry {
      ChainOff(f, idom, idom', b, parent, idom[v]);
    }
  }

  /** A chain through `b` keeps its part down to `b` and continues with the new parent's chain. */
  lemma {:induction false} ChainThrough(f: Flow, idom: seq<int>, idom': seq<int>, b: nat, parent: nat, v: nat)
    requires Reparented(f, idom, idom', b, parent)
    requires Assigned(idom, v) && b in Chain(f, idom, v)
    ensures Assigned(idom', v)
    ensures forall x :: x in Chain(f, idom', v) <==>
              (x in Chain(f, idom, v) && f.rank[x] >= f.rank[b]) || x in Chain(f, idom, parent)
    decreases f.rank[v]
  {
    assert Parented(f, idom, v);
    if v == b {
      ChainOff(f, idom, idom', b, parent, parent);
    } else {
      ChainThrough(f, idom, idom', b, parent, idom[v]);
    }
  }

  /** A dominator never comes later in the reverse post-order. */
  lemma DominatorIsEarlier(f: Flow, a: nat, b: nat)
    requires f.Valid() && b < f.g.n && f.rank[b] >= 0 && Dominates(f.g, a, b)
    ensures a < f.g.n && 0 <= f.rank[a] <= f.rank[b] && (a != b ==> f.rank[a] < f.rank[b])
  {
    var p := RisingPath(f, b);
    assert a in p;
  }

  lemma {:induction false} RisingPath(f: Flow, b: nat) returns (p: seq<nat>)
    requires f.Valid() && b < f.g.n && f.rank[b] >= 0
    ensures PathFrom(f.g, f.g.entry, b, p)
    ensures forall x | x in p :: x < f.g.n && 0 <= f.rank[x] <= f.rank[b] && (x != b ==> f.rank[x] < f.rank[b])
    decreases f.rank[b]
  {
    if f.rank[b] == 0 {
      p := [b];
    } else {
      assert EarlierPred(f.g, f.rpo, f.rank[b]);
      var j :| 0 <= j < f.rank[b] && f.g.Edge(f.rpo[j], f.rpo[f.rank[b]]);
      var q := RisingPath(f, f.rpo[j]);
      ExtendPath(f.g, f.g.entry, f.rpo[j], b, q);
      p := q + [b];
    }
  }

  lemma RankedReachable(f: Flow, v: nat)
    requires f.Valid()
    ensures Reachable(f.g, v) <==> v < f.g.n && f.rank[v] >= 0
  {
    if v < f.g.n && f.rank[v] >= 0 {
      assert f.rpo[f.rank[v]] == v;
    }
  }
}
