/** Cooper-Harvey-Kennedy dominators: the in-place sweeps, and the queries asked of the result. */
module DominatorAnalysis {
  import opened Graphs
  import opened ReversePostOrder
  import opened DominatorTree
  import opened DominatorSweep

  /** The two fingers of the meet: nothing common to the chains of `a0` and `b0`, and no common
      dominator, has been climbed past. */
  ghost predicate Fingers(f: Flow, idom: seq<int>, a0: nat, b0: nat, a: nat, b: nat)
    requires Tree(f, idom) && Assigned(idom, a0) && Assigned(idom, b0)
  {
    && Assigned(idom, a) && Assigned(idom, b)
    && a in Chain(f, idom, a0) && b in Chain(f, idom, b0)
    && (forall x | x in Chain(f, idom, a0) && x in Chain(f, idom, b0) ::
         x in Chain(f, idom, a) && x in Chain(f, idom, b))
    && (forall x: nat | Dominates(f.g, x, a0) && Dominates(f.g, x, b0) :: Dominates(f.g, x, a) && Dominates(f.g, x, b))
  }

  lemma ClimbKeepsFingers(f: Flow, idom: seq<int>, a0: nat, b0: nat, a: nat, b: nat)
    requires f.Valid() && Tree(f, idom) && KeepsDominators(f, idom)
    requires Assigned(idom, a0) && Assigned(idom, b0) && Fingers(f, idom, a0, b0, a, b)
    requires f.rank[a] > f.rank[b]
    ensures 0 <= idom[a] < |idom| && Fingers(f, idom, a0, b0, idom[a], b) && 0 <= f.rank[idom[a]] < f.rank[a]
  {
    hide IsRpo, Dominates;
    assert Parented(f, idom, a) && Parented(f, idom, b) && f.rpo[f.rank[a]] == a;
    ChainTrans(f, idom, a, a0);
    forall x: nat | Dominates(f.g, x, a0) && Dominates(f.g, x, b0) ensures Dominates(f.g, x, idom[a]) {
      DominatorIsEarlier(f, x, b);
    }
  }

  lemma FingersSwap(f: Flow, idom: seq<int>, a0: nat, b0: nat, a: nat, b: nat)
    requires Tree(f, idom) && Assigned(idom, a0) && Assigned(idom, b0) && Fingers(f, idom, a0, b0, a, b)
    ensures Fingers(f, idom, b0, a0, b, a)
  {
    hide Dominates, Chain;
  }

  lemma RanksDiffer(f: Flow, idom: seq<int>, a: nat, b: nat)
    requires f.Valid() && Tree(f, idom) && Assigned(idom, a) && Assigned(idom, b)
    ensures f.rank[a] >= 0 && f.rank[b] >= 0 && (f.rank[a] == f.rank[b] ==> a == b)
  {
    hide IsRpo;
    assert Parented(f, idom, a) && Parented(f, idom, b);
    assert f.rpo[f.rank[a]] == a && f.rpo[f.rank[b]] == b;
  }

  /** The meet of two chains is their deepest common block. */
  method Intersect(f: Flow, idom: array<int>, a0: nat, b0: nat) returns (m: nat)
    requires f.Valid() && Tree(f, idom[..]) && KeepsDominators(f, idom[..])
    requires Assigned(idom[..], a0) && Assigned(idom[..], b0)
    ensures Fingers(f, idom[..], a0, b0, m, m)
  {
    hide Chain, Dominates, KeepsDominators, IsRpo, Flow.Valid, Tree, Fingers;
    ghost var parents := idom[..];
    var a: nat, b: nat := a0, b0;
    StartFingers(f, parents, a, b);
    while a != b
      invariant idom[..] == parents && Assigned(parents, a) && Assigned(parents, b)
      invariant Fingers(f, parents, a0, b0, a, b)
      decreases f.rank[a] + f.rank[b]
    {
      RanksDiffer(f, parents, a, b);
      ghost var a1, b1 := a, b;
      while f.rank[a] > f.rank[b]
        invariant Assigned(parents, a) && 0 <= f.rank[a] && (a == a1 || f.rank[a] < f.rank[a1])
        invariant Fingers(f, parents, a0, b0, a, b)
        decreases f.rank[a]
      {
        ClimbKeepsFingers(f, parents, a0, b0, a, b);
        FingersAssigned(f, parents, a0, b0, idom[a], b);
        a := idom[a];
      }
      while f.rank[b] > f.rank[a]
        invariant Assigned(parents, b) && 0 <= f.rank[b] && (b == b1 || f.rank[b] < f.rank[b1])
        invariant Fingers(f, parents, a0, b0, a, b)
        decreases f.rank[b]
      {
        FingersSwap(f, parents, a0, b0, a, b);
        ClimbKeepsFingers(f, parents, b0, a0, b, a);
        FingersAssigned(f, parents, b0, a0, idom[b], a);
        FingersSwap(f, parents, b0, a0, idom[b], a);
        b := idom[b];
      }
    }
    m := a;
  }

  lemma StartFingers(f: Flow, idom: seq<int>, a: nat, b: nat)
    requires Tree(f, idom) && Assigned(idom, a) && Assigned(idom, b)
    ensures Fingers(f, idom, a, b, a, b) && |idom| == |f.rank|
  {}

  lemma FingersAssigned(f: Flow, idom: seq<int>, a0: nat, b0: nat, a: nat, b: nat)
    requires Tree(f, idom) && Assigned(idom, a0) && Assigned(idom, b0) && Fingers(f, idom, a0, b0, a, b)
    ensures Assigned(idom, a) && Assigned(idom, b)
  {}

  /** The meet of the first `k` predecessors of a block that have a parent; `-1` when there is none. */
  ghost predicate MeetOf(f: Flow, idom: seq<int>, preds: seq<nat>, parent: int)
    requires Tree(f, idom)
  {
    if parent == -1 then
      forall p | p in preds :: !Assigned(idom, p)
    else
      && 0 <= parent && Assigned(idom, parent)
      && (exists p :: p in preds && Assigned(idom, p))
      && (forall p | p in preds && Assigned(idom, p) :: parent in Chain(f, idom, p))
      && (forall x: nat | (forall p | p in preds && Assigned(idom, p) :: x in Chain(f, idom, p)) ::
           x in Chain(f, idom, parent))
      && (forall x: nat | (forall p | p in preds && Assigned(idom, p) :: Dominates(f.g, x, p)) ::
           Dominates(f.g, x, parent))
  }

  lemma MeetSkips(f: Flow, idom: seq<int>, preds: seq<nat>, p: nat, parent: int)
    requires Tree(f, idom) && MeetOf(f, idom, preds, parent) && !Assigned(idom, p)
    ensures MeetOf(f, idom, preds + [p], parent)
  {
    hide Chain, Dominates, Tree;
    assert forall q | q in preds :: q in preds + [p];
  }

  lemma MeetStarts(f: Flow, idom: seq<int>, preds: seq<nat>, p: nat)
    requires Tree(f, idom) && MeetOf(f, idom, preds, -1) && Assigned(idom, p)
    ensures MeetOf(f, idom, preds + [p], p)
  {
    hide Chain, Dominates, Tree;
    assert p in preds + [p];
  }

  lemma MeetGrows(f: Flow, idom: seq<int>, preds: seq<nat>, p: nat, parent: nat, m: nat)
    requires Tree(f, idom) && MeetOf(f, idom, preds, parent) && Assigned(idom, p)
    requires Fingers(f, idom, p, parent, m, m)
    ensures MeetOf(f, idom, preds + [p], m)
  {
    hide Chain, Dominates, Tree;
    assert p in preds + [p];
    forall q | q in preds + [p] && Assigned(idom, q) ensures m in Chain(f, idom, q) {
      if q in preds {
        ChainTrans(f, idom, parent, q);
      }
    }
    assert forall q | q in preds :: q in preds + [p];
  }

  lemma MeetIsMeet(f: Flow, idom: seq<int>, i: nat, limit: nat, b: nat, parent: int)
    requires SweepInv(f, idom, i, limit) && (limit == i || limit == |f.rpo|)
    requires i < |f.rpo| && b == f.rpo[i] && b < |f.g.pred| && MeetOf(f, idom, f.g.pred[b], parent)
    ensures 0 <= parent && Assigned(idom, parent) && IsMeet(f, idom, b, parent) && f.rank[parent] < f.rank[b]
  {
    hide OnlyUp, EarlierKeeps, KeepsDominators, Chain, Dominates;
    assert EarlierPred(f.g, f.rpo, i);
    var j :| 0 <= j < i && f.g.Edge(f.rpo[j], f.rpo[i]);
    var p := f.rpo[j];
    assert Feeds(f, idom, p, b) && p in f.g.pred[b];
    assert forall q: nat :: Feeds(f, idom, q, b) <==> q in f.g.pred[b] && Assigned(idom, q);
  }

  method NewParent(f: Flow, idom: array<int>, block: nat) returns (parent: int)
    requires f.Valid() && Tree(f, idom[..]) && KeepsDominators(f, idom[..]) && block < f.g.n
    ensures MeetOf(f, idom[..], f.g.pred[block], parent)
  {
    hide Chain, Dominates, KeepsDominators, IsRpo, Fingers, MeetOf;
    parent := -1;
    var preds := f.g.pred[block];
    StartMeet(f, idom[..]);
    for k := 0 to |preds|
      invariant MeetOf(f, idom[..], preds[..k], parent)
    {
      var p := preds[k];
      assert preds[..k + 1] == preds[..k] + [p];
      assert p in f.g.pred[block] && f.g.Edge(p, block);
      if idom[p] == -1 {
        MeetSkips(f, idom[..], preds[..k], p, parent);
      } else if parent == -1 {
        MeetStarts(f, idom[..], preds[..k], p);
        parent := p;
      } else {
        MeetAssigned(f, idom[..], preds[..k], parent);
        var m := Intersect(f, idom, p, parent);
        MeetGrows(f, idom[..], preds[..k], p, parent, m);
        parent := m;
      }
    }
    assert preds[..|preds|] == preds;
  }

  lemma StartMeet(f: Flow, idom: seq<int>)
    requires Tree(f, idom)
    ensures MeetOf(f, idom, [], -1)
  {}

  lemma MeetAssigned(f: Flow, idom: seq<int>, preds: seq<nat>, parent: int)
    requires Tree(f, idom) && MeetOf(f, idom, preds, parent) && parent != -1
    ensures 0 <= parent && Assigned(idom, parent)
  {}

  /** The sweeps: each visits the blocks in reverse post-order and rewrites the array in place, until
      one of them changes nothing. They stop on every graph: each change lowers the sum of the
      parents' ranks. */
  method ImmediateDominators(f: Flow) returns (idom: array<int>)
    requires f.Valid()
    ensures fresh(idom) && IsDominatorTree(f, idom[..])
  {
    hide Chain, OnlyUp, EarlierKeeps, KeepsDominators, IsRpo, Dominates, Stable, IsMeet, MeetOf, Weight, Parented;
    idom := new int[f.g.n](_ => -1);
    idom[f.rpo[0]] := f.rpo[0];
    RpoStartsAtEntry(f);
    StartSweep(f, idom[..]);
    var changed := true;
    ghost var limit := 1;
    while changed
      invariant SweepInv(f, idom[..], 1, limit) && (limit == 1 || limit == |f.rpo|)
      invariant !changed ==> limit == |f.rpo| && Stable(f, idom[..], |f.rpo|)
      decreases Weight(f, idom[..], |f.rpo|), changed
    {
      changed := false;
      ghost var before := Weight(f, idom[..], |f.rpo|);
      StableStart(f, idom[..]);
      for i := 1 to |f.rpo|
        invariant SweepInv(f, idom[..], i, limit) && (limit == i || limit == |f.rpo|)
        invariant if changed then Weight(f, idom[..], |f.rpo|) < before
                  else Weight(f, idom[..], |f.rpo|) == before && Stable(f, idom[..], i)
      {
        var block := f.rpo[i];
        var newIdom := NewParent(f, idom, block);
        ghost var was := idom[..];
        MeetIsMeet(f, was, i, limit, block, newIdom);
        VisitKeepsInv(f, was, i, limit, block, newIdom);
        if newIdom != -1 && idom[block] != newIdom {
          ParentWeighs(f, was, block, newIdom);
          WeightFalls(f, was, i, newIdom, |f.rpo|);
          idom[block] := newIdom;
          changed := true;
        } else {
          assert was[block := newIdom] == was;
          StableGrows(f, was, i, limit, block, newIdom);
        }
        assert idom[..] == was[block := newIdom];
        limit := if limit == i then i + 1 else limit;
      }
      NextSweep(f, idom[..]);
    }
    StableIsDominance(f, idom[..]);
  }

  lemma RpoStartsAtEntry(f: Flow)
    requires f.Valid()
    ensures f.rpo[0] == f.g.entry
  {}

  lemma StableStart(f: Flow, idom: seq<int>)
    requires Tree(f, idom)
    ensures Stable(f, idom, 1)
  {}

  lemma StableGrows(f: Flow, idom: seq<int>, i: nat, limit: nat, b: nat, parent: nat)
    requires SweepInv(f, idom, i, limit) && i < |f.rpo| && b == f.rpo[i]
    requires IsMeet(f, idom, b, parent) && Assigned(idom, b) && idom[b] == parent
    ensures Stable(f, idom, i) ==> Stable(f, idom, i + 1)
  {
    hide OnlyUp, EarlierKeeps, KeepsDominators, Chain, Dominates, IsRpo, Parented;
    if Stable(f, idom, i) {
      forall c: nat, p: nat | Feeds(f, idom, p, c) && Assigned(idom, c) && 0 < f.rank[c] < i + 1
        ensures idom[c] >= 0 && idom[c] in Chain(f, idom, p)
      {
        if f.rank[c] == i {
          assert f.rpo[f.rank[c]] == c;
        }
      }
    }
  }

  lemma ParentWeighs(f: Flow, idom: seq<int>, b: nat, parent: nat)
    requires f.Valid() && Tree(f, idom) && Assigned(idom, parent) && b < |idom|
    requires idom[b] != -1 ==> 0 <= f.rank[parent] && 0 <= idom[b] < |f.rank| && f.rank[parent] < f.rank[idom[b]]
    ensures BlockWeight(f, parent) < BlockWeight(f, idom[b])
  {
    hide IsRpo;
    assert Parented(f, idom, parent);
    assert f.rank[parent] < |f.rpo|;
  }
}
