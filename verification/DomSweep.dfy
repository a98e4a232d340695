/** What one sweep of the iterative dominator algorithm keeps, why it stops, and what its fixpoint is. */
module DominatorSweep {
  import opened Graphs
  import opened ReversePostOrder
  import opened DominatorTree

  /** An edge the sweep looks at when it computes the parent of `b`. */
  ghost predicate Feeds(f: Flow, idom: seq<int>, p: nat, b: nat) {
    f.g.Edge(p, b) && Assigned(idom, p)
  }

  /** Every strict dominator of an assigned block dominates its parent: no dominator is skipped. */
  ghost predicate KeepsDominators(f: Flow, idom: seq<int>) {
    forall c: nat, x: nat | Assigned(idom, c) && c != f.g.entry && x != c && Dominates(f.g, x, c) ::
      idom[c] >= 0 && Dominates(f.g, x, idom[c])
  }

  /** What lies on the chains of all its feeding predecessors lies on the chain of the block's
      parent: recomputing the parent can only move it up. */
  ghost predicate OnlyUp(f: Flow, idom: seq<int>, c: nat)
    requires Tree(f, idom) && Assigned(idom, c)
  {
    assert Parented(f, idom, c);
    forall x: nat | (forall p: nat | Feeds(f, idom, p, c) :: x in Chain(f, idom, p)) :: x in Chain(f, idom, idom[c])
  }

  /** Between two visits of `c`, the part of its parent's chain that this sweep has not rewritten
      (from rank `i` on) is still on the chain of every earlier predecessor. */
  ghost predicate EarlierKeeps(f: Flow, idom: seq<int>, c: nat, i: nat)
    requires Tree(f, idom) && Assigned(idom, c)
  {
    assert Parented(f, idom, c);
    forall p: nat, x: nat | Feeds(f, idom, p, c) && f.rank[p] < f.rank[c] && x in Chain(f, idom, idom[c])
                            && (f.rank[c] < i || f.rank[x] >= i) :: x in Chain(f, idom, p)
  }

  /** `i` is the rank the sweep visits next; `limit` bounds the ranks that are assigned. */
  ghost predicate SweepInv(f: Flow, idom: seq<int>, i: nat, limit: nat) {
    && f.Valid() && Tree(f, idom) && 0 < i <= limit <= |f.rpo|
    && (forall v: nat | v < |idom| :: idom[v] != -1 <==> 0 <= f.rank[v] < limit)
    && KeepsDominators(f, idom)
    && (forall c: nat {:trigger OnlyUp(f, idom, c)} | Assigned(idom, c) && c != f.g.entry :: OnlyUp(f, idom, c))
    && (forall c: nat {:trigger EarlierKeeps(f, idom, c, i)} | Assigned(idom, c) && c != f.g.entry ::
          EarlierKeeps(f, idom, c, i))
  }

  /** `parent` is the meet of the chains of the predecessors that feed `b`. */
  ghost predicate IsMeet(f: Flow, idom: seq<int>, b: nat, parent: nat)
    requires Tree(f, idom)
  {
    && Assigned(idom, parent)
    && (exists p: nat :: Feeds(f, idom, p, b))
    && (forall p: nat | Feeds(f, idom, p, b) :: parent in Chain(f, idom, p))
    && (forall x: nat | (forall p: nat | Feeds(f, idom, p, b) :: x in Chain(f, idom, p)) :: x in Chain(f, idom, parent))
    && (forall x: nat | (forall p: nat | Feeds(f, idom, p, b) :: Dominates(f.g, x, p)) :: Dominates(f.g, x, parent))
  }

  ghost predicate Stable(f: Flow, idom: seq<int>, i: nat)
    requires Tree(f, idom)
  {
    forall c: nat, p: nat | Feeds(f, idom, p, c) && Assigned(idom, c) && 0 < f.rank[c] < i ::
      idom[c] >= 0 && idom[c] in Chain(f, idom, p)
  }

  /** The situation in which the sweep visits `b`, before and after it is given `parent`. */
  ghost predicate Visit(f: Flow, idom: seq<int>, idom': seq<int>, i: nat, limit: nat, b: nat, parent: nat) {
    && SweepInv(f, idom, i, limit) && (limit == i || limit == |f.rpo|)
    && i < |f.rpo| && b == f.rpo[i]
    && IsMeet(f, idom, b, parent) && f.rank[parent] < f.rank[b]
    && Reparented(f, idom, idom', b, parent)
  }

  lemma VisitFacts(f: Flow, idom: seq<int>, idom': seq<int>, i: nat, limit: nat, b: nat, parent: nat)
    requires Visit(f, idom, idom', i, limit, b, parent)
    ensures f.rank[b] == i && b < |idom|
    ensures Chain(f, idom', parent) == Chain(f, idom, parent)
    ensures limit == i ==> !Assigned(idom, b)
    ensures limit != i ==> Assigned(idom, b) && idom[b] >= 0 && Assigned(idom, idom[b])
                           && parent in Chain(f, idom, idom[b]) && Chain(f, idom, parent) <= Chain(f, idom, b)
  {
    ChainOff(f, idom, idom', b, parent, parent);
    if limit != i {
      assert Parented(f, idom, b);
      assert OnlyUp(f, idom, b);
      ChainTrans(f, idom, parent, idom[b]);
    }
  }

  lemma VisitKeepsDominators(f: Flow, idom: seq<int>, idom': seq<int>, i: nat, limit: nat, b: nat, parent: nat)
    requires Visit(f, idom, idom', i, limit, b, parent)
    ensures KeepsDominators(f, idom')
  {
    forall c: nat, x: nat | Assigned(idom', c) && c != f.g.entry && x != c && Dominates(f.g, x, c)
      ensures idom'[c] >= 0 && Dominates(f.g, x, idom'[c])
    {
      if c == b {
        forall p: nat | Feeds(f, idom, p, b) ensures Dominates(f.g, x, p) {
          DominatesPred(f.g, x, b, p);
        }
      } else {
        assert Assigned(idom, c);
      }
    }
  }

  /** How a visit changes the chain of any block. */
  lemma ChainMoves(f: Flow, idom: seq<int>, idom': seq<int>, i: nat, limit: nat, b: nat, parent: nat, v: nat)
    requires Visit(f, idom, idom', i, limit, b, parent) && Assigned(idom, v)
    ensures Assigned(idom', v)
    ensures b !in Chain(f, idom, v) ==> Chain(f, idom', v) == Chain(f, idom, v)
    ensures b in Chain(f, idom, v) ==> forall x :: x in Chain(f, idom', v) <==>
              (x in Chain(f, idom, v) && f.rank[x] >= i) || x in Chain(f, idom, parent)
    ensures limit == i ==> b !in Chain(f, idom, v)
    ensures Chain(f, idom', v) <= Chain(f, idom, v)
  {
    VisitFacts(f, idom, idom', i, limit, b, parent);
    if b in Chain(f, idom, v) {
      ChainThrough(f, idom, idom', b, parent, v);
      ChainTrans(f, idom, b, v);
    } else {
      ChainOff(f, idom, idom', b, parent, v);
    }
  }

  lemma VisitOnlyUp(f: Flow, idom: seq<int>, idom': seq<int>, i: nat, limit: nat, b: nat, parent: nat, c: nat)
    requires Visit(f, idom, idom', i, limit, b, parent)
    requires Assigned(idom', c) && c != f.g.entry
    ensures OnlyUp(f, idom', c)
  {
    hide SweepInv, IsMeet, Chain;
    assert Parented(f, idom', c);
    forall x: nat | (forall p: nat | Feeds(f, idom', p, c) :: x in Chain(f, idom', p))
      ensures x in Chain(f, idom', idom'[c]) {
      if c == b {
        VisitedOnlyUp(f, idom, idom', i, limit, b, parent, x);
      } else {
        OtherOnlyUp(f, idom, idom', i, limit, b, parent, c, x);
      }
    }
  }

  lemma VisitedOnlyUp(f: Flow, idom: seq<int>, idom': seq<int>, i: nat, limit: nat, b: nat, parent: nat, x: nat)
    requires Visit(f, idom, idom', i, limit, b, parent)
    requires forall p: nat | Feeds(f, idom', p, b) :: x in Chain(f, idom', p)
    ensures x in Chain(f, idom', parent)
  {
    VisitFacts(f, idom, idom', i, limit, b, parent);
    forall p: nat | Feeds(f, idom, p, b) ensures x in Chain(f, idom, p) {
      ChainMoves(f, idom, idom', i, limit, b, parent, p);
      assert Feeds(f, idom', p, b);
    }
  }

  lemma OtherOnlyUp(f: Flow, idom: seq<int>, idom': seq<int>, i: nat, limit: nat, b: nat, parent: nat, c: nat, x: nat)
    requires Visit(f, idom, idom', i, limit, b, parent)
    requires Assigned(idom', c) && c != f.g.entry && c != b
    requires forall p: nat | Feeds(f, idom', p, c) :: x in Chain(f, idom', p)
    ensures idom'[c] >= 0 && Assigned(idom', idom'[c]) && x in Chain(f, idom', idom'[c])
  {
    hide IsMeet, SweepInv, Chain;
    VisitFacts(f, idom, idom', i, limit, b, parent);
    OtherFacts(f, idom, idom', i, limit, b, parent, c);
    forall p: nat | Feeds(f, idom, p, c) ensures x in Chain(f, idom, p) {
      ChainMoves(f, idom, idom', i, limit, b, parent, p);
      assert Feeds(f, idom', p, c);
    }
    assert x in Chain(f, idom, idom[c]);
    ChainMoves(f, idom, idom', i, limit, b, parent, idom[c]);
    if b in Chain(f, idom, idom[c]) && f.rank[x] < i {
      var p := EarlierFeeds(f, idom, i, limit, c);
      assert b in Chain(f, idom, p);
      ChainMoves(f, idom, idom', i, limit, b, parent, p);
      assert Feeds(f, idom', p, c);
    }
  }

  lemma OtherFacts(f: Flow, idom: seq<int>, idom': seq<int>, i: nat, limit: nat, b: nat, parent: nat, c: nat)
    requires Visit(f, idom, idom', i, limit, b, parent)
    requires Assigned(idom', c) && c != f.g.entry && c != b
    ensures Assigned(idom, c) && Parented(f, idom, c) && OnlyUp(f, idom, c) && EarlierKeeps(f, idom, c, i)
    ensures |f.rank| == f.g.n == |idom| && c < f.g.n
  {
    hide IsMeet, Chain, OnlyUp, EarlierKeeps, KeepsDominators;
  }

  lemma EarlierFeeds(f: Flow, idom: seq<int>, i: nat, limit: nat, c: nat) returns (p: nat)
    requires SweepInv(f, idom, i, limit) && Assigned(idom, c) && c != f.g.entry
    ensures Feeds(f, idom, p, c) && f.rank[p] < f.rank[c]
  {
    assert f.rpo[f.rank[c]] == c;
    assert EarlierPred(f.g, f.rpo, f.rank[c]);
    var j :| 0 <= j < f.rank[c] && f.g.Edge(f.rpo[j], f.rpo[f.rank[c]]);
    p := f.rpo[j];
  }

  lemma VisitKeepsAtBlock(f: Flow, idom: seq<int>, idom': seq<int>, i: nat, limit: nat, b: nat, parent: nat, p: nat,
      x: nat)
    requires Visit(f, idom, idom', i, limit, b, parent)
    requires Assigned(idom', b) && b != f.g.entry && Parented(f, idom', b)
    requires Feeds(f, idom', p, b) && f.rank[p] < f.rank[b] && x in Chain(f, idom', idom'[b])
    ensures x in Chain(f, idom', p)
  {
    hide EarlierKeeps, KeepsDominators;
    VisitFacts(f, idom, idom', i, limit, b, parent);
    assert Feeds(f, idom, p, b);
    ChainMoves(f, idom, idom', i, limit, b, parent, p);
    ChainTrans(f, idom, parent, p);
  }

  lemma VisitKeepsElsewhere(f: Flow, idom: seq<int>, idom': seq<int>, i: nat, limit: nat, b: nat, parent: nat, c: nat,
      p: nat, x: nat)
    requires Visit(f, idom, idom', i, limit, b, parent)
    requires Assigned(idom', c) && c != f.g.entry && c != b && Parented(f, idom', c)
    requires Feeds(f, idom', p, c) && f.rank[p] < f.rank[c] && x in Chain(f, idom', idom'[c])
             && (f.rank[c] < i + 1 || f.rank[x] >= i + 1)
    ensures x in Chain(f, idom', p)
  {
    hide SweepInv, IsMeet, OnlyUp, KeepsDominators, EarlierKeeps, Chain;
    VisitFacts(f, idom, idom', i, limit, b, parent);
    OtherFacts(f, idom, idom', i, limit, b, parent, c);
    FeedsBefore(f, idom, idom', i, limit, b, parent, c, p);
    ChainMoves(f, idom, idom', i, limit, b, parent, idom[c]);
    ChainMoves(f, idom, idom', i, limit, b, parent, p);
    KeptEarlier(f, idom, c, i, p, x);
  }

  /** An earlier predecessor that counts after the visit counted before it. */
  lemma FeedsBefore(f: Flow, idom: seq<int>, idom': seq<int>, i: nat, limit: nat, b: nat, parent: nat, c: nat, p: nat)
    requires Visit(f, idom, idom', i, limit, b, parent)
    requires Assigned(idom', c) && c != f.g.entry && c != b && Feeds(f, idom', p, c) && f.rank[p] < f.rank[c]
    ensures Feeds(f, idom, p, c) && f.rank[c] != i
  {
    hide IsMeet, OnlyUp, KeepsDominators, EarlierKeeps, Chain;
    VisitFacts(f, idom, idom', i, limit, b, parent);
  }

  lemma KeptEarlier(f: Flow, idom: seq<int>, c: nat, i: nat, p: nat, x: nat)
    requires Tree(f, idom) && Assigned(idom, c) && EarlierKeeps(f, idom, c, i)
    requires Feeds(f, idom, p, c) && f.rank[p] < f.rank[c] && idom[c] >= 0 && Assigned(idom, idom[c])
    requires x in Chain(f, idom, idom[c]) && (f.rank[c] < i || f.rank[x] >= i)
    ensures x in Chain(f, idom, p)
  {
    hide Tree, Chain;
  }

  lemma VisitEarlierKeeps(f: Flow, idom: seq<int>, idom': seq<int>, i: nat, limit: nat, b: nat, parent: nat, c: nat)
    requires Visit(f, idom, idom', i, limit, b, parent)
    requires Assigned(idom', c) && c != f.g.entry
    ensures EarlierKeeps(f, idom', c, i + 1)
  {
    hide Chain, IsMeet, OnlyUp, KeepsDominators;
    VisitFacts(f, idom, idom', i, limit, b, parent);
    assert Parented(f, idom', c);
    forall p: nat, x: nat | Feeds(f, idom', p, c) && f.rank[p] < f.rank[c] && x in Chain(f, idom', idom'[c])
                            && (f.rank[c] < i + 1 || f.rank[x] >= i + 1)
      ensures x in Chain(f, idom', p)
    {
      if c == b {
        VisitKeepsAtBlock(f, idom, idom', i, limit, b, parent, p, x);
      } else {
        VisitKeepsElsewhere(f, idom, idom', i, limit, b, parent, c, p, x);
      }
    }
  }

  lemma AssignedAfter(f: Flow, idom: seq<int>, idom': seq<int>, i: nat, limit: nat, b: nat, parent: nat)
    requires Visit(f, idom, idom', i, limit, b, parent)
    ensures forall v: nat | v < |idom'| :: idom'[v] != -1 <==> 0 <= f.rank[v] < if limit == i then i + 1 else limit
  {
    hide IsMeet, Chain, OnlyUp, EarlierKeeps, KeepsDominators;
    forall v: nat | v < |idom'| ensures idom'[v] != -1 <==> 0 <= f.rank[v] < if limit == i then i + 1 else limit {
      if f.rank[v] == i {
        assert f.rpo[f.rank[v]] == v;
      }
    }
  }

  lemma VisitOf(f: Flow, idom: seq<int>, i: nat, limit: nat, b: nat, parent: nat)
    requires SweepInv(f, idom, i, limit) && (limit == i || limit == |f.rpo|)
    requires i < |f.rpo| && b == f.rpo[i] && IsMeet(f, idom, b, parent) && f.rank[parent] < f.rank[b]
    ensures b < |idom| && Visit(f, idom, idom[b := parent], i, limit, b, parent) && Tree(f, idom[b := parent])
  {
    hide Chain, OnlyUp, EarlierKeeps, KeepsDominators;
    assert f.rpo[0] == f.g.entry && f.rank[b] == i;
    TreeAfter(f, idom, b, parent);
  }

  /** One visit keeps the sweep's invariant, and a parent that is already there only moves up. */
  lemma VisitKeepsInv(f: Flow, idom: seq<int>, i: nat, limit: nat, b: nat, parent: nat)
    requires SweepInv(f, idom, i, limit) && (limit == i || limit == |f.rpo|)
    requires i < |f.rpo| && b == f.rpo[i] && IsMeet(f, idom, b, parent) && f.rank[parent] < f.rank[b]
    ensures b < |idom| && SweepInv(f, idom[b := parent], i + 1, if limit == i then i + 1 else limit)
    ensures idom[b] != -1 && idom[b] != parent ==>
            0 <= f.rank[parent] && 0 <= idom[b] < |f.rank| && f.rank[parent] < f.rank[idom[b]]
    ensures idom[b] == -1 <==> limit == i
  {
    hide IsMeet, Chain, OnlyUp, EarlierKeeps, KeepsDominators, Visit;
    VisitOf(f, idom, i, limit, b, parent);
    var idom' := idom[b := parent];
    VisitFacts(f, idom, idom', i, limit, b, parent);
    AssignedAfter(f, idom, idom', i, limit, b, parent);
    VisitKeepsDominators(f, idom, idom', i, limit, b, parent);
    forall c: nat | Assigned(idom', c) && c != f.g.entry
      ensures OnlyUp(f, idom', c) && EarlierKeeps(f, idom', c, i + 1) {
      VisitOnlyUp(f, idom, idom', i, limit, b, parent, c);
      VisitEarlierKeeps(f, idom, idom', i, limit, b, parent, c);
    }
  }

  /** A full sweep leaves the invariant ready for the next one. */
  lemma NextSweep(f: Flow, idom: seq<int>)
    requires SweepInv(f, idom, |f.rpo|, |f.rpo|)
    ensures SweepInv(f, idom, 1, |f.rpo|)
  {
    hide IsMeet, Chain, OnlyUp, KeepsDominators;
    forall c: nat | Assigned(idom, c) && c != f.g.entry ensures EarlierKeeps(f, idom, c, 1) {
      assert EarlierKeeps(f, idom, c, |f.rpo|);
    }
  }

  lemma StartSweep(f: Flow, idom: seq<int>)
    requires f.Valid() && |idom| == f.g.n && f.rpo[0] == f.g.entry
    requires forall v | 0 <= v < f.g.n :: idom[v] == if v == f.g.entry then v else -1
    ensures SweepInv(f, idom, 1, 1)
  {
    hide Chain, OnlyUp, EarlierKeeps;
    forall v: nat | v < |idom| ensures idom[v] != -1 <==> 0 <= f.rank[v] < 1 {
      assert f.rank[v] == 0 ==> f.rpo[f.rank[v]] == v;
    }
  }

  ghost predicate AllAssigned(f: Flow, idom: seq<int>) {
    forall v: nat | v < |idom| && v < |f.rank| && f.rank[v] >= 0 :: Assigned(idom, v)
  }

  /** At a stable point, climbing the chain meets only blocks that every path goes through. */
  lemma {:induction false} ChainIsSound(f: Flow, idom: seq<int>, a: nat, b: nat, p: seq<nat>)
    requires f.Valid() && Tree(f, idom) && Stable(f, idom, |f.rpo|) && AllAssigned(f, idom)
    requires PathFrom(f.g, f.g.entry, b, p) && Assigned(idom, b) && a in Chain(f, idom, b)
    ensures a in p
    decreases |p|
  {
    hide IsRpo;
    if a != b {
      assert Parented(f, idom, b);
      PrefixPath(f.g, f.g.entry, b, p, |p| - 2);
      var c := p[|p| - 2];
      RankedReachable(f, c);
      assert f.g.Edge(c, b) && Feeds(f, idom, c, b);
      ChainTrans(f, idom, idom[b], c);
      ChainIsSound(f, idom, a, c, p[..|p| - 1]);
    }
  }

  lemma {:induction false} ChainIsComplete(f: Flow, idom: seq<int>, a: nat, b: nat)
    requires f.Valid() && Tree(f, idom) && KeepsDominators(f, idom)
    requires Assigned(idom, b) && Dominates(f.g, a, b)
    ensures a in Chain(f, idom, b)
    decreases f.rank[b]
  {
    assert Parented(f, idom, b);
    if b == f.g.entry {
      DominatorIsEarlier(f, a, b);
      assert f.rpo[0] == b;
    } else if a != b {
      ChainIsComplete(f, idom, a, idom[b]);
    }
  }

  /** The array is the dominator tree: the chain of a reachable block is the set of its dominators. */
  ghost predicate IsDominatorTree(f: Flow, idom: seq<int>) {
    && f.Valid() && Tree(f, idom)
    && (forall v: nat | v < |idom| :: idom[v] != -1 <==> f.rank[v] >= 0)
    && (forall a: nat, b: nat | Assigned(idom, b) :: a in Chain(f, idom, b) <==> Dominates(f.g, a, b))
  }

  /** The fixpoint is the dominator tree, whatever the shape of the graph. */
  lemma StableIsDominance(f: Flow, idom: seq<int>)
    requires SweepInv(f, idom, 1, |f.rpo|) && Stable(f, idom, |f.rpo|)
    ensures IsDominatorTree(f, idom)
  {
    hide OnlyUp, EarlierKeeps, Chain, Stable, KeepsDominators, IsRpo, Dominates;
    forall a: nat, b: nat | Assigned(idom, b) ensures a in Chain(f, idom, b) <==> Dominates(f.g, a, b) {
      if a in Chain(f, idom, b) {
        ChainDominates(f, idom, a, b);
      }
      if Dominates(f.g, a, b) {
        ChainIsComplete(f, idom, a, b);
      }
    }
    forall v: nat | v < |idom| && f.rank[v] >= 0 ensures f.rank[v] < |f.rpo| {}
  }

  lemma ChainDominates(f: Flow, idom: seq<int>, a: nat, b: nat)
    requires f.Valid() && Tree(f, idom) && Stable(f, idom, |f.rpo|) && AllAssigned(f, idom)
    requires Assigned(idom, b) && a in Chain(f, idom, b)
    ensures Dominates(f.g, a, b)
  {
    hide Chain, Stable;
    forall p | PathFrom(f.g, f.g.entry, b, p) ensures a in p {
      ChainIsSound(f, idom, a, b, p);
    }
  }

  /** The sum of the ranks of the parents; a block without a parent counts more than any rank. */
  ghost function Weight(f: Flow, idom: seq<int>, k: nat): nat
    requires f.Valid() && |idom| == f.g.n && k <= |f.rpo|
  {
    if k == 0 then 0 else Weight(f, idom, k - 1) + BlockWeight(f, idom[f.rpo[k - 1]])
  }

  ghost function BlockWeight(f: Flow, parent: int): nat {
    if 0 <= parent < |f.rank| && f.rank[parent] >= 0 then f.rank[parent] else |f.rpo|
  }

  lemma {:induction false} WeightFalls(f: Flow, idom: seq<int>, i: nat, parent: nat, k: nat)
    requires f.Valid() && |idom| == f.g.n && k <= |f.rpo| && i < |f.rpo|
    requires BlockWeight(f, parent) < BlockWeight(f, idom[f.rpo[i]])
    ensures var after := Weight(f, idom[f.rpo[i] := parent], k);
            if i < k then after < Weight(f, idom, k) else after == Weight(f, idom, k)
  {
    hide IsRpo;
    if k > 0 {
      WeightFalls(f, idom, i, parent, k - 1);
      assert f.rank[f.rpo[k - 1]] == k - 1 && f.rank[f.rpo[i]] == i;
    }
  }
}
