/** Control-flow graphs, their paths, and what it means for a block to dominate another. */
module Graphs {

  /** Blocks are the indices below `n`. An edge may be listed more than once, as it is after a
      conditional branch whose arms coincide. */
  datatype Graph = Graph(n: nat, entry: nat, succ: seq<seq<nat>>, pred: seq<seq<nat>>) {

    predicate Edge(u: nat, v: nat) {
      u < |succ| && v in succ[u]
    }

    /** The predecessor lists are the converse of the successor lists. The entry may be missing
        (`entry >= n`), which is the empty function. */
    ghost predicate Valid() {
      && |succ| == n && |pred| == n
      && (forall u: nat, v: nat | Edge(u, v) :: v < n && u in pred[v])
      && (forall u: nat, v: nat | v < n && u in pred[v] :: Edge(u, v))
    }
  }

  ghost predicate IsPath(g: Graph, p: seq<nat>) {
    && 0 < |p|
    && (forall i | 0 <= i < |p| :: p[i] < g.n)
    && (forall i, j | 0 <= i < j < |p| && j == i + 1 :: g.Edge(p[i], p[j]))
  }

  ghost predicate PathFrom(g: Graph, u: nat, v: nat, p: seq<nat>) {
    IsPath(g, p) && p[0] == u && p[|p| - 1] == v
  }

  ghost predicate Reaches(g: Graph, u: nat, v: nat) {
    exists p :: PathFrom(g, u, v, p)
  }

  ghost predicate Reachable(g: Graph, v: nat) {
    Reaches(g, g.entry, v)
  }

  /** Every path from the entry to `b` passes through `a`. */
  ghost predicate Dominates(g: Graph, a: nat, b: nat) {
    forall p | PathFrom(g, g.entry, b, p) :: a in p
  }

  lemma ReachesSelf(g: Graph, u: nat)
    requires u < g.n
    ensures Reaches(g, u, u)
  {
    assert PathFrom(g, u, u, [u]);
  }

  lemma ReachableInRange(g: Graph, v: nat)
    requires Reachable(g, v)
    ensures v < g.n && g.entry < g.n
  {
    var p :| PathFrom(g, g.entry, v, p);
  }

  lemma ExtendPath(g: Graph, u: nat, v: nat, w: nat, p: seq<nat>)
    requires PathFrom(g, u, v, p) && g.Edge(v, w) && w < g.n
    ensures PathFrom(g, u, w, p + [w])
  {}

  lemma ReachesStep(g: Graph, u: nat, v: nat, w: nat)
    requires Reaches(g, u, v) && g.Edge(v, w) && w < g.n
    ensures Reaches(g, u, w)
  {
    var p :| PathFrom(g, u, v, p);
    ExtendPath(g, u, v, w, p);
  }

  lemma ConcatPath(g: Graph, u: nat, v: nat, w: nat, p: seq<nat>, q: seq<nat>)
    requires PathFrom(g, u, v, p) && PathFrom(g, v, w, q)
    ensures PathFrom(g, u, w, p + q[1..])
  {
    var r := p + q[1..];
    forall i, j | 0 <= i < j < |r| && j == i + 1 ensures g.Edge(r[i], r[j]) {
      if j >= |p| {
        assert r[j] == q[j - |p| + 1];
        assert r[i] == q[i - |p| + 1];
      }
    }
  }

  lemma ReachesTrans(g: Graph, u: nat, v: nat, w: nat)
    requires Reaches(g, u, v) && Reaches(g, v, w)
    ensures Reaches(g, u, w)
  {
    var p :| PathFrom(g, u, v, p);
    var q :| PathFrom(g, v, w, q);
    ConcatPath(g, u, v, w, p, q);
  }

  lemma PrefixPath(g: Graph, u: nat, v: nat, p: seq<nat>, k: nat)
    requires PathFrom(g, u, v, p) && k < |p|
    ensures PathFrom(g, u, p[k], p[..k + 1])
  {}

  lemma SuffixPath(g: Graph, u: nat, v: nat, p: seq<nat>, k: nat)
    requires PathFrom(g, u, v, p) && k < |p|
    ensures PathFrom(g, p[k], v, p[k..])
  {}

  /** A set of blocks closed under successors keeps every path that starts in it. */
  lemma {:induction false} ClosedKeepsPath(g: Graph, u: nat, v: nat, p: seq<nat>, s: set<nat>)
    requires PathFrom(g, u, v, p) && u in s
    requires forall x, y: nat | x in s && g.Edge(x, y) :: y in s
    ensures forall i | 0 <= i < |p| :: p[i] in s
    decreases |p|
  {
    if |p| > 1 {
      PrefixPath(g, u, v, p, |p| - 2);
      ClosedKeepsPath(g, u, p[|p| - 2], p[..|p| - 1], s);
      forall i | 0 <= i < |p| ensures p[i] in s {
        if i < |p| - 1 {
          assert p[i] == p[..|p| - 1][i];
        } else {
          assert p[|p| - 2] == p[..|p| - 1][|p| - 2];
          assert g.Edge(p[i - 1], p[i]);
        }
      }
    }
  }

  /** Dominance passes back over an edge: a strict dominator of a block dominates its predecessors. */
  lemma DominatesPred(g: Graph, a: nat, b: nat, c: nat)
    requires g.Valid() && Dominates(g, a, b) && a != b && g.Edge(c, b)
    ensures Dominates(g, a, c)
  {
    forall p | PathFrom(g, g.entry, c, p) ensures a in p {
      ExtendPath(g, g.entry, c, b, p);
      assert a in p + [b];
    }
  }

  lemma DominatesTrans(g: Graph, a: nat, b: nat, c: nat)
    requires Dominates(g, a, b) && Dominates(g, b, c)
    ensures Dominates(g, a, c)
  {
    forall p | PathFrom(g, g.entry, c, p) ensures a in p {
      var k :| 0 <= k < |p| && p[k] == b;
      PrefixPath(g, g.entry, c, p, k);
      assert a in p[..k + 1];
    }
  }

  /** Conversely, what dominates every reachable predecessor of a block other than the entry
      dominates the block. */
  lemma DominatesJoin(g: Graph, a: nat, b: nat)
    requires g.Valid() && b != g.entry
    requires forall c: nat | g.Edge(c, b) && Reachable(g, c) :: Dominates(g, a, c)
    ensures Dominates(g, a, b)
  {
    forall p | PathFrom(g, g.entry, b, p) ensures a in p {
      PrefixPath(g, g.entry, b, p, |p| - 2);
      assert g.Edge(p[|p| - 2], b);
      assert a in p[..|p| - 1];
    }
  }
}
