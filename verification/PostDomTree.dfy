/** The theory of the post-dominator forest: what an entry of the array promises while the sweeps run,
    and exactly which pairs of blocks the finished forest relates. `-1` is the virtual exit root. */
module PostDominatorForest {
  import opened Graphs
  import RPO = ReversePostOrder

  function Flip(g: Graph): Graph {
    Graph(g.n, g.entry, g.pred, g.succ)
  }

  lemma FlipValid(g: Graph)
    requires g.Valid()
    ensures Flip(g).Valid()
    ensures forall u: nat, v: nat :: Flip(g).Edge(u, v) <==> g.Edge(v, u)
  {
    forall u: nat, v: nat ensures Flip(g).Edge(u, v) <==> g.Edge(v, u) {
      if g.Edge(v, u) { assert v in g.pred[u]; }
      if Flip(g).Edge(u, v) { assert v in g.pred[u]; }
    }
  }

  lemma {:induction false} FlipPath(g: Graph, u: nat, v: nat, p: seq<nat>)
    requires g.Valid() && PathFrom(g, u, v, p)
    ensures PathFrom(Flip(g), v, u, RPO.Reversed(p))
  {
    FlipValid(g);
    var r := RPO.Reversed(p);
    forall i, j | 0 <= i < j < |r| && j == i + 1 ensures Flip(g).Edge(r[i], r[j]) {
      assert g.Edge(p[|p| - 1 - j], p[|p| - 1 - i]);
    }
  }

  lemma FlipReaches(g: Graph, u: nat, v: nat)
    requires g.Valid()
    ensures Reaches(g, u, v) <==> Reaches(Flip(g), v, u)
  {
    if Reaches(g, u, v) {
      var p :| PathFrom(g, u, v, p);
      FlipPath(g, u, v, p);
    }
    if Reaches(Flip(g), v, u) {
      FlipValid(g);
      var p :| PathFrom(Flip(g), v, u, p);
      FlipPath(Flip(g), v, u, p);
      assert Flip(Flip(g)) == g;
    }
  }

  /** An exit the analysis starts from: a reachable block without successors. */
  ghost predicate IsExit(g: Graph, e: nat) {
    Reachable(g, e) && e < |g.succ| && g.succ[e] == []
  }

  ghost predicate ReachesExit(g: Graph, v: nat) {
    exists e: nat :: IsExit(g, e) && Reaches(g, v, e)
  }

  /** `rpo` is a reverse post-order of the reversed graph, from all exits at once. */
  datatype BackFlow = BackFlow(g: Graph, exits: set<nat>, rpo: seq<nat>, rank: seq<int>) {

    ghost predicate Valid() {
      && g.Valid() && RPO.IsRpoFrom(Flip(g), exits, rpo) && |rank| == g.n
      && (forall e: nat :: e in exits <==> IsExit(g, e))
      && (forall k | 0 <= k < |rpo| :: rpo[k] < g.n && rank[rpo[k]] == k)
      && (forall v | 0 <= v < g.n :: rank[v] == -1 || (0 <= rank[v] < |rpo| && rpo[rank[v]] == v))
    }

    ghost predicate InTree(v: nat) {
      v < |rank| && rank[v] >= 0
    }

    /** A successor the meet for `b` looks at. */
    ghost predicate Feeds(s: nat, b: nat) {
      g.Edge(b, s) && InTree(s)
    }
  }

  lemma InTreeIsReachesExit(d: BackFlow, v: nat)
    requires d.Valid()
    ensures d.InTree(v) <==> ReachesExit(d.g, v)
  {
    assert d.InTree(v) <==> v in d.rpo by {
      if d.InTree(v) { assert d.rpo[d.rank[v]] == v; }
    }
    if d.InTree(v) {
      assert RPO.FromRoots(Flip(d.g), d.exits, v);
      var e :| e in d.exits && Reaches(Flip(d.g), e, v);
      FlipReaches(d.g, v, e);
    }
    if ReachesExit(d.g, v) {
      var e: nat :| IsExit(d.g, e) && Reaches(d.g, v, e);
      FlipReaches(d.g, v, e);
      assert e in d.exits;
      assert RPO.FromRoots(Flip(d.g), d.exits, v);
    }
  }

  ghost predicate Parented(d: BackFlow, ipdom: seq<int>, v: nat)
    requires |ipdom| == |d.rank| && v < |ipdom|
  {
    ipdom[v] != -1 ==>
      && d.InTree(v) && v !in d.exits && 0 <= ipdom[v] && d.InTree(ipdom[v])
      && d.rank[ipdom[v]] < d.rank[v]
  }

  ghost predicate Forest(d: BackFlow, ipdom: seq<int>) {
    |ipdom| == |d.rank| && forall v: nat | v < |ipdom| :: Parented(d, ipdom, v)
  }

  ghost function Chain(d: BackFlow, ipdom: seq<int>, v: int): (c: set<nat>)
    requires Forest(d, ipdom) && (v == -1 || (0 <= v && d.InTree(v)))
    ensures v == -1 ==> c == {}
    ensures v != -1 ==> v in c
    ensures forall x | x in c :: v != -1 && d.InTree(x) && d.rank[x] <= d.rank[v] && (x != v ==> d.rank[x] < d.rank[v])
    decreases if v == -1 then 0 else d.rank[v] + 1
  {
    if v == -1 then {} else
      assert Parented(d, ipdom, v);
      {v} + Chain(d, ipdom, ipdom[v])
  }

  lemma {:induction false} ChainTrans(d: BackFlow, ipdom: seq<int>, x: nat, v: nat)
    requires Forest(d, ipdom) && d.InTree(v) && x in Chain(d, ipdom, v)
    ensures d.InTree(x) && Chain(d, ipdom, x) <= Chain(d, ipdom, v)
    decreases d.rank[v]
  {
    assert Parented(d, ipdom, v);
    if x != v {
      ChainTrans(d, ipdom, x, ipdom[v]);
    }
  }

  // ----- what the forest can and cannot promise

  /** A path of blocks that reach an exit. */
  ghost predicate TreePath(d: BackFlow, b: nat, p: seq<nat>) {
    IsPath(d.g, p) && p[0] == b && forall i | 0 <= i < |p| :: d.InTree(p[i])
  }

  /** Every path from `b` that gets to an exit, or that is `bound` blocks long, meets `a`. */
  ghost predicate ForcedBy(d: BackFlow, a: nat, b: nat, bound: nat) {
    forall p | TreePath(d, b, p) && p != [] && (p[|p| - 1] in d.exits || |p| >= bound) :: a in p
  }

  ghost predicate Forced(d: BackFlow, a: nat, b: nat) {
    exists bound: nat :: ForcedBy(d, a, b, bound)
  }

  lemma ForcedSelf(d: BackFlow, a: nat)
    ensures Forced(d, a, a)
  {
    assert ForcedBy(d, a, a, 0);
  }

  lemma TreeSlice(d: BackFlow, b: nat, p: seq<nat>, i: nat, j: nat)
    requires TreePath(d, b, p) && i < j <= |p|
    ensures TreePath(d, p[i], p[i..j])
  {}

  lemma ForcedTransPath(d: BackFlow, a: nat, b: nat, c: nat, m: nat, n: nat, p: seq<nat>)
    requires ForcedBy(d, a, b, m) && ForcedBy(d, b, c, n)
    requires TreePath(d, c, p) && p != [] && (p[|p| - 1] in d.exits || |p| >= m + n + 1)
    ensures a in p
  {
    hide BackFlow.InTree, TreePath;
    var l := if p[|p| - 1] in d.exits then |p| else n + 1;
    TreeSlice(d, c, p, 0, l);
    assert p[0] == c by { PathStart(d, c, p); }
    assert b in p[0..l];
    var k :| 0 <= k < l && p[k] == b;
    TreeSlice(d, c, p, k, |p|);
    assert a in p[k..|p|];
  }

  lemma PathStart(d: BackFlow, b: nat, p: seq<nat>)
    requires TreePath(d, b, p)
    ensures p != [] && p[0] == b
  {}

  lemma ForcedTrans(d: BackFlow, a: nat, b: nat, c: nat)
    requires Forced(d, a, b) && Forced(d, b, c)
    ensures Forced(d, a, c)
  {
    hide TreePath;
    var m: nat, n: nat :| ForcedBy(d, a, b, m) && ForcedBy(d, b, c, n);
    forall p | TreePath(d, c, p) && p != [] && (p[|p| - 1] in d.exits || |p| >= m + n + 1) ensures a in p {
      ForcedTransPath(d, a, b, c, m, n, p);
    }
    assert ForcedBy(d, a, c, m + n + 1);
  }

  lemma {:induction false} CommonBound(d: BackFlow, a: nat, succs: seq<nat>) returns (bound: nat)
    requires forall s | s in succs && d.InTree(s) :: Forced(d, a, s)
    ensures forall s | s in succs && d.InTree(s) :: ForcedBy(d, a, s, bound)
    decreases |succs|
  {
    bound := 1;
    if succs != [] {
      var rest := CommonBound(d, a, succs[1..]);
      bound := rest;
      if d.InTree(succs[0]) {
        var m: nat :| ForcedBy(d, a, succs[0], m);
        bound := if m > rest then m else rest;
      }
      forall s | s in succs && d.InTree(s) ensures ForcedBy(d, a, s, bound) {
        assert s == succs[0] || s in succs[1..];
      }
    }
  }

  /** What is forced from every successor that reaches an exit is forced from the block. */
  lemma ForcedMeet(d: BackFlow, a: nat, b: nat)
    requires d.Valid() && d.InTree(b) && b !in d.exits
    requires forall s: nat | d.Feeds(s, b) :: Forced(d, a, s)
    ensures Forced(d, a, b)
  {
    hide RPO.IsRpoFrom;
    forall s | s in d.g.succ[b] && d.InTree(s) ensures Forced(d, a, s) {
      assert d.Feeds(s, b);
    }
    var m := CommonBound(d, a, d.g.succ[b]);
    forall p | TreePath(d, b, p) && p != [] && (p[|p| - 1] in d.exits || |p| >= m + 2) ensures a in p {
      assert |p| > 1;
      assert d.g.Edge(p[0], p[1]);
      assert TreePath(d, p[1], p[1..]);
      assert a in p[1..];
    }
    assert ForcedBy(d, a, b, m + 2);
  }

  // ----- what the sweeps keep

  /** A parent is on the chain of every feeding successor, and is forced. */
  ghost predicate SoundAt(d: BackFlow, ipdom: seq<int>, b: nat)
    requires Forest(d, ipdom) && b < |ipdom|
  {
    ipdom[b] != -1 ==>
      && ipdom[b] >= 0 && Forced(d, ipdom[b], b)
      && (forall s: nat | d.Feeds(s, b) :: ipdom[b] in Chain(d, ipdom, s))
  }

  ghost predicate SweepInv(d: BackFlow, ipdom: seq<int>) {
    d.Valid() && Forest(d, ipdom) && forall b: nat | b < |ipdom| :: SoundAt(d, ipdom, b)
  }

  /** `x` is on the chain of every feeding successor of `b`. */
  ghost predicate Common(d: BackFlow, ipdom: seq<int>, b: nat, x: nat)
    requires Forest(d, ipdom)
  {
    forall s: nat | d.Feeds(s, b) :: x in Chain(d, ipdom, s)
  }

  /** `parent` is the meet of the chains of the feeding successors, `-1` when they share nothing. */
  ghost predicate IsMeet(d: BackFlow, ipdom: seq<int>, b: nat, parent: int)
    requires Forest(d, ipdom)
  {
    && (parent == -1 || (0 <= parent && d.InTree(parent) && Common(d, ipdom, b, parent)))
    && (forall x: nat | Common(d, ipdom, b, x) :: x in Chain(d, ipdom, parent))
  }

  lemma {:induction false} ChainForced(d: BackFlow, ipdom: seq<int>, x: nat, v: nat)
    requires SweepInv(d, ipdom) && d.InTree(v) && x in Chain(d, ipdom, v)
    ensures Forced(d, x, v)
    decreases d.rank[v]
  {
    hide BackFlow.Valid, ForcedBy;
    assert Parented(d, ipdom, v) && SoundAt(d, ipdom, v);
    if x == v {
      ForcedSelf(d, x);
    } else {
      ChainForced(d, ipdom, x, ipdom[v]);
      ForcedTrans(d, x, ipdom[v], v);
    }
  }

  lemma EarlierFeeds(d: BackFlow, b: nat) returns (s: nat)
    requires d.Valid() && d.InTree(b) && b !in d.exits
    ensures d.Feeds(s, b) && d.rank[s] < d.rank[b]
  {
    FlipValid(d.g);
    assert d.rpo[d.rank[b]] == b;
    assert RPO.EarlierPred(Flip(d.g), d.rpo, d.rank[b]);
    var j :| 0 <= j < d.rank[b] && Flip(d.g).Edge(d.rpo[j], d.rpo[d.rank[b]]);
    s := d.rpo[j];
  }

  /** The situation in which the sweep rewrites the parent of `b`. */
  ghost predicate Visit(d: BackFlow, ipdom: seq<int>, ipdom': seq<int>, b: nat, parent: int) {
    && SweepInv(d, ipdom) && d.InTree(b) && b !in d.exits && b < |ipdom|
    && IsMeet(d, ipdom, b, parent) && ipdom' == ipdom[b := parent]
  }

  lemma VisitFacts(d: BackFlow, ipdom: seq<int>, ipdom': seq<int>, b: nat, parent: int)
    requires Visit(d, ipdom, ipdom', b, parent)
    ensures Forest(d, ipdom) && Forest(d, ipdom')
    ensures parent != -1 ==> 0 <= parent && d.InTree(parent) && d.rank[parent] < d.rank[b]
    ensures ipdom[b] != -1 ==> 0 <= ipdom[b] && d.InTree(ipdom[b]) && ipdom[b] in Chain(d, ipdom, parent)
  {
    hide BackFlow.Valid, Forced;
    var s := EarlierFeeds(d, b);
    assert parent != -1 ==> parent in Chain(d, ipdom, s);
    assert SoundAt(d, ipdom, b) && Parented(d, ipdom, b);
    assert ipdom[b] != -1 ==> Common(d, ipdom, b, ipdom[b]);
    forall v: nat | v < |ipdom'| ensures Parented(d, ipdom', v) {
      assert Parented(d, ipdom, v);
    }
  }

  /** Chains only grow. */
  lemma {:induction false} ChainGrows(d: BackFlow, ipdom: seq<int>, ipdom': seq<int>, b: nat, parent: int, v: int)
    requires Visit(d, ipdom, ipdom', b, parent) && Forest(d, ipdom) && Forest(d, ipdom')
    requires v == -1 || (0 <= v && d.InTree(v))
    ensures Chain(d, ipdom, v) <= Chain(d, ipdom', v)
    decreases if v == -1 then 0 else d.rank[v] + 1
  {
    hide BackFlow.Valid, IsMeet, SoundAt;
    if v != -1 {
      assert Parented(d, ipdom, v) && Parented(d, ipdom', v);
      if v == b {
        VisitFacts(d, ipdom, ipdom', b, parent);
        ChainGrows(d, ipdom, ipdom', b, parent, parent);
        if ipdom[b] != -1 {
          ChainTrans(d, ipdom, ipdom[b], parent);
        }
      } else {
        ChainGrows(d, ipdom, ipdom', b, parent, ipdom[v]);
      }
    }
  }

  lemma VisitForced(d: BackFlow, ipdom: seq<int>, ipdom': seq<int>, b: nat, parent: nat)
    requires Visit(d, ipdom, ipdom', b, parent)
    ensures Forced(d, parent, b)
  {
    hide BackFlow.Valid, SoundAt, Forced, Chain;
    forall s: nat | d.Feeds(s, b) ensures Forced(d, parent, s) {
      ChainForced(d, ipdom, parent, s);
    }
    ForcedMeet(d, parent, b);
  }

  /** One visit keeps the invariant, and a parent that is there is replaced only by a deeper one. */
  lemma VisitKeepsInv(d: BackFlow, ipdom: seq<int>, ipdom': seq<int>, b: nat, parent: int)
    requires Visit(d, ipdom, ipdom', b, parent)
    ensures SweepInv(d, ipdom')
    ensures ipdom[b] != parent ==> parent >= 0 && d.InTree(parent)
    ensures ipdom[b] != parent && ipdom[b] != -1 ==>
            ipdom[b] >= 0 && d.InTree(ipdom[b]) && d.rank[ipdom[b]] < d.rank[parent]
  {
    hide BackFlow.Valid, Forced, Chain;
    VisitFacts(d, ipdom, ipdom', b, parent);
    forall c: nat | c < |ipdom'| ensures SoundAt(d, ipdom', c) {
      assert SoundAt(d, ipdom, c);
      if ipdom'[c] != -1 {
        if c == b {
          VisitForced(d, ipdom, ipdom', b, parent);
        }
        forall s: nat | d.Feeds(s, c) ensures ipdom'[c] in Chain(d, ipdom', s) {
          ChainGrows(d, ipdom, ipdom', b, parent, s);
        }
      }
    }
  }

  // ----- the finished forest

  /** Recomputing the parent of `b` would change nothing. */
  ghost predicate Settled(d: BackFlow, ipdom: seq<int>, b: nat)
    requires Forest(d, ipdom) && b < |ipdom|
  {
    d.InTree(b) && b !in d.exits ==> (ipdom[b] == -1 || (ipdom[b] >= 0 && d.InTree(ipdom[b])))
                                     && forall x: nat | Common(d, ipdom, b, x) :: x in Chain(d, ipdom, ipdom[b])
  }

  ghost predicate AllSettled(d: BackFlow, ipdom: seq<int>)
    requires Forest(d, ipdom)
  {
    forall b: nat | b < |ipdom| :: Settled(d, ipdom, b)
  }

  /** A block that is not on the chain of `b` is avoided by paths from `b` that end at an exit or are
      as long as asked for. */
  lemma {:induction false} AvoidingPath(d: BackFlow, ipdom: seq<int>, a: nat, b: nat, length: nat) returns (p: seq<nat>)
    requires SweepInv(d, ipdom) && AllSettled(d, ipdom) && d.InTree(b) && a !in Chain(d, ipdom, b)
    ensures TreePath(d, b, p) && p != [] && a !in p && (p[|p| - 1] in d.exits || |p| >= length)
    decreases length
  {
    hide Forced, RPO.IsRpoFrom, SoundAt;
    if b in d.exits || length <= 1 {
      p := [b];
    } else {
      var s := MissingFeed(d, ipdom, a, b);
      var q := AvoidingPath(d, ipdom, a, s, length - 1);
      p := [b] + q;
      PrependTreePath(d, b, s, q);
    }
  }

  lemma PrependTreePath(d: BackFlow, b: nat, s: nat, q: seq<nat>)
    requires d.Valid() && d.InTree(b) && d.Feeds(s, b) && TreePath(d, s, q)
    ensures TreePath(d, b, [b] + q)
  {
    hide RPO.IsRpoFrom, IsExit;
    var p := [b] + q;
    forall i, j | 0 <= i < j < |p| && j == i + 1 ensures d.g.Edge(p[i], p[j]) {
      if i > 0 {
        assert p[i] == q[i - 1] && p[j] == q[i];
      }
    }
  }

  lemma MissingFeed(d: BackFlow, ipdom: seq<int>, a: nat, b: nat) returns (s: nat)
    requires SweepInv(d, ipdom) && AllSettled(d, ipdom) && d.InTree(b) && b !in d.exits && a !in Chain(d, ipdom, b)
    ensures d.Feeds(s, b) && a !in Chain(d, ipdom, s)
  {
    hide Forced, RPO.IsRpoFrom, SoundAt, IsExit;
    assert Settled(d, ipdom, b);
    assert Parented(d, ipdom, b);
    assert !Common(d, ipdom, b, a);
    s :| d.Feeds(s, b) && a !in Chain(d, ipdom, s);
  }

  /** The chain of a block is exactly the set of blocks forced from it. */
  lemma ChainIsForced(d: BackFlow, ipdom: seq<int>, a: nat, b: nat)
    requires SweepInv(d, ipdom) && AllSettled(d, ipdom) && d.InTree(b)
    ensures a in Chain(d, ipdom, b) <==> Forced(d, a, b)
  {
    hide SoundAt, BackFlow.Valid, Chain, TreePath;
    if a in Chain(d, ipdom, b) {
      ChainForced(d, ipdom, a, b);
    } else if Forced(d, a, b) {
      var bound: nat :| ForcedBy(d, a, b, bound);
      var p := AvoidingPath(d, ipdom, a, b, bound);
      assert false;
    }
  }

  // ----- forced, in terms a reader of the graph can check

  ghost predicate OnEveryExitPath(g: Graph, a: nat, b: nat) {
    forall p: seq<nat>, e: nat | IsExit(g, e) && PathFrom(g, b, e, p) :: a in p
  }

  /** From `b` a loop of blocks that reach an exit can be run around without meeting `a`. */
  ghost predicate LoopAvoids(g: Graph, a: nat, b: nat) {
    exists p: seq<nat>, i: nat :: AroundLoop(g, a, b, p, i)
  }

  ghost predicate AroundLoop(g: Graph, a: nat, b: nat, p: seq<nat>, i: nat) {
    && IsPath(g, p) && p[0] == b && i < |p| - 1 && p[i] == p[|p| - 1]
    && (forall k | 0 <= k < |p| :: ReachesExit(g, p[k])) && a !in p
  }

  lemma TreePathIsExiting(d: BackFlow, b: nat, p: seq<nat>)
    requires d.Valid()
    ensures TreePath(d, b, p) <==> IsPath(d.g, p) && p[0] == b && forall k | 0 <= k < |p| :: ReachesExit(d.g, p[k])
  {
    hide RPO.IsRpoFrom, IsExit, ReachesExit, BackFlow.Valid;
    forall k | 0 <= k < |p| ensures d.InTree(p[k]) <==> ReachesExit(d.g, p[k]) {
      InTreeIsReachesExit(d, p[k]);
    }
  }

  /** Every block on a path to an exit reaches that exit. */
  lemma ExitPathInTree(d: BackFlow, b: nat, e: nat, p: seq<nat>)
    requires d.Valid() && IsExit(d.g, e) && PathFrom(d.g, b, e, p)
    ensures TreePath(d, b, p)
  {
    hide RPO.IsRpoFrom, IsExit;
    forall k | 0 <= k < |p| ensures d.InTree(p[k]) {
      SuffixPath(d.g, b, e, p, k);
      InTreeIsReachesExit(d, p[k]);
    }
  }

  /** Running around the loop again makes the path longer. */
  lemma {:induction false} Pump(d: BackFlow, a: nat, b: nat, p: seq<nat>, i: nat, length: nat) returns (r: seq<nat>)
    requires TreePath(d, b, p) && p != [] && i < |p| - 1 && p[i] == p[|p| - 1] && a !in p
    ensures TreePath(d, b, r) && r != [] && r[|r| - 1] == p[i] && a !in r && |r| >= length
    decreases length
  {
    if length <= |p| {
      r := p;
    } else {
      var q := Pump(d, a, b, p, i, length - 1);
      var lap := p[i + 1..];
      r := q + lap;
      forall x, y | 0 <= x < y < |r| && y == x + 1 ensures d.g.Edge(r[x], r[y]) {
        if y == |q| {
          assert r[x] == p[i] && r[y] == p[i + 1];
        } else if y > |q| {
          assert r[x] == p[i + 1 + x - |q|] && r[y] == p[i + 1 + y - |q|];
        }
      }
    }
  }

  /** A path longer than the graph visits some block twice. */
  lemma LongPathRepeats(p: seq<nat>, n: nat) returns (i: nat, j: nat)
    requires |p| > n && forall k | 0 <= k < |p| :: p[k] < n
    ensures i < j < |p| && p[i] == p[j]
    decreases n
  {
    if forall k | 0 <= k < |p| - 1 :: p[k] != p[|p| - 1] {
      var last := p[|p| - 1];
      var q := seq(|p| - 1, k requires 0 <= k < |p| - 1 => if p[k] > last then p[k] - 1 else p[k]);
      i, j := LongPathRepeats(q, n - 1);
      assert q[i] == q[j];
    } else {
      i :| 0 <= i < |p| - 1 && p[i] == p[|p| - 1];
      j := |p| - 1;
    }
  }

  lemma ForcedAvoidsNoLoop(d: BackFlow, a: nat, b: nat)
    requires d.Valid() && Forced(d, a, b)
    ensures OnEveryExitPath(d.g, a, b) && !LoopAvoids(d.g, a, b)
  {
    hide RPO.IsRpoFrom, IsExit, TreePath;
    var bound: nat :| ForcedBy(d, a, b, bound);
    forall p: seq<nat>, e: nat | IsExit(d.g, e) && PathFrom(d.g, b, e, p) ensures a in p {
      ExitPathInTree(d, b, e, p);
      assert p[|p| - 1] in d.exits;
    }
    if LoopAvoids(d.g, a, b) {
      var p: seq<nat>, i: nat :| AroundLoop(d.g, a, b, p, i);
      TreePathIsExiting(d, b, p);
      var r := Pump(d, a, b, p, i, bound);
      assert false;
    }
  }

  lemma LongPathLoops(d: BackFlow, a: nat, b: nat, p: seq<nat>)
    requires d.Valid() && TreePath(d, b, p) && |p| > d.g.n && a !in p
    ensures LoopAvoids(d.g, a, b)
  {
    hide RPO.IsRpoFrom, IsExit;
    var i, j := LongPathRepeats(p, d.g.n);
    TreeSlice(d, b, p, 0, j + 1);
    TreePathIsExiting(d, b, p[0..j + 1]);
    assert AroundLoop(d.g, a, b, p[0..j + 1], i);
  }

  lemma NoLoopIsForced(d: BackFlow, a: nat, b: nat)
    requires d.Valid() && OnEveryExitPath(d.g, a, b) && !LoopAvoids(d.g, a, b)
    ensures Forced(d, a, b)
  {
    hide RPO.IsRpoFrom, IsExit;
    forall p | TreePath(d, b, p) && p != [] && (p[|p| - 1] in d.exits || |p| >= d.g.n + 1) ensures a in p {
      if p[|p| - 1] in d.exits {
        assert PathFrom(d.g, b, p[|p| - 1], p);
      } else if a !in p {
        LongPathLoops(d, a, b, p);
      }
    }
    assert ForcedBy(d, a, b, d.g.n + 1);
  }

  /** Around a loop the two notions part: with blocks 0 -> 1, 1 -> 1 and 1 -> 2 every path from 1 to
      the exit passes 2, yet the loop at 1 never meets it. */
  lemma LoopHidesPostDominator()
    ensures exists g: Graph, a: nat, b: nat ::
              g.Valid() && Reachable(g, b) && ReachesExit(g, a) && ReachesExit(g, b)
              && a != b && OnEveryExitPath(g, a, b) && LoopAvoids(g, a, b)
  {
    var g := Graph(3, 0, [[1], [1, 2], []], [[], [0, 1], [1]]);
    assert g.Edge(0, 1) && g.Edge(1, 1) && g.Edge(1, 2);
    assert forall e: nat | IsExit(g, e) :: e == 2;
    assert PathFrom(g, 0, 2, [0, 1, 2]);
    assert IsExit(g, 2);
    assert PathFrom(g, 0, 1, [0, 1]) && PathFrom(g, 1, 2, [1, 2]) && PathFrom(g, 2, 2, [2]);
    assert ReachesExit(g, 1) && ReachesExit(g, 2);
    assert OnEveryExitPath(g, 2, 1);
    assert AroundLoop(g, 2, 1, [1, 1], 0);
  }
}
