/** Iterative post-dominators: the search from the exits, the sweeps over the reversed graph, and the
    queries asked of the result. */
module PostDominatorAnalysis {
  import opened Graphs
  import RPO = ReversePostOrder
  import opened PostDominatorForest

  /** Nothing common to the chains of `a0` and `b0` has been climbed past; `-1` is the exit root. */
  ghost predicate Fingers(d: BackFlow, ipdom: seq<int>, a0: nat, b0: nat, a: int, b: int)
    requires Forest(d, ipdom) && d.InTree(a0) && d.InTree(b0)
  {
    && (a == -1 || (0 <= a && d.InTree(a) && a in Chain(d, ipdom, a0)))
    && (b == -1 || (0 <= b && d.InTree(b) && b in Chain(d, ipdom, b0)))
    && (forall x | x in Chain(d, ipdom, a0) && x in Chain(d, ipdom, b0) ::
         x in Chain(d, ipdom, a) && x in Chain(d, ipdom, b))
  }

  lemma ClimbKeepsFingers(d: BackFlow, ipdom: seq<int>, a0: nat, b0: nat, a: nat, b: nat)
    requires Forest(d, ipdom) && d.InTree(a0) && d.InTree(b0) && Fingers(d, ipdom, a0, b0, a, b)
    requires d.InTree(a) && d.InTree(b) && d.rank[a] > d.rank[b]
    ensures a < |ipdom| && Fingers(d, ipdom, a0, b0, ipdom[a], b)
    ensures ipdom[a] == -1 || (0 <= ipdom[a] && d.InTree(ipdom[a]) && d.rank[ipdom[a]] < d.rank[a])
  {
    assert Parented(d, ipdom, a);
    ChainTrans(d, ipdom, a, a0);
  }

  lemma FingersSwap(d: BackFlow, ipdom: seq<int>, a0: nat, b0: nat, a: int, b: int)
    requires Forest(d, ipdom) && d.InTree(a0) && d.InTree(b0) && Fingers(d, ipdom, a0, b0, a, b)
    ensures Fingers(d, ipdom, b0, a0, b, a)
  {
    hide Chain;
  }

  lemma RanksDiffer(d: BackFlow, a: nat, b: nat)
    requires d.Valid() && d.InTree(a) && d.InTree(b) && d.rank[a] == d.rank[b]
    ensures a == b
  {
    hide RPO.IsRpoFrom;
    assert d.rpo[d.rank[a]] == a && d.rpo[d.rank[b]] == b;
  }

  /** The deepest common block of two chains, `-1` when they only share the exit root. One parent
      step per turn. */
  method IntersectForest(d: BackFlow, ipdom: array<int>, a0: nat, b0: nat) returns (m: int)
    requires d.Valid() && Forest(d, ipdom[..]) && d.InTree(a0) && d.InTree(b0)
    ensures Fingers(d, ipdom[..], a0, b0, m, m)
  {
    hide Chain, BackFlow.Valid;
    ghost var parents := ipdom[..];
    var a: int, b: int := a0, b0;
    while a != b
      invariant Fingers(d, parents, a0, b0, a, b)
      decreases (if a < 0 then 0 else d.rank[a] + 1) + (if b < 0 then 0 else d.rank[b] + 1)
    {
      if a == -1 || b == -1 {
        NothingShared(d, parents, a0, b0, a, b);
        return -1;
      }
      if d.rank[a] > d.rank[b] {
        ClimbKeepsFingers(d, parents, a0, b0, a, b);
        a := ipdom[a];
      } else {
        if d.rank[a] == d.rank[b] {
          RanksDiffer(d, a, b);
        }
        FingersSwap(d, parents, a0, b0, a, b);
        ClimbKeepsFingers(d, parents, b0, a0, b, a);
        FingersSwap(d, parents, b0, a0, ipdom[b], a);
        b := ipdom[b];
      }
    }
    m := a;
  }

  lemma NothingShared(d: BackFlow, ipdom: seq<int>, a0: nat, b0: nat, a: int, b: int)
    requires Forest(d, ipdom) && d.InTree(a0) && d.InTree(b0) && Fingers(d, ipdom, a0, b0, a, b)
    requires a == -1 || b == -1
    ensures Fingers(d, ipdom, a0, b0, -1, -1)
  {}

  /** The meet of the feeding successors among `succs`, at least one of which feeds. */
  ghost predicate MeetOf(d: BackFlow, ipdom: seq<int>, succs: seq<nat>, parent: int)
    requires Forest(d, ipdom)
  {
    && (parent == -1 || (0 <= parent && d.InTree(parent)
                         && forall s | s in succs && d.InTree(s) :: parent in Chain(d, ipdom, s)))
    && (forall x: nat | (forall s | s in succs && d.InTree(s) :: x in Chain(d, ipdom, s)) ::
         x in Chain(d, ipdom, parent))
  }

  ghost predicate NoneFeeds(d: BackFlow, succs: seq<nat>) {
    forall s | s in succs :: !d.InTree(s)
  }

  lemma MeetStarts(d: BackFlow, ipdom: seq<int>, succs: seq<nat>, s: nat)
    requires Forest(d, ipdom) && NoneFeeds(d, succs) && d.InTree(s)
    ensures MeetOf(d, ipdom, succs + [s], s)
  {
    assert s in succs + [s];
  }

  lemma MeetSkips(d: BackFlow, ipdom: seq<int>, succs: seq<nat>, s: nat, parent: int)
    requires Forest(d, ipdom) && MeetOf(d, ipdom, succs, parent) && !d.InTree(s)
    ensures MeetOf(d, ipdom, succs + [s], parent)
  {
    hide Chain;
    assert forall q | q in succs :: q in succs + [s];
  }

  lemma MeetGrows(d: BackFlow, ipdom: seq<int>, succs: seq<nat>, s: nat, parent: nat, m: int)
    requires Forest(d, ipdom) && d.InTree(parent) && MeetOf(d, ipdom, succs, parent) && d.InTree(s)
    requires Fingers(d, ipdom, parent, s, m, m)
    ensures MeetOf(d, ipdom, succs + [s], m)
  {
    hide Chain;
    assert s in succs + [s];
    assert forall q | q in succs :: q in succs + [s];
    if m != -1 {
      forall q | q in succs + [s] && d.InTree(q) ensures m in Chain(d, ipdom, q) {
        if q in succs {
          ChainTrans(d, ipdom, parent, q);
        }
      }
    }
  }

  /** Once the meet is the root, the remaining successors cannot bring it back. */
  lemma RootStays(d: BackFlow, ipdom: seq<int>, some: seq<nat>, succs: seq<nat>)
    requires Forest(d, ipdom) && MeetOf(d, ipdom, some, -1) && forall s | s in some :: s in succs
    ensures MeetOf(d, ipdom, succs, -1)
  {}

  method NewParent(d: BackFlow, ipdom: array<int>, block: nat) returns (parent: int)
    requires d.Valid() && Forest(d, ipdom[..]) && d.InTree(block) && block !in d.exits
    ensures IsMeet(d, ipdom[..], block, parent)
  {
    hide Chain, BackFlow.Valid, Fingers, MeetOf, BackFlow.InTree, Forest, NoneFeeds;
    ghost var tree := ipdom[..];
    parent := -1;
    var first := true;
    BlockFacts(d, block);
    var succs := d.g.succ[block];
    NoneAtStart(d);
    var k := 0;
    while k < |succs|
      invariant 0 <= k <= |succs|
      invariant first ==> parent == -1 && NoneFeeds(d, succs[..k])
      invariant !first ==> parent != -1 && MeetOf(d, tree, succs[..k], parent)
    {
      var succ := succs[k];
      assert succs[..k + 1] == succs[..k] + [succ];
      assert d.g.Edge(block, succ);
      SuccFacts(d, block, succ);
      if d.rank[succ] == -1 {
        NoneSkips(d, succs[..k], succ);
        if !first { MeetSkips(d, tree, succs[..k], succ, parent); }
      } else if first {
        MeetStarts(d, tree, succs[..k], succ);
        parent := succ;
        first := false;
      } else {
        MeetInTree(d, tree, succs[..k], parent);
        var m := IntersectForest(d, ipdom, parent, succ);
        MeetGrows(d, tree, succs[..k], succ, parent, m);
        parent := m;
        if parent == -1 {
          RootStays(d, tree, succs[..k + 1], succs);
          MeetIsMeet(d, tree, block, parent);
          return;
        }
      }
      k := k + 1;
    }
    assert succs[..k] == succs;
    if first {
      SomeFeeds(d, block);
    } else {
      MeetIsMeet(d, tree, block, parent);
    }
  }

  lemma NoneAtStart(d: BackFlow)
    ensures NoneFeeds(d, [])
  {}

  lemma NoneSkips(d: BackFlow, succs: seq<nat>, s: nat)
    requires !d.InTree(s)
    ensures NoneFeeds(d, succs) ==> NoneFeeds(d, succs + [s])
  {}

  lemma BlockFacts(d: BackFlow, block: nat)
    requires d.Valid() && d.InTree(block)
    ensures block < d.g.n && |d.g.succ| == d.g.n == |d.rank|
  {
    hide RPO.IsRpoFrom;
  }

  lemma SuccFacts(d: BackFlow, block: nat, s: nat)
    requires d.Valid() && d.g.Edge(block, s)
    ensures s < |d.rank| && (d.rank[s] == -1 <==> !d.InTree(s))
  {
    hide RPO.IsRpoFrom;
  }

  lemma MeetInTree(d: BackFlow, ipdom: seq<int>, succs: seq<nat>, parent: int)
    requires Forest(d, ipdom) && MeetOf(d, ipdom, succs, parent) && parent != -1
    ensures 0 <= parent && d.InTree(parent)
  {}

  lemma SomeFeeds(d: BackFlow, block: nat)
    requires d.Valid() && d.InTree(block) && block !in d.exits
    ensures block < |d.g.succ| && !NoneFeeds(d, d.g.succ[block])
  {
    hide RPO.IsRpoFrom;
    var s := EarlierFeeds(d, block);
    assert s in d.g.succ[block];
  }

  lemma MeetIsMeet(d: BackFlow, ipdom: seq<int>, block: nat, parent: int)
    requires Forest(d, ipdom) && block < |d.g.succ| && MeetOf(d, ipdom, d.g.succ[block], parent)
    ensures IsMeet(d, ipdom, block, parent)
  {
    hide Chain;
    assert forall s: nat :: d.Feeds(s, block) <==> s in d.g.succ[block] && d.InTree(s);
  }

  /** How far the parents are from the deepest they could be; every change lowers it. */
  ghost function Slack(d: BackFlow, ipdom: seq<int>, k: nat): nat
    requires k <= |ipdom|
  {
    if k == 0 then 0 else Slack(d, ipdom, k - 1) + BlockSlack(d, ipdom[k - 1])
  }

  ghost function BlockSlack(d: BackFlow, parent: int): nat {
    if 0 <= parent < |d.rank| && 0 <= d.rank[parent] < |d.rpo| then |d.rpo| - 1 - d.rank[parent] else |d.rpo|
  }

  lemma {:induction false} SlackFalls(d: BackFlow, ipdom: seq<int>, b: nat, parent: int, k: nat)
    requires b < |ipdom| && k <= |ipdom| && BlockSlack(d, parent) < BlockSlack(d, ipdom[b])
    ensures if b < k then Slack(d, ipdom[b := parent], k) < Slack(d, ipdom, k)
            else Slack(d, ipdom[b := parent], k) == Slack(d, ipdom, k)
  {
    if k > 0 {
      SlackFalls(d, ipdom, b, parent, k - 1);
    }
  }

  /** The blocks of `rpo[..k]` are settled. */
  ghost predicate SettledUpTo(d: BackFlow, ipdom: seq<int>, k: nat)
    requires Forest(d, ipdom) && k <= |d.rpo|
  {
    forall j | 0 <= j < k :: d.rpo[j] < |ipdom| && Settled(d, ipdom, d.rpo[j])
  }

  method Sweeps(d: BackFlow) returns (ipdom: array<int>)
    requires d.Valid()
    ensures fresh(ipdom) && SweepInv(d, ipdom[..]) && AllSettled(d, ipdom[..])
  {
    hide Chain, SoundAt, Settled, IsMeet, BackFlow.Valid, Parented, SettledUpTo;
    ipdom := new int[d.g.n](_ => -1);
    StartSweeps(d, ipdom[..]);
    var changed := true;
    while changed
      invariant SweepInv(d, ipdom[..])
      invariant !changed ==> SettledUpTo(d, ipdom[..], |d.rpo|)
      decreases Slack(d, ipdom[..], ipdom.Length), changed
    {
      changed := false;
      ghost var before := Slack(d, ipdom[..], ipdom.Length);
      NothingSettled(d, ipdom[..]);
      for i := 0 to |d.rpo|
        invariant SweepInv(d, ipdom[..])
        invariant if changed then Slack(d, ipdom[..], ipdom.Length) < before
                  else Slack(d, ipdom[..], ipdom.Length) == before && SettledUpTo(d, ipdom[..], i)
      {
        var block := d.rpo[i];
        RpoInTree(d, i);
        ghost var was := ipdom[..];
        BlockFacts(d, block);
        if d.g.succ[block] == [] {
          NoSuccessors(d, block);
          ExitSettled(d, was, i);
        } else {
          HasSuccessors(d, block);
          var newIpdom := NewParent(d, ipdom, block);
          VisitKeepsInv(d, was, was[block := newIpdom], block, newIpdom);
          if newIpdom != ipdom[block] {
            DeeperWeighsLess(d, was, block, newIpdom);
            SlackFalls(d, was, block, newIpdom, |was|);
            ipdom[block] := newIpdom;
            assert ipdom[..] == was[block := newIpdom];
            changed := true;
          } else {
            UnchangedSettled(d, was, i);
          }
        }
      }
    }
    Finished(d, ipdom[..]);
  }

  lemma StartSweeps(d: BackFlow, ipdom: seq<int>)
    requires d.Valid() && ipdom == seq(d.g.n, _ => -1)
    ensures SweepInv(d, ipdom)
  {
    hide RPO.IsRpoFrom;
  }

  lemma NothingSettled(d: BackFlow, ipdom: seq<int>)
    requires Forest(d, ipdom)
    ensures SettledUpTo(d, ipdom, 0)
  {}

  lemma RpoInTree(d: BackFlow, i: nat)
    requires d.Valid() && i < |d.rpo|
    ensures d.InTree(d.rpo[i])
  {
    hide RPO.IsRpoFrom;
  }

  lemma NoSuccessors(d: BackFlow, b: nat)
    requires d.Valid() && d.InTree(b) && b < |d.g.succ| && d.g.succ[b] == []
    ensures b in d.exits
  {
    if b !in d.exits {
      var s := EarlierFeeds(d, b);
    }
  }

  lemma HasSuccessors(d: BackFlow, b: nat)
    requires d.Valid() && b < |d.g.succ| && d.g.succ[b] != []
    ensures b !in d.exits
  {
    hide RPO.IsRpoFrom;
    assert b in d.exits <==> IsExit(d.g, b);
  }

  lemma ExitSettled(d: BackFlow, ipdom: seq<int>, i: nat)
    requires d.Valid() && Forest(d, ipdom) && i < |d.rpo| && d.rpo[i] in d.exits
    ensures SettledUpTo(d, ipdom, i) ==> SettledUpTo(d, ipdom, i + 1)
  {
    hide RPO.IsRpoFrom;
  }

  lemma UnchangedSettled(d: BackFlow, ipdom: seq<int>, i: nat)
    requires d.Valid() && Forest(d, ipdom) && i < |d.rpo| && d.rpo[i] < |ipdom|
    requires IsMeet(d, ipdom, d.rpo[i], ipdom[d.rpo[i]])
    ensures SettledUpTo(d, ipdom, i) ==> SettledUpTo(d, ipdom, i + 1)
  {
    hide RPO.IsRpoFrom, Chain, Common;
  }

  lemma DeeperWeighsLess(d: BackFlow, ipdom: seq<int>, b: nat, parent: int)
    requires d.Valid() && b < |ipdom| && parent >= 0 && d.InTree(parent)
    requires ipdom[b] != -1 ==> ipdom[b] >= 0 && d.InTree(ipdom[b]) && d.rank[ipdom[b]] < d.rank[parent]
    ensures BlockSlack(d, parent) < BlockSlack(d, ipdom[b])
  {
    hide RPO.IsRpoFrom;
  }

  lemma Finished(d: BackFlow, ipdom: seq<int>)
    requires d.Valid() && Forest(d, ipdom) && SettledUpTo(d, ipdom, |d.rpo|)
    ensures AllSettled(d, ipdom)
  {
    hide RPO.IsRpoFrom, Chain;
    forall b: nat | b < |ipdom| ensures Settled(d, ipdom, b) {
      if d.InTree(b) {
        assert d.rpo[d.rank[b]] == b;
      }
    }
  }

  function ToSet(s: seq<nat>): set<nat> {
    set x | x in s
  }

  /** A search against the edges, started from all exits, and the order it finishes in. */
  method BackwardOrder(g: Graph) returns (exits: seq<nat>, rpo: seq<nat>)
    requires g.Valid()
    ensures RPO.IsRpoFrom(Flip(g), ToSet(exits), rpo)
    ensures forall e: nat :: e in exits <==> IsExit(g, e)
  {
    hide RPO.DfsInv, RPO.IsRpoFrom, RPO.Visits;
    FlipValid(g);
    var blocks := RPO.Compute(g);
    exits := Exits(g, blocks);
    ExitsExist(g, exits);
    ghost var roots := ToSet(exits);
    var state := new RPO.State[g.n](_ => RPO.Unvisited);
    var postorder: seq<nat> := [];
    StartDfs(g, roots, state[..]);
    for i := 0 to |exits|
      invariant RPO.DfsInv(Flip(g), roots, state[..], [], [], postorder)
      invariant forall k | 0 <= k < i :: exits[k] < g.n && state[exits[k]] != RPO.Unvisited
    {
      var exit := exits[i];
      assert exit in exits;
      ghost var was := state[..];
      if state[exit] == RPO.Unvisited {
        postorder := RPO.Search(Flip(g), roots, exit, state, postorder);
        StillVisited(was, state[..]);
      }
    }
    rpo := RPO.Reversed(postorder);
    RPO.FinishedIsRpoFrom(Flip(g), roots, state[..], postorder, rpo);
  }

  lemma StillVisited(before: seq<RPO.State>, after: seq<RPO.State>)
    requires RPO.Visits(before, after)
    ensures |before| == |after| && forall v | 0 <= v < |after| && before[v] != RPO.Unvisited ::
            after[v] != RPO.Unvisited
  {}

  lemma StartDfs(g: Graph, roots: set<nat>, state: seq<RPO.State>)
    requires Flip(g).Valid() && state == seq(g.n, _ => RPO.Unvisited)
    ensures RPO.DfsInv(Flip(g), roots, state, [], [], [])
  {}

  lemma ExitsExist(g: Graph, exits: seq<nat>)
    requires g.Valid() && forall e: nat :: e in exits <==> IsExit(g, e)
    ensures forall e | e in exits :: e < g.n
  {}

  method Exits(g: Graph, blocks: seq<nat>) returns (exits: seq<nat>)
    requires g.Valid() && RPO.IsRpo(g, blocks)
    ensures forall e: nat :: e in exits <==> IsExit(g, e)
  {
    exits := [];
    for i := 0 to |blocks|
      invariant forall e: nat :: e in exits <==> e in blocks[..i] && e < |g.succ| && g.succ[e] == []
    {
      BlockExists(g, blocks, i);
      if g.succ[blocks[i]] == [] {
        exits := exits + [blocks[i]];
      }
    }
    assert blocks[..|blocks|] == blocks;
  }

  lemma BlockExists(g: Graph, blocks: seq<nat>, i: nat)
    requires g.Valid() && RPO.IsRpo(g, blocks) && i < |blocks|
    ensures blocks[i] < g.n
  {
    assert blocks[i] in blocks;
    var p :| PathFrom(g, g.entry, blocks[i], p);
  }

  method RankOf(g: Graph, exits: seq<nat>, rpo: seq<nat>) returns (rank: seq<int>)
    requires g.Valid() && RPO.IsRpoFrom(Flip(g), ToSet(exits), rpo)
    requires forall e: nat :: e in exits <==> IsExit(g, e)
    ensures BackFlow(g, ToSet(exits), rpo, rank).Valid()
  {
    hide IsExit;
    forall k | 0 <= k < |rpo| ensures rpo[k] < g.n {
      assert rpo[k] in rpo;
      var r :| r in exits && Reaches(Flip(g), r, rpo[k]);
      var p :| PathFrom(Flip(g), r, rpo[k], p);
    }
    var order := new int[g.n](_ => -1);
    for i := 0 to |rpo|
      invariant forall k | 0 <= k < i :: order[rpo[k]] == k
      invariant forall v | 0 <= v < g.n :: order[v] == -1 || (0 <= order[v] < i && rpo[order[v]] == v)
    {
      order[rpo[i]] := i;
    }
    rank := order[..];
  }

  /** The length of the chain of a block of the tree, less one; `-1` outside the tree. */
  ghost function ChainDepth(d: BackFlow, ipdom: seq<int>, v: nat): int
    requires Forest(d, ipdom)
  {
    if d.InTree(v) then |Chain(d, ipdom, v)| - 1 else -1
  }

  lemma DepthStep(d: BackFlow, ipdom: seq<int>, v: nat)
    requires Forest(d, ipdom) && d.InTree(v)
    ensures ipdom[v] == -1 ==> ChainDepth(d, ipdom, v) == 0
    ensures ipdom[v] != -1 ==> 0 <= ipdom[v] && d.InTree(ipdom[v]) && d.rank[ipdom[v]] < d.rank[v]
                               && ChainDepth(d, ipdom, v) == ChainDepth(d, ipdom, ipdom[v]) + 1
  {
    assert Parented(d, ipdom, v);
    if ipdom[v] == -1 {
      assert Chain(d, ipdom, v) == {v};
    } else {
      assert v !in Chain(d, ipdom, ipdom[v]);
      assert Chain(d, ipdom, v) == {v} + Chain(d, ipdom, ipdom[v]);
    }
  }

  method Depths(d: BackFlow, ipdom: array<int>) returns (depth: seq<int>)
    requires d.Valid() && Forest(d, ipdom[..])
    ensures |depth| == d.g.n && forall v: nat | v < d.g.n :: depth[v] == ChainDepth(d, ipdom[..], v)
  {
    hide RPO.IsRpoFrom, Chain, IsExit, Forest, ChainDepth;
    ghost var tree := ipdom[..];
    ForestLength(d, tree);
    OutsideDepth(d, tree);
    depth := seq(d.g.n, _ => -1);
    for i := 0 to |d.rpo|
      invariant |depth| == d.g.n
      invariant forall v: nat | v < d.g.n :: depth[v] == if d.rank[v] < i then ChainDepth(d, tree, v) else -1
    {
      var block := d.rpo[i];
      DepthStep(d, tree, block);
      var parent := ipdom[block];
      assert forall v: nat | v < d.g.n && d.rank[v] == i :: v == block;
      depth := depth[block := if parent != -1 then depth[parent] + 1 else 0];
    }
  }

  lemma ForestLength(d: BackFlow, ipdom: seq<int>)
    requires Forest(d, ipdom)
    ensures |ipdom| == |d.rank|
  {}

  lemma OutsideDepth(d: BackFlow, ipdom: seq<int>)
    requires Forest(d, ipdom)
    ensures forall v: nat | v < |ipdom| && d.rank[v] < 0 :: ChainDepth(d, ipdom, v) == -1
  {}

  /** The finished object. */
  class PostDominators {
    const g: Graph
    const ipdom: array<int>
    const depth: seq<int>
    ghost const d: BackFlow

    ghost predicate Valid()
      reads ipdom
    {
      && d.g == g && SweepInv(d, ipdom[..]) && AllSettled(d, ipdom[..])
      && |depth| == ipdom.Length == g.n
      && (forall v: nat | v < g.n :: depth[v] == ChainDepth(d, ipdom[..], v))
    }

    constructor Compute(g: Graph)
      requires g.Valid()
      ensures Valid() && this.g == g && fresh(ipdom)
    {
      var exits, rpo := BackwardOrder(g);
      var rank := RankOf(g, exits, rpo);
      ghost var backward := BackFlow(g, ToSet(exits), rpo, rank);
      var parents := Sweeps(BackFlow(g, ToSet(exits), rpo, rank));
      var depths := Depths(BackFlow(g, ToSet(exits), rpo, rank), parents);
      this.g := g;
      ipdom := parents;
      depth := depths;
      d := backward;
    }

    method InForest(b: nat) returns (r: bool)
      requires Valid()
      ensures r <==> ReachesExit(g, b)
      ensures r <==> d.InTree(b)
    {
      hide SoundAt, Settled, BackFlow.Valid;
      InTreeIsReachesExit(d, b);
      BlockFactsOf(b);
      r := b < |depth| && depth[b] >= 0;
    }

    lemma BlockFactsOf(b: nat)
      requires Valid()
      ensures d.InTree(b) <==> b < |depth| && depth[b] >= 0
      ensures d.Valid()
    {
      hide SoundAt, Settled, RPO.IsRpoFrom, IsExit;
      if d.InTree(b) {
        assert b in Chain(d, ipdom[..], b);
        assert depth[b] == ChainDepth(d, ipdom[..], b);
      }
    }

    /** Between blocks that reach an exit: exactly when every path from `b` to an exit meets `a` and
        no loop of such blocks can be run around from `b` without meeting `a`. */
    method PostDominates(a: nat, b: nat) returns (r: bool)
      requires Valid()
      ensures r <==> if ReachesExit(g, a) && ReachesExit(g, b) then OnEveryExitPath(g, a, b) && !LoopAvoids(g, a, b)
              else a == b
    {
      hide SoundAt, Settled, BackFlow.Valid, IsExit, OnEveryExitPath, LoopAvoids, ChainDepth;
      var inA := InForest(a);
      var inB := InForest(b);
      if !inA || !inB {
        return a == b;
      }
      ChainIsForced(d, ipdom[..], a, b);
      ForcedExactly(a, b);
      var finger := b;
      while finger != a
        invariant 0 <= finger && d.InTree(finger)
        invariant a in Chain(d, ipdom[..], b) <==> a in Chain(d, ipdom[..], finger)
        decreases d.rank[finger]
      {
        assert Parented(d, ipdom[..], finger);
        var next := ipdom[finger];
        if next == -1 {
          return false;
        }
        finger := next;
      }
      return true;
    }

    lemma ForcedExactly(a: nat, b: nat)
      requires Valid() && d.Valid()
      ensures Forced(d, a, b) <==> OnEveryExitPath(g, a, b) && !LoopAvoids(g, a, b)
    {
      hide SoundAt, Settled, BackFlow.Valid, IsExit, OnEveryExitPath, LoopAvoids, ChainDepth, Forced;
      if Forced(d, a, b) {
        ForcedAvoidsNoLoop(d, a, b);
      }
      if OnEveryExitPath(g, a, b) && !LoopAvoids(g, a, b) {
        NoLoopIsForced(d, a, b);
      }
    }
  }
}
