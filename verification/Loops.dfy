/** Back edges, natural loops, and the component-based reducibility test. */
module LoopAnalysis {
  import opened Graphs
  import DQ = DominatorQueries
  import SC = StronglyConnected

  datatype BackEdge = BackEdge(from: nat, header: nat)

  datatype NaturalLoop = NaturalLoop(header: nat, latches: seq<nat>, blocks: set<nat>)

  ghost predicate IsBackEdge(g: Graph, e: BackEdge) {
    Reachable(g, e.from) && g.Edge(e.from, e.header) && Dominates(g, e.header, e.from)
  }

  method BackEdges(g: Graph, dominators: DQ.Dominators) returns (edges: seq<BackEdge>)
    requires dominators.Valid() && dominators.g == g
    ensures forall e :: e in edges <==> IsBackEdge(g, e)
  {
    hide Dominates, DQ.Dominators.Valid;
    edges := [];
    RpoFacts(dominators);
    var rpo := dominators.rpo;
    for i := 0 to |rpo|
      invariant forall e :: e in edges <==> e.from in rpo[..i] && IsBackEdge(g, e)
    {
      var from := rpo[i];
      assert from in rpo;
      var succs := g.succ[from];
      for k := 0 to |succs|
        invariant forall e :: e in edges <==>
                    IsBackEdge(g, e) && (e.from in rpo[..i] || (e.from == from && e.header in succs[..k]))
      {
        var to := succs[k];
        assert g.Edge(from, to);
        SuccessorReachable(g, from, to);
        var dominates := dominators.IsDominator(to, from);
        if dominates {
          assert IsBackEdge(g, BackEdge(from, to));
          edges := edges + [BackEdge(from, to)];
        }
        assert succs[..k + 1] == succs[..k] + [to];
      }
      assert succs[..|succs|] == succs;
      assert rpo[..i + 1] == rpo[..i] + [from];
    }
    assert rpo[..|rpo|] == rpo;
  }

  lemma RpoFacts(dominators: DQ.Dominators)
    requires dominators.Valid()
    ensures dominators.g.Valid() && |dominators.g.succ| == dominators.g.n
    ensures forall v: nat :: v in dominators.rpo <==> Reachable(dominators.g, v)
    ensures forall v | v in dominators.rpo :: v < dominators.g.n
  {
    forall v | v in dominators.rpo ensures v < dominators.g.n {
      ReachableInRange(dominators.g, v);
    }
  }

  lemma SuccessorReachable(g: Graph, u: nat, v: nat)
    requires g.Valid() && Reachable(g, u) && g.Edge(u, v)
    ensures Reachable(g, v)
  {
    ReachesStep(g, g.entry, u, v);
  }

  // ----- natural loops

  /** A path to one of the latches that does not meet the header. */
  ghost predicate ReachesLatch(g: Graph, header: nat, latches: seq<nat>, v: nat) {
    exists p, l :: AvoidsHeader(g, header, latches, v, p, l)
  }

  ghost predicate AvoidsHeader(g: Graph, header: nat, latches: seq<nat>, v: nat, p: seq<nat>, l: nat) {
    l in latches && PathFrom(g, v, l, p) && header !in p
  }

  ghost predicate Collecting(g: Graph, header: nat, latches: seq<nat>, blocks: set<nat>, worklist: seq<nat>) {
    && header in blocks
    && (forall v | v in blocks && v != header :: v < g.n && ReachesLatch(g, header, latches, v))
    && (forall v | v in worklist :: v in blocks && v != header)
    && (forall u: nat, v: nat | g.Edge(u, v) && v in blocks && v != header && v !in worklist :: u in blocks)
  }

  lemma LatchStarts(g: Graph, header: nat, latches: seq<nat>, l: nat)
    requires l in latches && l < g.n && l != header
    ensures ReachesLatch(g, header, latches, l)
  {
    assert AvoidsHeader(g, header, latches, l, [l], l);
  }

  lemma PredReachesLatch(g: Graph, header: nat, latches: seq<nat>, u: nat, v: nat)
    requires g.Valid() && ReachesLatch(g, header, latches, v) && g.Edge(u, v) && u != header
    ensures ReachesLatch(g, header, latches, u)
  {
    var p, l :| AvoidsHeader(g, header, latches, v, p, l);
    var q := [u] + p;
    forall i, j | 0 <= i < j < |q| && j == i + 1 ensures g.Edge(q[i], q[j]) {
      if i > 0 {
        assert q[i] == p[i - 1] && q[j] == p[i];
      }
    }
    assert u < g.n;
    assert AvoidsHeader(g, header, latches, u, q, l);
  }

  /** Walking predecessors backwards from the latches, stopping at the header. */
  method Natural(g: Graph, header: nat, latches: seq<nat>) returns (loop: NaturalLoop)
    requires g.Valid() && header < g.n && forall l | l in latches :: l < g.n
    ensures loop.header == header && loop.latches == latches
    ensures forall v :: v in loop.blocks <==> v == header || ReachesLatch(g, header, latches, v)
  {
    hide ReachesLatch;
    var blocks: set<nat> := {header};
    var worklist: seq<nat> := [];
    for i := 0 to |latches|
      invariant Collecting(g, header, latches, blocks, worklist)
      invariant forall l | l in latches[..i] :: l in blocks
    {
      var latch := latches[i];
      if latch != header && latch !in blocks {
        LatchStarts(g, header, latches, latch);
        blocks := blocks + {latch};
        worklist := worklist + [latch];
      }
    }
    while worklist != []
      invariant Collecting(g, header, latches, blocks, worklist)
      invariant forall l | l in latches :: l in blocks
      decreases |AllBlocks(g.n) - blocks|, |worklist|
    {
      var block := worklist[|worklist| - 1];
      var rest := worklist[..|worklist| - 1];
      assert worklist == rest + [block];
      assert block in worklist;
      blocks, worklist := AddPredecessors(g, header, latches, blocks, rest, block);
    }
    forall v ensures v in blocks <==> v == header || ReachesLatch(g, header, latches, v) {
      if ReachesLatch(g, header, latches, v) {
        ClosedHasAll(g, header, latches, blocks, v);
      }
    }
    loop := NaturalLoop(header, latches, blocks);
  }

  ghost function AllBlocks(n: nat): set<nat> {
    set v: nat | v < n && InRange(v, n)
  }

  ghost predicate InRange(v: nat, n: nat) {
    v < n
  }

  method AddPredecessors(g: Graph, ghost header: nat, ghost latches: seq<nat>, blocks0: set<nat>, worklist0: seq<nat>,
      block: nat)
    returns (blocks: set<nat>, worklist: seq<nat>)
    requires g.Valid() && header < g.n && block in blocks0 && block != header
    requires Collecting(g, header, latches, blocks0, worklist0 + [block])
    ensures Collecting(g, header, latches, blocks, worklist) && blocks0 <= blocks
    ensures |AllBlocks(g.n) - blocks| < |AllBlocks(g.n) - blocks0| || (blocks == blocks0 && worklist == worklist0)
  {
    hide ReachesLatch, Graph.Valid;
    blocks, worklist := blocks0, worklist0;
    BlockInRange(g, header, latches, blocks0, worklist0 + [block], block);
    var preds := g.pred[block];
    for k := 0 to |preds|
      invariant blocks0 <= blocks && (blocks == blocks0 ==> worklist == worklist0)
      invariant Collecting(g, header, latches, blocks, worklist + [block])
      invariant forall p | p in preds[..k] :: p in blocks
    {
      var pred := preds[k];
      if pred !in blocks {
        PredEdge(g, block, pred);
        PredReachesLatch(g, header, latches, pred, block);
        assert forall v :: v in worklist + [block] ==> v in worklist + [pred] + [block];
        blocks := blocks + {pred};
        worklist := worklist + [pred];
        assert Collecting(g, header, latches, blocks, worklist + [block]);
      }
    }
    assert preds[..|preds|] == preds;
    PredsAreAll(g, block);
    if blocks != blocks0 {
      FewerLeft(g, header, latches, blocks0, blocks, worklist + [block]);
    }
  }

  lemma FewerLeft(g: Graph, header: nat, latches: seq<nat>, blocks0: set<nat>, blocks: set<nat>, worklist: seq<nat>)
    requires blocks0 < blocks && header in blocks0 && Collecting(g, header, latches, blocks, worklist)
    ensures |AllBlocks(g.n) - blocks| < |AllBlocks(g.n) - blocks0|
  {
    hide ReachesLatch;
    var v :| v in blocks && v !in blocks0;
    assert v in AllBlocks(g.n) - blocks0;
    SmallerSet(AllBlocks(g.n) - blocks, AllBlocks(g.n) - blocks0, v);
  }

  lemma SmallerSet(a: set<nat>, b: set<nat>, v: nat)
    requires a <= b && v in b && v !in a
    ensures |a| < |b|
  {
    assert b == a + (b - a);
    assert v in b - a;
  }

  lemma BlockInRange(g: Graph, header: nat, latches: seq<nat>, blocks: set<nat>, worklist: seq<nat>, v: nat)
    requires g.Valid() && header < g.n && Collecting(g, header, latches, blocks, worklist) && v in blocks
    ensures v < g.n && |g.pred| == g.n && (v != header ==> ReachesLatch(g, header, latches, v))
  {}

  lemma PredEdge(g: Graph, v: nat, u: nat)
    requires g.Valid() && v < |g.pred| && u in g.pred[v]
    ensures g.Edge(u, v) && u < g.n
  {}

  lemma PredsAreAll(g: Graph, v: nat)
    requires g.Valid() && v < |g.pred|
    ensures forall u: nat | g.Edge(u, v) :: u in g.pred[v]
  {}

  lemma ClosedHasAll(g: Graph, header: nat, latches: seq<nat>, blocks: set<nat>, v: nat)
    requires Collecting(g, header, latches, blocks, []) && (forall l | l in latches :: l in blocks)
    requires ReachesLatch(g, header, latches, v)
    ensures v in blocks
  {
    var p, l :| AvoidsHeader(g, header, latches, v, p, l);
    var i := |p| - 1;
    while i > 0
      invariant 0 <= i < |p| && p[i] in blocks
    {
      assert g.Edge(p[i - 1], p[i]);
      i := i - 1;
    }
  }

  /** Over latches the header dominates, the header dominates every reachable block of the loop. */
  lemma HeaderDominatesLoop(g: Graph, header: nat, latches: seq<nat>, v: nat)
    requires forall l | l in latches :: Dominates(g, header, l)
    requires v == header || ReachesLatch(g, header, latches, v)
    ensures Dominates(g, header, v)
  {
    forall q | PathFrom(g, g.entry, v, q) ensures header in q {
      if v == header {
        assert q[|q| - 1] == header;
      } else {
        var p, l :| AvoidsHeader(g, header, latches, v, p, l);
        ConcatPath(g, g.entry, v, l, q, p);
        assert header in q + p[1..];
        assert forall x :: x in p[1..] ==> x in p;
      }
    }
  }

  /** The loops of all back edges, one for each header, in header order. */
  ghost predicate IsLoopOf(g: Graph, loop: NaturalLoop) {
    && loop.latches != []
    && (forall l :: l in loop.latches <==> IsBackEdge(g, BackEdge(l, loop.header)))
    && (forall v :: v in loop.blocks <==> v == loop.header || ReachesLatch(g, loop.header, loop.latches, v))
    && (forall v | v in loop.blocks :: Dominates(g, loop.header, v))
  }

  method Latches(edges: seq<BackEdge>, header: nat) returns (latches: seq<nat>)
    ensures forall l :: l in latches <==> BackEdge(l, header) in edges
  {
    latches := [];
    for i := 0 to |edges|
      invariant forall l :: l in latches <==> BackEdge(l, header) in edges[..i]
    {
      if edges[i].header == header {
        latches := latches + [edges[i].from];
      }
    }
    assert edges[..|edges|] == edges;
  }

  method NaturalLoops(g: Graph, dominators: DQ.Dominators) returns (loops: seq<NaturalLoop>)
    requires dominators.Valid() && dominators.g == g
    ensures forall i | 0 <= i < |loops| :: IsLoopOf(g, loops[i])
    ensures forall i, j | 0 <= i < j < |loops| :: loops[i].header < loops[j].header
    ensures forall e | IsBackEdge(g, e) :: exists i :: 0 <= i < |loops| && loops[i].header == e.header
  {
    hide Dominates, DQ.Dominators.Valid, ReachesLatch, Graph.Valid, IsLoopOf, IsBackEdge;
    var edges := BackEdges(g, dominators);
    RpoFacts(dominators);
    loops := [];
    for header := 0 to g.n
      invariant forall i | 0 <= i < |loops| :: IsLoopOf(g, loops[i]) && loops[i].header < header
      invariant forall i, j | 0 <= i < j < |loops| :: loops[i].header < loops[j].header
      invariant forall e | e in edges && e.header < header :: exists i ::
                0 <= i < |loops| && loops[i].header == e.header
    {
      var latches := Latches(edges, header);
      if latches != [] {
        LatchesInRange(g, edges, header, latches);
        var loop := Natural(g, header, latches);
        LoopIsLoop(g, edges, loop);
        ghost var was := loops;
        loops := loops + [loop];
        forall e | e in edges && e.header < header + 1
          ensures exists i :: 0 <= i < |loops| && loops[i].header == e.header {
          if e.header < header {
            var i :| 0 <= i < |was| && was[i].header == e.header;
            assert loops[i].header == e.header;
          } else {
            assert loops[|was|].header == e.header;
          }
        }
      } else {
        forall e | e in edges ensures e.header != header {
          assert e == BackEdge(e.from, e.header);
        }
      }
    }
    forall e | IsBackEdge(g, e) ensures exists i :: 0 <= i < |loops| && loops[i].header == e.header {
      BackEdgeInRange(g, e);
      assert e in edges;
    }
  }

  lemma BackEdgeInRange(g: Graph, e: BackEdge)
    requires g.Valid() && IsBackEdge(g, e)
    ensures e.from < g.n && e.header < g.n
  {
    ReachableInRange(g, e.from);
  }

  lemma LatchesInRange(g: Graph, edges: seq<BackEdge>, header: nat, latches: seq<nat>)
    requires g.Valid() && (forall e :: e in edges <==> IsBackEdge(g, e))
    requires forall l :: l in latches <==> BackEdge(l, header) in edges
    ensures forall l | l in latches :: l < g.n
  {
    hide IsBackEdge;
    forall l | l in latches ensures l < g.n {
      BackEdgeInRange(g, BackEdge(l, header));
    }
  }

  lemma LoopIsLoop(g: Graph, edges: seq<BackEdge>, loop: NaturalLoop)
    requires (forall e :: e in edges <==> IsBackEdge(g, e)) && loop.latches != []
    requires forall l :: l in loop.latches <==> BackEdge(l, loop.header) in edges
    requires forall v :: v in loop.blocks <==> v == loop.header || ReachesLatch(g, loop.header, loop.latches, v)
    ensures IsLoopOf(g, loop)
  {
    hide Dominates, ReachesLatch, Reachable;
    forall v | v in loop.blocks ensures Dominates(g, loop.header, v) {
      forall l | l in loop.latches ensures Dominates(g, loop.header, l) {
        assert IsBackEdge(g, BackEdge(l, loop.header));
      }
      HeaderDominatesLoop(g, loop.header, loop.latches, v);
    }
  }

  // ----- reducibility

  /** A block of component `c` that control enters from outside the component. */
  ghost predicate EntryBlock(g: Graph, member: seq<int>, c: int, v: nat) {
    v < |member| && member[v] == c && exists u: nat :: EntersFrom(g, member, c, u, v)
  }

  ghost predicate EntersFrom(g: Graph, member: seq<int>, c: int, u: nat, v: nat) {
    g.Edge(u, v) && u < |member| && member[u] >= 0 && member[u] != c
  }

  ghost predicate SingleEntry(g: Graph, member: seq<int>, c: int) {
    forall u: nat, v: nat | EntryBlock(g, member, c, u) && EntryBlock(g, member, c, v) :: u == v
  }

  /** `entry` is the only block entered so far, `-1` when none is. */
  ghost predicate EntrySoFar(g: Graph, member: seq<int>, c: int, blocks: seq<nat>, entry: int) {
    && (entry != -1 ==> 0 <= entry && EntryBlock(g, member, c, entry))
    && (forall v | v in blocks && EntryBlock(g, member, c, v) :: v == entry)
  }

  method IsReducible(g: Graph, sccs: SC.Sccs) returns (r: bool)
    requires sccs.Valid() && sccs.g == g
    ensures r <==> forall c: nat | c < |sccs.components| && sccs.components[c].cyclic ::
            SingleEntry(g, sccs.membership, c)
  {
    hide EntryBlock, SC.OnCycle, SC.IsComponents, EntrySoFar;
    var member := sccs.membership;
    for c := 0 to |sccs.components|
      invariant forall d: nat | d < c && sccs.components[d].cyclic :: SingleEntry(g, member, d)
    {
      if sccs.components[c].cyclic {
        var single := OneEntry(g, sccs, c);
        if !single {
          return false;
        }
      }
    }
    r := true;
  }

  method OneEntry(g: Graph, sccs: SC.Sccs, c: nat) returns (single: bool)
    requires sccs.Valid() && sccs.g == g && c < |sccs.components|
    ensures single <==> SingleEntry(g, sccs.membership, c)
  {
    hide EntryBlock, SC.OnCycle, EntrySoFar, SC.IsComponents, Graph.Valid, SingleEntry;
    var member := sccs.membership;
    var blocks := sccs.components[c].blocks;
    ListFacts(sccs, c);
    var entry: int := -1;
    NoEntryYet(g, member, c);
    for i := 0 to |blocks|
      invariant EntrySoFar(g, member, c, blocks[..i], entry)
    {
      var block := blocks[i];
      assert block in blocks;
      var entered := HasOuterPred(g, member, c, block);
      assert blocks[..i + 1] == blocks[..i] + [block];
      if entered && entry == -1 {
        FirstEntry(g, member, c, blocks[..i], block);
        entry := block;
      } else if entered && entry != block {
        TwoEntries(g, member, c, blocks[..i], entry, block);
        return false;
      } else {
        SameEntry(g, member, c, blocks[..i], entry, block);
      }
    }
    assert blocks[..|blocks|] == blocks;
    OnlyEntry(g, member, c, blocks, entry);
    single := true;
  }

  /** Whether some predecessor that is reachable from the entry lies outside the component. */
  method HasOuterPred(g: Graph, member: seq<int>, c: nat, block: nat) returns (outer: bool)
    requires g.Valid() && |member| == g.n && block < g.n && member[block] == c
    requires forall v: nat | v < g.n :: -1 <= member[v]
    ensures outer <==> EntryBlock(g, member, c, block)
  {
    var preds := g.pred[block];
    outer := false;
    for k := 0 to |preds|
      invariant outer <==> exists u :: u in preds[..k] && EntersFrom(g, member, c, u, block)
    {
      var pred := preds[k];
      assert pred in preds;
      if member[pred] != -1 && member[pred] != c {
        assert EntersFrom(g, member, c, pred, block);
        outer := true;
      }
      assert preds[..k + 1] == preds[..k] + [pred];
    }
    assert preds[..|preds|] == preds;
  }

  lemma ListFacts(sccs: SC.Sccs, c: nat)
    requires sccs.Valid() && c < |sccs.components|
    ensures sccs.g.Valid() && |sccs.membership| == sccs.g.n
    ensures forall v: nat | v < sccs.g.n :: -1 <= sccs.membership[v]
    ensures forall v: nat :: v in sccs.components[c].blocks <==> v < sccs.g.n && sccs.membership[v] == c
  {
    hide SC.OnCycle;
    assert SC.Listed(sccs.g, sccs.membership, sccs.components[c].blocks, c);
  }

  lemma NoEntryYet(g: Graph, member: seq<int>, c: int)
    ensures EntrySoFar(g, member, c, [], -1)
  {}

  lemma FirstEntry(g: Graph, member: seq<int>, c: int, blocks: seq<nat>, v: nat)
    requires EntrySoFar(g, member, c, blocks, -1) && EntryBlock(g, member, c, v)
    ensures EntrySoFar(g, member, c, blocks + [v], v)
  {
    hide EntryBlock;
  }

  lemma SameEntry(g: Graph, member: seq<int>, c: int, blocks: seq<nat>, entry: int, v: nat)
    requires EntrySoFar(g, member, c, blocks, entry) && (!EntryBlock(g, member, c, v) || entry == v)
    ensures EntrySoFar(g, member, c, blocks + [v], entry)
  {
    hide EntryBlock;
  }

  lemma TwoEntries(g: Graph, member: seq<int>, c: int, blocks: seq<nat>, entry: int, v: nat)
    requires EntrySoFar(g, member, c, blocks, entry) && entry != -1 && entry != v && EntryBlock(g, member, c, v)
    ensures !SingleEntry(g, member, c)
  {
    hide EntryBlock;
    assert EntryBlock(g, member, c, entry);
  }

  lemma OnlyEntry(g: Graph, member: seq<int>, c: int, blocks: seq<nat>, entry: int)
    requires EntrySoFar(g, member, c, blocks, entry)
    requires forall v: nat :: v in blocks <==> v < |member| && member[v] == c
    ensures SingleEntry(g, member, c)
  {
    forall u: nat, v: nat | EntryBlock(g, member, c, u) && EntryBlock(g, member, c, v) ensures u == v {
      assert u in blocks && v in blocks;
    }
  }

  /** The first block of a path that lies in the component, when the path starts outside it. */
  lemma FirstInside(g: Graph, member: seq<int>, comps: seq<SC.Component>, c: nat, v: nat, p: seq<nat>) returns (e: nat)
    requires g.Valid() && SC.IsComponents(g, member, comps) && PathFrom(g, g.entry, v, p)
    requires v < g.n && member[v] == c && g.entry < g.n && member[g.entry] != c
    ensures e in p && EntryBlock(g, member, c, e)
    decreases |p|
  {
    hide SC.Listed, SC.OnCycle, Reaches;
    var u := p[|p| - 2];
    PrefixPath(g, g.entry, v, p, |p| - 2);
    assert g.Edge(u, v);
    PathReachable(g, u, p[..|p| - 1]);
    if member[u] == c {
      e := FirstInside(g, member, comps, c, u, p[..|p| - 1]);
      assert e in p[..|p| - 1];
    } else {
      e := v;
      assert p[|p| - 1] == v;
      assert EntersFrom(g, member, c, u, v);
    }
  }

  lemma PathReachable(g: Graph, u: nat, p: seq<nat>)
    requires PathFrom(g, g.entry, u, p)
    ensures Reachable(g, u) && u < g.n
  {}

  /** A component with a single entry block, away from the function's entry, is dominated by it; so
      a reducible graph has a header for every cyclic region. */
  lemma SingleEntryDominates(g: Graph, member: seq<int>, comps: seq<SC.Component>, c: nat)
    requires g.Valid() && SC.IsComponents(g, member, comps) && c < |comps| && SingleEntry(g, member, c)
    requires g.entry < g.n && member[g.entry] != c
    ensures exists e: nat :: EntryBlock(g, member, c, e) && forall v | v in comps[c].blocks :: Dominates(g, e, v)
  {
    hide SC.OnCycle, Dominates, EntryBlock;
    assert SC.Listed(g, member, comps[c].blocks, c);
    var b := comps[c].blocks[0];
    assert b in comps[c].blocks;
    var p :| PathFrom(g, g.entry, b, p);
    var e := FirstInside(g, member, comps, c, b, p);
    forall v | v in comps[c].blocks ensures Dominates(g, e, v) {
      EntryDominates(g, member, comps, c, e, v);
    }
  }

  lemma EntryDominates(g: Graph, member: seq<int>, comps: seq<SC.Component>, c: nat, e: nat, v: nat)
    requires g.Valid() && SC.IsComponents(g, member, comps) && SingleEntry(g, member, c)
    requires g.entry < g.n && member[g.entry] != c && v < g.n && member[v] == c && EntryBlock(g, member, c, e)
    ensures Dominates(g, e, v)
  {
    hide SC.OnCycle, EntryBlock, SC.Listed;
    forall p | PathFrom(g, g.entry, v, p) ensures e in p {
      var f := FirstInside(g, member, comps, c, v, p);
    }
  }

  /** The component of the function's entry is entered from nowhere else. */
  lemma EntryComponentIsClosed(g: Graph, member: seq<int>, comps: seq<SC.Component>, v: nat)
    requires g.Valid() && SC.IsComponents(g, member, comps) && g.entry < g.n
    ensures !EntryBlock(g, member, member[g.entry], v)
  {
    hide SC.OnCycle, SC.Listed;
    if EntryBlock(g, member, member[g.entry], v) {
      var u: nat :| EntersFrom(g, member, member[g.entry], u, v);
      ReachesSelf(g, g.entry);
      assert Reaches(g, v, g.entry);
      assert PathFrom(g, u, v, [u, v]);
      ReachesTrans(g, u, v, g.entry);
    }
  }
}
