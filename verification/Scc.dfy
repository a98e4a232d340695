/** Strongly connected components of the reachable graph: Tarjan's algorithm with explicit stacks. */
module StronglyConnected {
  import opened Basics
  import opened Graphs
  import opened TarjanInvariant

  datatype Component = Component(blocks: seq<nat>, cyclic: bool)

  /** Component `c` lists exactly the blocks numbered `c`, each once. */
  ghost predicate Listed(g: Graph, member: seq<int>, blocks: seq<nat>, c: nat) {
    blocks != [] && Distinct(blocks) && forall v: nat :: v in blocks <==> v < |member| && member[v] == c
  }

  /** A block lies on a cycle. */
  ghost predicate OnCycle(g: Graph, v: nat) {
    exists p :: |p| >= 2 && PathFrom(g, v, v, p)
  }

  /** What the object promises: the classes of mutual reachability among the reachable blocks, a
      component never leading to a later one, and the cyclic ones marked. */
  ghost predicate IsComponents(g: Graph, member: seq<int>, comps: seq<Component>) {
    && |member| == g.n
    && (forall v: nat | v < g.n :: -1 <= member[v] < |comps| && (member[v] >= 0 <==> Reachable(g, v)))
    && (forall u: nat, v: nat | u < g.n && v < g.n && member[u] >= 0 && member[v] >= 0 ::
          member[u] == member[v] <==> Reaches(g, u, v) && Reaches(g, v, u))
    && (forall u: nat, v: nat | g.Edge(u, v) && u < g.n && v < g.n && member[u] >= 0 :: 0 <= member[v] <= member[u])
    && (forall c: nat | c < |comps| :: Listed(g, member, comps[c].blocks, c))
    && (forall c: nat | c < |comps| :: comps[c].cyclic <==> exists v :: v in comps[c].blocks && OnCycle(g, v))
  }

  // ----- the running search

  /** How a component is marked when it is emitted. */
  ghost predicate Marked(g: Graph, comp: Component)
    requires comp.blocks != []
  {
    comp.cyclic == if |comp.blocks| == 1 then g.Edge(comp.blocks[0], comp.blocks[0]) else true
  }

  ghost predicate CompsOk(g: Graph, member: seq<int>, comps: seq<Component>) {
    && |member| == g.n
    && (forall v: nat | v < g.n :: -1 <= member[v] < |comps|)
    && (forall c: nat | c < |comps| :: Listed(g, member, comps[c].blocks, c) && Marked(g, comps[c]))
  }

  /** The depth-first stack's cursors agree with the scan counts. */
  ghost predicate Aligned(s: St, next: seq<nat>) {
    |next| == |s.path| && forall i | 0 <= i < |next| :: s.path[i] < |s.scan| && next[i] == s.scan[s.path[i]]
  }

  ghost predicate Flags(s: St, onStack: seq<bool>) {
    |onStack| == |s.index| && forall v: nat | v < |onStack| :: onStack[v] <==> v in s.stack
  }

  ghost predicate Counted(s: St, k: nat) {
    forall x: nat | x < |s.index| :: -1 <= s.index[x] < k
  }

  ghost predicate Run(g: Graph, s: St, next: seq<nat>, onStack: seq<bool>, k: nat, comps: seq<Component>) {
    && Inv(g, s) && Aligned(s, next) && Flags(s, onStack) && Counted(s, k) && CompsOk(g, s.member, comps)
    && s.Visited(g.entry)
  }

  ghost function Unvisited(s: St): set<nat> {
    set v: nat | v < |s.index| && s.index[v] < 0
  }

  lemma RunTop(g: Graph, s: St, next: seq<nat>, onStack: seq<bool>, k: nat, comps: seq<Component>)
    requires Run(g, s, next, onStack, k, comps) && s.path != []
    ensures |s.index| == |s.low| == |s.scan| == |s.member| == |g.succ| == |onStack| == g.n && |next| == |s.path|
    ensures var v, child := s.path[|s.path| - 1], next[|next| - 1];
            && v < g.n && child == s.scan[v] && child <= |g.succ[v]|
            && (child < |g.succ[v]| ==> AtEdge(g, s, v, g.succ[v][child]) && g.succ[v][child] < g.n)
            && (child == |g.succ[v]| ==> AtEnd(g, s, v))
  {
    hide EmittedClosed, EmittedStrong, PathReaches, LowComplete, ReachesPath, SeenTargets, LowSound, Shape, CompsOk,
      Counted;
    var v, child := s.path[|s.path| - 1], next[|next| - 1];
    TopShape(g, s, v);
    ShapeFacts(g, s);
    ScanBound(g, s, v);
    if child < |g.succ[v]| {
      EdgeFacts(g, s, v, g.succ[v][child]);
    }
  }

  lemma ScanBound(g: Graph, s: St, v: nat)
    requires Shape(g, s) && v < g.n
    ensures |g.succ| == g.n && s.scan[v] <= |g.succ[v]|
  {}

  lemma NotStacked(g: Graph, s: St, next: seq<nat>, onStack: seq<bool>, k: nat, comps: seq<Component>, w: nat)
    requires Run(g, s, next, onStack, k, comps) && w < |s.index| && s.index[w] != -1 && w < |onStack| && !onStack[w]
    ensures s.Emitted(w)
  {
    hide EmittedClosed, EmittedStrong, PathReaches, LowComplete, ReachesPath, SeenTargets, LowSound, CompsOk;
  }

  lemma AdvanceAligned(g: Graph, s: St, next: seq<nat>, v: nat)
    requires Shape(g, s) && Aligned(s, next) && s.path != [] && v == s.path[|s.path| - 1]
    ensures v < |s.scan| && Aligned(Advanced(s, v), next[|next| - 1 := next[|next| - 1] + 1])
  {
    hide Reachable;
    assert v in s.path;
  }

  lemma RunSkip(g: Graph, s: St, next: seq<nat>, onStack: seq<bool>, k: nat, comps: seq<Component>, v: nat, w: nat)
    requires Run(g, s, next, onStack, k, comps) && AtEdge(g, s, v, w) && s.Emitted(w)
    ensures v < |s.scan| && Run(g, Advanced(s, v), next[|next| - 1 := next[|next| - 1] + 1], onStack, k, comps)
    ensures Unvisited(Advanced(s, v)) == Unvisited(s)
  {
    hide EmittedClosed, EmittedStrong, PathReaches, LowComplete, ReachesPath, SeenTargets, LowSound, CompsOk, Shape,
      AtEdge, Aligned;
    AlignedLength(g, s, next);
    AdvanceFrom(g, s, next, v, w);
    SkipKeeps(g, s, v, w);
  }

  lemma AlignedLength(g: Graph, s: St, next: seq<nat>)
    requires Aligned(s, next)
    ensures |next| == |s.path|
  {}

  lemma AdvanceFrom(g: Graph, s: St, next: seq<nat>, v: nat, w: nat)
    requires AtEdge(g, s, v, w) && Aligned(s, next)
    ensures next != [] && v < |s.scan| && Aligned(Advanced(s, v), next[|next| - 1 := next[|next| - 1] + 1])
  {
    hide EmittedClosed, EmittedStrong, PathReaches, LowComplete, ReachesPath, SeenTargets, LowSound, Shape;
    AdvanceAligned(g, s, next, v);
  }

  lemma RunBack(g: Graph, s: St, next: seq<nat>, onStack: seq<bool>, k: nat, comps: seq<Component>, v: nat, w: nat,
      low: int)
    requires w in s.stack && v < |s.low| && w < |s.index| && v < |s.scan| && next != []
    requires low == if s.index[w] < s.low[v] then s.index[w] else s.low[v]
    requires Run(g, s, next, onStack, k, comps) && AtEdge(g, s, v, w)
    ensures Run(g, Advanced(s, v).(low := s.low[v := low]), next[|next| - 1 := next[|next| - 1] + 1], onStack, k, comps)
    ensures Unvisited(Advanced(s, v).(low := s.low[v := low])) == Unvisited(s)
  {
    hide Inv, CompsOk, AtEdge, Aligned, Counted, Flags, Unvisited;
    AlignedLength(g, s, next);
    AdvanceFrom(g, s, next, v, w);
    BackKeeps(g, s, v, w, low);
    var s' := Advanced(s, v).(low := s.low[v := low]);
    AlignedLow(Advanced(s, v), s'.low, next[|next| - 1 := next[|next| - 1] + 1]);
    SameCounts(s, s', onStack, k);
  }

  lemma SameCounts(s: St, s': St, onStack: seq<bool>, k: nat)
    requires s'.index == s.index && s'.stack == s.stack
    ensures Unvisited(s') == Unvisited(s) && (Flags(s, onStack) ==> Flags(s', onStack))
            && (Counted(s, k) ==> Counted(s', k))
  {}

  lemma AlignedLow(s: St, low: seq<int>, next: seq<nat>)
    requires Aligned(s, next)
    ensures Aligned(s.(low := low), next)
  {}

  lemma RunPush(g: Graph, s: St, next: seq<nat>, onStack: seq<bool>, k: nat, comps: seq<Component>, v: nat, w: nat)
    requires Run(g, s, next, onStack, k, comps) && AtEdge(g, s, v, w) && w < |s.index| && s.index[w] == -1
    ensures v < |s.scan| && w < |onStack| && |Advanced(s, v).scan| == |s.index| == |s.low|
    ensures Run(g, Pushed(Advanced(s, v), w, k), next[|next| - 1 := next[|next| - 1] + 1] + [0], onStack[w := true],
            k + 1, comps)
    ensures |Unvisited(Pushed(Advanced(s, v), w, k))| < |Unvisited(s)|
  {
    hide EmittedClosed, EmittedStrong, PathReaches, LowComplete, ReachesPath, SeenTargets, LowSound, CompsOk, Shape,
      AtEdge, Aligned;
    AlignedLength(g, s, next);
    AdvanceFrom(g, s, next, v, w);
    EdgeFacts(g, s, v, w);
    PushKeeps(g, s, v, w, k);
    var s' := Pushed(Advanced(s, v), w, k);
    PushedAligned(g, Advanced(s, v), next[|next| - 1 := next[|next| - 1] + 1], w, k);
    assert Unvisited(s') == Unvisited(s) - {w};
    assert w in Unvisited(s);
  }

  lemma PushedAligned(g: Graph, s: St, next: seq<nat>, w: nat, k: nat)
    requires Aligned(s, next) && Fresh(g, s, w, k) && Shape(g, Pushed(s, w, k))
    ensures Aligned(Pushed(s, w, k), next + [0])
  {
    hide Reachable;
    var s' := Pushed(s, w, k);
    forall i | 0 <= i < |next| ensures s'.path[i] < |s'.scan| && (next + [0])[i] == s'.scan[s'.path[i]] {
      assert s'.index[s'.path[i]] < s'.index[s'.path[|s.path|]];
    }
  }

  lemma RunMerge(g: Graph, s: St, next: seq<nat>, onStack: seq<bool>, k: nat, comps: seq<Component>, v: nat)
    requires Run(g, s, next, onStack, k, comps) && AtEnd(g, s, v) && s.low[v] != s.index[v]
    ensures |s.path| >= 2 && s.path[|s.path| - 2] < |s.low|
    ensures var p := s.path[|s.path| - 2];
            var s' := Merged(s, p, if s.low[v] < s.low[p] then s.low[v] else s.low[p]);
            && Run(g, s', next[..|next| - 1], onStack, k, comps) && Unvisited(s') == Unvisited(s)
  {
    hide EmittedClosed, EmittedStrong, PathReaches, LowComplete, ReachesPath, SeenTargets, LowSound, CompsOk, Shape;
    EndFacts(g, s, v);
    var a := LowerAnchor(g, s, v);
    assert a in Rest(s.path);
    var p := s.path[|s.path| - 2];
    assert p in s.path;
    MergeKeeps(g, s, v, p, if s.low[v] < s.low[p] then s.low[v] else s.low[p]);
  }

  // ----- emitting a component

  /** The blocks popped off the Tarjan stack, top first, through the `k`-th. */
  ghost predicate PoppedFrom(stack: seq<nat>, k: nat, blocks: seq<nat>) {
    k < |stack| && |blocks| == |stack| - k && forall i | 0 <= i < |blocks| :: blocks[i] == stack[|stack| - 1 - i]
  }

  method PopComponent(stack0: seq<nat>, onStack: array<bool>, block: nat, ghost k: nat)
    returns (stack: seq<nat>, blocks: seq<nat>)
    requires k < |stack0| && stack0[k] == block && (forall i | k < i < |stack0| :: stack0[i] != block)
    requires forall i | 0 <= i < |stack0| :: stack0[i] < onStack.Length
    modifies onStack
    ensures stack == stack0[..k] && PoppedFrom(stack0, k, blocks)
    ensures forall v | 0 <= v < onStack.Length :: onStack[v] == (old(onStack[v]) && v !in blocks)
  {
    stack, blocks := stack0, [];
    while true
      invariant k < |stack| <= |stack0| && stack == stack0[..|stack|]
      invariant |blocks| == |stack0| - |stack| && forall i | 0 <= i < |blocks| :: blocks[i] == stack0[|stack0| - 1 - i]
      invariant forall v | 0 <= v < onStack.Length :: onStack[v] == (old(onStack[v]) && v !in blocks)
      decreases |stack|
    {
      var member := stack[|stack| - 1];
      stack := stack[..|stack| - 1];
      onStack[member] := false;
      blocks := blocks + [member];
      if member == block {
        break;
      }
    }
  }

  /** The position of the head of the top component on the Tarjan stack. */
  lemma HeadPosition(g: Graph, s: St, v: nat) returns (k: nat)
    requires AtEnd(g, s, v)
    ensures k < |s.stack| && s.stack[k] == v && (forall i | k < i < |s.stack| :: s.stack[i] != v)
    ensures forall i | 0 <= i < |s.stack| :: s.stack[i] < |s.index|
  {
    hide EmittedClosed, EmittedStrong, PathReaches, LowComplete, ReachesPath, SeenTargets, LowSound, Shape, Rising;
    TopShape(g, s, v);
    StackRises(g, s);
    k := PositionOf(s.index, s.stack, v);
  }

  lemma StackRises(g: Graph, s: St)
    requires Shape(g, s)
    ensures Rising(s.index, s.stack)
  {
    hide Rising;
  }

  lemma PositionOf(index: seq<int>, stack: seq<nat>, v: nat) returns (k: nat)
    requires Rising(index, stack) && v in stack
    ensures k < |stack| && stack[k] == v && (forall i | k < i < |stack| :: stack[i] != v)
    ensures forall i | 0 <= i < |stack| :: stack[i] < |index|
  {
    k :| 0 <= k < |stack| && stack[k] == v;
  }

  /** The state after the component has left the Tarjan stack. */
  ghost function AfterEmission(s: St, k: nat, member: seq<int>): St
    requires k <= |s.stack| && s.path != []
  {
    s.(path := Rest(s.path), stack := s.stack[..k], member := member)
  }

  ghost predicate Numbered(s: St, member: seq<int>, blocks: seq<nat>, c: nat) {
    |member| == |s.member| && forall x: nat | x < |member| :: member[x] == if x in blocks then c else s.member[x]
  }

  lemma PoppedAbove(g: Graph, s: St, v: nat, k: nat, blocks: seq<nat>)
    requires Shape(g, s) && PoppedFrom(s.stack, k, blocks) && s.stack[k] == v
    ensures v < |s.index| && |s.index| == g.n && blocks != [] && Distinct(blocks)
    ensures forall x: nat :: x in blocks <==> x in s.stack && x < g.n && s.index[x] >= s.index[v]
    ensures forall x: nat :: x in s.stack[..k] <==> x in s.stack && x < g.n && s.index[x] < s.index[v]
  {
    hide Reachable;
    assert s.stack[k] in s.stack;
    forall x: nat | x in s.stack && x < g.n
      ensures if s.index[x] >= s.index[v] then x in blocks else x in s.stack[..k] {
      var i :| 0 <= i < |s.stack| && s.stack[i] == x;
      if i >= k {
        assert blocks[|s.stack| - 1 - i] == x;
      } else {
        assert s.stack[..k][i] == x;
      }
    }
    forall x: nat | x in s.stack[..k] ensures x in s.stack && x < g.n && s.index[x] < s.index[v] {
      var i :| 0 <= i < k && s.stack[i] == x;
    }
    forall x: nat | x in blocks ensures x in s.stack && x < g.n && s.index[x] >= s.index[v] {
      var i :| 0 <= i < |blocks| && blocks[i] == x;
      assert s.stack[|s.stack| - 1 - i] == x;
    }
  }

  lemma IsEmission(g: Graph, s: St, v: nat, k: nat, blocks: seq<nat>, member: seq<int>, comps: seq<Component>)
    requires AtEnd(g, s, v) && s.low[v] == s.index[v] && PoppedFrom(s.stack, k, blocks) && s.stack[k] == v
    requires CompsOk(g, s.member, comps) && Numbered(s, member, blocks, |comps|)
    ensures Emission(g, s, AfterEmission(s, k, member), v, |comps|)
  {
    hide EmittedClosed, EmittedStrong, PathReaches, LowComplete, ReachesPath, SeenTargets, LowSound, Shape, Listed,
      Marked;
    PoppedAbove(g, s, v, k, blocks);
  }

  lemma CompsGrow(g: Graph, s: St, member: seq<int>, comps: seq<Component>, comp: Component)
    requires CompsOk(g, s.member, comps) && Numbered(s, member, comp.blocks, |comps|)
    requires comp.blocks != [] && Distinct(comp.blocks) && Marked(g, comp)
    requires forall x | x in comp.blocks :: x < |s.member| && s.member[x] < 0
    ensures CompsOk(g, member, comps + [comp])
  {
    var comps' := comps + [comp];
    forall c: nat | c < |comps'| ensures Listed(g, member, comps'[c].blocks, c) && Marked(g, comps'[c]) {
      if c < |comps| {
        assert comps'[c] == comps[c] && Listed(g, s.member, comps[c].blocks, c);
      }
    }
  }

  lemma RunEmit(g: Graph, s: St, next: seq<nat>, onStack: seq<bool>, onStack': seq<bool>, n: nat, comps: seq<Component>,
                v: nat, k: nat, member: seq<int>, comp: Component)
    requires Run(g, s, next, onStack, n, comps) && AtEnd(g, s, v) && s.low[v] == s.index[v] && next != []
    requires PoppedFrom(s.stack, k, comp.blocks) && s.stack[k] == v && Numbered(s, member, comp.blocks, |comps|)
    requires comp.blocks != [] ==> Marked(g, comp)
    requires |onStack'| == |onStack| && forall x | 0 <= x < |onStack| ::
             onStack'[x] == (onStack[x] && x !in comp.blocks)
    ensures Run(g, AfterEmission(s, k, member), next[..|next| - 1], onStack', n, comps + [comp])
    ensures Unvisited(AfterEmission(s, k, member)) == Unvisited(s)
  {
    hide EmittedClosed, EmittedStrong, PathReaches, LowComplete, ReachesPath, SeenTargets, LowSound, Shape, CompsOk,
      Emission, AtEnd;
    PathNotEmpty(g, s, v);
    var s' := AfterEmission(s, k, member);
    PoppedAbove(g, s, v, k, comp.blocks);
    forall x | x in comp.blocks ensures x < g.n && x < |s.member| && s.member[x] < 0 {
      StackedNotEmitted(g, s, x);
    }
    CompsGrow(g, s, member, comps, comp);
    IsEmission(g, s, v, k, comp.blocks, member, comps);
    EmitKeeps(g, s, s', v, |comps|);
  }

  lemma PathNotEmpty(g: Graph, s: St, v: nat)
    requires AtEnd(g, s, v)
    ensures s.path != []
  {}

  lemma StackedNotEmitted(g: Graph, s: St, x: nat)
    requires Shape(g, s) && x in s.stack
    ensures x < g.n && |s.member| == g.n && s.member[x] < 0
  {
    hide Reachable;
    assert s.Visited(x) && !s.Emitted(x);
  }

  // ----- the finished search

  lemma FinishedStack(g: Graph, s: St)
    requires Inv(g, s) && s.path == []
    ensures s.stack == []
  {
    hide EmittedClosed, EmittedStrong, PathReaches, LowComplete, SeenTargets, LowSound, Shape;
    if s.stack != [] {
      var w := s.stack[0];
      assert w in s.stack;
      var a := Anchor(g, s, w);
      assert false;
    }
  }

  lemma {:induction false} MembersFall(g: Graph, s: St, u: nat, v: nat, p: seq<nat>)
    requires EmittedClosed(g, s) && s.Emitted(u) && PathFrom(g, u, v, p)
    ensures s.Emitted(v) && s.member[v] <= s.member[u]
    decreases |p|
  {
    if |p| > 1 {
      PrefixPath(g, u, v, p, |p| - 2);
      MembersFall(g, s, u, p[|p| - 2], p[..|p| - 1]);
      assert g.Edge(p[|p| - 2], p[|p| - 1]);
    }
  }

  lemma FinishedMembers(g: Graph, s: St)
    requires Inv(g, s) && s.path == [] && s.Visited(g.entry)
    ensures forall v: nat :: s.Emitted(v) <==> Reachable(g, v)
    ensures forall v: nat | s.Emitted(v) :: v < g.n
  {
    hide EmittedStrong, PathReaches, LowComplete, SeenTargets, LowSound, ReachesPath;
    FinishedStack(g, s);
    forall v: nat ensures s.Emitted(v) <==> Reachable(g, v) {
      if Reachable(g, v) {
        var p :| PathFrom(g, g.entry, v, p);
        assert g.entry !in s.stack;
        MembersFall(g, s, g.entry, v, p);
      }
    }
  }

  lemma FinishedClasses(g: Graph, s: St, u: nat, v: nat)
    requires EmittedClosed(g, s) && EmittedStrong(g, s) && s.Emitted(u) && s.Emitted(v)
    ensures s.member[u] == s.member[v] <==> Reaches(g, u, v) && Reaches(g, v, u)
  {
    if Reaches(g, u, v) && Reaches(g, v, u) {
      var p :| PathFrom(g, u, v, p);
      var q :| PathFrom(g, v, u, q);
      MembersFall(g, s, u, v, p);
      MembersFall(g, s, v, u, q);
    }
  }

  /** The mark is right: a component of one block is cyclic only through an edge to itself. */
  lemma MarkIsRight(g: Graph, s: St, comp: Component, c: nat)
    requires g.Valid() && EmittedClosed(g, s) && EmittedStrong(g, s) && |s.member| == g.n
    requires Listed(g, s.member, comp.blocks, c) && Marked(g, comp)
    ensures comp.cyclic <==> exists v :: v in comp.blocks && OnCycle(g, v)
  {
    var b := comp.blocks[0];
    assert b in comp.blocks;
    if |comp.blocks| == 1 {
      if g.Edge(b, b) {
        assert PathFrom(g, b, b, [b, b]);
        assert OnCycle(g, b);
      }
      if v :| v in comp.blocks && OnCycle(g, v) {
        SelfLoop(g, s, comp, c);
      }
    } else {
      var d := comp.blocks[1];
      assert d in comp.blocks && Reaches(g, b, d) && Reaches(g, d, b);
      var p :| PathFrom(g, b, d, p);
      var q :| PathFrom(g, d, b, q);
      ConcatPath(g, b, d, b, p, q);
      assert |p + q[1..]| >= 2;
      assert OnCycle(g, b);
    }
  }

  lemma SelfLoop(g: Graph, s: St, comp: Component, c: nat)
    requires g.Valid() && EmittedClosed(g, s) && |s.member| == g.n
    requires Listed(g, s.member, comp.blocks, c) && |comp.blocks| == 1 && OnCycle(g, comp.blocks[0])
    ensures g.Edge(comp.blocks[0], comp.blocks[0])
  {
    var b := comp.blocks[0];
    assert b in comp.blocks;
    var p :| |p| >= 2 && PathFrom(g, b, b, p);
    assert g.Edge(p[0], p[1]);
    PrefixPath(g, b, b, p, 1);
    MembersFall(g, s, b, p[1], p[..2]);
    SuffixPath(g, b, b, p, 1);
    MembersFall(g, s, p[1], b, p[1..]);
    assert p[1] in comp.blocks;
    assert p[1] == b;
  }

  lemma FinishedIsComponents(g: Graph, s: St, next: seq<nat>, onStack: seq<bool>, k: nat, comps: seq<Component>)
    requires Run(g, s, next, onStack, k, comps) && s.path == []
    ensures IsComponents(g, s.member, comps)
  {
    hide PathReaches, LowComplete, SeenTargets, LowSound, ReachesPath, Shape, Reaches, Listed, Marked, OnCycle;
    FinishedMembers(g, s);
    forall u: nat, v: nat | u < g.n && v < g.n && s.member[u] >= 0 && s.member[v] >= 0
      ensures s.member[u] == s.member[v] <==> Reaches(g, u, v) && Reaches(g, v, u)
    {
      FinishedClasses(g, s, u, v);
    }
    GraphIsValid(g, s);
    forall c: nat | c < |comps| ensures comps[c].cyclic <==> exists v :: v in comps[c].blocks && OnCycle(g, v) {
      assert Listed(g, s.member, comps[c].blocks, c);
      ListedNotEmpty(g, s.member, comps[c].blocks, c);
      MarkIsRight(g, s, comps[c], c);
    }
  }

  lemma ListedNotEmpty(g: Graph, member: seq<int>, blocks: seq<nat>, c: nat)
    requires Listed(g, member, blocks, c)
    ensures blocks != []
  {}

  lemma GraphIsValid(g: Graph, s: St)
    requires Shape(g, s)
    ensures g.Valid()
  {}

  // ----- the search itself

  ghost function StartState(g: Graph): St
    requires g.entry < g.n
  {
    St(seq(g.n, _ => -1)[g.entry := 0], seq(g.n, _ => 0)[g.entry := 0], seq(g.n, _ => 0), seq(g.n, _ => -1), [g.entry],
      [g.entry])
  }

  lemma StartShape(g: Graph)
    requires g.Valid() && g.entry < g.n
    ensures Shape(g, StartState(g))
  {
    ReachesSelf(g, g.entry);
  }

  lemma StartReach(g: Graph)
    requires g.entry < g.n
    ensures var s := StartState(g); PathReaches(g, s) && ReachesPath(g, s) && LowSound(g, s)
  {
    hide Reaches;
    var s := StartState(g);
    ReachesSelf(g, g.entry);
    assert Anchors(g, s, g.entry, g.entry);
    assert g.entry in s.stack && s.index[g.entry] == s.low[g.entry];
    assert HasWitness(g, s, g.entry);
  }

  lemma StartEdges(g: Graph)
    requires g.entry < g.n
    ensures var s := StartState(g); SeenTargets(g, s) && LowComplete(g, s) && EmittedClosed(g, s) && EmittedStrong(g, s)
  {
    hide Reaches;
  }

  lemma StartRun(g: Graph)
    requires g.Valid() && g.entry < g.n
    ensures Run(g, StartState(g), [0], seq(g.n, _ => false)[g.entry := true], 1, [])
  {
    hide EmittedClosed, EmittedStrong, PathReaches, LowComplete, SeenTargets, ReachesPath, Shape, LowSound;
    StartShape(g);
    StartReach(g);
    StartEdges(g);
  }

  lemma MergedParent(g: Graph, s: St, v: nat)
    requires AtEnd(g, s, v) && s.low[v] == s.index[v] && |s.path| >= 2
    ensures s.path[|s.path| - 2] < |s.low| && s.low[s.path[|s.path| - 2]] <= s.low[v]
  {
    hide EmittedClosed, EmittedStrong, PathReaches, LowComplete, SeenTargets, ReachesPath, Shape;
    EndFacts(g, s, v);
    var p := s.path[|s.path| - 2];
    assert p in Rest(s.path) by { assert Rest(s.path)[|s.path| - 2] == p; }
    LowBelow(g, s, p);
  }

  function Lower(a: int, b: int): int {
    if b < a then b else a
  }

  /** The local state of the search: the numberings, the two stacks and what has been emitted. */
  class Search {
    const g: Graph
    const index: array<int>
    const lowlink: array<int>
    const onStack: array<bool>
    const membership: array<int>
    var nextIndex: nat
    var tarjanStack: seq<nat>
    var path: seq<nat>
    var next: seq<nat>
    var components: seq<Component>
    ghost var scan: seq<nat>

    ghost function State(): St
      reads this, index, lowlink, membership
    {
      St(index[..], lowlink[..], scan, membership[..], tarjanStack, path)
    }

    ghost predicate Running()
      reads this, index, lowlink, onStack, membership
    {
      && index != lowlink && index != membership && lowlink != membership
      && |next| == |path| && Run(g, State(), next, onStack[..], nextIndex, components)
    }

    ghost function Remaining(): int
      reads this
    {
      if path == [] || next == [] then 0 else Unscanned(g, path[|path| - 1], next[|next| - 1])
    }

    constructor (g: Graph)
      requires g.Valid() && g.entry < g.n
      ensures this.g == g && Running()
      ensures fresh(index) && fresh(lowlink) && fresh(onStack) && fresh(membership)
    {
      hide Run, Graph.Valid;
      this.g := g;
      index := new int[g.n](_ => -1);
      lowlink := new int[g.n](_ => 0);
      onStack := new bool[g.n](_ => false);
      membership := new int[g.n](_ => -1);
      scan := seq(g.n, _ => 0);
      nextIndex := 1;
      tarjanStack, path, next, components := [g.entry], [g.entry], [0], [];
      new;
      index[g.entry], lowlink[g.entry], onStack[g.entry] := 0, 0, true;
      assert index[..] == seq(g.n, _ => -1)[g.entry := 0];
      assert lowlink[..] == seq(g.n, _ => 0)[g.entry := 0];
      assert membership[..] == seq(g.n, _ => -1);
      assert onStack[..] == seq(g.n, _ => false)[g.entry := true];
      StartRun(g);
    }

    /** Looks at the next successor of the top block. */
    method Look()
      requires Running() && path != [] && 0 < Remaining()
      modifies this, index, lowlink, onStack
      ensures Running()
      ensures |Unvisited(State())| < |old(Unvisited(State()))|
              || (|Unvisited(State())| == |old(Unvisited(State()))| && path == old(path)
                   && Remaining() < old(Remaining()))
    {
      hide Run, AtEdge, AtEnd, Unvisited, Inv;
      ghost var s := State();
      RunTop(g, s, next, onStack[..], nextIndex, components);
      var top := |path| - 1;
      var block := path[top];
      var succ := g.succ[block][next[top]];
      if index[succ] == -1 {
        Enter(block, succ);
      } else if onStack[succ] {
        FlagOnStack(g, s, next, onStack[..], nextIndex, components, succ);
        var low := Lower(lowlink[block], index[succ]);
        RunBack(g, s, next, onStack[..], nextIndex, components, block, succ, low);
        scan := scan[block := scan[block] + 1];
        lowlink[block] := low;
        next := next[top := next[top] + 1];
        assert State() == Advanced(s, block).(low := s.low[block := low]);
      } else {
        NotStacked(g, s, next, onStack[..], nextIndex, components, succ);
        RunSkip(g, s, next, onStack[..], nextIndex, components, block, succ);
        scan := scan[block := scan[block] + 1];
        next := next[top := next[top] + 1];
        assert State() == Advanced(s, block);
      }
    }

    method Enter(block: nat, succ: nat)
      requires path != [] && Running() && AtEdge(g, State(), block, succ) && succ < index.Length && index[succ] == -1
      modifies this, index, lowlink, onStack
      ensures Running()
      ensures |Unvisited(State())| < |old(Unvisited(State()))|
    {
      hide Run, AtEdge, AtEnd, Unvisited, Inv;
      ghost var s := State();
      ghost var flags := onStack[..];
      RunPush(g, s, next, flags, nextIndex, components, block, succ);
      var top := |path| - 1;
      scan := scan[block := scan[block] + 1][succ := 0];
      index[succ] := nextIndex;
      lowlink[succ] := nextIndex;
      onStack[succ] := true;
      tarjanStack := tarjanStack + [succ];
      next := next[|next| - 1 := next[|next| - 1] + 1] + [0];
      path := path + [succ];
      assert State() == Pushed(Advanced(s, block), succ, nextIndex);
      assert onStack[..] == flags[succ := true];
      nextIndex := nextIndex + 1;
    }

    /** Leaves the top block, whose successors have all been looked at. */
    method Leave()
      requires Running() && path != [] && Remaining() <= 0
      modifies this, lowlink, onStack, membership
      ensures Running()
      ensures Unvisited(State()) == old(Unvisited(State())) && |path| < |old(path)|
    {
      hide Run, AtEdge, AtEnd, Unvisited, Inv;
      ghost var s := State();
      RunTop(g, s, next, onStack[..], nextIndex, components);
      var top := |path| - 1;
      var block := path[top];
      var root := lowlink[block] == index[block];
      if root {
        Emit(block);
      } else {
        RunMerge(g, s, next, onStack[..], nextIndex, components, block);
        path, next := path[..top], next[..top];
        var parent := path[|path| - 1];
        ghost var low := if s.low[block] < s.low[parent] then s.low[block] else s.low[parent];
        lowlink[parent] := Lower(lowlink[parent], lowlink[block]);
        assert State() == Merged(s, parent, low);
      }
    }

    method Emit(block: nat)
      requires Running() && AtEnd(g, State(), block) && lowlink[block] == index[block]
      modifies this, lowlink, onStack, membership
      ensures Running()
      ensures Unvisited(State()) == old(Unvisited(State())) && |path| < |old(path)|
    {
      hide Run, AtEdge, Unvisited, Inv, PoppedFrom, NumberedUpTo, Numbered;
      ghost var s := State();
      ghost var flags := onStack[..];
      var top := |path| - 1;
      ghost var k := HeadPosition(g, s, block);
      RunGraph(g, s, next, flags, nextIndex, components);
      var stack, blocks := PopComponent(tarjanStack, onStack, block, k);
      PoppedNotEmpty(s.stack, k, blocks);
      PoppedInRange(s.stack, k, blocks, g.n);
      var comp := Component(blocks, if |blocks| == 1 then blocks[0] in g.succ[blocks[0]] else true);
      MarkedByRule(g, comp);
      Number(membership, blocks, |components|);
      NumberingIsNumbered(s, blocks, |components|);
      RunEmit(g, s, next, flags, onStack[..], nextIndex, components, block, k, membership[..], comp);
      if |path| >= 2 {
        MergedParent(g, s, block);
      }
      tarjanStack := stack;
      components := components + [comp];
      path, next := path[..top], next[..top];
      assert State() == AfterEmission(s, k, membership[..]);
      if path != [] {
        var parent := path[|path| - 1];
        ghost var was := lowlink[..];
        lowlink[parent] := Lower(lowlink[parent], lowlink[block]);
        assert lowlink[..] == was;
      }
    }

    method Explore()
      requires Running()
      modifies this, index, lowlink, onStack, membership
      ensures IsComponents(g, membership[..], components)
    {
      hide Run, Unvisited, Inv, IsComponents, AtEdge, AtEnd;
      while path != []
        invariant Running()
        decreases |Unvisited(State())|, |path|, Remaining()
      {
        RunTop(g, State(), next, onStack[..], nextIndex, components);
        if next[|path| - 1] < |g.succ[path[|path| - 1]]| {
          Look();
        } else {
          Leave();
        }
      }
      FinishedIsComponents(g, State(), next, onStack[..], nextIndex, components);
    }
  }

  lemma RunGraph(g: Graph, s: St, next: seq<nat>, onStack: seq<bool>, k: nat, comps: seq<Component>)
    requires Run(g, s, next, onStack, k, comps)
    ensures g.Valid() && |s.index| == |onStack| == |s.member| == g.n
  {
    hide EmittedClosed, EmittedStrong, PathReaches, LowComplete, SeenTargets, ReachesPath, LowSound, CompsOk;
  }

  ghost function Unscanned(g: Graph, block: nat, child: nat): int {
    if block < |g.succ| then |g.succ[block]| - child else 0
  }

  method Number(member: array<int>, blocks: seq<nat>, c: nat)
    requires forall i | 0 <= i < |blocks| :: blocks[i] < member.Length
    modifies member
    ensures member[..] == NumberedUpTo(old(member[..]), blocks, c, |blocks|)
  {
    for i := 0 to |blocks|
      invariant member[..] == NumberedUpTo(old(member[..]), blocks, c, i)
    {
      member[blocks[i]] := c;
    }
  }

  lemma FlagOnStack(g: Graph, s: St, next: seq<nat>, onStack: seq<bool>, k: nat, comps: seq<Component>, w: nat)
    requires Run(g, s, next, onStack, k, comps) && w < |onStack| && onStack[w]
    ensures w in s.stack
  {
    hide Inv, CompsOk;
  }

  lemma PoppedNotEmpty(stack: seq<nat>, k: nat, blocks: seq<nat>)
    requires PoppedFrom(stack, k, blocks)
    ensures blocks != []
  {}

  lemma PoppedInRange(stack: seq<nat>, k: nat, blocks: seq<nat>, n: nat)
    requires PoppedFrom(stack, k, blocks) && forall i | 0 <= i < |stack| :: stack[i] < n
    ensures forall i | 0 <= i < |blocks| :: blocks[i] < n
  {}

  ghost function NumberedUpTo(member: seq<int>, blocks: seq<nat>, c: nat, i: nat): seq<int>
    requires i <= |blocks|
  {
    seq(|member|, x requires 0 <= x < |member| => if x in blocks[..i] then c else member[x])
  }

  lemma NumberingIsNumbered(s: St, blocks: seq<nat>, c: nat)
    ensures Numbered(s, NumberedUpTo(s.member, blocks, c, |blocks|), blocks, c)
  {
    assert blocks[..|blocks|] == blocks;
  }

  lemma MarkedByRule(g: Graph, comp: Component)
    requires g.Valid() && comp.blocks != [] && comp.blocks[0] < g.n
    requires comp.cyclic == if |comp.blocks| == 1 then comp.blocks[0] in g.succ[comp.blocks[0]] else true
    ensures Marked(g, comp)
  {}

  /** The finished object. Unreachable blocks are in no component. */
  class Sccs {
    const g: Graph
    const components: seq<Component>
    const membership: seq<int>

    ghost predicate Valid() {
      g.Valid() && IsComponents(g, membership, components)
    }

    constructor Compute(g: Graph)
      requires g.Valid()
      ensures Valid() && this.g == g
    {
      this.g := g;
      if g.entry >= g.n {
        NothingReachable(g);
        components := [];
        membership := seq(g.n, _ => -1);
      } else {
        var search := new Search(g);
        search.Explore();
        components := search.components;
        membership := search.membership[..];
      }
    }

    method ComponentOf(block: nat) returns (c: int)
      requires Valid()
      ensures c == -1 <==> !Reachable(g, block)
      ensures c != -1 ==> 0 <= c < |components| && block in components[c].blocks
    {
      hide OnCycle;
      c := if block < |membership| then membership[block] else -1;
      if Reachable(g, block) {
        ReachableInRange(g, block);
      }
      if c != -1 {
        assert Listed(g, membership, components[c].blocks, c);
      }
    }
  }

  lemma NothingReachable(g: Graph)
    requires g.entry >= g.n
    ensures forall v: nat :: !Reachable(g, v)
  {}
}
