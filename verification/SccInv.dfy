/** What Tarjan's algorithm keeps at every step of its explicit depth-first search. */
module TarjanInvariant {
  import opened Graphs

  /** `index` and `low` are the two numberings, `scan` counts the successors of a block that have been
      looked at, `member` is the emitted component of a block (`-1` before that), `stack` the Tarjan
      stack and `path` the blocks of the depth-first stack. */
  datatype St = St(index: seq<int>, low: seq<int>, scan: seq<nat>, member: seq<int>, stack: seq<nat>, path: seq<nat>) {

    predicate Visited(v: nat) {
      v < |index| && index[v] >= 0
    }

    predicate Emitted(v: nat) {
      v < |member| && member[v] >= 0
    }
  }

  ghost predicate Rising(index: seq<int>, s: seq<nat>) {
    && (forall i | 0 <= i < |s| :: s[i] < |index| && index[s[i]] >= 0)
    && (forall i, j | 0 <= i < j < |s| :: index[s[i]] < index[s[j]])
  }

  ghost predicate Shape(g: Graph, s: St) {
    && g.Valid() && |s.index| == |s.low| == |s.scan| == |s.member| == g.n
    && Rising(s.index, s.stack) && Rising(s.index, s.path)
    && (forall v | v in s.path :: v in s.stack)
    && (forall v: nat :: v in s.stack <==> s.Visited(v) && !s.Emitted(v))
    && (forall v: nat | s.Emitted(v) :: s.Visited(v))
    && (forall v: nat | v < g.n :: s.scan[v] <= |g.succ[v]|)
    && (forall v: nat | s.Visited(v) && v !in s.path :: s.scan[v] == |g.succ[v]|)
    && (forall v: nat | s.Visited(v) :: Reachable(g, v))
  }

  /** The edge from `v` to `w` has been looked at. */
  ghost predicate ScannedEdge(g: Graph, s: St, v: nat, w: nat) {
    v < |g.succ| && v < |s.scan| && exists k :: 0 <= k < s.scan[v] && k < |g.succ[v]| && g.succ[v][k] == w
  }

  ghost predicate SeenTargets(g: Graph, s: St) {
    forall v: nat, w: nat | s.Visited(v) && ScannedEdge(g, s, v, w) :: s.Visited(w)
  }

  /** Emitted components only lead to themselves and to earlier ones. */
  ghost predicate EmittedClosed(g: Graph, s: St) {
    forall v: nat, w: nat | s.Emitted(v) && g.Edge(v, w) :: s.Emitted(w) && s.member[w] <= s.member[v]
  }

  ghost predicate EmittedStrong(g: Graph, s: St) {
    forall v: nat, w: nat | s.Emitted(v) && s.Emitted(w) && s.member[v] == s.member[w] :: Reaches(g, v, w)
  }

  /** A block on the path reaches everything above it on the Tarjan stack. */
  ghost predicate PathReaches(g: Graph, s: St) {
    forall v: nat, w: nat | v in s.path && w in s.stack && v < |s.index| && w < |s.index|
      && s.index[v] <= s.index[w] :: Reaches(g, v, w)
  }

  /** Everything on the Tarjan stack reaches a block of the path at or below it. */
  ghost predicate ReachesPath(g: Graph, s: St) {
    forall w: nat {:trigger HasAnchor(g, s, w)} | w in s.stack :: HasAnchor(g, s, w)
  }

  ghost predicate HasAnchor(g: Graph, s: St, w: nat) {
    exists v: nat :: Anchors(g, s, w, v)
  }

  ghost predicate Anchors(g: Graph, s: St, w: nat, v: nat) {
    v in s.path && v < |s.index| && w < |s.index| && s.index[v] <= s.index[w] && Reaches(g, w, v)
  }

  /** A lowlink names a block of the Tarjan stack that can be reached. */
  ghost predicate LowSound(g: Graph, s: St) {
    && (forall v: nat | v in s.path :: v < |s.low| && v < |s.index| && s.low[v] <= s.index[v])
    && (forall v: nat {:trigger HasWitness(g, s, v)} | v in s.path :: HasWitness(g, s, v))
  }

  ghost predicate HasWitness(g: Graph, s: St, v: nat)
    requires v < |s.low|
  {
    exists w: nat :: w in s.stack && w < |s.index| && s.index[w] == s.low[v] && Reaches(g, v, w)
  }

  /** `x` lies on the Tarjan stack between the `i`-th block of the path and the next one. */
  ghost predicate InSegment(s: St, i: nat, x: nat)
    requires i < |s.path|
  {
    && x in s.stack && x < |s.index| && s.path[i] < |s.index| && s.index[s.path[i]] <= s.index[x]
    && (i + 1 < |s.path| ==> s.path[i + 1] < |s.index| && s.index[x] < s.index[s.path[i + 1]])
  }

  /** No edge looked at in a segment leads below the lowlink of the block that heads it. */
  ghost predicate LowComplete(g: Graph, s: St) {
    forall i: nat, x: nat, w: nat | i < |s.path| && InSegment(s, i, x) && ScannedEdge(g, s, x, w) && w in s.stack ::
      LowCovers(s, s.path[i], w)
  }

  ghost predicate LowCovers(s: St, head: nat, w: nat) {
    head < |s.low| && w < |s.index| && s.low[head] <= s.index[w]
  }

  ghost predicate Inv(g: Graph, s: St) {
    && Shape(g, s) && SeenTargets(g, s) && EmittedClosed(g, s) && EmittedStrong(g, s)
    && PathReaches(g, s) && ReachesPath(g, s) && LowSound(g, s) && LowComplete(g, s)
  }

  // ----- looking at one more successor of the top block

  ghost predicate AtEdge(g: Graph, s: St, v: nat, w: nat) {
    && s.path != [] && v == s.path[|s.path| - 1]
    && v < |g.succ| && v < |s.scan| && s.scan[v] < |g.succ[v]| && g.succ[v][s.scan[v]] == w
    && Inv(g, s)
  }

  function Advanced(s: St, v: nat): St
    requires v < |s.scan|
  {
    s.(scan := s.scan[v := s.scan[v] + 1])
  }

  lemma EdgeFacts(g: Graph, s: St, v: nat, w: nat)
    requires AtEdge(g, s, v, w)
    ensures v < g.n && w < g.n && g.Edge(v, w) && s.Visited(v) && v in s.path && v in s.stack && Reachable(g, w)
    ensures |s.index| == |s.low| == |s.scan| == |s.member| == g.n
    ensures Reaches(g, v, w)
  {
    hide SeenTargets, EmittedClosed, EmittedStrong, PathReaches, ReachesPath, LowSound, LowComplete;
    assert v in s.path;
    assert g.Edge(v, w);
    ReachesSelf(g, v);
    ReachesStep(g, v, v, w);
    ReachesStep(g, g.entry, v, w);
  }

  lemma AdvancedEdges(g: Graph, s: St, v: nat, w: nat, x: nat, y: nat)
    requires AtEdge(g, s, v, w)
    ensures v < |s.scan|
    ensures ScannedEdge(g, Advanced(s, v), x, y) <==> ScannedEdge(g, s, x, y) || (x == v && y == w)
  {
    hide Inv;
    if x == v && y == w {
      assert g.succ[v][s.scan[v]] == w;
    }
  }

  lemma AdvancedShape(g: Graph, s: St, v: nat, w: nat)
    requires AtEdge(g, s, v, w)
    ensures v < |s.scan| && Shape(g, Advanced(s, v))
  {
    hide SeenTargets, EmittedClosed, EmittedStrong, PathReaches, ReachesPath, LowSound, LowComplete, Reachable;
    assert v in s.path;
    var s' := Advanced(s, v);
    assert forall x: nat :: s'.Visited(x) == s.Visited(x) && s'.Emitted(x) == s.Emitted(x);
  }

  lemma AdvancedSeen(g: Graph, s: St, v: nat, w: nat)
    requires AtEdge(g, s, v, w) && s.Visited(w)
    ensures v < |s.scan| && SeenTargets(g, Advanced(s, v))
  {
    hide EmittedClosed, EmittedStrong, PathReaches, ReachesPath, LowSound, LowComplete, Reachable, Shape, ScannedEdge;
    var s' := Advanced(s, v);
    forall x: nat, y: nat | s'.Visited(x) && ScannedEdge(g, s', x, y) ensures s'.Visited(y) {
      AdvancedEdges(g, s, v, w, x, y);
    }
  }

  /** The successor is in an emitted component: nothing but the cursor moves. */
  lemma SkipKeeps(g: Graph, s: St, v: nat, w: nat)
    requires AtEdge(g, s, v, w) && s.Emitted(w)
    ensures v < |s.scan| && Inv(g, Advanced(s, v))
  {
    hide EmittedClosed, EmittedStrong, PathReaches, LowSound, Reaches, Shape, ScannedEdge;
    EdgeFacts(g, s, v, w);
    AdvancedShape(g, s, v, w);
    var s' := Advanced(s, v);
    SameStacks(g, s, s');
    EmittedNotStacked(g, s, w);
    AdvancedSeen(g, s, v, w);
    forall i: nat, x: nat, y: nat | i < |s'.path| && InSegment(s', i, x) && ScannedEdge(g, s', x, y) && y in s'.stack
      ensures LowCovers(s', s'.path[i], y)
    {
      AdvancedEdges(g, s, v, w, x, y);
      assert InSegment(s, i, x);
    }
  }

  lemma EmittedNotStacked(g: Graph, s: St, w: nat)
    requires Shape(g, s) && s.Emitted(w)
    ensures w !in s.stack && s.Visited(w)
  {}

  /** Changing only the cursor keeps what does not speak of edges looked at. */
  lemma SameStacks(g: Graph, s: St, s': St)
    requires s' == s.(scan := s'.scan)
    ensures EmittedClosed(g, s) ==> EmittedClosed(g, s')
    ensures EmittedStrong(g, s) ==> EmittedStrong(g, s')
    ensures PathReaches(g, s) ==> PathReaches(g, s')
    ensures ReachesPath(g, s) ==> ReachesPath(g, s')
    ensures LowSound(g, s) ==> LowSound(g, s')
  {
    hide Reaches;
    forall w: nat | HasAnchor(g, s, w) ensures HasAnchor(g, s', w) {
      var v: nat :| Anchors(g, s, w, v);
      assert Anchors(g, s', w, v);
    }
    if LowSound(g, s) {
      forall v: nat | v in s.path ensures HasWitness(g, s', v) {
        assert HasWitness(g, s, v);
      }
    }
  }

  /** The successor is on the Tarjan stack: the lowlink of the top block takes its index in. */
  lemma BackKeeps(g: Graph, s: St, v: nat, w: nat, low: int)
    requires AtEdge(g, s, v, w) && w in s.stack && v < |s.low| && w < |s.index|
    requires low == if s.index[w] < s.low[v] then s.index[w] else s.low[v]
    ensures v < |s.scan| && Inv(g, Advanced(s, v).(low := s.low[v := low]))
  {
    hide EmittedClosed, EmittedStrong, PathReaches, Reaches, Shape, ScannedEdge, LowSound, LowComplete, SeenTargets,
      ReachesPath;
    EdgeFacts(g, s, v, w);
    AdvancedShape(g, s, v, w);
    var s1 := Advanced(s, v);
    var s' := s1.(low := s.low[v := low]);
    LowOnlyShape(g, s1, s');
    SameStacks(g, s, s1);
    LowOnly(g, s1, s');
    StackedVisited(g, s, w);
    AdvancedSeen(g, s, v, w);
    BackLowSound(g, s, v, w, low);
    BackLowComplete(g, s, v, w, low);
  }

  lemma StackedVisited(g: Graph, s: St, w: nat)
    requires Shape(g, s) && w in s.stack
    ensures s.Visited(w)
  {}

  lemma SameScan(g: Graph, s: St, s': St, x: nat, y: nat)
    requires s.scan == s'.scan
    ensures ScannedEdge(g, s, x, y) <==> ScannedEdge(g, s', x, y)
  {}

  lemma LowOnlyShape(g: Graph, s: St, s': St)
    requires s' == s.(low := s'.low) && |s'.low| == |s.low| && Shape(g, s)
    ensures Shape(g, s')
  {}

  lemma LowOnly(g: Graph, s: St, s': St)
    requires s' == s.(low := s'.low)
    ensures EmittedClosed(g, s) ==> EmittedClosed(g, s')
    ensures EmittedStrong(g, s) ==> EmittedStrong(g, s')
    ensures PathReaches(g, s) ==> PathReaches(g, s')
    ensures ReachesPath(g, s) ==> ReachesPath(g, s')
    ensures SeenTargets(g, s) ==> SeenTargets(g, s')
  {
    hide Reaches;
    forall x: nat, y: nat | ScannedEdge(g, s', x, y) ensures ScannedEdge(g, s, x, y) {
      SameScan(g, s, s', x, y);
    }
    forall w: nat | HasAnchor(g, s, w) ensures HasAnchor(g, s', w) {
      var v: nat :| Anchors(g, s, w, v);
      assert Anchors(g, s', w, v);
    }
  }

  lemma BackLowSound(g: Graph, s: St, v: nat, w: nat, low: int)
    requires AtEdge(g, s, v, w) && w in s.stack && v < |s.low| && w < |s.index|
    requires low == if s.index[w] < s.low[v] then s.index[w] else s.low[v]
    ensures v < |s.scan| && LowSound(g, Advanced(s, v).(low := s.low[v := low]))
  {
    hide EmittedClosed, EmittedStrong, PathReaches, Reaches, Shape, ScannedEdge, LowComplete, ReachesPath, SeenTargets;
    EdgeFacts(g, s, v, w);
    var s' := Advanced(s, v).(low := s.low[v := low]);
    forall x: nat | x in s'.path
      ensures x < |s'.low| && x < |s'.index| && s'.low[x] <= s'.index[x] && HasWitness(g, s', x) {
      assert HasWitness(g, s, x);
      if x == v && low == s.index[w] {
        assert w in s'.stack && s'.index[w] == s'.low[x] && Reaches(g, x, w);
      } else {
        var y: nat :| y in s.stack && y < |s.index| && s.index[y] == s.low[x] && Reaches(g, x, y);
        assert y in s'.stack && s'.index[y] == s'.low[x] && Reaches(g, x, y);
      }
    }
  }

  lemma BackLowComplete(g: Graph, s: St, v: nat, w: nat, low: int)
    requires AtEdge(g, s, v, w) && w in s.stack && v < |s.low| && w < |s.index|
    requires low == if s.index[w] < s.low[v] then s.index[w] else s.low[v]
    ensures v < |s.scan| && LowComplete(g, Advanced(s, v).(low := s.low[v := low]))
  {
    hide EmittedClosed, EmittedStrong, PathReaches, Reaches, ScannedEdge, LowSound, ReachesPath, SeenTargets, Shape;
    EdgeFacts(g, s, v, w);
    var s1 := Advanced(s, v);
    var s' := s1.(low := s.low[v := low]);
    forall i: nat, x: nat, y: nat | i < |s'.path| && InSegment(s', i, x) && ScannedEdge(g, s', x, y) && y in s'.stack
      ensures LowCovers(s', s'.path[i], y)
    {
      SameScan(g, s1, s', x, y);
      AdvancedEdges(g, s, v, w, x, y);
      assert InSegment(s, i, x);
      if ScannedEdge(g, s, x, y) {
        assert LowCovers(s, s.path[i], y);
      } else {
        TopSegment(g, s, i, v);
      }
    }
  }

  /** The top block of the path lies in the last segment only. */
  lemma TopSegment(g: Graph, s: St, i: nat, v: nat)
    requires Shape(g, s) && s.path != [] && v == s.path[|s.path| - 1] && i < |s.path| && InSegment(s, i, v)
    ensures i == |s.path| - 1
  {
    hide Reachable;
  }

  // ----- entering an unvisited block

  function Pushed(s: St, w: nat, k: nat): St
    requires w < |s.index| == |s.low| == |s.scan|
  {
    s.(index := s.index[w := k], low := s.low[w := k], scan := s.scan[w := 0], stack := s.stack + [w],
      path := s.path + [w])
  }

  /** `w` is unvisited, reachable, and `k` is above every index given out. */
  ghost predicate Fresh(g: Graph, s: St, w: nat, k: nat) {
    && w < g.n && |s.index| == |s.low| == |s.scan| == |s.member| == g.n
    && !s.Visited(w) && Reachable(g, w) && (forall x: nat | s.Visited(x) :: s.index[x] < k)
  }

  lemma PushedShape(g: Graph, s: St, w: nat, k: nat)
    requires Shape(g, s) && Fresh(g, s, w, k)
    ensures Shape(g, Pushed(s, w, k))
  {
    hide Reachable;
    var s' := Pushed(s, w, k);
    assert w !in s.stack && !s.Emitted(w);
    assert forall x: nat :: s'.Visited(x) <==> s.Visited(x) || x == w;
    assert forall x: nat :: s'.Emitted(x) <==> s.Emitted(x);
    assert forall x :: x in s'.stack <==> x in s.stack || x == w;
    assert forall x :: x in s'.path <==> x in s.path || x == w;
    RisingPush(s.index, s.stack, w, k);
    RisingPush(s.index, s.path, w, k);
  }

  lemma RisingPush(index: seq<int>, s: seq<nat>, w: nat, k: nat)
    requires Rising(index, s) && w < |index| && w !in s && forall x | x in s :: x < |index| && index[x] < k
    ensures Rising(index[w := k], s + [w])
  {}

  lemma PushedEdges(g: Graph, s: St, w: nat, k: nat, x: nat, y: nat)
    requires Fresh(g, s, w, k)
    ensures ScannedEdge(g, Pushed(s, w, k), x, y) <==> x != w && ScannedEdge(g, s, x, y)
  {}

  lemma PushedStack(g: Graph, s: St, w: nat, k: nat)
    requires Shape(g, s) && Fresh(g, s, w, k)
    ensures w !in s.stack && w !in s.path && !s.Emitted(w)
    ensures forall x | x in s.stack :: x < |s.index| && s.index[x] < k
    ensures forall x | x in s.path :: x in s.stack
    ensures forall x :: x in Pushed(s, w, k).stack <==> x in s.stack || x == w
    ensures forall x :: x in Pushed(s, w, k).path <==> x in s.path || x == w
  {
    hide Reachable;
    forall x | x in s.stack ensures x < |s.index| && s.index[x] < k { assert s.Visited(x); }
  }

  lemma PushKeeps(g: Graph, s: St, v: nat, w: nat, k: nat)
    requires AtEdge(g, s, v, w) && Fresh(g, s, w, k)
    ensures Fresh(g, Advanced(s, v), w, k) && Inv(g, Pushed(Advanced(s, v), w, k))
  {
    hide EmittedClosed, EmittedStrong, PathReaches, Reaches, Shape, ScannedEdge, LowSound, LowComplete, ReachesPath,
      SeenTargets;
    EdgeFacts(g, s, v, w);
    AdvancedShape(g, s, v, w);
    var s1 := Advanced(s, v);
    SameStacks(g, s, s1);
    PushedShape(g, s1, w, k);
    PushedStack(g, s1, w, k);
    PushedSeen(g, s, v, w, k);
    PushedEmitted(g, s1, w, k);
    PushedPathReaches(g, s1, v, w, k);
    PushedReachesPath(g, s1, w, k);
    PushedLowSound(g, s1, w, k);
    PushedLowComplete(g, s, v, w, k);
  }

  lemma PushedSeen(g: Graph, s: St, v: nat, w: nat, k: nat)
    requires AtEdge(g, s, v, w) && Fresh(g, s, w, k)
    ensures v < |s.scan| && Fresh(g, Advanced(s, v), w, k) && SeenTargets(g, Pushed(Advanced(s, v), w, k))
  {
    hide EmittedClosed, EmittedStrong, PathReaches, Reachable, Shape, ScannedEdge, LowSound, LowComplete, ReachesPath;
    var s1 := Advanced(s, v);
    var s' := Pushed(s1, w, k);
    forall x: nat, y: nat | s'.Visited(x) && ScannedEdge(g, s', x, y) ensures s'.Visited(y) {
      PushedEdges(g, s1, w, k, x, y);
      AdvancedEdges(g, s, v, w, x, y);
    }
  }

  lemma PushedEmitted(g: Graph, s: St, w: nat, k: nat)
    requires Fresh(g, s, w, k) && EmittedClosed(g, s) && EmittedStrong(g, s)
    ensures EmittedClosed(g, Pushed(s, w, k)) && EmittedStrong(g, Pushed(s, w, k))
  {
    hide Reaches;
  }

  lemma PushedPathReaches(g: Graph, s: St, v: nat, w: nat, k: nat)
    requires Shape(g, s) && Fresh(g, s, w, k) && PathReaches(g, s)
    requires s.path != [] && v == s.path[|s.path| - 1] && Reaches(g, v, w)
    ensures PathReaches(g, Pushed(s, w, k))
  {
    hide Reaches, Reachable;
    PushedStack(g, s, w, k);
    var s' := Pushed(s, w, k);
    assert v in s.path && v in s.stack;
    ReachesSelf(g, w);
    forall x: nat, y: nat | x in s'.path && y in s'.stack && x < |s'.index| && y < |s'.index|
      && s'.index[x] <= s'.index[y]
      ensures Reaches(g, x, y)
    {
      if y == w && x != w {
        assert s.index[x] <= s.index[v];
        ReachesTrans(g, x, v, w);
      }
    }
  }

  lemma PushedReachesPath(g: Graph, s: St, w: nat, k: nat)
    requires Shape(g, s) && Fresh(g, s, w, k) && ReachesPath(g, s)
    ensures ReachesPath(g, Pushed(s, w, k))
  {
    hide Reaches, Reachable, Shape;
    PushedStack(g, s, w, k);
    var s' := Pushed(s, w, k);
    ReachesSelf(g, w);
    assert Anchors(g, s', w, w);
    forall x: nat | x in s'.stack ensures HasAnchor(g, s', x) {
      if x != w {
        assert HasAnchor(g, s, x);
        var a: nat :| Anchors(g, s, x, a);
        assert Anchors(g, s', x, a);
      }
    }
  }

  lemma PushedLowSound(g: Graph, s: St, w: nat, k: nat)
    requires Shape(g, s) && Fresh(g, s, w, k) && LowSound(g, s)
    ensures LowSound(g, Pushed(s, w, k))
  {
    hide Reaches, Reachable, Shape;
    PushedStack(g, s, w, k);
    var s' := Pushed(s, w, k);
    ReachesSelf(g, w);
    forall x: nat | x in s'.path
      ensures x < |s'.low| && x < |s'.index| && s'.low[x] <= s'.index[x] && HasWitness(g, s', x) {
      if x == w {
        assert w in s'.stack && s'.index[w] == s'.low[w] && Reaches(g, w, w);
      } else {
        assert HasWitness(g, s, x);
        var y: nat :| y in s.stack && y < |s.index| && s.index[y] == s.low[x] && Reaches(g, x, y);
        assert y in s'.stack && s'.index[y] == s'.low[x];
      }
    }
  }

  lemma PushedLowComplete(g: Graph, s: St, v: nat, w: nat, k: nat)
    requires AtEdge(g, s, v, w) && Fresh(g, s, w, k)
    ensures v < |s.scan| && Fresh(g, Advanced(s, v), w, k) && LowComplete(g, Pushed(Advanced(s, v), w, k))
  {
    hide EmittedClosed, EmittedStrong, PathReaches, Reaches, Shape, ScannedEdge, ReachesPath, SeenTargets, HasWitness,
      Reachable, InSegment;
    EdgeFacts(g, s, v, w);
    var s1 := Advanced(s, v);
    var s' := Pushed(s1, w, k);
    PushedStack(g, s, w, k);
    forall i: nat, x: nat, y: nat | i < |s'.path| && InSegment(s', i, x) && ScannedEdge(g, s', x, y) && y in s'.stack
      ensures LowCovers(s', s'.path[i], y)
    {
      PushedEdges(g, s1, w, k, x, y);
      AdvancedEdges(g, s, v, w, x, y);
      PushedSegment(g, s, s', w, k, i, x);
      assert s.path[i] in s.path;
      if y != w {
        assert LowCovers(s, s.path[i], y);
      }
    }
  }

  lemma PushedSegment(g: Graph, s: St, s': St, w: nat, k: nat, i: nat, x: nat)
    requires Shape(g, s) && Fresh(g, s, w, k) && x != w && i <= |s.path|
    requires s' == Pushed(s, w, k).(scan := s'.scan) && InSegment(s', i, x)
    ensures i < |s.path| && InSegment(s, i, x)
  {
    hide Reachable;
    PushedStack(g, s, w, k);
    if i < |s.path| {
      assert s.path[i] in s.path;
    }
  }

  // ----- leaving the top block

  ghost predicate AtEnd(g: Graph, s: St, v: nat) {
    && s.path != [] && v == s.path[|s.path| - 1]
    && v < |g.succ| && v < |s.scan| && s.scan[v] == |g.succ[v]| && v < |s.low| && v < |s.index|
    && Inv(g, s)
  }

  function Rest(path: seq<nat>): (r: seq<nat>)
    requires path != []
    ensures |r| == |path| - 1 && forall i | 0 <= i < |r| :: r[i] == path[i]
  {
    path[..|path| - 1]
  }

  ghost predicate AllBelow(index: seq<int>, path: seq<nat>, v: nat)
    requires v < |index|
  {
    forall x | x in path :: x < |index| && index[x] < index[v]
  }

  lemma RisingTop(index: seq<int>, path: seq<nat>)
    requires Rising(index, path) && path != []
    ensures var v := path[|path| - 1];
            && v < |index| && (forall x | x in path :: x < |index| && index[x] <= index[v])
            && AllBelow(index, Rest(path), v)
            && (forall x :: x in path <==> x in Rest(path) || x == v)
  {
    var v := path[|path| - 1];
    assert path == Rest(path) + [v];
  }

  lemma ShapeFacts(g: Graph, s: St)
    requires Shape(g, s)
    ensures |s.low| == |s.index| == |s.member| == |s.scan| == |g.succ| == g.n
    ensures Rising(s.index, s.path)
    ensures forall x | x in s.path :: x in s.stack
    ensures forall x | x in s.stack :: x < g.n
  {
    hide Reachable;
    forall x | x in s.stack ensures x < g.n { assert s.Visited(x); }
  }

  /** How the top block sits on the path and on the Tarjan stack. */
  ghost predicate TopOf(g: Graph, s: St, v: nat) {
    && |s.low| == |s.index| == |s.member| == g.n
    && v in s.path && v in s.stack && v < g.n
    && (forall x | x in s.path :: x in s.stack && x < g.n && s.index[x] <= s.index[v])
    && (forall x | x in s.stack :: x < g.n)
    && (forall x :: x in s.path <==> x in Rest(s.path) || x == v)
    && AllBelow(s.index, Rest(s.path), v)
  }

  lemma TopOnPath(s: St, v: nat)
    requires s.path != [] && v == s.path[|s.path| - 1]
    ensures v in s.path
  {}

  lemma TopShape(g: Graph, s: St, v: nat)
    requires Shape(g, s) && s.path != [] && v == s.path[|s.path| - 1]
    ensures TopOf(g, s, v)
  {
    hide Shape, Rising, AllBelow;
    ShapeFacts(g, s);
    RisingTop(s.index, s.path);
  }

  lemma LowBelow(g: Graph, s: St, v: nat)
    requires LowSound(g, s) && v in s.path
    ensures v < |s.low| && v < |s.index| && s.low[v] <= s.index[v]
  {
    hide HasWitness;
  }

  lemma EndFacts(g: Graph, s: St, v: nat)
    requires AtEnd(g, s, v)
    ensures TopOf(g, s, v)
    ensures s.low[v] <= s.index[v]
  {
    hide EmittedClosed, EmittedStrong, PathReaches, LowComplete, ReachesPath, SeenTargets, Shape, LowSound, TopOf;
    TopShape(g, s, v);
    TopOnPath(s, v);
    LowBelow(g, s, v);
  }

  /** A lowlink below the block's own index leads to a block of the path further down. */
  lemma LowerAnchor(g: Graph, s: St, v: nat) returns (a: nat)
    requires AtEnd(g, s, v) && s.low[v] < s.index[v]
    ensures a in s.path && a != v && a < |s.index| && s.index[a] < s.index[v] && Reaches(g, v, a)
  {
    hide EmittedClosed, EmittedStrong, PathReaches, Reaches, LowComplete, SeenTargets, Shape, LowSound, ReachesPath,
      HasAnchor, HasWitness;
    EndFacts(g, s, v);
    var w := Witness(g, s, v);
    a := Anchor(g, s, w);
    ReachesTrans(g, v, w, a);
  }

  lemma Witness(g: Graph, s: St, v: nat) returns (w: nat)
    requires LowSound(g, s) && v in s.path
    ensures v < |s.low| && w in s.stack && w < |s.index| && s.index[w] == s.low[v] && Reaches(g, v, w)
  {
    hide Reaches;
    assert HasWitness(g, s, v);
    w :| w in s.stack && w < |s.index| && s.index[w] == s.low[v] && Reaches(g, v, w);
  }

  lemma Anchor(g: Graph, s: St, w: nat) returns (a: nat)
    requires ReachesPath(g, s) && w in s.stack
    ensures Anchors(g, s, w, a)
  {
    hide Reaches, Anchors;
    assert HasAnchor(g, s, w);
    a :| Anchors(g, s, w, a);
  }

  /** The block joins its parent's segment, and the parent's lowlink takes its lowlink in. */
  function Merged(s: St, p: nat, low: int): St
    requires p < |s.low| && s.path != []
  {
    s.(path := Rest(s.path), low := s.low[p := low])
  }

  ghost predicate Merging(g: Graph, s: St, v: nat, p: nat, low: int) {
    && |s.path| >= 2 && p == s.path[|s.path| - 2] && p < |s.low|
    && AtEnd(g, s, v) && s.low[v] < s.index[v]
    && low == if s.low[v] < s.low[p] then s.low[v] else s.low[p]
  }

  lemma MergedShape(g: Graph, s: St, v: nat, p: nat, low: int)
    requires Merging(g, s, v, p, low)
    ensures Shape(g, Merged(s, p, low))
  {
    hide EmittedClosed, EmittedStrong, PathReaches, LowSound, LowComplete, ReachesPath, SeenTargets, Reachable;
    EndFacts(g, s, v);
    var s' := Merged(s, p, low);
    assert forall x: nat :: s'.Visited(x) == s.Visited(x) && s'.Emitted(x) == s.Emitted(x);
    assert forall x :: x in s.path <==> x in s'.path || x == v;
  }

  lemma MergedReachesPath(g: Graph, s: St, v: nat, p: nat, low: int)
    requires Merging(g, s, v, p, low)
    ensures ReachesPath(g, Merged(s, p, low))
  {
    hide EmittedClosed, EmittedStrong, PathReaches, LowSound, LowComplete, SeenTargets, Reaches, Shape, ReachesPath;
    EndFacts(g, s, v);
    var s' := Merged(s, p, low);
    MergedAnchors(g, s, v, p, low);
    AllAnchored(g, s');
  }

  lemma MergedAnchors(g: Graph, s: St, v: nat, p: nat, low: int)
    requires Merging(g, s, v, p, low)
    ensures var s' := Merged(s, p, low); forall w: nat | w in s'.stack :: HasAnchor(g, s', w)
  {
    hide EmittedClosed, EmittedStrong, PathReaches, LowSound, LowComplete, SeenTargets, Reaches, Shape, ReachesPath;
    EndFacts(g, s, v);
    var s' := Merged(s, p, low);
    forall w: nat | w in s'.stack ensures HasAnchor(g, s', w) {
      var a := Anchor(g, s, w);
      if a == v {
        var b := LowerAnchor(g, s, v);
        ReachesTrans(g, w, v, b);
        assert Anchors(g, s', w, b);
      } else {
        assert Anchors(g, s', w, a);
      }
    }
  }

  lemma MergedLowSound(g: Graph, s: St, v: nat, p: nat, low: int)
    requires Merging(g, s, v, p, low)
    ensures LowSound(g, Merged(s, p, low))
  {
    hide EmittedClosed, EmittedStrong, ReachesPath, LowComplete, SeenTargets, Reaches, Shape, PathReaches;
    EndFacts(g, s, v);
    ReachesTop(g, s, v, p);
    var s' := Merged(s, p, low);
    forall x: nat | x in s'.path
      ensures x < |s'.low| && x < |s'.index| && s'.low[x] <= s'.index[x] && HasWitness(g, s', x) {
      var w := Witness(g, s, if x == p && low == s.low[v] then v else x);
      if x == p && low == s.low[v] {
        ReachesTrans(g, p, v, w);
      }
      assert w in s'.stack && s'.index[w] == s'.low[x] && Reaches(g, x, w);
    }
  }

  lemma ReachesTop(g: Graph, s: St, v: nat, p: nat)
    requires AtEnd(g, s, v) && p in s.path
    ensures Reaches(g, p, v)
  {
    hide EmittedClosed, EmittedStrong, ReachesPath, LowComplete, SeenTargets, Reaches, Shape, LowSound;
    EndFacts(g, s, v);
  }

  /** After the pop, the parent's segment is the union of the two top ones. */
  lemma MergedSegment(s: St, s': St, i: nat, x: nat)
    requires |s.path| >= 2 && s'.path == Rest(s.path) && s.path[|s.path| - 1] < |s.index|
    requires s'.index == s.index && (forall y | y in s'.stack :: y in s.stack) && i < |s'.path| && InSegment(s', i, x)
    ensures InSegment(s, i, x) || (i == |s'.path| - 1 && InSegment(s, i + 1, x))
  {}

  lemma MergedLowComplete(g: Graph, s: St, v: nat, p: nat, low: int)
    requires Merging(g, s, v, p, low)
    ensures LowComplete(g, Merged(s, p, low))
  {
    hide EmittedClosed, EmittedStrong, ReachesPath, SeenTargets, Reaches, Shape, PathReaches, InSegment, ScannedEdge,
      LowSound;
    EndFacts(g, s, v);
    var s' := Merged(s, p, low);
    forall i: nat, x: nat, w: nat | i < |s'.path| && InSegment(s', i, x) && ScannedEdge(g, s', x, w) && w in s'.stack
      ensures LowCovers(s', s'.path[i], w)
    {
      SameScan(g, s, s', x, w);
      MergedSegment(s, s', i, x);
      if InSegment(s, i, x) {
        assert LowCovers(s, s.path[i], w);
      } else {
        assert LowCovers(s, s.path[i + 1], w);
      }
    }
  }

  lemma MergeKeeps(g: Graph, s: St, v: nat, p: nat, low: int)
    requires Merging(g, s, v, p, low)
    ensures Inv(g, Merged(s, p, low))
  {
    hide EmittedClosed, EmittedStrong, PathReaches, Reaches, Shape, ScannedEdge, LowSound, LowComplete, ReachesPath,
      SeenTargets;
    var s' := Merged(s, p, low);
    MergedShape(g, s, v, p, low);
    PopKeepsRest(g, s, s');
    MergedReachesPath(g, s, v, p, low);
    MergedLowSound(g, s, v, p, low);
    MergedLowComplete(g, s, v, p, low);
  }

  lemma PopKeepsRest(g: Graph, s: St, s': St)
    requires s.path != [] && s' == s.(path := Rest(s.path), low := s'.low)
    requires Inv(g, s)
    ensures SeenTargets(g, s') && EmittedClosed(g, s') && EmittedStrong(g, s') && PathReaches(g, s')
  {
    hide Reaches, LowSound, LowComplete, ReachesPath, Shape, Reachable;
    forall x: nat, y: nat | ScannedEdge(g, s', x, y) ensures ScannedEdge(g, s, x, y) {
      SameScan(g, s, s', x, y);
    }
    assert forall x | x in s'.path :: x in s.path;
  }

  // ----- the top block heads a component

  /** Everything from `v` up leaves the Tarjan stack as component `c`. */
  ghost predicate Emission(g: Graph, s: St, s': St, v: nat, c: nat) {
    && |s'.member| == |s.member| == |s.index| == g.n && v < g.n && Leaves(s, s', g.n, v, c)
    && AtEnd(g, s, v) && s.low[v] == s.index[v]
    && s' == s.(path := Rest(s.path), stack := s'.stack, member := s'.member)
  }

  ghost predicate Leaves(s: St, s': St, n: nat, v: nat, c: nat)
    requires |s'.member| == |s.member| == |s.index| == n && v < n
  {
    && (forall x: nat | s.Emitted(x) :: s.member[x] < c)
    && (exists k: nat :: k <= |s.stack| && s'.stack == s.stack[..k])
    && (forall x: nat :: x in s'.stack <==> x in s.stack && x < n && s.index[x] < s.index[v])
    && (forall x: nat | x < n :: s'.member[x] == if x in s.stack && s.index[x] >= s.index[v] then c else s.member[x])
  }

  lemma EmittedShape(g: Graph, s: St, s': St, v: nat, c: nat)
    requires Emission(g, s, s', v, c)
    ensures Shape(g, s')
  {
    hide EmittedClosed, EmittedStrong, PathReaches, LowSound, LowComplete, ReachesPath, SeenTargets, Reachable;
    EndFacts(g, s, v);
    assert forall x: nat :: s'.Visited(x) == s.Visited(x);
    assert forall x :: x in s.path <==> x in s'.path || x == v;
    forall x: nat ensures x in s'.stack <==> s'.Visited(x) && !s'.Emitted(x) {
      assert x in s.stack <==> s.Visited(x) && !s.Emitted(x);
    }
  }

  /** No edge leaves the part from `v` up for the part that stays. */
  lemma EmissionCloses(g: Graph, s: St, v: nat, x: nat, y: nat)
    requires AtEnd(g, s, v) && s.low[v] == s.index[v] && x in s.stack && x < |s.index| && s.index[x] >= s.index[v]
             && g.Edge(x, y)
    ensures y < |s.index| && (s.Emitted(y) || (y in s.stack && s.index[y] >= s.index[v]))
  {
    hide EmittedClosed, EmittedStrong, PathReaches, LowSound, ReachesPath, Shape, LowComplete, ScannedEdge;
    EndFacts(g, s, v);
    FullyScanned(g, s, v, x, y);
    VisitedIsStackedOrEmitted(g, s, y);
    if y in s.stack {
      TopCovers(g, s, v, x, y);
    }
  }

  lemma VisitedIsStackedOrEmitted(g: Graph, s: St, y: nat)
    requires Shape(g, s) && s.Visited(y)
    ensures y in s.stack || s.Emitted(y)
  {}

  lemma FullyScanned(g: Graph, s: St, v: nat, x: nat, y: nat)
    requires AtEnd(g, s, v) && x in s.stack && x < |s.index| && s.index[x] >= s.index[v] && g.Edge(x, y)
    ensures s.Visited(x) && ScannedEdge(g, s, x, y)
  {
    hide EmittedClosed, EmittedStrong, PathReaches, LowSound, ReachesPath, LowComplete, SeenTargets, Reachable;
    EndFacts(g, s, v);
    assert s.Visited(x);
    if x in s.path {
      OnlyTop(s.index, s.path, x);
    }
    assert s.scan[x] == |g.succ[x]|;
    var k :| 0 <= k < |g.succ[x]| && g.succ[x][k] == y;
  }

  lemma OnlyTop(index: seq<int>, path: seq<nat>, x: nat)
    requires Rising(index, path) && path != [] && x in path && index[x] >= index[path[|path| - 1]]
    ensures x == path[|path| - 1]
  {}

  lemma TopCovers(g: Graph, s: St, v: nat, x: nat, y: nat)
    requires AtEnd(g, s, v) && x in s.stack && x < |s.index| && s.index[x] >= s.index[v] && ScannedEdge(g, s, x, y)
             && y in s.stack
    ensures LowCovers(s, v, y)
  {
    hide EmittedClosed, EmittedStrong, PathReaches, LowSound, ReachesPath, Shape, SeenTargets, ScannedEdge;
    EndFacts(g, s, v);
    assert InSegment(s, |s.path| - 1, x);
  }

  lemma EmissionClosed(g: Graph, s: St, s': St, v: nat, c: nat)
    requires Emission(g, s, s', v, c)
    ensures EmittedClosed(g, s')
  {
    hide EmittedStrong, PathReaches, LowSound, ReachesPath, Reachable, SeenTargets, LowComplete;
    EndFacts(g, s, v);
    forall x: nat, y: nat | s'.Emitted(x) && g.Edge(x, y) ensures s'.Emitted(y) && s'.member[y] <= s'.member[x] {
      if s.Emitted(x) {
        assert s.Emitted(y) && y !in s.stack && x !in s.stack;
      } else {
        EmissionCloses(g, s, v, x, y);
      }
    }
  }

  /** Everything from `v` up reaches `v`. */
  lemma SegmentReachesHead(g: Graph, s: St, v: nat, x: nat)
    requires AtEnd(g, s, v) && x in s.stack && x < |s.index| && s.index[x] >= s.index[v]
    ensures Reaches(g, x, v) && Reaches(g, v, x)
  {
    hide EmittedStrong, LowSound, EmittedClosed, Reachable, SeenTargets, LowComplete, Reaches, Shape;
    EndFacts(g, s, v);
    assert HasAnchor(g, s, x);
    var a: nat :| Anchors(g, s, x, a);
    ReachesTrans(g, x, a, v);
  }

  lemma EmissionStrong(g: Graph, s: St, s': St, v: nat, c: nat)
    requires Emission(g, s, s', v, c)
    ensures EmittedStrong(g, s')
  {
    hide PathReaches, LowSound, ReachesPath, SeenTargets, LowComplete, Reaches, EmittedClosed;
    EndFacts(g, s, v);
    forall x: nat, y: nat | s'.Emitted(x) && s'.Emitted(y) && s'.member[x] == s'.member[y] ensures Reaches(g, x, y) {
      if s'.member[x] == c && !s.Emitted(x) {
        assert !s.Emitted(y);
        SegmentReachesHead(g, s, v, x);
        SegmentReachesHead(g, s, v, y);
        ReachesTrans(g, x, v, y);
      } else {
        assert s.Emitted(x) && s.Emitted(y);
      }
    }
  }

  lemma EmissionReachesPath(g: Graph, s: St, s': St, v: nat, c: nat)
    requires Emission(g, s, s', v, c)
    ensures ReachesPath(g, s') && PathReaches(g, s')
  {
    hide EmittedStrong, LowComplete, Reaches, EmittedClosed, Shape, LowSound, SeenTargets, ReachesPath;
    EndFacts(g, s, v);
    forall w: nat | w in s'.stack ensures HasAnchor(g, s', w) {
      var a := Anchor(g, s, w);
      assert Anchors(g, s', w, a);
    }
    assert ReachesPath(g, s') by { AllAnchored(g, s'); }
  }

  lemma AllAnchored(g: Graph, s: St)
    requires forall w: nat | w in s.stack :: HasAnchor(g, s, w)
    ensures ReachesPath(g, s)
  {
    hide HasAnchor;
  }

  lemma EmissionLowSound(g: Graph, s: St, s': St, v: nat, c: nat)
    requires Emission(g, s, s', v, c)
    ensures SeenTargets(g, s') && LowSound(g, s')
  {
    hide EmittedStrong, LowComplete, Reaches, EmittedClosed, Shape, ReachesPath, PathReaches, ScannedEdge;
    EndFacts(g, s, v);
    forall x: nat, y: nat | ScannedEdge(g, s', x, y) ensures ScannedEdge(g, s, x, y) {
      SameScan(g, s, s', x, y);
    }
    forall x: nat | x in s'.path
      ensures x < |s'.low| && x < |s'.index| && s'.low[x] <= s'.index[x] && HasWitness(g, s', x) {
      var w := Witness(g, s, x);
      assert w in s'.stack && s'.index[w] == s'.low[x] && Reaches(g, x, w);
    }
  }

  lemma EmissionLowComplete(g: Graph, s: St, s': St, v: nat, c: nat)
    requires Emission(g, s, s', v, c)
    ensures LowComplete(g, s')
  {
    hide EmittedClosed, EmittedStrong, ReachesPath, SeenTargets, Reaches, Shape, PathReaches, ScannedEdge, LowSound;
    EndFacts(g, s, v);
    forall i: nat, x: nat, w: nat | i < |s'.path| && InSegment(s', i, x) && ScannedEdge(g, s', x, w) && w in s'.stack
      ensures LowCovers(s', s'.path[i], w)
    {
      SameScan(g, s, s', x, w);
      assert InSegment(s, i, x);
      assert LowCovers(s, s.path[i], w);
    }
  }

  lemma EmitKeeps(g: Graph, s: St, s': St, v: nat, c: nat)
    requires Emission(g, s, s', v, c)
    ensures Inv(g, s')
  {
    hide EmittedClosed, EmittedStrong, PathReaches, Reaches, Shape, ScannedEdge, LowSound, LowComplete, ReachesPath,
      SeenTargets, Emission;
    EmittedShape(g, s, s', v, c);
    EmissionClosed(g, s, s', v, c);
    EmissionStrong(g, s, s', v, c);
    EmissionReachesPath(g, s, s', v, c);
    EmissionLowSound(g, s, s', v, c);
    EmissionLowComplete(g, s, s', v, c);
  }
}
