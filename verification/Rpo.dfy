/** The reverse post-order every graph analysis iterates over. */
module ReversePostOrder {
  import opened Basics
  import opened Graphs

  /** What the analyses rely on: the entry comes first, exactly the reachable blocks are listed,
      each once, and every later block has a predecessor listed before it. */
  ghost predicate IsRpo(g: Graph, rpo: seq<nat>) {
    && Distinct(rpo)
    && (forall v: nat :: v in rpo <==> Reachable(g, v))
    && (rpo != [] ==> rpo[0] == g.entry)
    && (forall k | 0 < k < |rpo| :: EarlierPred(g, rpo, k))
  }

  ghost predicate EarlierPred(g: Graph, rpo: seq<nat>, k: nat)
    requires k < |rpo|
  {
    exists j :: 0 <= j < k && g.Edge(rpo[j], rpo[k])
  }

  ghost predicate FromRoots(g: Graph, roots: set<nat>, v: nat) {
    exists r :: r in roots && Reaches(g, r, v)
  }

  /** The same for a search from several roots: every other block has an earlier predecessor. */
  ghost predicate IsRpoFrom(g: Graph, roots: set<nat>, rpo: seq<nat>) {
    && Distinct(rpo)
    && (forall v: nat :: v in rpo <==> FromRoots(g, roots, v))
    && (forall k | 0 <= k < |rpo| && rpo[k] !in roots :: EarlierPred(g, rpo, k))
  }

  datatype State = Unvisited | Open | Done

  /** `path` holds the blocks of the explicit stack: exactly the open ones, each entered from the
      one below it. */
  ghost predicate StackInv(g: Graph, roots: set<nat>, state: seq<State>, path: seq<nat>) {
    && |state| == g.n
    && Distinct(path)
    && (forall v: nat :: v in path <==> v < g.n && state[v] == Open)
    && (forall i, j | 0 <= i < j < |path| && j == i + 1 :: g.Edge(path[i], path[j]))
    && (path != [] ==> path[0] in roots)
  }

  ghost predicate OrderInv(g: Graph, roots: set<nat>, state: seq<State>, order: seq<nat>) {
    && |state| == g.n
    && Distinct(order)
    && (forall v: nat :: v in order <==> v < g.n && state[v] == Done)
    && (forall i | 0 <= i < |order| && order[i] !in roots :: LaterPred(g, state, order, i))
  }

  /** Block `order[i]` has a predecessor that finishes after it. */
  ghost predicate LaterPred(g: Graph, state: seq<State>, order: seq<nat>, i: nat)
    requires i < |order|
  {
    exists u: nat :: g.Edge(u, order[i]) && ((u < |state| && state[u] == Open) || u in order[i + 1..])
  }

  /** `next[i]` successors of `path[i]` have been looked at, and all successors of a finished block. */
  ghost predicate Scanned(g: Graph, state: seq<State>, path: seq<nat>, next: seq<nat>)
    requires g.Valid() && |state| == g.n
  {
    && |next| == |path|
    && (forall v: nat, w: nat | v < g.n && state[v] == Done && g.Edge(v, w) :: state[w] != Unvisited)
    && (forall i | 0 <= i < |path| :: Looked(g, state, path[i], next[i]))
  }

  /** None of the first `child` successors of `block` is unvisited. */
  ghost predicate Looked(g: Graph, state: seq<State>, block: nat, child: nat)
    requires g.Valid() && |state| == g.n
  {
    && block < g.n && child <= |g.succ[block]|
    && (forall k | 0 <= k < child :: g.succ[block][k] < g.n && state[g.succ[block][k]] != Unvisited)
  }

  ghost predicate DfsInv(g: Graph, roots: set<nat>, state: seq<State>, path: seq<nat>, next: seq<nat>, order: seq<nat>)
    requires g.Valid()
  {
    && StackInv(g, roots, state, path)
    && OrderInv(g, roots, state, order)
    && Scanned(g, state, path, next)
    && (forall v: nat | v < g.n && state[v] != Unvisited :: FromRoots(g, roots, v))
  }

  ghost function UnvisitedBlocks(state: seq<State>): set<nat> {
    set v: nat | v < |state| && state[v] == Unvisited
  }

  function Reversed(s: seq<nat>): (r: seq<nat>)
    ensures |r| == |s|
    ensures forall i | 0 <= i < |s| :: r[i] == s[|s| - 1 - i]
  {
    seq(|s|, i requires 0 <= i < |s| => s[|s| - 1 - i])
  }

  /** Depth-first search with an explicit stack; the (block, next child) pairs of the stack are kept
      as the two sequences `path` and `next`. Appends what it finishes to the post-order so far. */
  method Search(g: Graph, ghost roots: set<nat>, start: nat, state: array<State>, order0: seq<nat>)
      returns (order: seq<nat>)
    requires g.Valid() && start in roots && start < g.n
    requires DfsInv(g, roots, state[..], [], [], order0) && state.Length == g.n && state[start] == Unvisited
    modifies state
    ensures DfsInv(g, roots, state[..], [], [], order) && Visits(old(state[..]), state[..]) && state[start] != Unvisited
  {
    hide DfsInv, UnvisitedBlocks, Graph.Valid, Visits;
    order := order0;
    var path: seq<nat>, next: seq<nat> := [start], [0];
    StartDfs(g, roots, state[..], start, order);
    state[start] := Open;
    assert state[..] == old(state[..])[start := Open];
    while path != []
      invariant |next| == |path|
      invariant DfsInv(g, roots, state[..], path, next, order)
      invariant Visits(old(state[..])[start := Open], state[..])
      decreases |UnvisitedBlocks(state[..])|, |path|, if path == [] then 0
                else Unscanned(g, path[|path| - 1], next[|path| - 1])
    {
      var top := |path| - 1;
      TopFacts(g, roots, state[..], path, next, order);
      var block, child := path[top], next[top];
      ghost var was := state[..];
      if child < |g.succ[block]| {
        var successor := g.succ[block][child];
        if state[successor] == Unvisited {
          PushKeepsDfs(g, roots, was, path, next, order, successor);
          state[successor] := Open;
          assert state[..] == was[successor := Open];
          VisitsMore(old(state[..])[start := Open], was, successor, Open);
          path, next := path + [successor], next[top := child + 1] + [0];
        } else {
          SkipKeepsDfs(g, roots, was, path, next, order);
          next := next[top := child + 1];
        }
      } else {
        FinishKeepsDfs(g, roots, was, path, next, order);
        state[block] := Done;
        assert state[..] == was[block := Done];
        VisitsMore(old(state[..])[start := Open], was, block, Done);
        order := order + [block];
        path, next := path[..top], next[..top];
      }
    }
    VisitsStart(old(state[..]), state[..], start);
  }

  method Compute(g: Graph) returns (rpo: seq<nat>)
    requires g.Valid()
    ensures IsRpo(g, rpo)
    ensures rpo == [] <==> g.entry >= g.n
  {
    if g.entry >= g.n {
      return [];
    }
    var state := new State[g.n](_ => Unvisited);
    var order := Search(g, {g.entry}, g.entry, state, []);
    rpo := Reversed(order);
    FinishedIsRpoFrom(g, {g.entry}, state[..], order, rpo);
    RpoFromEntry(g, rpo);
  }

  /** Nothing visited is forgotten. */
  ghost predicate Visits(before: seq<State>, after: seq<State>) {
    |before| == |after| && forall v | 0 <= v < |after| && before[v] != Unvisited :: after[v] != Unvisited
  }

  lemma VisitsMore(before: seq<State>, after: seq<State>, v: nat, s: State)
    requires Visits(before, after) && v < |after| && s != Unvisited
    ensures Visits(before, after[v := s])
  {}

  lemma VisitsStart(before: seq<State>, after: seq<State>, start: nat)
    requires start < |before| && Visits(before[start := Open], after)
    ensures Visits(before, after) && after[start] != Unvisited
  {
    assert before[start := Open][start] == Open;
  }

  ghost function Unscanned(g: Graph, block: nat, child: nat): int {
    if block < |g.succ| then |g.succ[block]| - child else 0
  }

  lemma StartDfs(g: Graph, roots: set<nat>, state: seq<State>, start: nat, order: seq<nat>)
    requires g.Valid() && start in roots && start < g.n
    requires DfsInv(g, roots, state, [], [], order) && state[start] == Unvisited
    ensures DfsInv(g, roots, state[start := Open], [start], [0], order)
    ensures Visits(state[start := Open], state[start := Open])
  {
    ReachesSelf(g, start);
    PushKeepsOrder(g, roots, state, order, start);
    hide OrderInv;
    assert StackInv(g, roots, state[start := Open], [start]);
  }

  lemma TopFacts(g: Graph, roots: set<nat>, state: seq<State>, path: seq<nat>, next: seq<nat>, order: seq<nat>)
    requires g.Valid() && path != [] && DfsInv(g, roots, state, path, next, order)
    ensures |g.succ| == g.n == |state| && |next| == |path|
    ensures var block, child := path[|path| - 1], next[|path| - 1];
            && block < g.n && child <= |g.succ[block]|
            && (child < |g.succ[block]| ==> g.Edge(block, g.succ[block][child]) && g.succ[block][child] < g.n)
  {
    var block, child := path[|path| - 1], next[|path| - 1];
    assert Looked(g, state, block, child);
    if child < |g.succ[block]| {
      var w := g.succ[block][child];
      assert g.Edge(block, w);
    }
  }

  lemma PushKeepsScanned(g: Graph, state: seq<State>, path: seq<nat>, next: seq<nat>, w: nat)
    requires g.Valid() && path != [] && |state| == g.n && Scanned(g, state, path, next)
    requires w < g.n && state[w] == Unvisited && path[|path| - 1] < g.n
    requires |next| == |path| && next[|path| - 1] < |g.succ[path[|path| - 1]]|
             && g.succ[path[|path| - 1]][next[|path| - 1]] == w
    ensures Scanned(g, state[w := Open], path + [w], next[|path| - 1 := next[|path| - 1] + 1] + [0])
  {
    var top := |path| - 1;
    var block, child := path[top], next[top];
    var state', path', next' := state[w := Open], path + [w], next[top := child + 1] + [0];
    forall i | 0 <= i < |path'| ensures Looked(g, state', path'[i], next'[i]) {
      assert i < top ==> Looked(g, state, path[i], next[i]);
      assert Looked(g, state, path[top], next[top]);
    }
  }

  lemma SkipKeepsDfs(g: Graph, roots: set<nat>, state: seq<State>, path: seq<nat>, next: seq<nat>, order: seq<nat>)
    requires g.Valid() && path != [] && DfsInv(g, roots, state, path, next, order)
    requires var block, child := path[|path| - 1], next[|path| - 1];
             child < |g.succ[block]| && g.Edge(block, g.succ[block][child]) && state[g.succ[block][child]] != Unvisited
    ensures DfsInv(g, roots, state, path, next[|path| - 1 := next[|path| - 1] + 1], order)
  {
    assert |state| == g.n && |next| == |path|;
    assert Looked(g, state, path[|path| - 1], next[|path| - 1]);
    hide StackInv, OrderInv;
  }

  lemma PushKeepsDfs(g: Graph, roots: set<nat>, state: seq<State>, path: seq<nat>, next: seq<nat>, order: seq<nat>,
      w: nat)
    requires g.Valid() && path != [] && DfsInv(g, roots, state, path, next, order)
    requires var block, child := path[|path| - 1], next[|path| - 1];
             child < |g.succ[block]| && w == g.succ[block][child] && g.Edge(block, w) && state[w] == Unvisited
    ensures DfsInv(g, roots, state[w := Open], path + [w], next[|path| - 1 := next[|path| - 1] + 1] + [0], order)
    ensures |UnvisitedBlocks(state[w := Open])| < |UnvisitedBlocks(state)|
  {
    var block := path[|path| - 1];
    assert g.Edge(block, w);
    assert FromRoots(g, roots, w) by {
      assert block in path && FromRoots(g, roots, block);
      var r :| r in roots && Reaches(g, r, block);
      ReachesStep(g, r, block, w);
    }
    PushKeepsOrder(g, roots, state, order, w);
    PushKeepsStack(g, roots, state, path, w);
    hide StackInv, OrderInv;
    PushKeepsScanned(g, state, path, next, w);
    assert UnvisitedBlocks(state[w := Open]) == UnvisitedBlocks(state) - {w};
  }

  lemma PushKeepsStack(g: Graph, roots: set<nat>, state: seq<State>, path: seq<nat>, w: nat)
    requires path != [] && StackInv(g, roots, state, path)
    requires w < g.n && g.Edge(path[|path| - 1], w) && state[w] == Unvisited
    ensures StackInv(g, roots, state[w := Open], path + [w])
  {
    assert w !in path;
  }

  lemma PushKeepsOrder(g: Graph, roots: set<nat>, state: seq<State>, order: seq<nat>, w: nat)
    requires OrderInv(g, roots, state, order) && w < g.n && state[w] == Unvisited
    ensures OrderInv(g, roots, state[w := Open], order)
  {
    forall i | 0 <= i < |order| && order[i] !in roots ensures LaterPred(g, state[w := Open], order, i) {
      assert LaterPred(g, state, order, i);
    }
  }

  lemma FinishKeepsDfs(g: Graph, roots: set<nat>, state: seq<State>, path: seq<nat>, next: seq<nat>, order: seq<nat>)
    requires g.Valid() && path != [] && DfsInv(g, roots, state, path, next, order)
    requires next[|path| - 1] == |g.succ[path[|path| - 1]]|
    ensures DfsInv(g, roots, state[path[|path| - 1] := Done], path[..|path| - 1], next[..|path| - 1],
            order + [path[|path| - 1]])
    ensures UnvisitedBlocks(state[path[|path| - 1] := Done]) == UnvisitedBlocks(state)
  {
    var top := |path| - 1;
    var block := path[top];
    FinishKeepsStack(g, roots, state, path);
    FinishKeepsOrder(g, roots, state, path, order);
    hide StackInv, OrderInv;
    var state', path', next' := state[block := Done], path[..top], next[..top];
    forall v: nat, w: nat | v < g.n && state'[v] == Done && g.Edge(v, w) ensures state'[w] != Unvisited {
      assert v == block ==> Looked(g, state, path[top], next[top]);
    }
    forall i | 0 <= i < |path'| ensures Looked(g, state', path'[i], next'[i]) {
      assert Looked(g, state, path[i], next[i]);
    }
  }

  lemma FinishKeepsStack(g: Graph, roots: set<nat>, state: seq<State>, path: seq<nat>)
    requires path != [] && StackInv(g, roots, state, path)
    ensures path[|path| - 1] < g.n && state[path[|path| - 1]] == Open
    ensures StackInv(g, roots, state[path[|path| - 1] := Done], path[..|path| - 1])
  {
    var block, path' := path[|path| - 1], path[..|path| - 1];
    assert path == path' + [block];
    assert block in path;
  }

  lemma FinishKeepsOrder(g: Graph, roots: set<nat>, state: seq<State>, path: seq<nat>, order: seq<nat>)
    requires path != [] && StackInv(g, roots, state, path) && OrderInv(g, roots, state, order)
    requires path[|path| - 1] < g.n
    ensures OrderInv(g, roots, state[path[|path| - 1] := Done], order + [path[|path| - 1]])
  {
    var block := path[|path| - 1];
    assert block in path;
    var state', order' := state[block := Done], order + [block];
    forall i | 0 <= i < |order'| && order'[i] !in roots ensures LaterPred(g, state', order', i) {
      if i == |order| {
        var u := path[|path| - 2];
        assert u in path && g.Edge(u, order'[i]) && state'[u] == Open;
      } else {
        assert LaterPred(g, state, order, i);
        var u: nat :| g.Edge(u, order[i]) && ((u < |state| && state[u] == Open) || u in order[i + 1..]);
        assert order'[i + 1..] == order[i + 1..] + [block];
        assert u == block ==> u in order'[i + 1..];
      }
    }
  }

  lemma FinishedIsRpoFrom(g: Graph, roots: set<nat>, state: seq<State>, order: seq<nat>, rpo: seq<nat>)
    requires g.Valid() && DfsInv(g, roots, state, [], [], order) && rpo == Reversed(order)
    requires forall r | r in roots :: r < g.n && state[r] != Unvisited
    ensures IsRpoFrom(g, roots, rpo)
  {
    hide DfsInv, FromRoots, EarlierPred;
    ReversedKeeps(order);
    FinishedDistinct(g, roots, state, order);
    forall v: nat ensures v in rpo <==> FromRoots(g, roots, v) {
      FinishedReachable(g, roots, state, order, v);
    }
    forall k | 0 <= k < |rpo| && rpo[k] !in roots ensures EarlierPred(g, rpo, k) {
      FinishedEarlier(g, roots, state, order, rpo, k);
    }
  }

  lemma ReversedKeeps(s: seq<nat>)
    ensures forall v :: v in Reversed(s) <==> v in s
    ensures Distinct(s) ==> Distinct(Reversed(s))
  {
    forall v | v in s ensures v in Reversed(s) {
      var i :| 0 <= i < |s| && s[i] == v;
      assert Reversed(s)[|s| - 1 - i] == v;
    }
  }

  lemma FinishedDistinct(g: Graph, roots: set<nat>, state: seq<State>, order: seq<nat>)
    requires g.Valid() && DfsInv(g, roots, state, [], [], order)
    ensures Distinct(order)
  {}

  ghost function DoneBlocks(state: seq<State>): set<nat> {
    set w: nat | w < |state| && state[w] == Done
  }

  lemma FinishedDone(g: Graph, roots: set<nat>, state: seq<State>, order: seq<nat>)
    requires g.Valid() && DfsInv(g, roots, state, [], [], order)
    requires forall r | r in roots :: r < g.n && state[r] != Unvisited
    ensures roots <= DoneBlocks(state)
    ensures forall v :: v in order <==> v in DoneBlocks(state)
    ensures forall v | v in DoneBlocks(state) :: FromRoots(g, roots, v)
    ensures forall x, y: nat | x in DoneBlocks(state) && g.Edge(x, y) :: y in DoneBlocks(state)
  {
    hide LaterPred, Distinct, FromRoots;
    assert forall v: nat | v < g.n :: state[v] != Open;
  }

  lemma FinishedReachable(g: Graph, roots: set<nat>, state: seq<State>, order: seq<nat>, v: nat)
    requires g.Valid() && DfsInv(g, roots, state, [], [], order)
    requires forall r | r in roots :: r < g.n && state[r] != Unvisited
    ensures v in order <==> FromRoots(g, roots, v)
  {
    hide DfsInv, DoneBlocks;
    FinishedDone(g, roots, state, order);
    if FromRoots(g, roots, v) {
      var r :| r in roots && Reaches(g, r, v);
      var p :| PathFrom(g, r, v, p);
      ClosedKeepsPath(g, r, v, p, DoneBlocks(state));
    }
  }

  lemma FinishedEarlier(g: Graph, roots: set<nat>, state: seq<State>, order: seq<nat>, rpo: seq<nat>, k: nat)
    requires g.Valid() && DfsInv(g, roots, state, [], [], order) && rpo == Reversed(order) && k < |rpo|
    requires rpo[k] !in roots
    ensures EarlierPred(g, rpo, k)
  {
    hide Scanned;
    var i := |order| - 1 - k;
    assert LaterPred(g, state, order, i);
    var u: nat :| g.Edge(u, order[i]) && ((u < |state| && state[u] == Open) || u in order[i + 1..]);
    var later := order[i + 1..];
    var j :| 0 <= j < |later| && later[j] == u;
    assert rpo[|order| - 1 - (i + 1 + j)] == u;
  }

  /** With the entry as the only root, the entry comes first. */
  lemma RpoFromEntry(g: Graph, rpo: seq<nat>)
    requires g.entry < g.n && IsRpoFrom(g, {g.entry}, rpo)
    ensures IsRpo(g, rpo) && rpo != []
  {
    ReachesSelf(g, g.entry);
    forall v: nat ensures FromRoots(g, {g.entry}, v) <==> Reachable(g, v) {
      if Reachable(g, v) {
        assert g.entry in {g.entry};
      }
    }
    assert g.entry in rpo;
    assert !EarlierPred(g, rpo, 0);
  }
}
