/** Printing a shared expression graph as temporaries and a tree. */
module ExpressionSharing {
  import opened Bits
  import E = Expressions
  import opened Basics

  /** `Pure` stands for every other operation on values alone, told apart by number. */
  datatype Op =
    | Const(value: nat)
    | Value(id: nat)
    | EntryReg(reg: nat)
    | ZExt
    | Trunc
    | Not
    | Cmp(cmp: E.CmpOp)
    | Pure(k: nat)

  datatype Node = Node(op: Op, width: nat, operands: seq<nat>)

  /** Interning builds operands first, so they stand earlier. */
  datatype Dag = Dag(nodes: seq<Node>) {

    predicate Has(id: nat) {
      id < |nodes|
    }

    ghost predicate Valid() {
      forall id: nat | Has(id) :: NodeValid(id)
    }

    predicate NodeValid(id: nat)
      requires Has(id)
    {
      var n := nodes[id];
      && (forall i | 0 <= i < |n.operands| :: n.operands[i] < id)
      && n.width > 0
      && match n.op
         case Const(v) => n.operands == [] && v < Pow2(n.width)
         case Value(_) => n.operands == []
         case EntryReg(_) => n.operands == []
         case ZExt => |n.operands| == 1 && nodes[n.operands[0]].width <= n.width
         case Trunc => |n.operands| == 1 && nodes[n.operands[0]].width >= n.width
         case Not => |n.operands| == 1 && nodes[n.operands[0]].width == n.width
         case Cmp(_) => |n.operands| == 2 && n.width == 1 && nodes[n.operands[0]].width == nodes[n.operands[1]].width
         case Pure(_) => true
    }
  }

  // ----- what a node denotes

  datatype World = World(values: nat -> nat, regs: nat -> nat, pure: (nat, nat, seq<nat>) -> nat)

  /** An operation on operand values; `from` is the width of the operands. */
  function Denote(w: World, op: Op, width: nat, args: seq<nat>, from: nat): (r: nat) {
    match op
    case Const(v) => v
    case Value(id) => w.values(id) % Pow2(width)
    case EntryReg(reg) => w.regs(reg) % Pow2(width)
    case ZExt => if |args| == 1 then args[0] else 0
    case Trunc => if |args| == 1 then args[0] % Pow2(width) else 0
    case Not => if |args| == 1 then (Pow2(width) - 1 - args[0]) % Pow2(width) else 0
    case Cmp(c) => if |args| == 2 && from > 0 && E.Compare(c, args[0], args[1], from) then 1 else 0
    case Pure(k) => w.pure(k, width, args) % Pow2(width)
  }

  function From(dag: Dag, id: nat): nat
    requires dag.Valid() && dag.Has(id)
  {
    var n := dag.nodes[id];
    assert dag.NodeValid(id);
    if n.operands == [] then 0 else dag.nodes[n.operands[0]].width
  }

  function ArgsOf(dag: Dag, w: World, id: nat): (args: seq<nat>)
    requires dag.Valid() && dag.Has(id)
    ensures |args| == |dag.nodes[id].operands|
    ensures forall i | 0 <= i < |args| ::
            dag.nodes[id].operands[i] < id && args[i] == NodeValue(dag, w, dag.nodes[id].operands[i])
    decreases id, 0
  {
    var ops := dag.nodes[id].operands;
    assert dag.NodeValid(id);
    seq(|ops|, i requires 0 <= i < |ops| => NodeValue(dag, w, ops[i]))
  }

  function NodeValue(dag: Dag, w: World, id: nat): nat
    requires dag.Valid() && dag.Has(id)
    decreases id, 1
  {
    var n := dag.nodes[id];
    Denote(w, n.op, n.width, ArgsOf(dag, w, id), From(dag, id))
  }

  lemma {:induction false} NodeValueWithin(dag: Dag, w: World, id: nat)
    requires dag.Valid() && dag.Has(id)
    ensures NodeValue(dag, w, id) < Pow2(dag.nodes[id].width)
    decreases id
  {
    hide E.Compare;
    var n := dag.nodes[id];
    assert dag.NodeValid(id);
    if n.op.ZExt? {
      NodeValueWithin(dag, w, n.operands[0]);
      Pow2Monotone(dag.nodes[n.operands[0]].width, n.width);
    } else if n.op.Cmp? {
      Pow2Monotone(1, n.width);
    }
  }

  // ----- what is printed

  datatype CompareOp = EqC | NeC | LtC | LeC | GtC | GeC

  datatype Tree =
    | Temp(n: nat)
    | Leaf(op: Op, width: nat)
    | Apply(op: Op, width: nat, args: seq<Tree>, from: nat)
    | Compare(cmp: CompareOp, signed: bool, width: nat, left: Tree, right: Tree)
    | LogicalNot(arg: Tree)

  datatype Decl = Decl(temp: nat, init: Tree)

  function CompareC(op: CompareOp, a: int, b: int): bool {
    match op
    case EqC => a == b
    case NeC => a != b
    case LtC => a < b
    case LeC => a <= b
    case GtC => a > b
    case GeC => a >= b
  }

  function TreeValue(t: Tree, env: map<nat, nat>, w: World): nat {
    match t
    case Temp(n) => if n in env then env[n] else 0
    case Leaf(op, width) => Denote(w, op, width, [], 0)
    case Apply(op, width, args, from) =>
      Denote(w, op, width, seq(|args|, i requires 0 <= i < |args| => TreeValue(args[i], env, w)), from)
    case Compare(op, signed, width, l, r) =>
      var x, y := TreeValue(l, env, w), TreeValue(r, env, w);
      if (if signed && width > 0 then CompareC(op, E.ToSigned(x, width), E.ToSigned(y, width)) else CompareC(op, x, y))
        then 1 else 0
    case LogicalNot(a) => if TreeValue(a, env, w) == 0 then 1 else 0
  }

  /** The temporaries a tree reads. */
  function TempsOf(t: Tree): set<nat> {
    match t
    case Temp(n) => {n}
    case Leaf(_, _) => {}
    case Apply(_, _, args, _) => set a, n | a in args && n in TempsOf(a) :: n
    case Compare(_, _, _, l, r) => TempsOf(l) + TempsOf(r)
    case LogicalNot(a) => TempsOf(a)
  }

  /** The temporaries after the assignments run in order. */
  function Replay(decls: seq<Decl>, w: World): map<nat, nat> {
    if decls == [] then map[] else
    var env := Replay(decls[..|decls| - 1], w);
    var last := decls[|decls| - 1];
    env[last.temp := TreeValue(last.init, env, w)]
  }

  ghost predicate Extends(env: map<nat, nat>, now: map<nat, nat>) {
    forall n | n in env :: n in now && now[n] == env[n]
  }

  /** A tree means the same once more temporaries are assigned. */
  lemma {:induction false} ValueExtends(t: Tree, env: map<nat, nat>, now: map<nat, nat>, w: World)
    requires TempsOf(t) <= env.Keys && Extends(env, now)
    ensures TempsOf(t) <= now.Keys && TreeValue(t, now, w) == TreeValue(t, env, w)
  {
    hide Denote, CompareC, E.ToSigned;
    match t
    case Apply(op, width, args, from) =>
      forall i | 0 <= i < |args| ensures TreeValue(args[i], now, w) == TreeValue(args[i], env, w) {
        assert args[i] in args;
        assert TempsOf(args[i]) <= TempsOf(t);
        ValueExtends(args[i], env, now, w);
      }
      assert seq(|args|, i requires 0 <= i < |args| => TreeValue(args[i], now, w))
             == seq(|args|, i requires 0 <= i < |args| => TreeValue(args[i], env, w));
    case Compare(_, _, _, l, r) => ValueExtends(l, env, now, w); ValueExtends(r, env, now, w);
    case LogicalNot(a) => ValueExtends(a, env, now, w);
    case _ =>
  }

  // ----- reference counts

  function Count(s: seq<nat>, n: nat): nat {
    if s == [] then 0 else Count(s[..|s| - 1], n) + if s[|s| - 1] == n then 1 else 0
  }

  /** How often the nodes of `parents` below `k` have `n` as an operand. */
  ghost function Slots(dag: Dag, parents: set<nat>, n: nat, k: nat): nat
    requires k <= |dag.nodes|
  {
    if k == 0 then 0
    else Slots(dag, parents, n, k - 1) + if k - 1 in parents then Count(dag.nodes[k - 1].operands, n) else 0
  }

  lemma {:induction false} SlotsAdd(dag: Dag, parents: set<nat>, p: nat, n: nat, k: nat)
    requires k <= |dag.nodes| && p !in parents && dag.Has(p)
    ensures Slots(dag, parents + {p}, n, k) == Slots(dag, parents, n, k) + if p < k
            then Count(dag.nodes[p].operands, n) else 0
  {
    if k > 0 { SlotsAdd(dag, parents, p, n, k - 1); }
  }

  lemma {:induction false} SlotsNone(dag: Dag, n: nat, k: nat)
    requires k <= |dag.nodes|
    ensures Slots(dag, {}, n, k) == 0
  {
    if k > 0 { SlotsNone(dag, n, k - 1); }
  }

  lemma CountNext(s: seq<nat>, i: nat, n: nat)
    requires i < |s|
    ensures Count(s[..i + 1], n) == Count(s[..i], n) + if s[i] == n then 1 else 0
  {
    assert s[..i + 1][..i] == s[..i];
  }

  function Get(counts: map<nat, nat>, n: nat): nat {
    if n in counts then counts[n] else 0
  }

  ghost predicate OperandsIn(dag: Dag, p: nat, keys: set<nat>) {
    dag.Has(p) && forall i | 0 <= i < |dag.nodes[p].operands| :: dag.nodes[p].operands[i] in keys
  }

  /** The nodes a count walks: the root, and every node it is the first to reach. */
  ghost function Walked(base: map<nat, nat>, now: map<nat, nat>, root: nat): set<nat> {
    now.Keys - base.Keys + {root}
  }

  /** Some node of the set has `p` as an operand. */
  ghost predicate Led(dag: Dag, parents: set<nat>, p: nat) {
    exists q :: q in parents && dag.Has(q) && p in dag.nodes[q].operands
  }

  /** Each node gains one for every operand slot of a walked node, and the root one more. */
  ghost predicate Counted(dag: Dag, base: map<nat, nat>, now: map<nat, nat>, root: nat) {
    && base.Keys <= now.Keys && root in now
    && (forall p | p in Walked(base, now, root) :: OperandsIn(dag, p, now.Keys))
    && (forall p | p in Walked(base, now, root) && p != root :: Led(dag, Walked(base, now, root), p))
    && forall n :: Get(now, n)
         == Get(base, n) + (if n == root then 1 else 0) + Slots(dag, Walked(base, now, root), n, |dag.nodes|)
  }

  /** A walk in progress: nodes taken up, those of them finished, and nodes waiting. */
  ghost predicate Walking(dag: Dag, base: map<nat, nat>, now: map<nat, nat>, root: nat, taken: set<nat>,
      done: set<nat>, stack: seq<nat>) {
    && base.Keys <= now.Keys && root in now && Distinct(stack) && taken !! Elements(stack) && done <= taken
    && taken + Elements(stack) == Walked(base, now, root)
    && (forall x | x in Walked(base, now, root) :: dag.Has(x))
    && (forall p | p in done :: OperandsIn(dag, p, now.Keys))
    && (forall p | p in Walked(base, now, root) && p != root :: Led(dag, taken, p))
  }

  ghost predicate Sums(dag: Dag, base: map<nat, nat>, now: map<nat, nat>, root: nat, done: set<nat>, part: seq<nat>) {
    forall n :: Get(now, n)
      == Get(base, n) + (if n == root then 1 else 0) + Slots(dag, done, n, |dag.nodes|) + Count(part, n)
  }

  lemma SnocElements(stack: seq<nat>, x: nat)
    ensures Elements(stack + [x]) == Elements(stack) + {x}
    ensures Distinct(stack) && x !in Elements(stack) ==> Distinct(stack + [x])
    ensures Distinct(stack + [x]) ==> Distinct(stack) && x !in Elements(stack)
  {
    var s := stack + [x];
    assert s[|stack|] == x && forall i | 0 <= i < |stack| :: s[i] == stack[i];
  }

  lemma WalkStarts(dag: Dag, base: map<nat, nat>, root: nat)
    requires dag.Has(root)
    ensures var now := base[root := Get(base, root) + 1];
            Walking(dag, base, now, root, {}, {}, [root]) && Sums(dag, base, now, root, {}, [])
  {
    forall n ensures Slots(dag, {}, n, |dag.nodes|) == 0 { SlotsNone(dag, n, |dag.nodes|); }
  }

  lemma WalkTakes(dag: Dag, base: map<nat, nat>, now: map<nat, nat>, root: nat, done: set<nat>, stack: seq<nat>)
    requires stack != [] && Walking(dag, base, now, root, done, done, stack)
    ensures var at := stack[|stack| - 1];
            at !in done && dag.Has(at) && Walking(dag, base, now, root, done + {at}, done, stack[..|stack| - 1])
  {
    var rest, at := stack[..|stack| - 1], stack[|stack| - 1];
    assert stack == rest + [at];
    SnocElements(rest, at);
    forall p | p in Walked(base, now, root) && p != root ensures Led(dag, done + {at}, p) {
      var q :| q in done && dag.Has(q) && p in dag.nodes[q].operands;
    }
  }

  /** One operand slot: its node is counted, and waits if it had not been reached. */
  lemma WalkVisits(dag: Dag, base: map<nat, nat>, was: map<nat, nat>, root: nat, taken: set<nat>, done: set<nat>,
      stack: seq<nat>, child: nat)
    requires Walking(dag, base, was, root, taken, done, stack) && dag.Has(child) && Led(dag, taken, child)
    ensures var now := was[child := Get(was, child) + 1];
            Walking(dag, base, now, root, taken, done, if child in was then stack else stack + [child])
  {
    hide Distinct, Elements, Led, OperandsIn;
    var now := was[child := Get(was, child) + 1];
    SnocElements(stack, child);
    if child in was {
      assert Walked(base, now, root) == Walked(base, was, root);
    } else {
      assert child !in Walked(base, was, root);
      assert Walked(base, now, root) == Walked(base, was, root) + {child};
    }
    forall p | p in done ensures OperandsIn(dag, p, now.Keys) {
      OperandsMore(dag, p, was.Keys, now.Keys);
    }
  }

  lemma OperandsMore(dag: Dag, p: nat, keys: set<nat>, more: set<nat>)
    requires OperandsIn(dag, p, keys) && keys <= more
    ensures OperandsIn(dag, p, more)
  {}

  lemma SumsVisit(dag: Dag, base: map<nat, nat>, was: map<nat, nat>, root: nat, done: set<nat>, s: seq<nat>, i: nat)
    requires i < |s| && Sums(dag, base, was, root, done, s[..i])
    ensures Sums(dag, base, was[s[i] := Get(was, s[i]) + 1], root, done, s[..i + 1])
  {
    hide Slots, Count;
    forall n ensures Count(s[..i + 1], n) == Count(s[..i], n) + if s[i] == n then 1 else 0 {
      CountNext(s, i, n);
    }
  }

  lemma SumsFinish(dag: Dag, base: map<nat, nat>, now: map<nat, nat>, root: nat, done: set<nat>, at: nat)
    requires dag.Has(at) && at !in done && Sums(dag, base, now, root, done, dag.nodes[at].operands)
    ensures Sums(dag, base, now, root, done + {at}, [])
  {
    forall n ensures Slots(dag, done + {at}, n, |dag.nodes|)
                     == Slots(dag, done, n, |dag.nodes|) + Count(dag.nodes[at].operands, n) {
      SlotsAdd(dag, done, at, n, |dag.nodes|);
    }
  }

  /** Counts every operand slot of a node just taken up, and queues the operands first reached. */
  method VisitOperands(dag: Dag, ghost base: map<nat, nat>, was: map<nat, nat>, ghost root: nat, ghost done: set<nat>,
      at: nat, waiting: seq<nat>)
    returns (counts: map<nat, nat>, stack: seq<nat>)
    requires dag.Valid() && dag.Has(at)
    requires Walking(dag, base, was, root, done + {at}, done, waiting) && Sums(dag, base, was, root, done, [])
    ensures Walking(dag, base, counts, root, done + {at}, done, stack)
    ensures Sums(dag, base, counts, root, done, dag.nodes[at].operands) && OperandsIn(dag, at, counts.Keys)
  {
    hide Walking, Sums, Dag.Valid;
    counts, stack := was, waiting;
    var s := dag.nodes[at].operands;
    OperandsBelow(dag, at);
    assert s[..0] == [];
    for i := 0 to |s|
      invariant Walking(dag, base, counts, root, done + {at}, done, stack)
                && Sums(dag, base, counts, root, done, s[..i])
      invariant forall k | 0 <= k < i :: s[k] in counts
    {
      assert Led(dag, done + {at}, s[i]);
      WalkVisits(dag, base, counts, root, done + {at}, done, stack, s[i]);
      SumsVisit(dag, base, counts, root, done, s, i);
      if s[i] !in counts { stack := stack + [s[i]]; }
      counts := counts[s[i] := Get(counts, s[i]) + 1];
    }
    assert s[..|s|] == s;
  }

  lemma OperandsBelow(dag: Dag, id: nat)
    requires dag.Valid() && dag.Has(id)
    ensures forall i | 0 <= i < |dag.nodes[id].operands| :: dag.nodes[id].operands[i] < id
  {
    assert dag.NodeValid(id);
  }

  /** The walk that counts references: each node once, however many parents share it. */
  method CountReferences(dag: Dag, base: map<nat, nat>, root: nat) returns (counts: map<nat, nat>)
    requires dag.Valid() && dag.Has(root)
    ensures Counted(dag, base, counts, root)
  {
    hide Walking, Sums, Counted, OperandsIn, Dag.Valid;
    counts := base[root := Get(base, root) + 1];
    var stack := [root];
    ghost var done: set<nat> := {};
    WalkStarts(dag, base, root);
    while stack != []
      invariant Walking(dag, base, counts, root, done, done, stack) && Sums(dag, base, counts, root, done, [])
      invariant forall x | x in done :: x < |dag.nodes|
      decreases |dag.nodes| - |done|
    {
      var at := stack[|stack| - 1];
      WalkTakes(dag, base, counts, root, done, stack);
      counts, stack := VisitOperands(dag, base, counts, root, done, at, stack[..|stack| - 1]);
      SumsFinish(dag, base, counts, root, done, at);
      WalkFinishes(dag, base, counts, root, done, at, stack);
      Fewer(done, at, |dag.nodes|);
      done := done + {at};
    }
    WalkEnds(dag, base, counts, root, done);
  }

  lemma WalkFinishes(dag: Dag, base: map<nat, nat>, now: map<nat, nat>, root: nat, done: set<nat>, at: nat,
      stack: seq<nat>)
    requires Walking(dag, base, now, root, done + {at}, done, stack) && OperandsIn(dag, at, now.Keys)
    ensures Walking(dag, base, now, root, done + {at}, done + {at}, stack)
  {}

  lemma WalkEnds(dag: Dag, base: map<nat, nat>, now: map<nat, nat>, root: nat, done: set<nat>)
    requires Walking(dag, base, now, root, done, done, []) && Sums(dag, base, now, root, done, [])
    ensures Counted(dag, base, now, root)
  {
    hide Slots;
    assert done == Walked(base, now, root);
  }

  lemma {:induction false} Below(s: set<nat>, n: nat)
    requires forall x | x in s :: x < n
    ensures |s| <= n
    decreases n
  {
    if n == 0 {
      assert s == {};
    } else {
      Below(s - {n - 1}, n - 1);
    }
  }

  lemma Fewer(s: set<nat>, x: nat, n: nat)
    requires x !in s && x < n && forall y | y in s :: y < n
    ensures |s + {x}| == |s| + 1 <= n
  {
    Below(s + {x}, n);
  }

  /** The counts are what a reader would expect of them: one for each time a root is listed, and one
      for each operand slot of a counted node. */
  ghost predicate Exact(dag: Dag, counts: map<nat, nat>, roots: seq<nat>) {
    && (forall p | p in counts :: OperandsIn(dag, p, counts.Keys))
    && forall n :: Get(counts, n) == Count(roots, n) + Slots(dag, counts.Keys, n, |dag.nodes|)
  }

  lemma {:induction false} SlotsUnion(dag: Dag, a: set<nat>, b: set<nat>, n: nat, k: nat)
    requires k <= |dag.nodes| && a !! b
    ensures Slots(dag, a + b, n, k) == Slots(dag, a, n, k) + Slots(dag, b, n, k)
  {
    if k > 0 { SlotsUnion(dag, a, b, n, k - 1); }
  }

  /** A count walks nothing above its root. */
  lemma {:induction false} WalkedBelow(dag: Dag, base: map<nat, nat>, now: map<nat, nat>, root: nat, p: nat)
    requires dag.Valid() && Counted(dag, base, now, root) && p in Walked(base, now, root) && dag.Has(p)
    ensures p <= root
    decreases |dag.nodes| - p
  {
    hide Slots;
    if p != root {
      var q :| q in Walked(base, now, root) && dag.Has(q) && p in dag.nodes[q].operands;
      OperandsBelow(dag, q);
      if q > p { WalkedBelow(dag, base, now, root, q); }
    }
  }

  lemma {:induction false} SlotsZero(dag: Dag, s: set<nat>, n: nat, k: nat)
    requires k <= |dag.nodes| && forall p | p in s && dag.Has(p) :: n !in dag.nodes[p].operands
    ensures Slots(dag, s, n, k) == 0
  {
    if k > 0 {
      SlotsZero(dag, s, n, k - 1);
      if k - 1 in s { NotCounted(dag.nodes[k - 1].operands, n); }
    }
  }

  lemma {:induction false} NotCounted(s: seq<nat>, n: nat)
    requires n !in s
    ensures Count(s, n) == 0
  {
    if s != [] { NotCounted(s[..|s| - 1], n); }
  }

  /** A root met for the first time has been met once; no count goes down. */
  lemma FirstCountIsOne(dag: Dag, base: map<nat, nat>, now: map<nat, nat>, root: nat)
    requires dag.Valid() && Counted(dag, base, now, root)
    ensures root !in base ==> Get(now, root) == 1
    ensures forall n :: Get(base, n) <= Get(now, n)
    ensures base.Keys <= now.Keys
  {
    hide Slots;
    if root !in base {
      forall p | p in Walked(base, now, root) && dag.Has(p) ensures root !in dag.nodes[p].operands {
        WalkedBelow(dag, base, now, root, p);
        OperandsBelow(dag, p);
      }
      SlotsZero(dag, Walked(base, now, root), root, |dag.nodes|);
    }
  }

  /** A root not reached before leaves the counts exact. */
  lemma FreshRootStaysExact(dag: Dag, base: map<nat, nat>, now: map<nat, nat>, roots: seq<nat>, root: nat)
    requires Exact(dag, base, roots) && Counted(dag, base, now, root) && root !in base
    ensures Exact(dag, now, roots + [root])
  {
    hide Led, OperandsIn;
    var added := Walked(base, now, root);
    assert now.Keys == base.Keys + added && base.Keys !! added;
    forall n ensures Get(now, n) == Count(roots + [root], n) + Slots(dag, now.Keys, n, |dag.nodes|) {
      SlotsUnion(dag, base.Keys, added, n, |dag.nodes|);
      CountNext(roots + [root], |roots|, n);
      assert (roots + [root])[..|roots|] == roots && (roots + [root])[..|roots| + 1] == roots + [root];
    }
    forall p | p in now ensures OperandsIn(dag, p, now.Keys) {
      if p in base { OperandsMore(dag, p, base.Keys, now.Keys); }
    }
  }

  lemma {:induction false} NothingFresh(dag: Dag, base: map<nat, nat>, now: map<nat, nat>, root: nat, p: nat)
    requires dag.Valid() && Counted(dag, base, now, root) && root in base && p in now && p !in base && dag.Has(p)
    requires forall q | q in base :: OperandsIn(dag, q, base.Keys)
    ensures false
    decreases |dag.nodes| - p
  {
    hide Slots;
    assert Led(dag, Walked(base, now, root), p);
    var q :| q in Walked(base, now, root) && dag.Has(q) && p in dag.nodes[q].operands;
    OperandsBelow(dag, q);
    if q !in base {
      NothingFresh(dag, base, now, root, q);
    }
  }

  /** A root reached before is walked again: its operands are counted once more than they occur, and
      nothing else changes. */
  lemma KnownRootOvercounts(dag: Dag, base: map<nat, nat>, now: map<nat, nat>, roots: seq<nat>, root: nat)
    requires dag.Valid() && Exact(dag, base, roots) && Counted(dag, base, now, root) && root in base
    ensures now.Keys == base.Keys
    ensures forall n :: Get(now, n)
              == Count(roots + [root], n) + Slots(dag, now.Keys, n, |dag.nodes|) + Count(dag.nodes[root].operands, n)
    ensures Exact(dag, now, roots + [root]) <==> dag.nodes[root].operands == []
  {
    hide Led;
    forall p | p in now ensures p in base {
      if p !in base {
        assert OperandsIn(dag, p, now.Keys);
        NothingFresh(dag, base, now, root, p);
      }
    }
    assert now.Keys == base.Keys;
    var none: set<nat> := {};
    assert Walked(base, now, root) == none + {root};
    forall n ensures Get(now, n)
              == Count(roots + [root], n) + Slots(dag, now.Keys, n, |dag.nodes|) + Count(dag.nodes[root].operands, n)
    {
      SlotsNone(dag, n, |dag.nodes|);
      SlotsAdd(dag, none, root, n, |dag.nodes|);
      CountNext(roots + [root], |roots|, n);
      assert (roots + [root])[..|roots|] == roots && (roots + [root])[..|roots| + 1] == roots + [root];
    }
    var s := dag.nodes[root].operands;
    if s != [] {
      assert Count(s, s[|s| - 1]) >= 1;
    }
  }

  // ----- the printer

  /** Temporaries are assigned once each, after everything their initializers read. */
  ghost predicate Ordered(decls: seq<Decl>, below: nat) {
    && (forall k | 0 <= k < |decls| :: decls[k].temp < below && TempsOf(decls[k].init) <= Temps(decls[..k]))
    && (forall j, k | 0 <= j < k < |decls| :: decls[j].temp != decls[k].temp)
  }

  ghost function Temps(decls: seq<Decl>): set<nat> {
    set d | d in decls :: d.temp
  }

  lemma {:induction false} ReplayKeys(decls: seq<Decl>, w: World)
    ensures Replay(decls, w).Keys == Temps(decls)
  {
    hide TreeValue;
    if decls != [] {
      var n := |decls| - 1;
      ReplayKeys(decls[..n], w);
      assert decls == decls[..n] + [decls[n]];
      assert Temps(decls) == Temps(decls[..n]) + {decls[n].temp};
    }
  }

  /** What a printed tree must be: it reads only assigned temporaries and has the node's value. */
  ghost predicate Prints(dag: Dag, w: World, decls: seq<Decl>, t: Tree, id: nat)
    requires dag.Valid() && dag.Has(id)
  {
    TempsOf(t) <= Temps(decls) && TreeValue(t, Replay(decls, w), w) == NodeValue(dag, w, id)
  }

  /** One more assignment to a new temporary leaves the others as they were. */
  lemma ReplaySnoc(decls: seq<Decl>, d: Decl, w: World)
    requires d.temp !in Temps(decls)
    ensures Replay(decls + [d], w) == Replay(decls, w)[d.temp := TreeValue(d.init, Replay(decls, w), w)]
    ensures Extends(Replay(decls, w), Replay(decls + [d], w)) && Temps(decls + [d]) == Temps(decls) + {d.temp}
  {
    hide TreeValue;
    ReplayKeys(decls, w);
    assert (decls + [d])[..|decls|] == decls;
  }

  lemma {:induction false} ReplayPrefix(decls: seq<Decl>, k: nat, below: nat, w: World)
    requires k <= |decls| && Ordered(decls, below)
    ensures Extends(Replay(decls[..k], w), Replay(decls, w)) && Temps(decls[..k]) <= Temps(decls)
    decreases |decls|
  {
    hide TreeValue, TempsOf;
    if k == |decls| {
      assert decls[..k] == decls;
    } else {
      var n := |decls| - 1;
      assert decls[..n][..k] == decls[..k];
      OrderedPrefix(decls, n, below);
      ReplayPrefix(decls[..n], k, below, w);
      assert decls[..n] + [decls[n]] == decls;
      NewTemp(decls, below);
      ReplaySnoc(decls[..n], decls[n], w);
    }
  }

  lemma OrderedPrefix(decls: seq<Decl>, n: nat, below: nat)
    requires n <= |decls| && Ordered(decls, below)
    ensures Ordered(decls[..n], below)
  {
    assert forall k | 0 <= k < n :: decls[..n][..k] == decls[..k];
  }

  lemma NewTemp(decls: seq<Decl>, below: nat)
    requires decls != [] && Ordered(decls, below)
    ensures decls[|decls| - 1].temp !in Temps(decls[..|decls| - 1])
  {}

  lemma PrintsStill(dag: Dag, w: World, decls: seq<Decl>, now: seq<Decl>, below: nat, t: Tree, id: nat)
    requires dag.Valid() && dag.Has(id) && Prints(dag, w, decls, t, id) && decls <= now && Ordered(now, below)
    ensures Prints(dag, w, now, t, id)
  {
    hide TreeValue, NodeValue, TempsOf, Dag.Valid, Ordered;
    assert now[..|decls|] == decls;
    ReplayPrefix(now, |decls|, below, w);
    ReplayKeys(decls, w);
    ReplayKeys(now, w);
    ValueExtends(t, Replay(decls, w), Replay(now, w), w);
  }

  /** Every tree in a list prints its node. */
  ghost predicate AllPrint(dag: Dag, w: World, decls: seq<Decl>, ts: seq<Tree>, ids: seq<nat>)
    requires dag.Valid() && |ts| <= |ids|
  {
    forall i | 0 <= i < |ts| :: dag.Has(ids[i]) && Prints(dag, w, decls, ts[i], ids[i])
  }

  /** An operation applied to trees that print its operands prints it. */
  lemma ApplyPrints(dag: Dag, w: World, decls: seq<Decl>, id: nat, args: seq<Tree>)
    requires dag.Valid() && dag.Has(id) && |args| == |dag.nodes[id].operands|
    requires AllPrint(dag, w, decls, args, dag.nodes[id].operands)
    ensures Prints(dag, w, decls, Apply(dag.nodes[id].op, dag.nodes[id].width, args, From(dag, id)), id)
  {
    hide Denote, Dag.Valid, Dag.NodeValid, From;
    var env, n := Replay(decls, w), dag.nodes[id];
    var values := seq(|args|, i requires 0 <= i < |args| => TreeValue(args[i], env, w));
    forall i | 0 <= i < |args| ensures values[i] == ArgsOf(dag, w, id)[i] {
      assert Prints(dag, w, decls, args[i], n.operands[i]);
    }
    assert values == ArgsOf(dag, w, id);
    forall a, x | a in args && x in TempsOf(a) ensures x in Temps(decls) {
      var i :| 0 <= i < |args| && args[i] == a;
      assert Prints(dag, w, decls, args[i], n.operands[i]);
    }
  }

  /** A comparison in C's terms: its operator and whether the sides are read as signed. */
  function InC(c: E.CmpOp): (CompareOp, bool) {
    match c
    case Eq => (EqC, false)
    case Ne => (NeC, false)
    case LtU => (LtC, false)
    case LeU => (LeC, false)
    case LtS => (LtC, true)
    case LeS => (LeC, true)
  }

  /** The operator that holds exactly when the comparison does not. */
  function Inverted(c: E.CmpOp): (CompareOp, bool) {
    match c
    case Eq => (NeC, false)
    case Ne => (EqC, false)
    case LtU => (GeC, false)
    case LeU => (GtC, false)
    case LtS => (GeC, true)
    case LeS => (GtC, true)
  }

  /** The C comparison of two trees: 1 or 0 for the operator on their nodes' values. */
  lemma ComparePrints(dag: Dag, w: World, decls: seq<Decl>, id: nat, invert: bool, l: Tree, r: Tree)
    requires dag.Valid() && dag.Has(id) && dag.nodes[id].op.Cmp? && |dag.nodes[id].operands| == 2
    requires dag.nodes[id].operands[0] < id && dag.nodes[id].operands[1] < id
    requires Prints(dag, w, decls, l, dag.nodes[id].operands[0]) && Prints(dag, w, decls, r, dag.nodes[id].operands[1])
    ensures var (op, signed) := if invert then Inverted(dag.nodes[id].op.cmp) else InC(dag.nodes[id].op.cmp);
            var t := Compare(op, signed, From(dag, id), l, r);
            && TempsOf(t) <= Temps(decls)
            && TreeValue(t, Replay(decls, w), w) == if invert then 1 - NodeValue(dag, w, id) else NodeValue(dag, w, id)
  {
    hide E.ToSigned, E.Compare, CompareC, Pow2, InC, Inverted, Dag.Valid, Replay, TempsOf, Temps;
    var n := dag.nodes[id];
    WidthPositive(dag, id);
    var args := ArgsOf(dag, w, id);
    assert args[0] == TreeValue(l, Replay(decls, w), w) && args[1] == TreeValue(r, Replay(decls, w), w);
    CompareMeans(n.op.cmp, args[0], args[1], From(dag, id), invert);
    ReadsBoth(if invert then Inverted(n.op.cmp) else InC(n.op.cmp), From(dag, id), l, r);
  }

  lemma ReadsBoth(op: (CompareOp, bool), width: nat, l: Tree, r: Tree)
    ensures TempsOf(Compare(op.0, op.1, width, l, r)) == TempsOf(l) + TempsOf(r)
  {}

  lemma WidthPositive(dag: Dag, id: nat)
    requires dag.Valid() && dag.Has(id) && |dag.nodes[id].operands| == 2 && dag.nodes[id].operands[0] < id
    ensures From(dag, id) > 0
  {
    assert dag.NodeValid(dag.nodes[id].operands[0]);
  }

  /** C's operators say what the comparison says, or the opposite. */
  lemma CompareMeans(c: E.CmpOp, x: nat, y: nat, width: nat, invert: bool)
    requires width > 0
    ensures var (op, signed) := if invert then Inverted(c) else InC(c);
            (if signed then CompareC(op, E.ToSigned(x, width), E.ToSigned(y, width)) else CompareC(op, x, y))
            == (E.Compare(c, x, y, width) != invert)
  {
    hide E.ToSigned, Pow2;
  }

  /** A widening, or a cast to the width there already is, prints as its operand. */
  lemma OperandPrints(dag: Dag, w: World, decls: seq<Decl>, id: nat, t: Tree)
    requires dag.Valid() && dag.Has(id) && |dag.nodes[id].operands| == 1 && dag.nodes[id].operands[0] < id
    requires dag.nodes[id].op.ZExt?
             || (dag.nodes[id].op.Trunc? && dag.nodes[dag.nodes[id].operands[0]].width == dag.nodes[id].width)
    requires Prints(dag, w, decls, t, dag.nodes[id].operands[0])
    ensures Prints(dag, w, decls, t, id)
  {
    var x := dag.nodes[id].operands[0];
    NodeValueWithin(dag, w, x);
    SmallMod(NodeValue(dag, w, x), Pow2(dag.nodes[x].width));
  }

  lemma LeafPrints(dag: Dag, w: World, decls: seq<Decl>, id: nat)
    requires dag.Valid() && dag.Has(id) && dag.nodes[id].operands == []
    ensures Prints(dag, w, decls, Leaf(dag.nodes[id].op, dag.nodes[id].width), id)
  {
    assert ArgsOf(dag, w, id) == [];
  }

  /** Shared and worth a name: reached twice, and not a leaf. */
  predicate IsShared(dag: Dag, counts: map<nat, nat>, id: nat)
    requires dag.Has(id)
  {
    dag.nodes[id].operands != [] && Get(counts, id) >= 2
  }

  lemma OrderedMore(decls: seq<Decl>, below: nat, more: nat)
    requires Ordered(decls, below) && below <= more
    ensures Ordered(decls, more)
  {}

  lemma OrderedSnoc(decls: seq<Decl>, d: Decl, below: nat, dag: Dag, w: World, id: nat)
    requires Ordered(decls, below) && d.temp < below && d.temp !in Temps(decls)
    requires dag.Valid() && dag.Has(id) && Prints(dag, w, decls, d.init, id)
    ensures Ordered(decls + [d], below)
  {
    hide TreeValue, NodeValue, Dag.Valid, Replay;
    var now := decls + [d];
    forall k | 0 <= k < |now| ensures now[k].temp < below && TempsOf(now[k].init) <= Temps(now[..k]) {
      assert now[..k] == decls[..k];
      assert decls[..|decls|] == decls;
    }
    assert forall k | 0 <= k < |decls| :: decls[k] in decls;
  }

  /** A temporary just assigned a tree that prints the node prints it. */
  lemma TempPrints(dag: Dag, w: World, decls: seq<Decl>, d: Decl, id: nat)
    requires d.temp !in Temps(decls) && dag.Valid() && dag.Has(id) && Prints(dag, w, decls, d.init, id)
    ensures Prints(dag, w, decls + [d], Temp(d.temp), id)
  {
    hide NodeValue, Dag.Valid, Replay, Temps;
    ReplaySnoc(decls, d, w);
  }

  lemma AllPrintStill(dag: Dag, w: World, decls: seq<Decl>, now: seq<Decl>, below: nat, ts: seq<Tree>, ids: seq<nat>)
    requires dag.Valid() && |ts| <= |ids| && AllPrint(dag, w, decls, ts, ids) && decls <= now && Ordered(now, below)
    ensures AllPrint(dag, w, now, ts, ids)
  {
    hide Prints, Ordered, Dag.Valid;
    forall i | 0 <= i < |ts| ensures dag.Has(ids[i]) && Prints(dag, w, now, ts[i], ids[i]) {
      PrintsStill(dag, w, decls, now, below, ts[i], ids[i]);
    }
  }

  /** A name taken before is still unassigned after steps that only use later ones. */
  lemma StillNew(before: seq<Decl>, now: seq<Decl>, name: nat)
    requires before <= now && Ordered(before, name)
    requires forall k | |before| <= k < |now| :: now[k].temp > name
    ensures name !in Temps(now)
  {
    forall d | d in now ensures d.temp != name {
      var k :| 0 <= k < |now| && now[k] == d;
      if k < |before| { assert before[k] == now[k]; }
    }
  }

  lemma IsPrinted(dag: Dag, w: World, decls: seq<Decl>, t: Tree, id: nat)
    requires dag.Valid() && dag.Has(id)
    requires TempsOf(t) <= Temps(decls) && TreeValue(t, Replay(decls, w), w) == NodeValue(dag, w, id)
    ensures Prints(dag, w, decls, t, id)
  {}

  /** One count after another, root by root. */
  ghost predicate CountedAll(dag: Dag, base: map<nat, nat>, now: map<nat, nat>, roots: seq<nat>)
    decreases |roots|, 1
  {
    if roots == [] then now == base else exists mid :: Through(dag, base, mid, now, roots)
  }

  ghost predicate Through(dag: Dag, base: map<nat, nat>, mid: map<nat, nat>, now: map<nat, nat>, roots: seq<nat>)
    decreases |roots|, 0
  {
    roots != [] && CountedAll(dag, base, mid, roots[..|roots| - 1]) && Counted(dag, mid, now, roots[|roots| - 1])
  }

  lemma NoRootsCounted(dag: Dag, base: map<nat, nat>, now: map<nat, nat>)
    requires CountedAll(dag, base, now, [])
    ensures now == base
  {}

  /** A scope of one root has exact counts. */
  lemma OneRootExact(dag: Dag, counts: map<nat, nat>, roots: seq<nat>)
    requires |roots| == 1 && CountedAll(dag, map[], counts, roots)
    ensures Exact(dag, counts, roots)
  {
    hide Counted;
    var mid :| Through(dag, map[], mid, counts, roots);
    assert roots[..|roots| - 1] == [];
    NoRootsCounted(dag, map[], mid);
    forall n ensures Slots(dag, {}, n, |dag.nodes|) == 0 { SlotsNone(dag, n, |dag.nodes|); }
    assert mid.Keys == {};
    FreshRootStaysExact(dag, mid, counts, [], roots[0]);
    assert [] + [roots[0]] == roots;
  }

  /** Assignments are only added, to new temporaries, and queued in the order they are made. */
  ghost predicate Later(issued: seq<Decl>, pending: seq<Decl>, counter: nat, issued': seq<Decl>, pending': seq<Decl>,
      counter': nat) {
    && issued <= issued' && counter <= counter'
    && pending' == pending + issued'[|issued|..]
    && (forall k | |issued| <= k < |issued'| :: issued'[k].temp >= counter)
  }

  lemma LaterSelf(issued: seq<Decl>, pending: seq<Decl>, counter: nat)
    ensures Later(issued, pending, counter, issued, pending, counter)
  {}

  lemma LaterOn(i0: seq<Decl>, p0: seq<Decl>, c0: nat, i1: seq<Decl>, p1: seq<Decl>, c1: nat,
      i2: seq<Decl>, p2: seq<Decl>, c2: nat)
    requires Later(i0, p0, c0, i1, p1, c1) && Later(i1, p1, c1, i2, p2, c2)
    ensures Later(i0, p0, c0, i2, p2, c2) && i1 <= i2
  {
    assert i2[|i0|..] == i1[|i0|..] + i2[|i1|..];
  }

  /** Taking a name, printing, and then assigning the name is one step forward. */
  lemma LaterAssigns(issued: seq<Decl>, pending: seq<Decl>, counter: nat, issued': seq<Decl>, pending': seq<Decl>,
      counter': nat, d: Decl)
    requires Later(issued, pending, counter + 1, issued', pending', counter') && d.temp == counter
    ensures Later(issued, pending, counter, issued' + [d], pending' + [d], counter')
  {
    assert (issued' + [d])[|issued|..] == issued'[|issued|..] + [d];
  }

  /** No name is given to two nodes. */
  ghost predicate OneNodeEach(names: map<nat, nat>) {
    forall x, y | x in names && y in names && names[x] == names[y] :: x == y
  }

  lemma OneNodeMore(names: map<nat, nat>, id: nat, name: nat)
    requires OneNodeEach(names) && forall x | x in names :: names[x] != name
    ensures OneNodeEach(names[id := name])
  {}

  /** No count goes down, names once given stay, and new ones go to operations before `bound` that have been
      met at least twice. */
  ghost predicate Gained(dag: Dag, names: map<nat, nat>, counts: map<nat, nat>, names': map<nat, nat>,
      counts': map<nat, nat>, bound: nat) {
    && (forall x :: Get(counts, x) <= Get(counts', x))
    && (forall x | x in names :: x in names' && names'[x] == names[x])
    && (forall x | x in names' && x !in names ::
          x < bound && dag.Has(x) && dag.nodes[x].operands != [] && Get(counts', x) >= 2)
  }

  lemma GainedOn(dag: Dag, n0: map<nat, nat>, c0: map<nat, nat>, n1: map<nat, nat>, c1: map<nat, nat>, b1: nat,
      n2: map<nat, nat>, c2: map<nat, nat>, b2: nat)
    requires Gained(dag, n0, c0, n1, c1, b1) && Gained(dag, n1, c1, n2, c2, b2)
    ensures forall bound: nat | b1 <= bound && b2 <= bound :: Gained(dag, n0, c0, n2, c2, bound)
  {
    hide Get;
  }

  lemma GainedNothing(dag: Dag, names: map<nat, nat>, counts: map<nat, nat>, bound: nat)
    ensures Gained(dag, names, counts, names, counts, bound)
  {}

  /** Naming a node that has been met twice, after what was before it. */
  lemma GainedName(dag: Dag, n0: map<nat, nat>, c0: map<nat, nat>, n1: map<nat, nat>, c1: map<nat, nat>, id: nat,
      name: nat)
    requires Gained(dag, n0, c0, n1, c1, id) && dag.Has(id) && dag.nodes[id].operands != [] && Get(c0, id) >= 2
    requires id !in n0
    ensures id !in n1 && Gained(dag, n0, c0, n1[id := name], c1, id + 1)
  {}

  class ExprPrinter {
    const dag: Dag
    ghost const world: World
    var counts: map<nat, nat>
    var materialized: map<nat, nat>
    var pending: seq<Decl>
    var cseCounter: nat
    /** Every assignment queued since the scope began, taken or not. */
    ghost var issued: seq<Decl>

    ghost predicate Valid()
      reads `issued, `pending, `materialized, `cseCounter
    {
      && dag.Valid() && Ordered(issued, cseCounter)
      && |pending| <= |issued| && issued[|issued| - |pending|..] == pending
      && |materialized| == |issued| && OneNodeEach(materialized)
      && forall id | id in materialized :: dag.Has(id) && Prints(dag, world, issued, Temp(materialized[id]), id)
    }

    /** What every printing step does to the state. */
    twostate predicate Advances()
      reads this
    {
      Later(old(issued), old(pending), old(cseCounter), issued, pending, cseCounter)
    }

    /** Names once given stay, and new ones go to operations before `bound` that are met at least twice. */
    twostate predicate Names(bound: nat)
      reads this
    {
      Gained(dag, old(materialized), old(counts), materialized, counts, bound)
    }

    /** An operation that has been counted at least twice. */
    ghost predicate MetTwice(id: nat)
      reads `counts
    {
      dag.Has(id) && dag.nodes[id].operands != [] && Get(counts, id) >= 2
    }

    /** `t` is the temporary of `id`, which the last assignment queued is to. */
    ghost predicate JustNamed(t: Tree, id: nat)
      reads `materialized, `issued, `pending
    {
      && id in materialized && t == Temp(materialized[id])
      && issued != [] && issued[|issued| - 1].temp == materialized[id]
      && pending != [] && pending[|pending| - 1] == issued[|issued| - 1]
    }

    /** An operation printed in full is of the node's width. */
    ghost predicate OfWidth(t: Tree, id: nat)
      requires dag.Has(id)
    {
      t.Apply? ==> t.width == dag.nodes[id].width
    }

    /** A temporary for a widening is assigned what is widened, and for any other node the node. */
    ghost predicate Initializes(t: Tree, id: nat)
      requires dag.Has(id)
    {
      var n := dag.nodes[id];
      if n.op.ZExt? then |n.operands| == 1 && dag.Has(n.operands[0]) && OfWidth(t, n.operands[0]) else OfWidth(t, id)
    }

    /** The node is counted, and with it what it reaches. */
    ghost predicate NowCounted(base: map<nat, nat>, id: nat)
      reads `counts
    {
      exists now :: Counted(dag, base, now, id) && forall x :: Get(now, x) <= Get(counts, x)
    }

    /** Which nodes are named: one that has its name keeps it; an operation met at least twice gets one, whose
        assignment is queued; and neither one met less often nor a leaf does. */
    twostate predicate NamedIfShared(t: Tree, id: nat)
      reads this
    {
      if id in old(materialized) then t == Temp(old(materialized)[id]) && issued == old(issued)
      else if old(MetTwice(id)) then JustNamed(t, id)
      else id !in materialized
    }

    /** The same of a node wherever it is an operand; a value or an entry register is its own name. */
    twostate predicate PrintedAs(t: Tree, id: nat)
      requires dag.Has(id)
      reads this
    {
      if dag.nodes[id].op.Value? || dag.nodes[id].op.EntryReg? then t == Leaf(dag.nodes[id].op, dag.nodes[id].width)
      else NamedIfShared(t, id)
    }

    /** A cast that keeps the width. */
    ghost predicate NoOpCast(id: nat)
      requires dag.Has(id)
    {
      var n := dag.nodes[id];
      (n.op.ZExt? || n.op.Trunc?) && |n.operands| == 1 && dag.Has(n.operands[0])
      && dag.nodes[n.operands[0]].width == n.width
    }

    constructor (dag: Dag, ghost world: World)
      requires dag.Valid()
      ensures Valid() && this.dag == dag && this.world == world && issued == [] && pending == []
    {
      this.dag, this.world := dag, world;
      counts, materialized, pending, cseCounter, issued := map[], map[], [], 0, [];
    }

    /** Opens a scope: earlier names are forgotten, and never reused. */
    method BeginScope(roots: seq<nat>)
      requires Valid() && forall r | r in roots :: dag.Has(r)
      modifies this
      ensures Valid() && issued == [] && pending == [] && cseCounter == old(cseCounter)
      ensures CountedAll(dag, map[], counts, roots)
      ensures |roots| == 1 ==> Exact(dag, counts, roots)
    {
      hide Counted, CountedAll, Exact, Prints, Dag.Valid;
      materialized, pending, issued, counts := map[], [], [], map[];
      ExtendScope(roots);
      if |roots| == 1 { OneRootExact(dag, counts, roots); }
    }

    method ExtendScope(roots: seq<nat>)
      requires Valid() && forall r | r in roots :: dag.Has(r)
      modifies `counts
      ensures Valid() && CountedAll(dag, old(counts), counts, roots)
    {
      hide Counted, Ordered, Prints, Dag.Valid;
      for i := 0 to |roots|
        invariant Valid() && CountedAll(dag, old(counts), counts, roots[..i])
      {
        ghost var was := counts;
        assert roots[i] in roots;
        counts := CountReferences(dag, counts, roots[i]);
        assert roots[..i + 1][..i] == roots[..i];
        assert Through(dag, old(counts), was, counts, roots[..i + 1]);
      }
      assert roots[..|roots|] == roots;
    }

    method TakePendingDecls() returns (decls: seq<Decl>)
      requires Valid()
      modifies `pending
      ensures Valid() && decls == old(pending) && pending == []
    {
      decls := pending;
      pending := [];
    }

    /** `t` prints the node. */
    ghost predicate Good(t: Tree, id: nat)
      requires dag.Valid() && dag.Has(id)
      reads `issued
    {
      Prints(dag, world, issued, t, id)
    }

    method Value(id: nat) returns (t: Tree)
      requires Valid() && dag.Has(id)
      modifies this
      ensures Valid() && Advances() && Names(id + 1) && Good(t, id)
      ensures PrintedAs(t, id) && OfWidth(t, id)
      decreases id, 5
    {
      hide Prints, Ordered, Dag.Valid, OneNodeEach;
      if dag.nodes[id].op.Value? || dag.nodes[id].op.EntryReg? {
        LeafIsLeaf(id);
        LeafPrints(dag, world, issued, id);
        t := Leaf(dag.nodes[id].op, dag.nodes[id].width);
      } else {
        t := Materialize(id);
      }
    }

    lemma LeafIsLeaf(id: nat)
      requires dag.Valid() && dag.Has(id)
               && (dag.nodes[id].op.Value? || dag.nodes[id].op.EntryReg? || dag.nodes[id].op.Const?)
      ensures dag.nodes[id].operands == []
    {
      assert dag.NodeValid(id);
    }

    /** The cached name, the tree itself, or a new name whose assignment is queued. */
    method Materialize(id: nat) returns (t: Tree)
      requires Valid() && dag.Has(id)
      modifies this
      ensures Valid() && Advances() && Names(id + 1) && Good(t, id)
      ensures OneNodeEach(materialized) && |materialized| == |issued|
      ensures NamedIfShared(t, id) && OfWidth(t, id)
      ensures id !in old(materialized) && old(MetTwice(id)) ==> Initializes(issued[|issued| - 1].init, id)
      ensures id !in old(materialized) && dag.nodes[id].operands != [] && id !in old(counts) ==>
                NowCounted(old(counts), id)
      decreases id, 4
    {
      hide Prints, Ordered, Dag.Valid, OneNodeEach;
      if id in materialized { return Temp(materialized[id]); }
      if dag.nodes[id].operands != [] && id !in counts {
        ghost var base := counts;
        counts := CountReferences(dag, counts, id);
        FirstCountIsOne(dag, base, counts, id);
      }
      if !IsShared(dag, counts, id) {
        t := Inner(id);
        return;
      }
      t := Promote(id);
    }

    /** A shared node met for the first time gets a name. */
    method Promote(id: nat) returns (t: Tree)
      requires Valid() && dag.Has(id) && id !in materialized && MetTwice(id)
      modifies this
      ensures Valid() && Advances() && Names(id + 1) && Good(t, id)
      ensures JustNamed(t, id) && Initializes(issued[|issued| - 1].init, id)
      decreases id, 3
    {
      hide Valid, Prints, Ordered, Dag.Valid, Temps, Later, OneNodeEach, Gained;
      InOrder();
      ghost var before, queued := issued, pending;
      var name := TakeName();
      var init := Initializer(id);
      GainedName(dag, old(materialized), old(counts), materialized, counts, id, name);
      NewSince(before, queued, name + 1);
      StillNew(before, issued, name);
      LaterAssigns(before, queued, name, issued, pending, cseCounter, Decl(name, init));
      Assign(id, name, init);
      t := Temp(name);
    }

    lemma InOrder()
      requires Valid()
      ensures dag.Valid() && Ordered(issued, cseCounter)
    {}

    lemma NewSince(before: seq<Decl>, queued: seq<Decl>, counter: nat)
      requires Later(before, queued, counter, issued, pending, cseCounter)
      ensures before <= issued && counter <= cseCounter && forall k | |before| <= k < |issued| ::
              issued[k].temp >= counter
    {}

    method TakeName() returns (name: nat)
      requires Valid()
      modifies `cseCounter
      ensures Valid() && name == old(cseCounter) && cseCounter == name + 1 && Ordered(issued, name)
    {
      hide Prints, Ordered, Dag.Valid, Temps, OneNodeEach;
      name := cseCounter;
      OrderedMore(issued, cseCounter, cseCounter + 1);
      cseCounter := cseCounter + 1;
    }

    /** Queues one assignment to a new temporary. */
    method Assign(id: nat, name: nat, init: Tree)
      requires Valid() && dag.Has(id) && name < cseCounter && name !in Temps(issued) && id !in materialized
               && Good(init, id)
      modifies `issued, `pending, `materialized
      ensures Valid() && Good(Temp(name), id)
      ensures issued == old(issued) + [Decl(name, init)] && pending == old(pending) + [Decl(name, init)]
      ensures materialized == old(materialized)[id := name]
    {
      hide Prints, Ordered, Dag.Valid, Temps, OneNodeEach;
      ghost var was := issued;
      NewName(name);
      OneNodeMore(materialized, id, name);
      OrderedSnoc(issued, Decl(name, init), cseCounter, dag, world, id);
      issued, pending := issued + [Decl(name, init)], pending + [Decl(name, init)];
      TempPrints(dag, world, was, Decl(name, init), id);
      forall x | x in materialized ensures dag.Has(x) && Prints(dag, world, issued, Temp(materialized[x]), x) {
        PrintsStill(dag, world, was, issued, cseCounter, Temp(materialized[x]), x);
      }
      materialized := materialized[id := name];
    }

    lemma NewName(name: nat)
      requires Valid() && name !in Temps(issued)
      ensures forall x | x in materialized :: materialized[x] != name
    {
      hide Ordered, Dag.Valid, Temps, OneNodeEach;
    }

    /** The right-hand side of a temporary's assignment, which widens by itself. */
    method Initializer(id: nat) returns (t: Tree)
      requires Valid() && dag.Has(id)
      modifies this
      ensures Valid() && Advances() && Names(id) && Good(t, id)
      ensures Initializes(t, id)
      decreases id, 2
    {
      hide Prints, Ordered, Dag.Valid, OneNodeEach;
      if dag.nodes[id].op.ZExt? {
        CastFacts(id);
        t := Value(dag.nodes[id].operands[0]);
        OperandPrints(dag, world, issued, id, t);
      } else {
        t := Inner(id);
      }
    }

    lemma CastFacts(id: nat)
      requires dag.Valid() && dag.Has(id)
               && (dag.nodes[id].op.ZExt? || dag.nodes[id].op.Trunc? || dag.nodes[id].op.Not?)
      ensures |dag.nodes[id].operands| == 1 && dag.nodes[id].operands[0] < id
    {
      assert dag.NodeValid(id);
    }

    method Inner(id: nat) returns (t: Tree)
      requires Valid() && dag.Has(id)
      modifies this
      ensures Valid() && Advances() && Names(id) && Good(t, id)
      ensures dag.nodes[id].operands != [] ==>
                if NoOpCast(id) then PrintedAs(t, dag.nodes[id].operands[0])
                else if dag.nodes[id].op.Cmp? then t.Compare?
                else t.Apply? && t.op == dag.nodes[id].op && |t.args| == |dag.nodes[id].operands|
      ensures OfWidth(t, id)
      decreases id, 1
    {
      hide Prints, Ordered, Dag.Valid, OneNodeEach;
      var n := dag.nodes[id];
      if n.op.Const? || n.op.Value? || n.op.EntryReg? {
        LeafIsLeaf(id);
        LeafPrints(dag, world, issued, id);
        return Leaf(n.op, n.width);
      }
      if n.op.ZExt? || n.op.Trunc? {
        CastFacts(id);
        if dag.nodes[n.operands[0]].width == n.width {
          t := Value(n.operands[0]);
          OperandPrints(dag, world, issued, id, t);
          return;
        }
      }
      if n.op.Cmp? {
        t := CompareTree(id, false);
        IsPrinted(dag, world, issued, t, id);
        return;
      }
      var args := Operands(id);
      ApplyPrints(dag, world, issued, id, args);
      t := Apply(n.op, n.width, args, From(dag, id));
    }

    method Operands(id: nat) returns (args: seq<Tree>)
      requires Valid() && dag.Has(id)
      modifies this
      ensures Valid() && Advances() && Names(id) && |args| == |dag.nodes[id].operands|
      ensures AllPrint(dag, world, issued, args, dag.nodes[id].operands)
      decreases id, 0
    {
      hide Valid, Prints, Ordered, Dag.Valid, OneNodeEach, Gained, Later, PrintedAs;
      InOrder();
      GainedNothing(dag, materialized, counts, id);
      LaterSelf(issued, pending, cseCounter);
      OperandsBelow(dag, id);
      var ids := dag.nodes[id].operands;
      args := [];
      for i := 0 to |ids|
        invariant Valid() && |args| == i && AllPrint(dag, world, issued, args, ids)
        invariant Later(old(issued), old(pending), old(cseCounter), issued, pending, cseCounter)
        invariant Gained(dag, old(materialized), old(counts), materialized, counts, id)
      {
        ghost var was, queued, counter, names, counted := issued, pending, cseCounter, materialized, counts;
        var t := Value(ids[i]);
        LaterOn(old(issued), old(pending), old(cseCounter), was, queued, counter, issued, pending, cseCounter);
        GainedOn(dag, old(materialized), old(counts), names, counted, id, materialized, counts, ids[i] + 1);
        InOrder();
        AllPrintStill(dag, world, was, issued, cseCounter, args, ids);
        args := args + [t];
      }
    }

    /** A comparison, as it is or turned around. */
    method CompareTree(id: nat, invert: bool) returns (t: Tree)
      requires Valid() && dag.Has(id) && dag.nodes[id].op.Cmp?
      modifies this
      ensures Valid() && Advances() && Names(id) && TempsOf(t) <= Temps(issued)
      ensures TreeValue(t, Replay(issued, world), world) == if invert then 1 - NodeValue(dag, world, id)
              else NodeValue(dag, world, id)
      ensures t.Compare?
      decreases id, 0
    {
      hide Prints, Ordered, Dag.Valid, OneNodeEach, Gained, InC, Inverted, TreeValue, NodeValue, Replay, TempsOf,
        Temps, Pow2;
      CompareFacts(id);
      var x, y := dag.nodes[id].operands[0], dag.nodes[id].operands[1];
      var equality := dag.nodes[id].op.cmp.Eq? || dag.nodes[id].op.cmp.Ne?;
      var left := EqualityOperand(x, if equality then AsConstant(y) else None);
      ghost var was, names, counted := issued, materialized, counts;
      var right := EqualityOperand(y, if equality then AsConstant(x) else None);
      GainedOn(dag, old(materialized), old(counts), names, counted, x + 1, materialized, counts, y + 1);
      PrintsStill(dag, world, was, issued, cseCounter, left, x);
      ComparePrints(dag, world, issued, id, invert, left, right);
      var (op, signed) := if invert then Inverted(dag.nodes[id].op.cmp) else InC(dag.nodes[id].op.cmp);
      t := Compare(op, signed, From(dag, id), left, right);
    }

    lemma CompareFacts(id: nat)
      requires dag.Valid() && dag.Has(id) && dag.nodes[id].op.Cmp?
      ensures |dag.nodes[id].operands| == 2 && dag.nodes[id].operands[0] < id && dag.nodes[id].operands[1] < id
    {
      assert dag.NodeValid(id);
    }

    function AsConstant(id: nat): Option<nat>
      requires dag.Has(id)
    {
      if dag.nodes[id].op.Const? then Some(dag.nodes[id].op.value) else None
    }

    /** The constant is one the operand of the widening can be. */
    ghost predicate Fits(constant: nat, operands: seq<nat>) {
      |operands| == 1 && dag.Has(operands[0])
      && (dag.nodes[operands[0]].width >= 64 || constant < Pow2(dag.nodes[operands[0]].width))
    }

    /** A widening is dropped opposite a constant that fits below it. */
    method EqualityOperand(id: nat, compared: Option<nat>) returns (t: Tree)
      requires Valid() && dag.Has(id)
      modifies this
      ensures Valid() && Advances() && Names(id + 1) && Good(t, id)
      ensures if compared.Some? && dag.nodes[id].op.ZExt? && Fits(compared.value, dag.nodes[id].operands)
              then PrintedAs(t, dag.nodes[id].operands[0]) else PrintedAs(t, id)
      decreases id, 6
    {
      hide Prints, Ordered, Dag.Valid, OneNodeEach;
      if compared.Some? && dag.nodes[id].op.ZExt? {
        CastFacts(id);
        var source := dag.nodes[id].operands[0];
        if dag.nodes[source].width >= 64 || compared.value < Pow2(dag.nodes[source].width) {
          t := Value(source);
          OperandPrints(dag, world, issued, id, t);
          return;
        }
      }
      t := Value(id);
    }

    /** A whole value handed to an assignment, which widens by itself. */
    method RootText(id: nat) returns (t: Tree)
      requires Valid() && dag.Has(id)
      modifies this
      ensures Valid() && Advances() && Good(t, id)
      ensures if id !in old(materialized) && !old(MetTwice(id)) && dag.nodes[id].op.ZExt? then
                && |dag.nodes[id].operands| == 1 && dag.Has(dag.nodes[id].operands[0])
                && PrintedAs(t, dag.nodes[id].operands[0]) && id !in materialized
              else id in old(materialized) || PrintedAs(t, id)
      ensures id in old(materialized) ==> t == Temp(old(materialized)[id]) && issued == old(issued)
    {
      hide Prints, Ordered, Dag.Valid, OneNodeEach;
      if id in materialized { return Temp(materialized[id]); }
      if !IsShared(dag, counts, id) && dag.nodes[id].op.ZExt? {
        CastFacts(id);
        t := Value(dag.nodes[id].operands[0]);
        OperandPrints(dag, world, issued, id, t);
      } else {
        t := Value(id);
      }
    }

    /** A branch condition: true exactly when the node is, or exactly when it is not. */
    method Condition(id: nat, invert: bool) returns (t: Tree)
      requires Valid() && dag.Has(id)
      modifies this
      ensures Valid() && Advances() && TempsOf(t) <= Temps(issued)
      ensures TreeValue(t, Replay(issued, world), world) != 0 <==> (NodeValue(dag, world, id) != 0) != invert
    {
      hide Ordered, Dag.Valid, NodeValue, Replay, Denote;
      if !invert {
        t := RootText(id);
        return;
      }
      var n := dag.nodes[id];
      if n.op.Cmp? {
        t := CompareTree(id, true);
        OneBit(id);
        return;
      }
      if n.op.Not? && n.width == 1 {
        CastFacts(id);
        t := RootText(n.operands[0]);
        OneBitNot(id);
        return;
      }
      var inner := RootText(id);
      t := LogicalNot(inner);
    }

    lemma OneBit(id: nat)
      requires dag.Valid() && dag.Has(id) && dag.nodes[id].op.Cmp?
      ensures NodeValue(dag, world, id) <= 1
    {}

    lemma OneBitNot(id: nat)
      requires dag.Valid() && dag.Has(id) && dag.nodes[id].op.Not? && dag.nodes[id].width == 1
      requires |dag.nodes[id].operands| == 1 && dag.nodes[id].operands[0] < id
      ensures NodeValue(dag, world, id) == 1 - NodeValue(dag, world, dag.nodes[id].operands[0])
    {
      assert dag.NodeValid(id);
      NodeValueWithin(dag, world, dag.nodes[id].operands[0]);
      assert Pow2(1) == 2;
    }
  }
}
