/** Replacing folded loads by reads at their uses leaves a block's run as it was. */
module FoldMeaning {
  import opened Bits
  import opened Expressions
  import opened Basics
  import opened StackFrames
  import opened LoadFolding

  type Memory = nat -> nat

  datatype State = State(values: nat -> nat, mem: Memory)

  /** What a run takes from outside: entry registers, opaque operations, and what calls and other
      defining ops return and do to memory. */
  datatype World = World(
    regs: nat -> nat,
    other: (nat, seq<nat>) -> nat,
    effect: (nat, seq<nat>, Memory) -> Memory,
    result: (nat, seq<nat>, Memory) -> nat)

  /** Little-endian, wrapping at the end of the address space. */
  function Read(mem: Memory, a: nat, n: nat): nat
    decreases n
  {
    if n == 0 then 0 else mem(a % WORD_SIZE) % 256 + 256 * Read(mem, a + 1, n - 1)
  }

  function Write(mem: Memory, a: nat, n: nat, v: nat): Memory {
    (p: nat) => if Touches(a, n, p) then v / Pow2(8 * ((p - a) % WORD_SIZE)) % 256 else mem(p)
  }

  function Define(values: nat -> nat, x: Option<nat>, v: nat): nat -> nat {
    (y: nat) => if x == Some(y) then v else values(y)
  }

  /** One op on given operand values. */
  function Perform(o: nat, op: Op, args: seq<nat>, s: State, w: World): State
    requires WellFormedOp(op) && |args| == |op.operands|
  {
    match op.code
    case Load => State(Define(s.values, op.result, Read(s.mem, args[0], op.Bytes())), s.mem)
    case Store => State(s.values, Write(s.mem, args[0], op.Bytes(), args[1]))
    case Plain => State(Define(s.values, op.result, w.result(o, args, s.mem)), s.mem)
    case _ => State(Define(s.values, op.result, w.result(o, args, s.mem)), w.effect(o, args, s.mem))
  }

  function Args(op: Op, env: Env): (args: seq<nat>)
    requires WellFormedOp(op)
    ensures |args| == |op.operands|
  {
    seq(|op.operands|, k requires 0 <= k < |op.operands| => Eval(op.operands[k], env))
  }

  /** A block under the fold: the ops nothing prints, and the loads each of the two scans folded. */
  datatype Folding = Folding(f: Function, sp: Option<nat>, b: nat, dead: set<nat>, stack: set<nat>, memory: set<nat>,
    w: World, s0: State) {

    predicate InBlock() {
      b < |f.blocks|
    }

    function Length(): nat
      requires InBlock()
    {
      |f.blocks[b]|
    }

    ghost predicate Valid() {
      f.Valid() && InBlock() && forall i: nat | i < Length() :: f.At(b, i)
    }

    predicate Folded(i: nat)
      requires f.At(b, i)
    {
      f.blocks[b][i] in stack + memory
    }

    predicate Skipped(i: nat)
      requires f.At(b, i)
    {
      f.blocks[b][i] in dead
    }

    // ----- the run as it is

    function EnvOf(s: State): Env {
      Env(s.values, w.regs, w.other)
    }

    ghost function RunAt(i: nat): State
      requires Valid() && i <= Length()
    {
      if i == 0 then s0 else
      var s, op := RunAt(i - 1), f.OpAt(b, i - 1);
      if Skipped(i - 1) then s else Perform(f.blocks[b][i - 1], op, Args(op, EnvOf(s)), s, w)
    }

    // ----- the run with folded loads read again at each use

    /** The folded load before `k` that defines `x`. */
    ghost function FoldOf(x: nat, k: nat): (j: Option<nat>)
      requires Valid() && k <= Length()
      ensures j.Some? ==>
                && j.value < k && Folded(j.value)
                && f.OpAt(b, j.value).result == Some(x) && f.OpAt(b, j.value).code.Load?
      ensures j.None? ==>
                forall i: nat | i < k && Folded(i) && f.OpAt(b, i).code.Load? :: f.OpAt(b, i).result != Some(x)
    {
      if k == 0 then None
      else if Folded(k - 1) && f.OpAt(b, k - 1).code.Load? && f.OpAt(b, k - 1).result == Some(x) then Some(k - 1)
      else FoldOf(x, k - 1)
    }

    /** What is printed for `x`: the read of a folded load's address, itself printed the same way. */
    ghost function Inlined(s: State, x: nat, k: nat): nat
      requires Valid() && k <= Length()
      decreases k, 0
    {
      var j := FoldOf(x, k);
      if j.None? then s.values(x) else
      var load := f.OpAt(b, j.value);
      assert WellFormedOp(load);
      Read(s.mem, Eval(load.operands[0], InlineEnv(s, j.value)), load.Bytes())
    }

    ghost function InlineEnv(s: State, k: nat): Env
      requires Valid() && k <= Length()
      decreases k, 1
    {
      Env((x: nat) => Inlined(s, x, k), w.regs, w.other)
    }

    ghost function FoldedAt(i: nat): State
      requires Valid() && i <= Length()
    {
      if i == 0 then s0 else
      var s, op := FoldedAt(i - 1), f.OpAt(b, i - 1);
      if Skipped(i - 1) || Folded(i - 1) then s
      else Perform(f.blocks[b][i - 1], op, Args(op, InlineEnv(s, i - 1)), s, w)
    }

    // ----- what the theorem asks of the function

    /** The two scans' findings, the second made once the first's loads count as dead. */
    ghost predicate Found()
      requires f.Valid()
    {
      && (forall c: nat, k: nat | f.At(c, k) && f.blocks[c][k] in stack :: FoldableStack(f, sp, dead, c, k))
      && (forall c: nat, k: nat | f.At(c, k) && f.blocks[c][k] in memory :: FoldableMemory(f, sp, dead + stack, c, k))
    }

    /** No op that is printed reads what an op that is not printed defines. */
    ghost predicate DeadUnread() {
      forall c: nat, k: nat, d: nat, m: nat | f.At(c, k) && f.blocks[c][k] in dead && f.OpAt(c, k).result.Some?
        :: !LiveUse(f, dead, f.OpAt(c, k).result.value, d, m)
    }

    /** A load's address reads nothing defined at or after the load in its block. */
    ghost predicate AddressesDefined() {
      forall i: nat, k: nat | f.At(b, i) && f.At(b, k) && i <= k && f.OpAt(b, i).code.Load? && f.OpAt(b, k).result.Some?
        :: f.OpAt(b, k).result.value !in Reads(f.OpAt(b, i))
    }

    predicate Access(i: nat) {
      f.At(b, i) && WellFormedOp(f.OpAt(b, i)) && (f.OpAt(b, i).code.Load? || f.OpAt(b, i).code.Store?)
    }

    function Info(i: nat): AddressInfo
      requires Access(i)
    {
      Classify(sp, f.OpAt(b, i).operands[0])
    }

    /** The value the load at `i` defines has a live use in the block after `k`. */
    ghost predicate ReadAfter(i: nat, k: nat)
      requires f.At(b, i)
    {
      f.OpAt(b, i).result.Some? && exists u: nat :: k < u && LiveUse(f, dead, f.OpAt(b, i).result.value, b, u)
    }

    /** The op at `k` is a store that is carried out between a folded load at `i` and a use of its value. */
    ghost predicate StoresBetween(i: nat, k: nat) {
      i < k && Access(i) && Access(k) && Folded(i) && !Skipped(k) && f.OpAt(b, k).code.Store? && ReadAfter(i, k)
    }

    /** No store between a folded load and a use of its value overlaps the load's bytes while one of the two
        accesses wraps. */
    ghost predicate StoresJudged() {
      forall i: nat, k: nat | StoresBetween(i, k) ::
        RightlyJudged(Info(i), f.OpAt(b, i).Bytes(), Info(k), f.OpAt(b, k).Bytes())
    }

    /** Frame and image share no byte. */
    ghost predicate FrameApart() {
      forall i: nat, k: nat | Access(i) && Access(k) && Info(i).StackSlot? && Info(k).Global? ::
        Disjoint(Located(sp, Info(i), w.regs), f.OpAt(b, i).Bytes(), Located(sp, Info(k), w.regs), f.OpAt(b, k).Bytes())
    }

    ghost predicate Sound() {
      Valid() && Found() && DeadUnread() && AddressesDefined() && StoresJudged() && FrameApart()
    }
  }

  // ----- expressions and what they read

  ghost predicate Agree(a: Env, b: Env, leaves: set<nat>) {
    a.reg == b.reg && a.other == b.other && forall x | x in leaves :: a.value(x) == b.value(x)
  }

  lemma {:induction false} EvalAgrees(e: Expr, a: Env, b: Env)
    requires WellTyped(e) && Agree(a, b, Leaves(e))
    ensures Eval(e, a) == Eval(e, b)
  {
    hide Bitwise, Pow2, Apply, Compare;
    match e
    case Cast(_, _, x) => EvalAgrees(x, a, b);
    case Not(_, x) => EvalAgrees(x, a, b);
    case Bin(_, _, l, r) => EvalAgrees(l, a, b); EvalAgrees(r, a, b);
    case Cmp(_, l, r) => EvalAgrees(l, a, b); EvalAgrees(r, a, b);
    case Select(_, c, t, f) => EvalAgrees(c, a, b); EvalAgrees(t, a, b); EvalAgrees(f, a, b);
    case Other(_, _, args) =>
      forall i | 0 <= i < |args| ensures Eval(args[i], a) == Eval(args[i], b) {
        assert args[i] in args;
        assert Leaves(args[i]) <= Leaves(e);
        EvalAgrees(args[i], a, b);
      }
      assert seq(|args|, i requires 0 <= i < |args| => Eval(args[i], a))
        == seq(|args|, i requires 0 <= i < |args| => Eval(args[i], b));
    case _ =>
  }

  lemma ArgsAgree(op: Op, a: Env, b: Env)
    requires WellFormedOp(op) && Agree(a, b, Reads(op))
    ensures Args(op, a) == Args(op, b)
  {
    hide Eval, WellTyped;
    forall k: nat | k < |op.operands| ensures Eval(op.operands[k], a) == Eval(op.operands[k], b) {
      assert op.operands[k] in op.operands;
      assert Leaves(op.operands[k]) <= Reads(op);
      EvalAgrees(op.operands[k], a, b);
    }
  }

  // ----- memory

  lemma {:induction false} ReadWriteApart(mem: Memory, a: nat, n: nat, m: nat, b: nat, size: nat, v: nat)
    requires m <= n && n <= MAX_BYTES && Disjoint(a % WORD_SIZE, n, b, size)
    ensures Read(Write(mem, b, size, v), a + (n - m), m) == Read(mem, a + (n - m), m)
    decreases m
  {
    hide Pow2, Disjoint, Touches;
    if m > 0 {
      ReadWriteApart(mem, a, n, m - 1, b, size, v);
      ByteApart(a, n, n - m, b, size);
    }
  }

  /** Byte `k` of a value, and the number its `m` bytes from `k` on make. */
  function ByteFrom(v: nat, k: nat): nat {
    v / Pow2(8 * k) % 256
  }

  function BytesFrom(v: nat, k: nat, m: nat): nat {
    v / Pow2(8 * k) % Pow2(8 * m)
  }

  /** What is written is what is read back. */
  lemma WrittenIsRead(mem: Memory, a: nat, n: nat, v: nat)
    requires n <= MAX_BYTES
    ensures Read(Write(mem, a % WORD_SIZE, n, v), a, n) == v % Pow2(8 * n)
  {
    hide Pow2, Read, Write;
    PowZero();
    ReadBack(mem, a, n, v, n);
  }

  lemma {:induction false} ReadBack(mem: Memory, a: nat, n: nat, v: nat, m: nat)
    requires m <= n <= MAX_BYTES
    ensures Read(Write(mem, a % WORD_SIZE, n, v), a + (n - m), m) == BytesFrom(v, n - m, m)
    decreases m
  {
    hide Pow2, Write, BytesFrom, ByteFrom, WORD_SIZE;
    if m == 0 {
      NoBytes(v, n);
    } else {
      ReadBack(mem, a, n, v, m - 1);
      WrittenByte(mem, a, n, v, n - m);
      NextByte(v, n - m, m - 1);
    }
  }

  lemma NoBytes(v: nat, k: nat)
    ensures BytesFrom(v, k, 0) == 0
  {
    hide Pow2;
    PowZero();
  }

  lemma WrittenByte(mem: Memory, a: nat, n: nat, v: nat, k: nat)
    requires k < n <= MAX_BYTES
    ensures Write(mem, a % WORD_SIZE, n, v)((a + k) % WORD_SIZE) % 256 == ByteFrom(v, k)
  {
    hide Pow2;
    OffsetBack(a, k);
    assert Touches(a % WORD_SIZE, n, (a + k) % WORD_SIZE);
    SmallMod(ByteFrom(v, k), 256);
  }

  lemma OffsetBack(a: nat, k: nat)
    requires k < MAX_BYTES
    ensures ((a + k) % WORD_SIZE - a % WORD_SIZE) % WORD_SIZE == k
  {
    hide Pow2;
    WordsAreWide();
    DiffMod((a + k) % WORD_SIZE, a);
    var back: int := a;
    SumMod(a + k, -back);
    SmallMod(k, WORD_SIZE);
  }

  /** The low byte first, then the rest of the value. */
  lemma NextByte(v: nat, k: nat, m: nat)
    ensures BytesFrom(v, k, m + 1) == ByteFrom(v, k) + 256 * BytesFrom(v, k + 1, m)
  {
    hide Pow2;
    PowByte(k);
    PowByte(m);
    DivideOn(v, Pow2(8 * k));
    LowByte(v / Pow2(8 * k), Pow2(8 * m));
  }

  lemma PowByte(k: nat)
    ensures Pow2(8 * (k + 1)) == 256 * Pow2(8 * k)
  {
    hide Pow2;
    Pow2IsBig();
    Pow2Add(8, 8 * k);
  }

  lemma DivideOn(v: nat, p: nat)
    requires p > 0
    ensures v / (256 * p) == v / p / 256
  {
    var q, r := v / p / 256, v / p % 256;
    assert v / p == 256 * q + r;
    assert v == p * (v / p) + v % p;
    Grouped(p, 256, q, r, v % p);
    ModUnique(v, 256 * p, q, p * r + v % p);
  }

  lemma Grouped(p: nat, m: nat, q: nat, r: nat, low: nat)
    requires r < m && low < p
    ensures p * (m * q + r) + low == q * (m * p) + (p * r + low)
    ensures p * r + low < m * p
  {
    assert (m - r) * p == m * p - p * r;
    AtLeastOnce(m - r, p);
  }

  lemma LowByte(x: nat, p: nat)
    requires p > 0
    ensures x % (256 * p) == x % 256 + 256 * (x / 256 % p)
  {
    var q, r := x / 256 / p, x / 256 % p;
    assert x / 256 == p * q + r;
    assert x == 256 * (x / 256) + x % 256;
    Grouped(256, p, q, r, x % 256);
    ModUnique(x, 256 * p, q, 256 * r + x % 256);
  }

  lemma ByteApart(a: nat, n: nat, k: nat, b: nat, size: nat)
    requires k < n <= MAX_BYTES && Disjoint(a % WORD_SIZE, n, b, size)
    ensures !Touches(b, size, (a + k) % WORD_SIZE)
  {
    hide Pow2;
    WordsAreWide();
    SumMod(a, k);
    DiffMod((a + k) % WORD_SIZE, a);
    var back: int := a;
    SumMod(a + k, -back);
    SmallMod(k, WORD_SIZE);
    assert Touches(a % WORD_SIZE, n, (a + k) % WORD_SIZE);
  }

  lemma WriteKeepsRead(mem: Memory, a: nat, n: nat, b: nat, size: nat, v: nat)
    requires a < WORD_SIZE && n <= MAX_BYTES && Disjoint(a, n, b, size)
    ensures Read(Write(mem, b, size, v), a, n) == Read(mem, a, n)
  {
    hide Pow2, Disjoint, Touches, Write, Read;
    SmallMod(a, WORD_SIZE);
    ReadWriteApart(mem, a, n, n, b, size, v);
    assert a + (n - n) == a;
  }

  // ----- the run as it is

  lemma OpFacts(g: Folding, i: nat)
    requires g.Valid() && i < g.Length()
    ensures g.f.At(g.b, i) && WellFormedOp(g.f.OpAt(g.b, i))
  {}

  lemma RunNext(g: Folding, i: nat)
    requires g.Valid() && i < g.Length()
    ensures g.f.At(g.b, i) && WellFormedOp(g.f.OpAt(g.b, i))
    ensures var s, op := g.RunAt(i), g.f.OpAt(g.b, i);
            g.RunAt(i + 1) == if g.Skipped(i) then s else Perform(g.f.blocks[g.b][i], op, Args(op, g.EnvOf(s)), s, g.w)
  {
    hide WellFormedOp, Function.Valid, Perform, Args;
    OpFacts(g, i);
  }

  /** Between two moments nothing defines `x`. */
  ghost predicate Undisturbed(g: Folding, x: nat, i: nat, j: nat)
    requires g.Valid() && j <= g.Length()
  {
    forall k: nat | i <= k < j && g.f.At(g.b, k) :: g.f.OpAt(g.b, k).result != Some(x)
  }

  lemma {:induction false} RunKeepsValue(g: Folding, x: nat, i: nat, j: nat)
    requires g.Valid() && i <= j <= g.Length() && Undisturbed(g, x, i, j)
    ensures g.RunAt(j).values(x) == g.RunAt(i).values(x)
    decreases j - i
  {
    hide Folding.RunAt, Folding.Valid, Args, WellFormedOp, Read, Write;
    if i < j {
      RunKeepsValue(g, x, i, j - 1);
      RunNext(g, j - 1);
    }
  }

  /** No store and no barrier between two moments. */
  ghost predicate Quiet(g: Folding, i: nat, j: nat)
    requires g.Valid() && j <= g.Length()
  {
    forall k: nat | i <= k < j && g.f.At(g.b, k) :: g.f.OpAt(g.b, k).code.Load? || g.f.OpAt(g.b, k).code.Plain?
  }

  lemma {:induction false} QuietKeepsMemory(g: Folding, i: nat, j: nat)
    requires g.Valid() && i <= j <= g.Length() && Quiet(g, i, j)
    ensures g.RunAt(j).mem == g.RunAt(i).mem
    decreases j - i
  {
    hide Folding.RunAt, Folding.Valid, Args, WellFormedOp, Read, Write, Define;
    if i < j {
      QuietKeepsMemory(g, i, j - 1);
      RunNext(g, j - 1);
    }
  }

  /** A load at `i` that runs gives its value what memory then held, and nothing else defines it. */
  lemma LoadedValue(g: Folding, i: nat, x: nat, t: nat)
    requires g.Valid() && i < t <= g.Length() && g.f.At(g.b, i) && !g.Skipped(i)
    requires g.f.OpAt(g.b, i).code.Load? && g.f.OpAt(g.b, i).result == Some(x)
    ensures WellFormedOp(g.f.OpAt(g.b, i))
    ensures g.RunAt(t).values(x) == Read(g.RunAt(i).mem, AddressAt(g, i), g.f.OpAt(g.b, i).Bytes())
  {
    hide Folding.RunAt, WellFormedOp, Read, Write;
    RunNext(g, i);
    assert Undisturbed(g, x, i + 1, t);
    RunKeepsValue(g, x, i + 1, t);
    OneAddress(g.f.OpAt(g.b, i));
  }

  lemma OneAddress(op: Op)
    requires WellFormedOp(op) && (op.code.Load? || op.code.Store?)
    ensures |op.operands| >= 1 && WellTyped(op.operands[0]) && op.operands[0].Width() == WORD && op.Bytes() <= MAX_BYTES
  {}

  /** The address the load or store at `i` has in the run as it is. */
  ghost function AddressAt(g: Folding, i: nat): nat
    requires g.Valid() && i < g.Length() && g.Access(i)
  {
    Eval(g.f.OpAt(g.b, i).operands[0], g.EnvOf(g.RunAt(i)))
  }

  /** A store or anything else at `k` that may not overwrite the load's bytes leaves them. */
  lemma StepKeepsRead(g: Folding, i: nat, k: nat)
    requires g.Sound() && i < k < g.Length() && g.f.At(g.b, i) && g.f.At(g.b, k) && g.f.OpAt(g.b, i).code.Load?
    requires WellFormedOp(g.f.OpAt(g.b, i)) && WellFormedOp(g.f.OpAt(g.b, k))
    requires g.Folded(i) && !MayOverwrite(g.sp, g.f.OpAt(g.b, i), g.f.OpAt(g.b, k))
    requires g.f.OpAt(g.b, k).code.Store? ==> g.ReadAfter(i, k)
    ensures g.Access(i)
    ensures Read(g.RunAt(k + 1).mem, AddressAt(g, i), g.f.OpAt(g.b, i).Bytes())
            == Read(g.RunAt(k).mem, AddressAt(g, i), g.f.OpAt(g.b, i).Bytes())
  {
    hide Folding.RunAt, WellFormedOp, Read, Write, Perform, Folding.DeadUnread, Folding.AddressesDefined,
      Folding.Found, Folding.Valid;
    hide Folding.StoresJudged, Folding.FrameApart, Classify, AddressAt, Args;
    RunNext(g, k);
    var op := g.f.OpAt(g.b, k);
    if !g.Skipped(k) {
      PerformMemory(g.f.blocks[g.b][k], op, Args(op, g.EnvOf(g.RunAt(k))), g.RunAt(k), g.w);
    }
    if !g.Skipped(k) && op.code.Store? {
      StoreArgs(g, k);
      OneAddress(g.f.OpAt(g.b, i));
      OneAddress(op);
      StoreApart(g, i, k);
      WriteKeepsRead(g.RunAt(k).mem, AddressAt(g, i), g.f.OpAt(g.b, i).Bytes(), AddressAt(g, k), op.Bytes(),
        Args(op, g.EnvOf(g.RunAt(k)))[1]);
    }
  }

  lemma PerformMemory(o: nat, op: Op, args: seq<nat>, s: State, w: World)
    requires WellFormedOp(op) && |args| == |op.operands|
    ensures op.code.Load? || op.code.Plain? ==> Perform(o, op, args, s, w).mem == s.mem
    ensures op.code.Store? ==>
            |args| == 2 && Perform(o, op, args, s, w).mem == Write(s.mem, args[0], op.Bytes(), args[1])
  {}

  lemma StoreArgs(g: Folding, k: nat)
    requires g.Valid() && k < g.Length() && g.Access(k) && g.f.OpAt(g.b, k).code.Store?
    ensures var args := Args(g.f.OpAt(g.b, k), g.EnvOf(g.RunAt(k))); |args| == 2 && args[0] == AddressAt(g, k)
  {
    hide Folding.RunAt;
  }

  lemma DisjointSwaps(a: nat, n: nat, b: nat, m: nat)
    requires Disjoint(a, n, b, m)
    ensures Disjoint(b, m, a, n)
  {}

  lemma StoreApart(g: Folding, i: nat, k: nat)
    requires g.Sound() && i < k < g.Length() && g.Access(i) && g.Access(k)
    requires g.f.OpAt(g.b, i).code.Load?
    requires g.StoresBetween(i, k) && !MayOverwrite(g.sp, g.f.OpAt(g.b, i), g.f.OpAt(g.b, k))
    ensures AddressAt(g, i) < WORD_SIZE
    ensures Disjoint(AddressAt(g, i), g.f.OpAt(g.b, i).Bytes(), AddressAt(g, k), g.f.OpAt(g.b, k).Bytes())
  {
    hide Folding.RunAt, WellFormedOp, Folding.DeadUnread, Folding.AddressesDefined, Folding.Found, Folding.Valid,
      RightlyJudged, Classify, Disjoint, Eval;
    var load, store := g.f.OpAt(g.b, i), g.f.OpAt(g.b, k);
    OneAddress(load);
    OneAddress(store);
    var envI, envK := g.EnvOf(g.RunAt(i)), g.EnvOf(g.RunAt(k));
    ClassifiedMeans(g.sp, load.operands[0], envI);
    ClassifiedMeans(g.sp, store.operands[0], envK);
    if g.Info(i).Global? && g.Info(k).StackSlot? {
      DisjointSwaps(AddressAt(g, k), store.Bytes(), AddressAt(g, i), load.Bytes());
    }
    NoAliasSound(g.sp, load.operands[0], load.Bytes(), store.operands[0], store.Bytes(), envI, envK);
  }

  /** Every store between the folded load at `i` and `t` has a use of the load's value after it. */
  ghost predicate UsedPast(g: Folding, i: nat, t: nat)
    requires g.f.At(g.b, i)
  {
    forall k: nat | i < k < t && g.f.At(g.b, k) && g.f.OpAt(g.b, k).code.Store? :: g.ReadAfter(i, k)
  }

  lemma UsedPastUse(g: Folding, i: nat, x: nat, u: nat, t: nat)
    requires g.f.At(g.b, i) && g.f.OpAt(g.b, i).result == Some(x) && LiveUse(g.f, g.dead, x, g.b, u)
    requires u >= t || (g.Valid() && t <= g.Length() && Quiet(g, u, t))
    ensures UsedPast(g, i, t)
  {
    hide LiveUse;
    forall k: nat | i < k < t && g.f.At(g.b, k) && g.f.OpAt(g.b, k).code.Store? ensures g.ReadAfter(i, k) {
      if k >= u { assert false; }
    }
  }

  lemma {:induction false} UnclobberedRead(g: Folding, i: nat, t: nat)
    requires g.Sound() && i < t <= g.Length() && g.f.At(g.b, i) && g.f.OpAt(g.b, i).code.Load?
    requires g.Folded(i) && UsedPast(g, i, t) && !Clobbered(g.f, g.sp, g.b, i, t)
    ensures g.Access(i)
    ensures Read(g.RunAt(t).mem, AddressAt(g, i), g.f.OpAt(g.b, i).Bytes())
            == Read(g.RunAt(i).mem, AddressAt(g, i), g.f.OpAt(g.b, i).Bytes())
    decreases t
  {
    hide Folding.RunAt, WellFormedOp, Read, MayOverwrite, Folding.DeadUnread, Folding.AddressesDefined, Folding.Found,
      Folding.StoresJudged, Folding.FrameApart;
    OpFacts(g, i);
    if t == i + 1 {
      assert Quiet(g, i, t);
      QuietKeepsMemory(g, i, t);
    } else {
      OpFacts(g, t - 1);
      assert !Clobbered(g.f, g.sp, g.b, i, t - 1);
      UnclobberedRead(g, i, t - 1);
      StepKeepsRead(g, i, t - 1);
    }
  }

  // ----- the folded run

  /** The folded run has come to the same memory, and the same values but for folded loads'. */
  ghost predicate Matches(g: Folding, s: State, t: nat)
    requires g.Valid() && t <= g.Length()
  {
    s.mem == g.RunAt(t).mem && forall x: nat | g.FoldOf(x, g.Length()).None? :: s.values(x) == g.RunAt(t).values(x)
  }

  lemma FoldOfEarlier(g: Folding, x: nat, k: nat)
    requires g.Valid() && k <= g.Length()
    ensures g.FoldOf(x, k) == if g.FoldOf(x, g.Length()).Some? && g.FoldOf(x, g.Length()).value < k
            then g.FoldOf(x, g.Length()) else None
  {
    hide Folding.FoldOf, WellFormedOp;
    var whole, part := g.FoldOf(x, g.Length()), g.FoldOf(x, k);
    if part.Some? && whole.Some? {
      assert g.f.At(g.b, part.value) && g.f.At(g.b, whole.value);
    }
  }

  /** A folded load runs, and a stack one reads no value. */
  lemma FoldedFacts(g: Folding, j: nat)
    requires g.Sound() && j < g.Length() && g.f.At(g.b, j) && g.Folded(j)
    ensures !g.Skipped(j)
            && Foldable(g.f, g.sp, if g.f.blocks[g.b][j] in g.stack then g.dead else g.dead + g.stack, g.b, j)
    ensures g.f.blocks[g.b][j] in g.stack ==> Reads(g.f.OpAt(g.b, j)) == {}
  {
    hide Clobbered, WellFormedOp, Function.Valid, Folding.StoresJudged, Folding.FrameApart, Folding.AddressesDefined,
      Classify, Reads;
    OpFacts(g, j);
    var load := g.f.OpAt(g.b, j);
    if g.f.blocks[g.b][j] in g.stack {
      StackReadsNothing(g.sp, load);
      var c: nat, k: nat :| LiveUse(g.f, g.dead, load.result.value, c, k);
    } else {
      var c: nat, k: nat :| LiveUse(g.f, g.dead + g.stack, load.result.value, c, k);
      assert LiveUse(g.f, g.dead, load.result.value, c, k);
    }
  }

  lemma StackReadsNothing(sp: Option<nat>, load: Op)
    requires WellFormedOp(load) && load.code.Load? && !Classify(sp, load.operands[0]).Unclassified?
    ensures Reads(load) == {}
  {
    hide Classify, Eval;
    ClassifiedMeans(sp, load.operands[0], Env(_ => 0, _ => 0, (_, _) => 0));
  }

  /** Where a printed op, or a folded load's address, reads a folded value, the fold is safe. */
  lemma UseIsSafe(g: Folding, c: nat, t: nat, k: nat, x: nat)
    requires g.Sound() && g.f.At(c, t) && g.f.blocks[c][t] !in g.dead && g.f.blocks[c][t] !in g.stack
    requires g.f.At(g.b, k) && g.Folded(k) && g.f.OpAt(g.b, k).code.Load? && g.f.OpAt(g.b, k).result == Some(x)
             && x in Reads(g.f.OpAt(c, t))
    ensures c == g.b && k < t && !Clobbered(g.f, g.sp, g.b, k, t) && LiveUse(g.f, g.dead, x, c, t)
  {
    hide Clobbered, WellFormedOp, Function.Valid, Folding.StoresJudged, Folding.FrameApart, Folding.AddressesDefined,
      Reads;
    hide Folding.Found, Folding.DeadUnread;
    FoldedFacts(g, k);
    assert LiveUse(g.f, g.dead, x, c, t) && LiveUse(g.f, g.dead + g.stack, x, c, t);
    assert SafeUse(g.f, g.sp, g.b, k, c, t);
  }

  /** A folded load whose address reads a value has nothing at all stored before its uses: its
      address cannot be classified, so no store is known not to overwrite it. */
  lemma NestedIsQuiet(g: Folding, j: nat, t: nat)
    requires g.Valid() && j < t <= g.Length() && g.f.At(g.b, j) && g.f.OpAt(g.b, j).code.Load?
    requires Reads(g.f.OpAt(g.b, j)) != {} && !Clobbered(g.f, g.sp, g.b, j, t)
    ensures Quiet(g, j, t)
  {
    hide Reads, WellFormedOp, Classify;
    OpFacts(g, j);
    if !Classify(g.sp, g.f.OpAt(g.b, j).operands[0]).Unclassified? {
      StackReadsNothing(g.sp, g.f.OpAt(g.b, j));
    }
    forall k: nat | j <= k < t && g.f.At(g.b, k) ensures g.f.OpAt(g.b, k).code.Load? || g.f.OpAt(g.b, k).code.Plain? {
      OpFacts(g, k);
      assert k > j ==> !MayOverwrite(g.sp, g.f.OpAt(g.b, j), g.f.OpAt(g.b, k));
    }
  }

  lemma QuietExtends(g: Folding, i: nat, j: nat, t: nat)
    requires g.Valid() && i < j < t <= g.Length() && g.f.At(g.b, i) && g.f.OpAt(g.b, i).code.Load?
    requires !Clobbered(g.f, g.sp, g.b, i, j) && Quiet(g, j, t)
    ensures !Clobbered(g.f, g.sp, g.b, i, t)
  {
    hide WellFormedOp, MayAlias;
    forall k: nat | i < k < t && g.f.At(g.b, k) ensures !MayOverwrite(g.sp, g.f.OpAt(g.b, i), g.f.OpAt(g.b, k)) {
      if k >= j {
        assert g.f.OpAt(g.b, k).code.Load? || g.f.OpAt(g.b, k).code.Plain?;
      }
    }
  }

  lemma AddressReadsEarlier(g: Folding, j: nat, t: nat, y: nat)
    requires g.Sound() && j < t <= g.Length() && g.f.At(g.b, j) && g.f.OpAt(g.b, j).code.Load?
             && y in Reads(g.f.OpAt(g.b, j))
    ensures g.RunAt(t).values(y) == g.RunAt(j).values(y)
  {
    hide Folding.RunAt, WellFormedOp, Reads, Folding.Found, Folding.DeadUnread, Folding.StoresJudged,
      Folding.FrameApart, Folding.Valid;
    assert Undisturbed(g, y, j, t);
    RunKeepsValue(g, y, j, t);
  }

  /** Where a folded load's window is still open, reading again gives what the load gave. */
  lemma {:induction false} Fresh(g: Folding, j: nat, x: nat, t: nat, s: State, k: nat)
    requires g.Sound() && t <= g.Length() && Matches(g, s, t) && j < t && j < k <= g.Length()
    requires g.FoldOf(x, g.Length()) == Some(j) && g.f.At(g.b, j) && UsedPast(g, j, t)
             && !Clobbered(g.f, g.sp, g.b, j, t)
    ensures g.Inlined(s, x, k) == g.RunAt(t).values(x)
    decreases j, 2
  {
    hide Folding.RunAt, WellFormedOp, Clobbered, Read, Folding.Found, Folding.DeadUnread, Folding.StoresJudged,
      Folding.FrameApart;
    hide Folding.AddressesDefined, Folding.FoldOf, AddressAt, Reads, Eval, Folding.InlineEnv, Folding.Valid;
    FoldOfEarlier(g, x, k);
    OpFacts(g, j);
    FoldedFacts(g, j);
    LoadedValue(g, j, x, t);
    UnclobberedRead(g, j, t);
    SameAddress(g, j, x, t, s);
  }

  lemma {:induction false} SameAddress(g: Folding, j: nat, x: nat, t: nat, s: State)
    requires g.Sound() && t <= g.Length() && Matches(g, s, t) && j < t
    requires g.FoldOf(x, g.Length()) == Some(j) && !Clobbered(g.f, g.sp, g.b, j, t)
    ensures g.Access(j) && Eval(g.f.OpAt(g.b, j).operands[0], g.InlineEnv(s, j)) == AddressAt(g, j)
    decreases j, 1
  {
    hide Folding.RunAt, WellFormedOp, Clobbered, Read, Folding.Found, Folding.DeadUnread, Folding.StoresJudged,
      Folding.FrameApart;
    hide Folding.AddressesDefined, Folding.FoldOf, Reads, Eval, Folding.Valid, Folding.Inlined, Matches;
    OpFacts(g, j);
    var load := g.f.OpAt(g.b, j);
    forall y | y in Reads(load) ensures g.Inlined(s, y, j) == g.RunAt(j).values(y) {
      SameLeaf(g, j, x, t, s, y);
    }
    OneOperand(load, g.InlineEnv(s, j), g.EnvOf(g.RunAt(j)));
  }

  lemma OneOperand(load: Op, a: Env, b: Env)
    requires WellFormedOp(load) && load.code.Load? && Agree(a, b, Reads(load))
    ensures Eval(load.operands[0], a) == Eval(load.operands[0], b)
  {
    hide Eval;
    ArgsAgree(load, a, b);
    assert Args(load, a)[0] == Args(load, b)[0];
  }

  lemma {:induction false} SameLeaf(g: Folding, j: nat, x: nat, t: nat, s: State, y: nat)
    requires g.Sound() && t <= g.Length() && Matches(g, s, t) && j < t
    requires g.FoldOf(x, g.Length()) == Some(j) && !Clobbered(g.f, g.sp, g.b, j, t)
    requires y in Reads(g.f.OpAt(g.b, j))
    ensures g.Inlined(s, y, j) == g.RunAt(j).values(y)
    decreases j, 0
  {
    hide Folding.RunAt, WellFormedOp, Clobbered, Read, Folding.Found, Folding.DeadUnread, Folding.StoresJudged,
      Folding.FrameApart;
    hide Folding.AddressesDefined, Folding.FoldOf, Reads, Eval, Folding.Valid, Folding.InlineEnv;
    OpFacts(g, j);
    FoldedFacts(g, j);
    AddressReadsEarlier(g, j, t, y);
    FoldOfEarlier(g, y, j);
    var inner := g.FoldOf(y, g.Length());
    if inner.Some? {
      OpFacts(g, inner.value);
      NestedIsQuiet(g, j, t);
      UseIsSafe(g, g.b, j, inner.value, y);
      QuietExtends(g, inner.value, j, t);
      UsedPastUse(g, inner.value, y, j, t);
      Fresh(g, inner.value, y, t, s, j);
    }
  }

  /** A printed op's operands have their original values, each read of a folded load included. */
  lemma SameArgs(g: Folding, t: nat, s: State)
    requires g.Sound() && t < g.Length() && Matches(g, s, t) && g.f.At(g.b, t) && !g.Skipped(t) && !g.Folded(t)
    ensures WellFormedOp(g.f.OpAt(g.b, t))
    ensures Args(g.f.OpAt(g.b, t), g.InlineEnv(s, t)) == Args(g.f.OpAt(g.b, t), g.EnvOf(g.RunAt(t)))
  {
    hide Folding.RunAt, WellFormedOp, Clobbered, Read, Folding.Found, Folding.DeadUnread, Folding.StoresJudged,
      Folding.FrameApart;
    hide Folding.AddressesDefined, Folding.FoldOf, Reads, Eval, Folding.Valid, Folding.Inlined;
    OpFacts(g, t);
    forall y | y in Reads(g.f.OpAt(g.b, t)) ensures g.Inlined(s, y, t) == g.RunAt(t).values(y) {
      SameRead(g, t, s, y);
    }
    ArgsAgree(g.f.OpAt(g.b, t), g.InlineEnv(s, t), g.EnvOf(g.RunAt(t)));
  }

  lemma SameRead(g: Folding, t: nat, s: State, y: nat)
    requires g.Sound() && t < g.Length() && Matches(g, s, t) && g.f.At(g.b, t) && !g.Skipped(t) && !g.Folded(t)
    requires y in Reads(g.f.OpAt(g.b, t))
    ensures g.Inlined(s, y, t) == g.RunAt(t).values(y)
  {
    hide Folding.RunAt, WellFormedOp, Clobbered, Read, Folding.Found, Folding.DeadUnread, Folding.StoresJudged,
      Folding.FrameApart;
    hide Folding.AddressesDefined, Folding.FoldOf, Reads, Eval, Folding.Valid, Folding.InlineEnv;
    FoldOfEarlier(g, y, t);
    var load := g.FoldOf(y, g.Length());
    if load.Some? {
      OpFacts(g, load.value);
      UseIsSafe(g, g.b, t, load.value, y);
      UsedPastUse(g, load.value, y, t, t);
      Fresh(g, load.value, y, t, s, t);
    }
  }

  lemma FoldedNext(g: Folding, i: nat)
    requires g.Valid() && i < g.Length()
    ensures g.f.At(g.b, i) && WellFormedOp(g.f.OpAt(g.b, i))
    ensures var s, op := g.FoldedAt(i), g.f.OpAt(g.b, i);
            g.FoldedAt(i + 1)
            == if g.Skipped(i) || g.Folded(i) then s
              else Perform(g.f.blocks[g.b][i], op, Args(op, g.InlineEnv(s, i)), s, g.w)
  {
    hide WellFormedOp, Function.Valid, Perform, Args, Folding.InlineEnv;
    OpFacts(g, i);
  }

  lemma PerformSame(o: nat, op: Op, args: seq<nat>, s: State, r: State, w: World)
    requires WellFormedOp(op) && |args| == |op.operands| && s.mem == r.mem
    ensures Perform(o, op, args, s, w).mem == Perform(o, op, args, r, w).mem
    ensures forall x: nat :: s.values(x) == r.values(x) ==>
            Perform(o, op, args, s, w).values(x) == Perform(o, op, args, r, w).values(x)
  {
    hide Read, Write, WellFormedOp;
  }

  /** A folded load's own step changes nothing but its value. */
  lemma FoldedLoadStep(g: Folding, i: nat)
    requires g.Sound() && i < g.Length() && g.f.At(g.b, i) && g.Folded(i)
    ensures g.RunAt(i + 1).mem == g.RunAt(i).mem
    ensures forall x: nat | g.FoldOf(x, g.Length()).None? :: g.RunAt(i + 1).values(x) == g.RunAt(i).values(x)
  {
    hide Folding.RunAt, WellFormedOp, Clobbered, Read, Folding.Found, Folding.DeadUnread, Folding.StoresJudged,
      Folding.FrameApart, Folding.AddressesDefined;
    hide Reads, Args, Folding.FoldOf;
    RunNext(g, i);
    FoldedFacts(g, i);
  }

  /** The whole block under the fold: the same memory and the same unfolded values before every op
      and at the end, and the same operand values wherever an op is printed. */
  lemma {:induction false} FoldKeepsRun(g: Folding, i: nat)
    requires g.Sound() && i <= g.Length()
    ensures Matches(g, g.FoldedAt(i), i)
    ensures i < g.Length() && g.f.At(g.b, i) && !g.Skipped(i) && !g.Folded(i) ==>
              WellFormedOp(g.f.OpAt(g.b, i))
              && Args(g.f.OpAt(g.b, i), g.InlineEnv(g.FoldedAt(i), i)) == Args(g.f.OpAt(g.b, i), g.EnvOf(g.RunAt(i)))
  {
    hide Folding.RunAt, Folding.FoldedAt, WellFormedOp, Folding.Found, Folding.DeadUnread, Folding.StoresJudged,
      Folding.FrameApart;
    hide Folding.AddressesDefined, Folding.FoldOf, Folding.InlineEnv, Perform, Args, Function.Valid, Matches;
    if i == 0 {
      FoldStarts(g);
    } else {
      FoldKeepsRun(g, i - 1);
      FoldStep(g, i - 1);
    }
    if i < g.Length() && g.f.At(g.b, i) && !g.Skipped(i) && !g.Folded(i) {
      SameArgs(g, i, g.FoldedAt(i));
    }
  }

  lemma FoldStarts(g: Folding)
    requires g.Valid()
    ensures Matches(g, g.FoldedAt(0), 0)
  {
    hide Folding.FoldOf;
  }

  lemma FoldStep(g: Folding, i: nat)
    requires g.Sound() && i < g.Length() && Matches(g, g.FoldedAt(i), i)
    ensures Matches(g, g.FoldedAt(i + 1), i + 1)
  {
    hide Folding.RunAt, Folding.FoldedAt, WellFormedOp, Folding.Found, Folding.DeadUnread, Folding.StoresJudged,
      Folding.FrameApart;
    hide Folding.AddressesDefined, Folding.FoldOf, Folding.InlineEnv, Perform, Args, Folding.Valid;
    RunNext(g, i);
    FoldedNext(g, i);
    var op := g.f.OpAt(g.b, i);
    if !g.Skipped(i) {
      if g.Folded(i) {
        FoldedLoadStep(g, i);
      } else {
        SameArgs(g, i, g.FoldedAt(i));
        PerformSame(g.f.blocks[g.b][i], op, Args(op, g.EnvOf(g.RunAt(i))), g.FoldedAt(i), g.RunAt(i), g.w);
      }
    }
  }

  // ----- a slot that ends at the entry stack pointer

  function LastByte(): Expr {
    Bin(Sub, 64, EntryReg(64, 0), Const(64, 1))
  }

  function LastByteOps(): seq<Op> {
    [Op(Load, Some(0), 8, [LastByte()]), Op(Store, None, 8, [LastByte(), Const(8, 1)]),
      Op(Plain, None, 0, [Value(8, 0)])]
  }

  /** `x = load sp-1; store sp-1, 1; use x`, one byte wide, from memory and registers that hold 0. */
  function LastByteFolding(): Folding {
    Folding(Function(LastByteOps(), [[0, 1, 2]]), Some(0), 0, {}, {0}, {},
            World(_ => 0, (_, _) => 0, (_, _, m) => m, (_, _, _) => 0), State(_ => 0, _ => 0))
  }

  lemma Pow2IsBig()
    ensures Pow2(8) == 256 && Pow2(64) > 256
  {
    Pow2Monotone(9, 64);
    assert Pow2(8) == 2 * Pow2(7) && Pow2(7) == 2 * Pow2(6) && Pow2(6) == 2 * Pow2(5);
    assert Pow2(5) == 32;
  }

  lemma LastByteWellFormed(k: nat)
    requires k < 3
    ensures WellFormedOp(LastByteOps()[k])
  {
    hide Pow2;
    Pow2IsBig();
    assert WellTyped(LastByte());
  }

  lemma LastByteValid()
    ensures LastByteFolding().Valid()
    ensures forall b: nat, i: nat :: LastByteFolding().f.At(b, i) <==> b == 0 && i < 3
    ensures forall i: nat | i < 3 :: LastByteFolding().f.OpAt(0, i) == LastByteOps()[i]
  {
    hide WellFormedOp, LastByteOps;
    LastByteResults();
    forall k: nat | k < 3 ensures WellFormedOp(LastByteOps()[k]) { LastByteWellFormed(k); }
    OneBlock(LastByteFolding().f);
  }

  /** Three ops in one block, only the first of which defines anything. */
  lemma OneBlock(f: Function)
    requires f.blocks == [[0, 1, 2]] && |f.ops| == 3 && f.ops[1].result.None? && f.ops[2].result.None?
    requires forall k: nat | k < 3 :: WellFormedOp(f.ops[k])
    ensures f.Valid() && forall b: nat, i: nat :: f.At(b, i) <==> b == 0 && i < 3
    ensures forall i: nat | i < 3 :: f.OpAt(0, i) == f.ops[i]
  {
    hide WellFormedOp;
    assert f.blocks[0] == [0, 1, 2];
  }

  lemma LastByteResults()
    ensures |LastByteOps()| == 3 && LastByteOps()[1].result.None? && LastByteOps()[2].result.None?
  {}

  lemma LastByteReads()
    ensures Reads(LastByteOps()[0]) == {} && Reads(LastByteOps()[1]) == {} && Reads(LastByteOps()[2]) == {0}
  {
    var use := LastByteOps()[2];
    assert use.operands[0] in use.operands && Leaves(use.operands[0]) == {0};
  }

  lemma LastByteClass()
    ensures Classify(Some(0), LastByte()) == StackSlot(-1) && Wraps(StackSlot(-1), 1)
    ensures MayAlias(Some(0), LastByte(), 1, LastByte(), 1) == No
  {
    hide Pow2;
    Pow2IsBig();
    ModUnique(-1, WORD_SIZE, -1, WORD_SIZE - 1);
    assert Pow2(64) == 2 * Pow2(63) by { PowTwice(63); }
    assert FrameDelta(Some(0), EntryReg(64, 0), 1) == Some(0);
    NoAliasExactly(StackSlot(-1), 1, StackSlot(-1), 1);
  }

  lemma PowTwice(w: nat)
    ensures Pow2(w + 1) == 2 * Pow2(w)
  {}

  /** A block of a load, a store known not to overwrite it, and a use, with the load folded. */
  ghost predicate LoadStoreUse(g: Folding) {
    && g.Valid() && g.b == 0 && g.stack == {0} && g.memory == {} && g.dead == {}
    && g.f.blocks[0] == [0, 1, 2] && (forall b: nat, i: nat :: g.f.At(b, i) <==> b == 0 && i < 3)
    && WellFormedOp(g.f.OpAt(0, 0)) && g.f.OpAt(0, 0).code.Load? && g.f.OpAt(0, 0).result == Some(0)
    && WellFormedOp(g.f.OpAt(0, 1)) && g.f.OpAt(0, 1).code.Store? && !MayOverwrite(g.sp, g.f.OpAt(0, 0), g.f.OpAt(0, 1))
    && g.f.OpAt(0, 2) == Op(Plain, None, 0, [Value(8, 0)])
    && Classify(g.sp, g.f.OpAt(0, 0).operands[0]).StackSlot? && Classify(g.sp, g.f.OpAt(0, 1).operands[0]).StackSlot?
    && Reads(g.f.OpAt(0, 0)) == {} && Reads(g.f.OpAt(0, 1)) == {} && Reads(g.f.OpAt(0, 2)) == {0}
  }

  lemma LoadStoreUseFound(g: Folding)
    requires LoadStoreUse(g)
    ensures g.Valid() && g.Found() && g.DeadUnread() && g.AddressesDefined() && g.FrameApart()
  {
    hide Reads, MayAlias, MayOverwrite, WellFormedOp, Classify, Function.Valid;
    assert LiveUse(g.f, {}, 0, 0, 2);
    assert !Clobbered(g.f, g.sp, 0, 0, 2);
    assert FoldableStack(g.f, g.sp, {}, 0, 0);
  }

  lemma LastByteIsLoadStoreUse()
    ensures LoadStoreUse(LastByteFolding())
  {
    hide Pow2, Reads, MayAlias, WellFormedOp, Folding.Valid, Classify;
    LastByteValid();
    LastByteReads();
    LastByteClass();
    LastByteWellFormed(0);
    LastByteWellFormed(1);
  }

  /** Both one-byte accesses are at the same address, in either run. */
  lemma LastByteAddress(env: Env)
    requires env.reg == LastByteFolding().w.regs
    ensures WellTyped(LastByte()) && Eval(LastByte(), env) == WORD_SIZE - 1
  {
    hide Pow2, Eval;
    Pow2IsBig();
    assert WellTyped(LastByte());
    OffsetParts(LastByte(), env);
    EntryValue(EntryReg(64, 0), env);
    SmallMod(0, WORD_SIZE);
    ModUnique(-1, WORD_SIZE, -1, WORD_SIZE - 1);
  }

  lemma ByteBack(mem: Memory, a: nat)
    requires a < WORD_SIZE
    ensures Read(Write(mem, a, 1, 1), a, 1) == 1
  {
    hide Pow2;
    SmallMod(a, WORD_SIZE);
    SmallMod(0, WORD_SIZE);
    PowZero();
    assert Touches(a, 1, a);
    assert Write(mem, a, 1, 1)(a) == 1;
  }

  lemma PowZero()
    ensures Pow2(0) == 1
  {}

  lemma UseReads(v: nat, env: Env)
    requires v < 256 && env.value(0) == v && WellFormedOp(Op(Plain, None, 0, [Value(8, 0)]))
    ensures Args(Op(Plain, None, 0, [Value(8, 0)]), env) == [v]
  {
    hide Pow2;
    Pow2IsBig();
  }

  lemma LastByteStores(env: Env)
    requires env.reg == LastByteFolding().w.regs
    ensures WellFormedOp(LastByteOps()[1]) && Args(LastByteOps()[1], env) == [WORD_SIZE - 1, 1]
  {
    hide Pow2;
    LastByteWellFormed(1);
    LastByteAddress(env);
  }

  lemma LastByteRuns(g: Folding)
    requires g == LastByteFolding()
    ensures LoadStoreUse(g) && g.RunAt(2).values(0) == 0 && g.FoldOf(0, 2) == Some(0)
    ensures g.FoldedAt(2).mem == Write(g.s0.mem, WORD_SIZE - 1, 1, 1)
  {
    hide Pow2, Reads, MayAlias, WellFormedOp, Classify, Eval, Write, Touches, Args;
    LastByteIsLoadStoreUse();
    RunNext(g, 0);
    RunNext(g, 1);
    FoldedNext(g, 0);
    FoldedNext(g, 1);
    LastByteStores(g.InlineEnv(g.FoldedAt(1), 1));
  }

  /** The use is given the 0 that was loaded; printed, it reads the 1 stored meanwhile. */
  lemma LastByteGoesWrong(g: Folding)
    requires g == LastByteFolding()
    ensures g.Valid() && g.Found() && g.DeadUnread() && g.AddressesDefined() && g.FrameApart()
    ensures WellFormedOp(g.f.OpAt(0, 2)) && Args(g.f.OpAt(0, 2), g.EnvOf(g.RunAt(2))) == [0]
    ensures Args(g.f.OpAt(0, 2), g.InlineEnv(g.FoldedAt(2), 2)) == [1]
    ensures !g.StoresJudged()
  {
    hide Pow2, Reads, MayAlias, MayOverwrite, WellFormedOp, Classify, Eval, Write, Touches, Args, Folding.RunAt,
      Folding.FoldedAt;
    hide Folding.Found, Folding.DeadUnread, Folding.AddressesDefined, Folding.FrameApart, Folding.StoresJudged,
      LastByteFolding, Function.Valid;
    LastByteRuns(g);
    LoadStoreUseFound(g);
    OpFacts(g, 2);
    UseReads(0, g.EnvOf(g.RunAt(2)));
    LastByteInlined(g);
    UseReads(1, g.InlineEnv(g.FoldedAt(2), 2));
    if g.StoresJudged() {
      FoldKeepsRun(g, 2);
      assert false;
    }
  }

  lemma LastByteInlined(g: Folding)
    requires g == LastByteFolding()
    ensures g.Valid() && g.Inlined(g.FoldedAt(2), 0, 2) == 1
  {
    hide Pow2, Reads, MayAlias, MayOverwrite, WellFormedOp, Classify, Eval, Write, Touches, Args, Folding.RunAt,
      Folding.FoldedAt, Read;
    LastByteRuns(g);
    LastByteAddress(g.InlineEnv(g.FoldedAt(2), 0));
    Pow2IsBig();
    ByteBack(g.s0.mem, WORD_SIZE - 1);
  }
}
