/** Loads whose temporary can be replaced by reading memory again at each use. */
module LoadFolding {
  import opened Bits
  import opened Expressions
  import opened Basics
  import opened StackFrames

  datatype OpCode = Load | Store | Call | Intrinsic | Unimplemented | Plain

  /** `bits` is the accessed width of a load or store. Operand 0 of either is the address. */
  datatype Op = Op(code: OpCode, result: Option<nat>, bits: nat, operands: seq<Expr>) {

    predicate Barrier() {
      code.Call? || code.Intrinsic? || code.Unimplemented?
    }

    function Bytes(): nat {
      bits / 8
    }
  }

  /** The values an op reads. */
  function Reads(op: Op): set<nat> {
    set e, x | e in op.operands && x in Leaves(e) :: x
  }

  predicate WellFormedOp(op: Op) {
    && (forall e | e in op.operands :: WellTyped(e))
    && (op.code.Load? ==> |op.operands| == 1)
    && (op.code.Store? ==> |op.operands| == 2 && op.result.None?)
    && (op.code.Load? || op.code.Store? ==> op.operands[0].Width() == WORD && op.bits <= 8 * MAX_BYTES)
  }

  /** Ops in a table, listed by number in the blocks. */
  datatype Function = Function(ops: seq<Op>, blocks: seq<seq<nat>>) {

    predicate At(b: nat, i: nat) {
      b < |blocks| && i < |blocks[b]| && blocks[b][i] < |ops|
    }

    function OpAt(b: nat, i: nat): Op
      requires At(b, i)
    {
      ops[blocks[b][i]]
    }

    /** Every listed op stands in one place, and every value has one definition. */
    ghost predicate Valid() {
      && (forall b: nat, i: nat | b < |blocks| && i < |blocks[b]| :: At(b, i) && WellFormedOp(OpAt(b, i)))
      && (forall b: nat, i: nat, c: nat, k: nat | At(b, i) && At(c, k) :: blocks[b][i] == blocks[c][k] ==>
           b == c && i == k)
      && (forall b: nat, i: nat, c: nat, k: nat | At(b, i) && At(c, k) ::
            OpAt(b, i).result.Some? && OpAt(b, i).result == OpAt(c, k).result ==> b == c && i == k)
    }
  }

  /** The op at `k` may overwrite what the load read. */
  predicate MayOverwrite(sp: Option<nat>, load: Op, op: Op)
    requires WellFormedOp(load) && load.code.Load? && WellFormedOp(op)
  {
    op.Barrier() || (op.code.Store? && MayAlias(sp, load.operands[0], load.Bytes(), op.operands[0], op.Bytes()) != No)
  }

  /** A load or a plain op overwrites nothing, a barrier may overwrite anything, and a store to the load's
      kind of storage may exactly if the two share a byte, neither reaching past the end of the address space. */
  lemma OverwritesExactly(sp: Option<nat>, load: Op, op: Op)
    requires WellFormedOp(load) && load.code.Load? && WellFormedOp(op)
    ensures op.code.Load? || op.code.Plain? ==> !MayOverwrite(sp, load, op)
    ensures op.code.Call? || op.code.Intrinsic? || op.code.Unimplemented? ==> MayOverwrite(sp, load, op)
    ensures op.code.Store? && load.Bytes() > 0 && op.Bytes() > 0 ==>
              var a, b := Classify(sp, load.operands[0]), Classify(sp, op.operands[0]);
              && (a.Unclassified? || b.Unclassified? ==> MayOverwrite(sp, load, op))
              && (!a.Unclassified? && !b.Unclassified? && a.StackSlot? == b.StackSlot?
                  && !Wraps(a, load.Bytes()) && !Wraps(b, op.Bytes()) ==>
                    (MayOverwrite(sp, load, op) <==> !Disjoint(Base(a), load.Bytes(), Base(b), op.Bytes())))
              && (!a.Unclassified? && !b.Unclassified? && a.StackSlot? != b.StackSlot? ==> !MayOverwrite(sp, load, op))
  {
    hide Pow2, Classify, Wraps, Disjoint, AliasOf;
    if op.code.Store? && load.Bytes() > 0 && op.Bytes() > 0 {
      var a, b := Classify(sp, load.operands[0]), Classify(sp, op.operands[0]);
      AliasExactly(a, load.Bytes(), b, op.Bytes());
      if !a.Unclassified? && !b.Unclassified? && a.StackSlot? == b.StackSlot? {
        NoAliasExactly(a, load.Bytes(), b, op.Bytes());
      }
    }
  }

  ghost predicate Clobbered(f: Function, sp: Option<nat>, b: nat, i: nat, j: nat)
    requires f.Valid() && f.At(b, i) && f.OpAt(b, i).code.Load?
  {
    exists k: nat :: i < k < j && f.At(b, k) && MayOverwrite(sp, f.OpAt(b, i), f.OpAt(b, k))
  }

  /** An op that is not dead reads the value. */
  predicate LiveUse(f: Function, dead: set<nat>, x: nat, c: nat, k: nat) {
    f.At(c, k) && f.blocks[c][k] !in dead && x in Reads(f.OpAt(c, k))
  }

  /** The use is the whole address of a load or store. */
  predicate IsAddressOperand(op: Op, x: nat) {
    && (op.code.Load? || op.code.Store?) && |op.operands| > 0
    && op.operands[0].Value? && op.operands[0].id == x
  }

  /** A load with a live use, all of whose live uses come after it in its own block with nothing
      between that may overwrite what it read. */
  ghost predicate Foldable(f: Function, sp: Option<nat>, dead: set<nat>, b: nat, i: nat)
    requires f.Valid() && f.At(b, i)
  {
    var op := f.OpAt(b, i);
    && op.code.Load? && op.result.Some?
    && (exists c: nat, k: nat :: LiveUse(f, dead, op.result.value, c, k))
    && forall c: nat, k: nat | LiveUse(f, dead, op.result.value, c, k) :: SafeUse(f, sp, b, i, c, k)
  }

  ghost predicate SafeUse(f: Function, sp: Option<nat>, b: nat, i: nat, c: nat, k: nat)
    requires f.Valid() && f.At(b, i) && f.OpAt(b, i).code.Load?
  {
    c == b && k > i && !Clobbered(f, sp, b, i, k)
  }

  ghost predicate FoldableStack(f: Function, sp: Option<nat>, dead: set<nat>, b: nat, i: nat)
    requires f.Valid() && f.At(b, i)
  {
    Foldable(f, sp, dead, b, i) && Classify(sp, f.OpAt(b, i).operands[0]).StackSlot?
  }

  ghost predicate FoldableMemory(f: Function, sp: Option<nat>, dead: set<nat>, b: nat, i: nat)
    requires f.Valid() && f.At(b, i)
  {
    && Foldable(f, sp, dead, b, i) && !Classify(sp, f.OpAt(b, i).operands[0]).StackSlot?
    && !AddressUse(f, dead, f.OpAt(b, i).result.value)
  }

  ghost predicate AddressUse(f: Function, dead: set<nat>, x: nat) {
    exists c: nat, k: nat :: LiveUse(f, dead, x, c, k) && IsAddressOperand(f.OpAt(c, k), x)
  }

  // ----- where values are read

  datatype Site = Site(block: nat, op: nat)

  /** The op at position `k` of block `c`, numbered `s.op`, reads `x`. */
  ghost predicate UseAt(f: Function, x: nat, s: Site, c: nat, k: nat) {
    f.At(c, k) && s.block == c && s.op == f.blocks[c][k] && x in Reads(f.OpAt(c, k))
  }

  ghost predicate IsSite(f: Function, x: nat, s: Site) {
    exists k: nat :: UseAt(f, x, s, s.block, k)
  }

  predicate Has(uses: map<nat, seq<Site>>, x: nat, s: Site) {
    x in uses && s in uses[x]
  }

  ghost predicate Before(c: nat, k: nat, b: nat, i: nat) {
    c < b || (c == b && k < i)
  }

  /** The sites seen so far: those of positions before `i` of block `b`. */
  ghost predicate Collected(f: Function, uses: map<nat, seq<Site>>, b: nat, i: nat) {
    && (forall x, s | Has(uses, x, s) :: exists k: nat :: UseAt(f, x, s, s.block, k) && Before(s.block, k, b, i))
    && (forall x, c: nat, k: nat | f.At(c, k) && Before(c, k, b, i) && x in Reads(f.OpAt(c, k)) ::
          Has(uses, x, Site(c, f.blocks[c][k])))
  }

  lemma HasSnoc(uses: map<nat, seq<Site>>, x: nat, site: Site)
    ensures var now := uses[x := (if x in uses then uses[x] else []) + [site]];
            forall y, s :: Has(now, y, s) <==> Has(uses, y, s) || (y == x && s == site)
  {
    var sites := if x in uses then uses[x] else [];
    var now := uses[x := sites + [site]];
    forall y, s ensures Has(now, y, s) <==> Has(uses, y, s) || (y == x && s == site) {
      if y == x {
        assert s in sites + [site] <==> s in sites || s == site;
      }
    }
  }

  method AddSite(uses: map<nat, seq<Site>>, leaves: set<nat>, site: Site) returns (now: map<nat, seq<Site>>)
    ensures forall x, s :: Has(now, x, s) <==> Has(uses, x, s) || (x in leaves && s == site)
  {
    now := uses;
    var rest := leaves;
    while rest != {}
      invariant rest <= leaves
      invariant forall x, s :: Has(now, x, s) <==> Has(uses, x, s) || (x in leaves && x !in rest && s == site)
    {
      var x :| x in rest;
      ghost var was := now;
      now := now[x := (if x in now then now[x] else []) + [site]];
      assert forall y, s :: Has(now, y, s) <==> Has(was, y, s) || (y == x && s == site) by { HasSnoc(was, x, site); }
      rest := rest - {x};
    }
  }

  lemma CollectedNext(f: Function, uses: map<nat, seq<Site>>, now: map<nat, seq<Site>>, b: nat, i: nat)
    requires f.Valid() && f.At(b, i) && Collected(f, uses, b, i)
    requires forall x, s :: Has(now, x, s)
               <==> Has(uses, x, s) || (x in Reads(f.OpAt(b, i)) && s == Site(b, f.blocks[b][i]))
    ensures Collected(f, now, b, i + 1)
  {
    hide Reads, Function.Valid;
    forall x, s | Has(now, x, s)
      ensures exists k: nat :: UseAt(f, x, s, s.block, k) && Before(s.block, k, b, i + 1)
    {
      if Has(uses, x, s) {
        var k: nat :| UseAt(f, x, s, s.block, k) && Before(s.block, k, b, i);
        assert UseAt(f, x, s, s.block, k) && Before(s.block, k, b, i + 1);
      } else {
        assert UseAt(f, x, s, s.block, i) && Before(s.block, i, b, i + 1);
      }
    }
    forall x, c: nat, k: nat | f.At(c, k) && Before(c, k, b, i + 1) && x in Reads(f.OpAt(c, k))
      ensures Has(now, x, Site(c, f.blocks[c][k]))
    {
      if !Before(c, k, b, i) {
        assert c == b && k == i;
      }
    }
  }

  lemma CollectedBlock(f: Function, uses: map<nat, seq<Site>>, b: nat)
    requires b < |f.blocks| && Collected(f, uses, b, |f.blocks[b]|)
    ensures Collected(f, uses, b + 1, 0)
  {
    hide Reads;
    forall x, s | Has(uses, x, s)
      ensures exists k: nat :: UseAt(f, x, s, s.block, k) && Before(s.block, k, b + 1, 0)
    {
      var k: nat :| UseAt(f, x, s, s.block, k) && Before(s.block, k, b, |f.blocks[b]|);
      assert UseAt(f, x, s, s.block, k) && Before(s.block, k, b + 1, 0);
    }
    forall x, c: nat, k: nat | f.At(c, k) && Before(c, k, b + 1, 0) && x in Reads(f.OpAt(c, k))
      ensures Has(uses, x, Site(c, f.blocks[c][k]))
    {
      assert Before(c, k, b, |f.blocks[b]|);
    }
  }

  /** Readers of each value, over the whole function. */
  method CollectValueUses(f: Function) returns (uses: map<nat, seq<Site>>)
    requires f.Valid()
    ensures Collected(f, uses, |f.blocks|, 0)
  {
    hide Reads, Collected, WellFormedOp;
    uses := map[];
    NothingCollected(f);
    for b := 0 to |f.blocks|
      invariant Collected(f, uses, b, 0)
    {
      for i := 0 to |f.blocks[b]|
        invariant Collected(f, uses, b, i)
      {
        assert f.At(b, i);
        var now := AddSite(uses, Reads(f.OpAt(b, i)), Site(b, f.blocks[b][i]));
        CollectedNext(f, uses, now, b, i);
        uses := now;
      }
      CollectedBlock(f, uses, b);
    }
  }

  lemma NothingCollected(f: Function)
    ensures Collected(f, map[], 0, 0)
  {}

  // ----- the two scans

  method ClobberedBetween(f: Function, sp: Option<nat>, b: nat, i: nat, j: nat) returns (r: bool)
    requires f.Valid() && f.At(b, i) && f.OpAt(b, i).code.Load? && f.At(b, j)
    ensures r == Clobbered(f, sp, b, i, j)
  {
    hide MayOverwrite;
    var k := i + 1;
    while k < j
      invariant i < k
      invariant forall m: nat | i < m < k && f.At(b, m) :: !MayOverwrite(sp, f.OpAt(b, i), f.OpAt(b, m))
    {
      assert f.At(b, k);
      if MayOverwrite(sp, f.OpAt(b, i), f.OpAt(b, k)) { return true; }
      k := k + 1;
    }
    return false;
  }

  ghost predicate Indexes(f: Function, b: nat, indexOf: map<nat, nat>) {
    && b < |f.blocks|
    && (forall o | o in indexOf :: indexOf[o] < |f.blocks[b]| && f.blocks[b][indexOf[o]] == o)
    && (forall k: nat | k < |f.blocks[b]| :: f.blocks[b][k] in indexOf && indexOf[f.blocks[b][k]] == k)
  }

  method IndexBlock(f: Function, b: nat) returns (indexOf: map<nat, nat>)
    requires f.Valid() && b < |f.blocks|
    ensures Indexes(f, b, indexOf)
  {
    hide WellFormedOp;
    indexOf := map[];
    for i := 0 to |f.blocks[b]|
      invariant forall o | o in indexOf :: indexOf[o] < i && f.blocks[b][indexOf[o]] == o
      invariant forall k: nat | k < i :: f.blocks[b][k] in indexOf && indexOf[f.blocks[b][k]] == k
    {
      assert f.At(b, i);
      assert forall k: nat | k < i :: f.At(b, k);
      indexOf := indexOf[f.blocks[b][i] := i];
    }
  }

  /** A live site that cannot be folded, where the site loop stops. */
  lemma BadSite(f: Function, sp: Option<nat>, dead: set<nat>, b: nat, i: nat, indexOf: map<nat, nat>, x: nat, s: Site)
    requires f.Valid() && f.At(b, i) && f.OpAt(b, i).code.Load? && f.OpAt(b, i).result == Some(x)
             && Indexes(f, b, indexOf)
    requires IsSite(f, x, s) && s.op !in dead
    requires s.block != b || s.op !in indexOf || indexOf[s.op] <= i || Clobbered(f, sp, b, i, indexOf[s.op])
    ensures !Foldable(f, sp, dead, b, i)
  {
    hide Reads, Function.Valid, Clobbered;
    var k: nat :| UseAt(f, x, s, s.block, k);
    assert LiveUse(f, dead, x, s.block, k);
    assert !SafeUse(f, sp, b, i, s.block, k);
  }

  lemma SiteOf(f: Function, uses: map<nat, seq<Site>>, x: nat)
    requires Collected(f, uses, |f.blocks|, 0)
    ensures x in uses ==> forall s | s in uses[x] :: IsSite(f, x, s)
    ensures forall c: nat, k: nat | f.At(c, k) && x in Reads(f.OpAt(c, k)) ::
            x in uses && Site(c, f.blocks[c][k]) in uses[x]
  {
    hide Reads;
    forall c: nat, k: nat | f.At(c, k) && x in Reads(f.OpAt(c, k))
      ensures x in uses && Site(c, f.blocks[c][k]) in uses[x] {
      assert Before(c, k, |f.blocks|, 0);
      assert Has(uses, x, Site(c, f.blocks[c][k]));
    }
    if x in uses {
      forall s | s in uses[x] ensures IsSite(f, x, s) {
        assert Has(uses, x, s);
        var k: nat :| UseAt(f, x, s, s.block, k) && Before(s.block, k, |f.blocks|, 0);
      }
    }
  }

  ghost predicate GoodSite(f: Function, sp: Option<nat>, b: nat, i: nat, indexOf: map<nat, nat>, s: Site)
    requires f.Valid() && f.At(b, i) && f.OpAt(b, i).code.Load?
  {
    s.block == b && s.op in indexOf && indexOf[s.op] > i && !Clobbered(f, sp, b, i, indexOf[s.op])
  }

  lemma GoodSites(f: Function, sp: Option<nat>, dead: set<nat>, b: nat, i: nat, indexOf: map<nat, nat>,
      uses: map<nat, seq<Site>>, x: nat, at: Site)
    requires f.Valid() && f.At(b, i) && f.OpAt(b, i).code.Load? && f.OpAt(b, i).result == Some(x)
             && Indexes(f, b, indexOf)
    requires Collected(f, uses, |f.blocks|, 0) && x in uses && at in uses[x] && at.op !in dead
    requires forall s | s in uses[x] && s.op !in dead :: GoodSite(f, sp, b, i, indexOf, s)
    ensures Foldable(f, sp, dead, b, i)
  {
    hide Reads, Function.Valid, Clobbered, Collected;
    SiteOf(f, uses, x);
    assert IsSite(f, x, at);
    var n: nat :| UseAt(f, x, at, at.block, n);
    assert LiveUse(f, dead, x, at.block, n);
    forall c: nat, k: nat | LiveUse(f, dead, x, c, k) ensures SafeUse(f, sp, b, i, c, k) {
      assert GoodSite(f, sp, b, i, indexOf, Site(c, f.blocks[c][k]));
    }
  }

  /** The live uses' positions, unless one is elsewhere or not after the load. */
  method LiveUseIndices(f: Function, ghost sp: Option<nat>, dead: set<nat>, b: nat, i: nat, indexOf: map<nat, nat>,
      ghost uses: map<nat, seq<Site>>, sites: seq<Site>) returns (eligible: bool, indices: seq<nat>)
    requires f.Valid() && f.At(b, i) && f.OpAt(b, i).code.Load? && f.OpAt(b, i).result.Some? && Indexes(f, b, indexOf)
    requires Collected(f, uses, |f.blocks|, 0) && f.OpAt(b, i).result.value in uses
             && sites == uses[f.OpAt(b, i).result.value]
    ensures !eligible ==> !Foldable(f, sp, dead, b, i)
    ensures eligible ==> forall s | s in sites && s.op !in dead ::
            s.block == b && s.op in indexOf && indexOf[s.op] > i && indexOf[s.op] in indices
    ensures forall k | k in indices :: f.At(b, k) && exists s ::
            s in sites && s.op !in dead && s.block == b && s.op in indexOf && indexOf[s.op] == k
  {
    hide Reads, Clobbered, Collected, Foldable, WellFormedOp;
    ghost var x := f.OpAt(b, i).result.value;
    SiteOf(f, uses, x);
    indices := [];
    for n := 0 to |sites|
      invariant forall m: nat | m < n && sites[m].op !in dead ::
                  sites[m].block == b && sites[m].op in indexOf && indexOf[sites[m].op] > i
                    && indexOf[sites[m].op] in indices
      invariant forall k | k in indices ::
                  f.At(b, k) && exists s ::
                    s in sites && s.op !in dead && s.block == b && s.op in indexOf && indexOf[s.op] == k
    {
      var s := sites[n];
      if s.op in dead { continue; }
      if s.block != b || s.op !in indexOf || indexOf[s.op] <= i {
        BadSite(f, sp, dead, b, i, indexOf, x, s);
        return false, indices;
      }
      assert s in sites && f.At(b, indexOf[s.op]);
      indices := indices + [indexOf[s.op]];
    }
    eligible := true;
  }

  /** The checks both scans share. */
  method CheckUses(f: Function, sp: Option<nat>, dead: set<nat>, b: nat, i: nat, indexOf: map<nat, nat>,
      uses: map<nat, seq<Site>>)
    returns (ok: bool)
    requires f.Valid() && f.At(b, i) && f.OpAt(b, i).code.Load? && f.OpAt(b, i).result.Some? && Indexes(f, b, indexOf)
    requires Collected(f, uses, |f.blocks|, 0)
    ensures ok == Foldable(f, sp, dead, b, i)
  {
    hide Reads, Clobbered, Collected, Foldable, Function.Valid;
    var x := f.OpAt(b, i).result.value;
    SiteOf(f, uses, x);
    if x !in uses {
      NoUse(f, sp, dead, b, i, uses);
      return false;
    }
    var eligible, indices := LiveUseIndices(f, sp, dead, b, i, indexOf, uses, uses[x]);
    if !eligible { return false; }
    if indices == [] {
      NoUse(f, sp, dead, b, i, uses);
      return false;
    }
    for n := 0 to |indices|
      invariant forall m: nat | m < n :: !Clobbered(f, sp, b, i, indices[m])
    {
      assert indices[n] in indices;
      var bad := ClobberedBetween(f, sp, b, i, indices[n]);
      if bad {
        var s :| s in uses[x] && s.op !in dead && s.block == b && s.op in indexOf && indexOf[s.op] == indices[n];
        BadSite(f, sp, dead, b, i, indexOf, x, s);
        return false;
      }
    }
    assert indices[0] in indices;
    ghost var at :| at in uses[x] && at.op !in dead && at.block == b && at.op in indexOf
      && indexOf[at.op] == indices[0];
    GoodSites(f, sp, dead, b, i, indexOf, uses, x, at);
    return true;
  }

  lemma NoUse(f: Function, sp: Option<nat>, dead: set<nat>, b: nat, i: nat, uses: map<nat, seq<Site>>)
    requires f.Valid() && f.At(b, i) && f.OpAt(b, i).result.Some? && Collected(f, uses, |f.blocks|, 0)
    requires var x := f.OpAt(b, i).result.value; x in uses ==> forall s | s in uses[x] :: s.op in dead
    ensures !Foldable(f, sp, dead, b, i)
  {
    hide Reads, Clobbered, Collected, Function.Valid;
    SiteOf(f, uses, f.OpAt(b, i).result.value);
  }

  /** Whether any live use, and whether every live use, is the whole address of a load or store. */
  method AddressUses(f: Function, dead: set<nat>, uses: map<nat, seq<Site>>, x: nat) returns (any: bool, all: bool)
    requires f.Valid() && Collected(f, uses, |f.blocks|, 0) && x in uses
    ensures any == AddressUse(f, dead, x)
    ensures all == OnlyAddressUses(f, dead, x)
  {
    hide Reads, Collected, IsAddressOperand, Function.Valid;
    SiteOf(f, uses, x);
    any, all := false, true;
    for n := 0 to |uses[x]|
      invariant any <==> exists m: nat :: m < n && AddressSite(f, dead, x, uses[x][m])
      invariant all <==> forall m: nat | m < n :: OrdinarySite(f, dead, x, uses[x][m])
    {
      var s := uses[x][n];
      assert IsSite(f, x, s);
      if s.op !in dead && IsAddressOperand(f.ops[s.op], x) {
        assert AddressSite(f, dead, x, uses[x][n]);
        any := true;
      }
      if s.op !in dead && !IsAddressOperand(f.ops[s.op], x) {
        assert !OrdinarySite(f, dead, x, uses[x][n]);
        all := false;
      }
    }
    SitesAreUses(f, dead, uses, x);
  }

  ghost predicate AddressSite(f: Function, dead: set<nat>, x: nat, s: Site) {
    s.op < |f.ops| && s.op !in dead && IsAddressOperand(f.ops[s.op], x)
  }

  ghost predicate OrdinarySite(f: Function, dead: set<nat>, x: nat, s: Site) {
    s.op < |f.ops| && (s.op !in dead ==> IsAddressOperand(f.ops[s.op], x))
  }

  ghost predicate OnlyAddressUses(f: Function, dead: set<nat>, x: nat) {
    forall c: nat, k: nat | LiveUse(f, dead, x, c, k) :: IsAddressOperand(f.OpAt(c, k), x)
  }

  lemma SitesAreUses(f: Function, dead: set<nat>, uses: map<nat, seq<Site>>, x: nat)
    requires f.Valid() && Collected(f, uses, |f.blocks|, 0) && x in uses
    ensures (exists m: nat :: m < |uses[x]| && AddressSite(f, dead, x, uses[x][m])) <==> AddressUse(f, dead, x)
    ensures (forall m: nat | m < |uses[x]| :: OrdinarySite(f, dead, x, uses[x][m])) <==> OnlyAddressUses(f, dead, x)
  {
    hide Reads, Collected, IsAddressOperand, Function.Valid;
    SiteOf(f, uses, x);
    forall m: nat | m < |uses[x]|
      ensures AddressSite(f, dead, x, uses[x][m]) ==> AddressUse(f, dead, x)
      ensures OnlyAddressUses(f, dead, x) ==> OrdinarySite(f, dead, x, uses[x][m])
    {
      assert IsSite(f, x, uses[x][m]);
      var k: nat :| UseAt(f, x, uses[x][m], uses[x][m].block, k);
      if uses[x][m].op !in dead { assert LiveUse(f, dead, x, uses[x][m].block, k); }
    }
    forall c: nat, k: nat | LiveUse(f, dead, x, c, k)
      ensures exists m: nat :: m < |uses[x]| && uses[x][m].op == f.blocks[c][k]
    {
      var m: nat :| m < |uses[x]| && uses[x][m] == Site(c, f.blocks[c][k]);
    }
    if AddressUse(f, dead, x) {
      var c: nat, k: nat :| LiveUse(f, dead, x, c, k) && IsAddressOperand(f.OpAt(c, k), x);
      var m: nat :| m < |uses[x]| && uses[x][m].op == f.blocks[c][k];
      assert AddressSite(f, dead, x, uses[x][m]);
    }
    if forall m: nat | m < |uses[x]| :: OrdinarySite(f, dead, x, uses[x][m]) {
      forall c: nat, k: nat | LiveUse(f, dead, x, c, k) ensures IsAddressOperand(f.OpAt(c, k), x) {
        var m: nat :| m < |uses[x]| && uses[x][m].op == f.blocks[c][k];
        assert OrdinarySite(f, dead, x, uses[x][m]);
      }
    }
  }

  datatype StackFold = StackFold(delta: int, width: nat, usedAsAddress: bool)

  datatype MemoryFold = MemoryFold(address: Expr, width: nat)

  ghost function StackFoldAt(f: Function, sp: Option<nat>, dead: set<nat>, b: nat, i: nat): StackFold
    requires f.Valid() && f.At(b, i) && FoldableStack(f, sp, dead, b, i)
  {
    var op := f.OpAt(b, i);
    StackFold(Classify(sp, op.operands[0]).delta, op.bits, OnlyAddressUses(f, dead, op.result.value))
  }

  ghost function MemoryFoldAt(f: Function, sp: Option<nat>, dead: set<nat>, b: nat, i: nat): MemoryFold
    requires f.Valid() && f.At(b, i) && FoldableMemory(f, sp, dead, b, i)
  {
    MemoryFold(f.OpAt(b, i).operands[0], f.OpAt(b, i).bits)
  }

  /** The findings are right for the positions before `i` of block `b`, and empty beyond. */
  ghost predicate StackFound(f: Function, sp: Option<nat>, dead: set<nat>, out: map<nat, StackFold>, b: nat, i: nat)
    requires f.Valid()
  {
    forall c: nat, k: nat | f.At(c, k) ::
      && (f.blocks[c][k] in out <==> Before(c, k, b, i) && FoldableStack(f, sp, dead, c, k))
      && (f.blocks[c][k] in out ==> out[f.blocks[c][k]] == StackFoldAt(f, sp, dead, c, k))
  }

  ghost predicate MemoryFound(f: Function, sp: Option<nat>, dead: set<nat>, out: map<nat, MemoryFold>, b: nat, i: nat)
    requires f.Valid()
  {
    forall c: nat, k: nat | f.At(c, k) ::
      && (f.blocks[c][k] in out <==> Before(c, k, b, i) && FoldableMemory(f, sp, dead, c, k))
      && (f.blocks[c][k] in out ==> out[f.blocks[c][k]] == MemoryFoldAt(f, sp, dead, c, k))
  }

  /** What is recorded of a folded stack load: where its slot is from the entry stack pointer, in every
      environment; how wide it is; and whether all its live uses are the whole address of a load or store. */
  lemma StackFoldMeans(f: Function, sp: Option<nat>, dead: set<nat>, out: map<nat, StackFold>, b: nat, i: nat, env: Env)
    requires f.Valid() && StackFound(f, sp, dead, out, |f.blocks|, 0) && f.At(b, i) && f.blocks[b][i] in out
    ensures var op, fold := f.OpAt(b, i), out[f.blocks[b][i]];
            && op.code.Load? && WellFormedOp(op) && op.result.Some? && sp.Some?
            && Eval(op.operands[0], env) == (env.reg(sp.value) + fold.delta) % WORD_SIZE
            && fold.width == op.bits
            && (fold.usedAsAddress <==>
                  forall c: nat, k: nat | LiveUse(f, dead, op.result.value, c, k) ::
                    && (f.OpAt(c, k).code.Load? || f.OpAt(c, k).code.Store?) && f.OpAt(c, k).operands != []
                    && f.OpAt(c, k).operands[0].Value? && f.OpAt(c, k).operands[0].id == op.result.value)
  {
    hide Pow2, Classify, Eval, SafeUse;
    ClassifiedMeans(sp, f.OpAt(b, i).operands[0], env);
  }

  /** Of a folded load from elsewhere, its address and width. */
  lemma MemoryFoldMeans(f: Function, sp: Option<nat>, dead: set<nat>, out: map<nat, MemoryFold>, b: nat, i: nat)
    requires f.Valid() && MemoryFound(f, sp, dead, out, |f.blocks|, 0) && f.At(b, i) && f.blocks[b][i] in out
    ensures var op, fold := f.OpAt(b, i), out[f.blocks[b][i]];
            op.code.Load? && WellFormedOp(op) && fold.address == op.operands[0] && fold.width == op.bits
  {
    hide SafeUse, Classify;
  }

  lemma StackFoundNext(f: Function, sp: Option<nat>, dead: set<nat>, was: map<nat, StackFold>,
      now: map<nat, StackFold>, b: nat, i: nat)
    requires f.Valid() && f.At(b, i) && StackFound(f, sp, dead, was, b, i)
    requires now == if FoldableStack(f, sp, dead, b, i) then was[f.blocks[b][i] := StackFoldAt(f, sp, dead, b, i)]
             else was
    ensures StackFound(f, sp, dead, now, b, i + 1)
  {
    hide Foldable, OnlyAddressUses, WellFormedOp, Classify;
    forall c: nat, k: nat | f.At(c, k)
      ensures f.blocks[c][k] in now <==> Before(c, k, b, i + 1) && FoldableStack(f, sp, dead, c, k)
      ensures f.blocks[c][k] in now ==> now[f.blocks[c][k]] == StackFoldAt(f, sp, dead, c, k)
    {
      assert (f.blocks[c][k] == f.blocks[b][i]) == (c == b && k == i);
      assert f.blocks[c][k] in was <==> Before(c, k, b, i) && FoldableStack(f, sp, dead, c, k);
    }
  }

  lemma MemoryFoundNext(f: Function, sp: Option<nat>, dead: set<nat>, was: map<nat, MemoryFold>,
      now: map<nat, MemoryFold>, b: nat, i: nat)
    requires f.Valid() && f.At(b, i) && MemoryFound(f, sp, dead, was, b, i)
    requires now == if FoldableMemory(f, sp, dead, b, i) then was[f.blocks[b][i] := MemoryFoldAt(f, sp, dead, b, i)]
             else was
    ensures MemoryFound(f, sp, dead, now, b, i + 1)
  {
    hide Foldable, AddressUse, WellFormedOp, Classify;
    forall c: nat, k: nat | f.At(c, k)
      ensures f.blocks[c][k] in now <==> Before(c, k, b, i + 1) && FoldableMemory(f, sp, dead, c, k)
      ensures f.blocks[c][k] in now ==> now[f.blocks[c][k]] == MemoryFoldAt(f, sp, dead, c, k)
    {
      assert (f.blocks[c][k] == f.blocks[b][i]) == (c == b && k == i);
      assert f.blocks[c][k] in was <==> Before(c, k, b, i) && FoldableMemory(f, sp, dead, c, k);
    }
  }

  lemma StackFoundBlock(f: Function, sp: Option<nat>, dead: set<nat>, out: map<nat, StackFold>, b: nat)
    requires f.Valid() && b < |f.blocks| && StackFound(f, sp, dead, out, b, |f.blocks[b]|)
    ensures StackFound(f, sp, dead, out, b + 1, 0)
  {
    hide FoldableStack, StackFoldAt, Function.Valid;
    assert forall c: nat, k: nat | f.At(c, k) :: Before(c, k, b, |f.blocks[b]|) == Before(c, k, b + 1, 0);
  }

  lemma MemoryFoundBlock(f: Function, sp: Option<nat>, dead: set<nat>, out: map<nat, MemoryFold>, b: nat)
    requires f.Valid() && b < |f.blocks| && MemoryFound(f, sp, dead, out, b, |f.blocks[b]|)
    ensures MemoryFound(f, sp, dead, out, b + 1, 0)
  {
    hide FoldableMemory, MemoryFoldAt, Function.Valid;
    assert forall c: nat, k: nat | f.At(c, k) :: Before(c, k, b, |f.blocks[b]|) == Before(c, k, b + 1, 0);
  }

  /** Every foldable load from a stack slot, and no other op. */
  method FindFoldableStackLoads(f: Function, sp: Option<nat>, dead: set<nat>) returns (out: map<nat, StackFold>)
    requires f.Valid()
    ensures StackFound(f, sp, dead, out, |f.blocks|, 0)
  {
    hide Foldable, StackFound, WellFormedOp, Classify, Collected, Indexes, OnlyAddressUses, Function.Valid;
    out := map[];
    NothingFound(f, sp, dead);
    var uses := CollectValueUses(f);
    for b := 0 to |f.blocks|
      invariant StackFound(f, sp, dead, out, b, 0)
    {
      var indexOf := IndexBlock(f, b);
      for i := 0 to |f.blocks[b]|
        invariant StackFound(f, sp, dead, out, b, i)
      {
        Placed(f, b, i);
        var op := f.OpAt(b, i);
        ghost var was := out;
        if op.code.Load? && op.result.Some? {
          var safe := CheckUses(f, sp, dead, b, i, indexOf, uses);
          var info := Classify(sp, op.operands[0]);
          if safe && info.StackSlot? {
            FoldableIsUsed(f, sp, dead, b, i, uses);
            var _, usedAsAddress := AddressUses(f, dead, uses, op.result.value);
            out := out[f.blocks[b][i] := StackFold(info.delta, op.bits, usedAsAddress)];
          }
        } else {
          NotALoad(f, sp, dead, b, i);
        }
        StackFoundNext(f, sp, dead, was, out, b, i);
      }
      StackFoundBlock(f, sp, dead, out, b);
    }
  }

  /** Every foldable load from anywhere else that no live use takes as an address, and no other op. */
  method FindFoldableMemoryLoads(f: Function, sp: Option<nat>, dead: set<nat>) returns (out: map<nat, MemoryFold>)
    requires f.Valid()
    ensures MemoryFound(f, sp, dead, out, |f.blocks|, 0)
  {
    hide Foldable, MemoryFound, WellFormedOp, Classify, Collected, Indexes, AddressUse, Function.Valid;
    out := map[];
    NothingFound(f, sp, dead);
    var uses := CollectValueUses(f);
    for b := 0 to |f.blocks|
      invariant MemoryFound(f, sp, dead, out, b, 0)
    {
      var indexOf := IndexBlock(f, b);
      for i := 0 to |f.blocks[b]|
        invariant MemoryFound(f, sp, dead, out, b, i)
      {
        Placed(f, b, i);
        var op := f.OpAt(b, i);
        ghost var was := out;
        if op.code.Load? && op.result.Some? {
          if !Classify(sp, op.operands[0]).StackSlot? {
            var safe := CheckUses(f, sp, dead, b, i, indexOf, uses);
            if safe {
              FoldableIsUsed(f, sp, dead, b, i, uses);
              var usedAsAddress, _ := AddressUses(f, dead, uses, op.result.value);
              if !usedAsAddress {
                out := out[f.blocks[b][i] := MemoryFold(op.operands[0], op.bits)];
              }
            }
          }
        } else {
          NotALoad(f, sp, dead, b, i);
        }
        MemoryFoundNext(f, sp, dead, was, out, b, i);
      }
      MemoryFoundBlock(f, sp, dead, out, b);
    }
  }

  lemma NothingFound(f: Function, sp: Option<nat>, dead: set<nat>)
    requires f.Valid()
    ensures StackFound(f, sp, dead, map[], 0, 0) && MemoryFound(f, sp, dead, map[], 0, 0)
  {
    hide Function.Valid, FoldableStack, FoldableMemory;
  }

  lemma Placed(f: Function, b: nat, i: nat)
    requires f.Valid() && b < |f.blocks| && i < |f.blocks[b]|
    ensures f.At(b, i)
    ensures f.OpAt(b, i).code.Load? ==> |f.OpAt(b, i).operands| == 1
  {
    assert f.At(b, i) && WellFormedOp(f.OpAt(b, i));
  }

  lemma NotALoad(f: Function, sp: Option<nat>, dead: set<nat>, b: nat, i: nat)
    requires f.Valid() && f.At(b, i) && !(f.OpAt(b, i).code.Load? && f.OpAt(b, i).result.Some?)
    ensures !FoldableStack(f, sp, dead, b, i) && !FoldableMemory(f, sp, dead, b, i)
  {
    hide Function.Valid;
  }

  lemma FoldableIsUsed(f: Function, sp: Option<nat>, dead: set<nat>, b: nat, i: nat, uses: map<nat, seq<Site>>)
    requires f.Valid() && f.At(b, i) && Foldable(f, sp, dead, b, i) && Collected(f, uses, |f.blocks|, 0)
    ensures f.OpAt(b, i).result.value in uses
  {
    hide Function.Valid, Collected, Reads;
    SiteOf(f, uses, f.OpAt(b, i).result.value);
  }
}
