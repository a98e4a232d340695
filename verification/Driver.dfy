/** The discovery loop: rounds of lifting and probing that grow two bodies of knowledge, the entries
    to lift from and the edges proved, and stop for a named reason. */
module DiscoveryDriver {
  import opened Basics

  const SETTLE_CEILING: nat := 16
  const ROUND_CEILING: nat := 128

  /** Proved targets by the address of the branch that goes to them. */
  type Resolutions = map<nat, seq<nat>>

  /** A block's address, its terminator's address when that is an indirect branch, and the branch's targets. */
  datatype Block = Block(va: nat, branch: Option<nat>, targets: seq<nat>)

  /** A probe's report of one branch: its targets, and those among them not lifted. */
  datatype Discovery = Discovery(branch: nat, missing: set<nat>, targets: seq<nat>)

  datatype Stop = Converged | RoundCap | StuckResolution | WindDown | NoDiscovery

  datatype Fence = Fence(start: nat, end: nat, enforce: bool) {
    predicate Active() { end > start }

    predicate Contains(va: nat) { !Active() || start <= va < end }

    /** An address the fence drops. */
    predicate Drops(va: nat) { Active() && enforce && !Contains(va) }
  }

  datatype Options = Options(
    maxRounds: nat, extendWhileProving: bool, maxTotalEntries: nat, maxDiscoveryPerBranch: nat,
    fence: Fence, coverage: Option<set<nat>>, stopsAtSsa: bool)

  predicate Listed(m: Resolutions, branch: nat, target: nat) {
    branch in m && target in m[branch]
  }

  ghost function Edges(m: Resolutions): set<(nat, nat)> {
    set b, t | b in m && t in m[b] :: (b, t)
  }

  ghost predicate NoRepeats(m: Resolutions) {
    forall b | b in m :: Distinct(m[b])
  }

  /** Nothing known is taken away or reordered. */
  ghost predicate Grows(m: Resolutions, now: Resolutions) {
    forall b | b in m :: b in now && m[b] <= now[b]
  }

  // ----- merging edges

  /** The targets that are not listed yet, appended in order. */
  function AppendNew(mine: seq<nat>, targets: seq<nat>): seq<nat>
    decreases |targets|
  {
    if targets == [] then mine else
    var n := |targets| - 1;
    var out := AppendNew(mine, targets[..n]);
    if targets[n] in out then out else out + [targets[n]]
  }

  function At(m: Resolutions, b: nat): seq<nat> {
    if b in m then m[b] else []
  }

  function MergedAt(known: Resolutions, found: Resolutions, b: nat): seq<nat> {
    AppendNew(At(known, b), At(found, b))
  }

  /** What is known once what was found is merged in. */
  function Merged(known: Resolutions, found: Resolutions): Resolutions {
    map b | b in known.Keys + found.Keys :: MergedAt(known, found, b)
  }

  method AbsorbBranch(mine: seq<nat>, targets: seq<nat>) returns (out: seq<nat>, added: nat)
    ensures out == AppendNew(mine, targets)
    ensures mine <= out && |out| == |mine| + added
    ensures Distinct(mine) ==> Distinct(out)
    ensures forall t :: t in out <==> t in mine || t in targets
    ensures Distinct(out[|mine|..]) && forall t | t in out[|mine|..] :: t !in mine
  {
    out, added := mine, 0;
    for i := 0 to |targets|
      invariant out == AppendNew(mine, targets[..i])
      invariant mine <= out && |out| == |mine| + added
      invariant Distinct(mine) ==> Distinct(out)
      invariant forall t :: t in out <==> t in mine || t in targets[..i]
      invariant Distinct(out[|mine|..]) && forall t | t in out[|mine|..] :: t !in mine
    {
      assert targets[..i + 1][..i] == targets[..i];
      if targets[i] !in out {
        assert (out + [targets[i]])[|mine|..] == out[|mine|..] + [targets[i]];
        out, added := out + [targets[i]], added + 1;
      }
    }
    assert targets[..|targets|] == targets;
  }

  /** The edges of one branch. */
  ghost function Pairs(b: nat, targets: set<nat>): set<(nat, nat)> {
    set t | t in targets :: (b, t)
  }

  lemma {:induction false} PairsCount(b: nat, targets: set<nat>)
    ensures |Pairs(b, targets)| == |targets|
    decreases |targets|
  {
    if targets != {} {
      var t :| t in targets;
      PairsCount(b, targets - {t});
      assert Pairs(b, targets) == Pairs(b, targets - {t}) + {(b, t)};
    }
  }

  lemma EdgeIn(m: Resolutions, e: (nat, nat))
    ensures e in Edges(m) <==> Listed(m, e.0, e.1)
  {}

  lemma PairIn(b: nat, targets: set<nat>, e: (nat, nat))
    ensures e in Pairs(b, targets) <==> e.0 == b && e.1 in targets
  {}

  lemma TailElements(mine: seq<nat>, out: seq<nat>, t: nat)
    requires mine <= out
    ensures t in out <==> t in mine || t in Elements(out[|mine|..])
  {
    assert out == mine + out[|mine|..];
  }

  /** One branch's growth, counted in edges. */
  lemma EdgesOfBranch(m: Resolutions, b: nat, mine: seq<nat>, out: seq<nat>)
    requires mine == if b in m then m[b] else []
    requires mine <= out && Distinct(out[|mine|..]) && forall t | t in out[|mine|..] :: t !in mine
    ensures |Edges(m[b := out])| == |Edges(m)| + |out| - |mine|
  {
    hide Edges, Pairs;
    var tail := out[|mine|..];
    DistinctCount(tail);
    PairsCount(b, Elements(tail));
    forall e ensures e in Edges(m[b := out]) <==> e in Edges(m) || e in Pairs(b, Elements(tail)) {
      EdgeIn(m, e);
      EdgeIn(m[b := out], e);
      PairIn(b, Elements(tail), e);
      TailElements(mine, out, e.1);
    }
    assert Edges(m[b := out]) == Edges(m) + Pairs(b, Elements(tail));
    forall e | e in Edges(m) ensures e !in Pairs(b, Elements(tail)) {
      EdgeIn(m, e);
      PairIn(b, Elements(tail), e);
    }
    assert Edges(m) !! Pairs(b, Elements(tail));
  }

  /** Merges what a pass found into what is known; the count is exactly the number of new edges. */
  method Absorb(known: Resolutions, found: Resolutions) returns (now: Resolutions, added: nat)
    ensures now == Merged(known, found)
    ensures forall b, t :: Listed(now, b, t) <==> Listed(known, b, t) || Listed(found, b, t)
    ensures |Edges(now)| == |Edges(known)| + added
    ensures Grows(known, now)
    ensures NoRepeats(known) ==> NoRepeats(now)
  {
    hide Edges, Distinct, AppendNew;
    now, added := known, 0;
    var rest := found.Keys;
    forall b | b in known && b !in found ensures MergedAt(known, found, b) == known[b] { NothingAppended(known[b]); }
    while rest != {}
      invariant rest <= found.Keys && now.Keys == known.Keys + (found.Keys - rest)
      invariant forall b | b in now :: now[b] == if b in rest then At(known, b) else MergedAt(known, found, b)
      invariant |Edges(now)| == |Edges(known)| + added
    {
      var b :| b in rest;
      var mine := if b in now then now[b] else [];
      var out, more := AbsorbBranch(mine, found[b]);
      EdgesOfBranch(now, b, mine, out);
      now, added, rest := now[b := out], added + more, rest - {b};
    }
    assert now == Merged(known, found);
    MergedListed(known, found);
  }

  lemma {:induction false} AppendedMeans(mine: seq<nat>, targets: seq<nat>)
    ensures var out := AppendNew(mine, targets);
            && mine <= out && (Distinct(mine) ==> Distinct(out))
            && forall t :: t in out <==> t in mine || t in targets
    decreases |targets|
  {
    if targets != [] {
      var n := |targets| - 1;
      AppendedMeans(mine, targets[..n]);
      assert targets == targets[..n] + [targets[n]];
    }
  }

  /** The known edges become the union, and only grow. */
  lemma MergedListed(known: Resolutions, found: Resolutions)
    ensures forall b, t :: Listed(Merged(known, found), b, t) <==> Listed(known, b, t) || Listed(found, b, t)
    ensures Grows(known, Merged(known, found))
    ensures NoRepeats(known) ==> NoRepeats(Merged(known, found))
  {
    hide AppendNew, Distinct;
    forall b, t ensures Listed(Merged(known, found), b, t) <==> Listed(known, b, t) || Listed(found, b, t) {
      AppendedMeans(At(known, b), At(found, b));
    }
    NothingRepeats();
    forall b | b in known.Keys + found.Keys
      ensures At(known, b) <= Merged(known, found)[b] && (NoRepeats(known) ==> Distinct(Merged(known, found)[b]))
    {
      AppendedMeans(At(known, b), At(found, b));
    }
  }

  lemma NothingAppended(mine: seq<nat>)
    ensures AppendNew(mine, []) == mine
  {}

  lemma NothingRepeats()
    ensures Distinct([])
  {}

  // ----- the graph a round works on

  predicate HasBlock(blocks: seq<Block>, va: nat) {
    exists i :: 0 <= i < |blocks| && blocks[i].va == va
  }

  /** A block after known edges are put back: only an unresolved branch gains targets, and only when
      every one of them is a block. */
  function Restored(block: Block, blocks: seq<Block>, known: Resolutions): Block {
    if block.branch.Some? && block.targets == [] && block.branch.value in known
       && forall i | 0 <= i < |known[block.branch.value]| :: HasBlock(blocks, known[block.branch.value][i])
    then block.(targets := known[block.branch.value]) else block
  }

  function RestoredAll(blocks: seq<Block>, known: Resolutions): seq<Block> {
    seq(|blocks|, i requires 0 <= i < |blocks| => Restored(blocks[i], blocks, known))
  }

  /** The branch at the end of a block is unresolved, targets of it are known, and each is a block. */
  ghost predicate Recoverable(blocks: seq<Block>, known: Resolutions, i: nat) {
    && i < |blocks| && blocks[i].branch.Some? && blocks[i].targets == []
    && blocks[i].branch.value in known && known[blocks[i].branch.value] != []
    && forall t | t in known[blocks[i].branch.value] :: exists j :: 0 <= j < |blocks| && blocks[j].va == t
  }

  /** Known edges are back where they can be, all of them, and nothing else has changed. */
  ghost predicate EdgesBack(was: seq<Block>, known: Resolutions, now: seq<Block>) {
    |now| == |was| && forall i: nat | i < |was| :: BackAt(was, known, now, i)
  }

  ghost predicate BackAt(was: seq<Block>, known: Resolutions, now: seq<Block>, i: nat)
    requires i < |was| && i < |now|
  {
    && now[i].va == was[i].va && now[i].branch == was[i].branch
    && if Recoverable(was, known, i) then now[i].targets == known[was[i].branch.value] else now[i] == was[i]
  }

  lemma RestoredExactly(was: seq<Block>, known: Resolutions, now: seq<Block>)
    ensures EdgesBack(was, known, now) <==> now == RestoredAll(was, known)
  {
    hide BackAt, Restored;
    if |now| == |was| {
      forall i: nat | i < |was| ensures BackAt(was, known, now, i) <==> now[i] == RestoredAll(was, known)[i] {
        BackAtExactly(was, known, now, i);
      }
    }
  }

  lemma BackAtExactly(was: seq<Block>, known: Resolutions, now: seq<Block>, i: nat)
    requires i < |was| == |now|
    ensures BackAt(was, known, now, i) <==> now[i] == RestoredAll(was, known)[i]
  {
    hide HasBlock, Restored;
    RestoredOne(was, known, i);
  }

  lemma RestoredOne(was: seq<Block>, known: Resolutions, i: nat)
    requires i < |was|
    ensures Recoverable(was, known, i) ==>
              was[i].branch.Some? && was[i].branch.value in known
              && RestoredAll(was, known)[i] == was[i].(targets := known[was[i].branch.value])
    ensures !Recoverable(was, known, i) ==> RestoredAll(was, known)[i] == was[i]
  {
    var b := was[i];
    if b.branch.Some? && b.branch.value in known {
      var targets := known[b.branch.value];
      forall k | 0 <= k < |targets|
        ensures HasBlock(was, targets[k]) <==> exists j :: 0 <= j < |was| && was[j].va == targets[k]
      {
      }
      if Recoverable(was, known, i) {
        forall k | 0 <= k < |targets| ensures HasBlock(was, targets[k]) { assert targets[k] in targets; }
      } else if b.targets == [] && targets != [] {
        var t :| t in targets && !exists j :: 0 <= j < |was| && was[j].va == t;
        var k :| 0 <= k < |targets| && targets[k] == t;
        assert !HasBlock(was, targets[k]);
      }
    }
  }

  lemma BlockAddressesStay(blocks: seq<Block>, now: seq<Block>, va: nat)
    requires |now| == |blocks| && forall i | 0 <= i < |blocks| :: now[i].va == blocks[i].va
    ensures HasBlock(now, va) <==> HasBlock(blocks, va)
  {
    if HasBlock(blocks, va) {
      var i :| 0 <= i < |blocks| && blocks[i].va == va;
      assert now[i].va == va;
    }
    if HasBlock(now, va) {
      var i :| 0 <= i < |now| && now[i].va == va;
      assert blocks[i].va == va;
    }
  }

  lemma MissingStays(blocks: seq<Block>, now: seq<Block>, targets: seq<nat>)
    requires |now| == |blocks| && forall i | 0 <= i < |blocks| :: now[i].va == blocks[i].va
    ensures forall i | 0 <= i < |targets| :: HasBlock(now, targets[i]) <==> HasBlock(blocks, targets[i])
  {
    forall i | 0 <= i < |targets| ensures HasBlock(now, targets[i]) <==> HasBlock(blocks, targets[i]) {
      BlockAddressesStay(blocks, now, targets[i]);
    }
  }

  method AnyMissing(blocks: seq<Block>, targets: seq<nat>) returns (missing: bool)
    ensures missing <==> exists i :: 0 <= i < |targets| && !HasBlock(blocks, targets[i])
  {
    for i := 0 to |targets|
      invariant forall k | 0 <= k < i :: HasBlock(blocks, targets[k])
    {
      if !HasBlock(blocks, targets[i]) { return true; }
    }
    return false;
  }

  class LiftedFunction {
    var blocks: seq<Block>

    constructor (blocks: seq<Block>)
      ensures this.blocks == blocks
    {
      this.blocks := blocks;
    }

    /** Puts known edges back, block by block. */
    method ApplyResolutions(known: Resolutions)
      modifies this
      ensures EdgesBack(old(blocks), known, blocks)
      ensures blocks == RestoredAll(old(blocks), known)
    {
      hide EdgesBack;
      ghost var was := blocks;
      for i := 0 to |blocks|
        invariant |blocks| == |was|
        invariant forall k | 0 <= k < |was| :: blocks[k].va == was[k].va
        invariant forall k | 0 <= k < i :: blocks[k] == Restored(was[k], was, known)
        invariant forall k | i <= k < |was| :: blocks[k] == was[k]
      {
        var block := blocks[i];
        if block.branch.None? || block.targets != [] || block.branch.value !in known { continue; }
        var missing := AnyMissing(blocks, known[block.branch.value]);
        MissingStays(was, blocks, known[block.branch.value]);
        if missing { continue; }
        blocks := blocks[i := block.(targets := known[block.branch.value])];
      }
      RestoredExactly(was, known, blocks);
    }
  }

  /** Every resolved branch of the function; of two with one address the first. */
  function Harvested(blocks: seq<Block>, n: nat): Resolutions
    requires n <= |blocks|
  {
    if n == 0 then map[] else
    var out := Harvested(blocks, n - 1);
    if Resolved(blocks[n - 1]) && blocks[n - 1].branch.value !in out
    then out[blocks[n - 1].branch.value := blocks[n - 1].targets] else out
  }

  method Harvest(blocks: seq<Block>) returns (out: Resolutions)
    ensures out == Harvested(blocks, |blocks|)
    ensures forall b | b in out :: exists i :: IsFirstResolved(blocks, b, i, |blocks|) && out[b] == blocks[i].targets
    ensures forall i | 0 <= i < |blocks| && Resolved(blocks[i]) :: blocks[i].branch.value in out
  {
    out := map[];
    for n := 0 to |blocks|
      invariant out == Harvested(blocks, n)
      invariant forall b | b in out :: exists i :: IsFirstResolved(blocks, b, i, n) && out[b] == blocks[i].targets
      invariant forall i | 0 <= i < n && Resolved(blocks[i]) :: blocks[i].branch.value in out
    {
      forall b | b in out ensures exists i :: IsFirstResolved(blocks, b, i, n + 1) && out[b] == blocks[i].targets {
        var i :| IsFirstResolved(blocks, b, i, n) && out[b] == blocks[i].targets;
        assert IsFirstResolved(blocks, b, i, n + 1);
      }
      if Resolved(blocks[n]) && blocks[n].branch.value !in out {
        assert IsFirstResolved(blocks, blocks[n].branch.value, n, n + 1);
        out := out[blocks[n].branch.value := blocks[n].targets];
      }
    }
  }

  predicate Resolved(block: Block) {
    block.branch.Some? && block.targets != []
  }

  ghost predicate IsFirstResolved(blocks: seq<Block>, b: nat, i: int, n: nat) {
    && 0 <= i < n <= |blocks| && Resolved(blocks[i]) && blocks[i].branch.value == b
    && forall k | 0 <= k < i :: !(Resolved(blocks[k]) && blocks[k].branch.value == b)
  }

  /** A branch whose missing targets are few enough to be believed. */
  predicate Believed(d: Discovery, cap: nat) {
    cap == 0 || |d.missing| <= cap
  }

  ghost predicate IsLastBelieved(found: seq<Discovery>, cap: nat, b: nat, i: int, n: nat) {
    && 0 <= i < n <= |found| && Believed(found[i], cap) && found[i].branch == b
    && forall k | i < k < n :: !(Believed(found[k], cap) && found[k].branch == b)
  }

  function Declined(found: seq<Discovery>, cap: nat, n: nat): nat
    requires n <= |found|
  {
    if n == 0 then 0 else Declined(found, cap, n - 1) + if Believed(found[n - 1], cap) then 0 else 1
  }

  /** The addresses the first `n` reports ask for, and the edges they propose. */
  function Asked(found: seq<Discovery>, cap: nat, n: nat): set<nat>
    requires n <= |found|
  {
    if n == 0 then {} else Asked(found, cap, n - 1) + if Believed(found[n - 1], cap) then found[n - 1].missing else {}
  }

  function Proposed(found: seq<Discovery>, cap: nat, n: nat): Resolutions
    requires n <= |found|
  {
    if n == 0 then map[] else
    var out := Proposed(found, cap, n - 1);
    if Believed(found[n - 1], cap) then out[found[n - 1].branch := found[n - 1].targets] else out
  }

  /** What a probe reports: believed branches' addresses and edges, and how many were declined. */
  method TakeDiscoveries(found: seq<Discovery>, cap: nat)
      returns (discoveries: set<nat>, pending: Resolutions, declined: nat)
    ensures discoveries == Asked(found, cap, |found|) && pending == Proposed(found, cap, |found|)
    ensures forall va :: va in discoveries <==>
            exists i :: 0 <= i < |found| && Believed(found[i], cap) && va in found[i].missing
    ensures forall b | b in pending :: exists i ::
            IsLastBelieved(found, cap, b, i, |found|) && pending[b] == found[i].targets
    ensures forall i | 0 <= i < |found| && Believed(found[i], cap) :: found[i].branch in pending
    ensures declined == Declined(found, cap, |found|)
    ensures cap > 0 ==> forall va | va in discoveries ::
              exists i :: 0 <= i < |found| && va in found[i].missing && |found[i].missing| <= cap
    ensures forall i | 0 <= i < |found| && (cap == 0 || |found[i].missing| <= cap) ::
              found[i].missing <= discoveries && found[i].branch in pending
  {
    discoveries, pending, declined := {}, map[], 0;
    for n := 0 to |found|
      invariant discoveries == Asked(found, cap, n) && pending == Proposed(found, cap, n)
      invariant declined == Declined(found, cap, n)
    {
      if !Believed(found[n], cap) {
        declined := declined + 1;
      } else {
        discoveries := discoveries + found[n].missing;
        pending := pending[found[n].branch := found[n].targets];
      }
    }
    AskedMeans(found, cap, |found|);
    ProposedMeans(found, cap, |found|);
  }

  lemma {:induction false} AskedMeans(found: seq<Discovery>, cap: nat, n: nat)
    requires n <= |found|
    ensures forall va :: va in Asked(found, cap, n) <==>
            exists i :: 0 <= i < n && Believed(found[i], cap) && va in found[i].missing
  {
    if n > 0 {
      AskedMeans(found, cap, n - 1);
    }
  }

  lemma {:induction false} ProposedMeans(found: seq<Discovery>, cap: nat, n: nat)
    requires n <= |found|
    ensures forall b | b in Proposed(found, cap, n) ::
              exists i :: IsLastBelieved(found, cap, b, i, n) && Proposed(found, cap, n)[b] == found[i].targets
    ensures forall i | 0 <= i < n && Believed(found[i], cap) :: found[i].branch in Proposed(found, cap, n)
  {
    if n > 0 {
      ProposedMeans(found, cap, n - 1);
      var was, now := Proposed(found, cap, n - 1), Proposed(found, cap, n);
      forall b | b in now ensures exists i :: IsLastBelieved(found, cap, b, i, n) && now[b] == found[i].targets {
        if Believed(found[n - 1], cap) && b == found[n - 1].branch {
          assert IsLastBelieved(found, cap, b, n - 1, n);
        } else {
          var i :| IsLastBelieved(found, cap, b, i, n - 1) && was[b] == found[i].targets;
          assert IsLastBelieved(found, cap, b, i, n);
        }
      }
    }
  }

  lemma {:induction false} LeastExists(s: set<nat>)
    requires s != {}
    ensures exists m :: IsLeast(m, s)
    decreases |s|
  {
    var x :| x in s;
    var rest := s - {x};
    if rest == {} {
      assert s == {x};
      assert IsLeast(x, s);
    } else {
      LeastExists(rest);
      var m :| IsLeast(m, rest);
      var least := if x < m then x else m;
      forall y | y in s ensures least <= y {
        assert y == x || y in rest;
      }
      assert IsLeast(least, s);
    }
  }

  ghost predicate IsLeast(m: nat, s: set<nat>) {
    m in s && forall y | y in s :: m <= y
  }

  // ----- the driver

  /** The lifter and the pipeline, which may answer anything at every call. */
  datatype World = World(
    lift: (nat, seq<nat>) -> Option<seq<Block>>,
    toCfg: (nat, seq<Block>) -> Option<seq<Block>>,
    toSsa: (nat, seq<Block>) -> Option<seq<Block>>,
    probe: (nat, seq<Block>) -> Option<(seq<Block>, seq<Discovery>)>,
    toTarget: (nat, seq<Block>, bool) -> Option<seq<Block>>,
    windDown: nat -> bool)

  /** What a pass is asked of the world: SSA is built once the known edges are back, and probed. */
  function PassOver(w: World, tick: nat, blocks: seq<Block>,
      resolved: Resolutions): Option<(seq<Block>, seq<Discovery>)> {
    var atCfg := w.toCfg(tick, blocks);
    if atCfg.None? then None else
    var atSsa := w.toSsa(tick, RestoredAll(atCfg.value, resolved));
    if atSsa.None? then None else w.probe(tick, atSsa.value)
  }

  /** What the last run is asked of the world. */
  function LastRun(w: World, tick: nat, entries: seq<nat>, resolved: Resolutions, seal: bool): Option<seq<Block>> {
    var whole := w.lift(tick, entries);
    if whole.None? then None else
    var atCfg := w.toCfg(tick + 1, whole.value);
    if atCfg.None? then None else w.toTarget(tick + 1, RestoredAll(atCfg.value, resolved), seal)
  }

  /** A pass sees the known edges in place: whatever graph has them back is the one SSA is built of. */
  lemma PassSeesEdges(w: World, tick: nat, blocks: seq<Block>, resolved: Resolutions, graph: seq<Block>)
    requires w.toCfg(tick, blocks).Some? && EdgesBack(w.toCfg(tick, blocks).value, resolved, graph)
    ensures PassOver(w, tick, blocks, resolved)
            == if w.toSsa(tick, graph).None? then None else w.probe(tick, w.toSsa(tick, graph).value)
  {
    hide EdgesBack;
    RestoredExactly(w.toCfg(tick, blocks).value, resolved, graph);
  }

  /** So does the last run, over a lift of all the entries. */
  lemma LastRunSeesEdges(w: World, tick: nat, entries: seq<nat>, resolved: Resolutions, seal: bool, graph: seq<Block>)
    requires w.lift(tick, entries).Some? && w.toCfg(tick + 1, w.lift(tick, entries).value).Some?
    requires EdgesBack(w.toCfg(tick + 1, w.lift(tick, entries).value).value, resolved, graph)
    ensures LastRun(w, tick, entries, resolved, seal) == w.toTarget(tick + 1, graph, seal)
  {
    hide EdgesBack;
    RestoredExactly(w.toCfg(tick + 1, w.lift(tick, entries).value).value, resolved, graph);
  }

  datatype Outcome = Failed | Finished(stop: Stop, converged: bool, blocks: seq<Block>)

  datatype Settling = Broken | WoundDown | Settled

  ghost predicate Ascending(s: seq<nat>) {
    forall i, j | 0 <= i < j < |s| :: s[i] < s[j]
  }

  /** The admitted addresses are the least of the new ones that pass the fence, as many as the cap leaves room for. */
  ghost predicate Admitted(was: seq<nat>, added: seq<nat>, discoveries: set<nat>, options: Options) {
    && Ascending(added)
    && (forall va | va in added :: va in discoveries && va !in was && !options.fence.Drops(va))
    && (forall va | va in discoveries :: va in was || va in added || options.fence.Drops(va)
          || (|was| + |added| >= options.maxTotalEntries && forall x | x in added :: x < va))
  }

  /** Each new address the fence lets by is taken, the least first, while the cap leaves room. */
  ghost function AdmitAll(entries: seq<nat>, discoveries: set<nat>, options: Options): seq<nat>
    decreases discoveries
  {
    if discoveries == {} then entries else
    LeastExists(discoveries);
    var va :| IsLeast(va, discoveries);
    AdmitAll(AdmitNext(entries, va, options), discoveries - {va}, options)
  }

  function AdmitNext(entries: seq<nat>, va: nat, options: Options): seq<nat> {
    if !options.fence.Drops(va) && va !in entries && |entries| < options.maxTotalEntries then entries + [va]
      else entries
  }

  lemma LeastFirst(entries: seq<nat>, discoveries: set<nat>, options: Options, va: nat)
    requires IsLeast(va, discoveries)
    ensures AdmitAll(entries, discoveries, options)
            == AdmitAll(AdmitNext(entries, va, options), discoveries - {va}, options)
  {
    hide AdmitNext;
  }

  lemma AdmittedSkips(was: seq<nat>, added: seq<nat>, seen: set<nat>, va: nat, options: Options)
    requires Admitted(was, added, seen, options)
    requires va in was || va in added || options.fence.Drops(va)
               || (|was| + |added| >= options.maxTotalEntries && forall x | x in added :: x < va)
    ensures Admitted(was, added, seen + {va}, options)
  {
    hide Fence.Drops;
  }

  lemma AdmittedAdds(was: seq<nat>, added: seq<nat>, seen: set<nat>, va: nat, options: Options)
    requires Admitted(was, added, seen, options)
    requires va !in was && !options.fence.Drops(va) && |was| + |added| < options.maxTotalEntries
             && forall x | x in added :: x < va
    ensures Admitted(was, added + [va], seen + {va}, options)
  {
    hide Fence.Drops;
    assert forall x :: x in added + [va] <==> x in added || x == va;
    assert forall i | 0 <= i < |added| :: added[i] in added;
  }

  ghost predicate Below(s: seq<nat>, rest: set<nat>) {
    forall x, y | x in s && y in rest :: x < y
  }

  /** The least remaining address, taken or left, is behind the ones still to come. */
  lemma AdmittedStep(was: seq<nat>, before: seq<nat>, extra: seq<nat>, now: seq<nat>, discoveries: set<nat>,
      rest: set<nat>, va: nat, options: Options)
    requires before <= extra && Below(extra[|before|..], rest)
             && Admitted(was, extra[|before|..], discoveries - rest, options)
    requires rest <= discoveries && va in rest && forall y | y in rest :: va <= y
    requires var added := extra[|before|..];
             var known := va in was || va in added;
             var room := |was| + |added| < options.maxTotalEntries;
             now == if !options.fence.Drops(va) && !known && room then extra + [va] else extra
    ensures before <= now && Below(now[|before|..], rest - {va})
            && Admitted(was, now[|before|..], discoveries - (rest - {va}), options)
  {
    hide Fence.Drops, Admitted;
    var added, seen := extra[|before|..], discoveries - rest;
    SnocSlice(extra, |before|, va);
    assert seen + {va} == discoveries - (rest - {va});
    if now == extra {
      AdmittedSkips(was, added, seen, va, options);
    } else {
      AdmittedAdds(was, added, seen, va, options);
    }
  }

  lemma SnocSlice(s: seq<nat>, n: nat, x: nat)
    requires n <= |s|
    ensures (s + [x])[n..] == s[n..] + [x]
    ensures forall y :: y in s[n..] + [x] <==> y in s[n..] || y == x
  {}

  // ----- the rounds, as a function of what the world answers

  /** What discovery knows at some point of a run, and how many calls it has made of the world. */
  datatype Moment = Moment(tick: nat, entries: seq<nat>, resolved: Resolutions)

  /** How a round went: how it ended, in how many passes, where that left discovery, and the blocks and
      reports of its last pass. */
  datatype Round = Round(how: Settling, passes: nat, moment: Moment, blocks: seq<Block>, found: seq<Discovery>)

  /** What one more pass of a round does. */
  lemma SettleNext(w: World, o: Options, m: Moment, blocks: seq<Block>, found: seq<Discovery>, done: nat)
    requires done < SETTLE_CEILING
    ensures var probed := PassOver(w, m.tick + 1, blocks, m.resolved);
            SettleFrom(w, o, m, blocks, found, done)
            == if probed.None? then Round(Broken, done + 1, Ticked(m), blocks, found) else
               var now := Taken(o, Ticked(m), probed.value.0, probed.value.1);
               if |now.entries| == |m.entries| then Round(Settled, done + 1, now, probed.value.0, probed.value.1)
               else if w.windDown(now.tick) then Round(WoundDown, done + 1, now, probed.value.0, probed.value.1)
               else
                 var lifted := w.lift(now.tick, now.entries);
                 if lifted.None? then Round(Broken, done + 1, Ticked(now), probed.value.0, probed.value.1)
                 else SettleFrom(w, o, Ticked(now), lifted.value, probed.value.1, done + 1)
  {
    hide Taken, PassOver;
  }

  lemma SettleDone(w: World, o: Options, m: Moment, blocks: seq<Block>, found: seq<Discovery>)
    ensures SettleFrom(w, o, m, blocks, found, SETTLE_CEILING) == Round(Settled, SETTLE_CEILING, m, blocks, found)
  {}

  /** What a pass reported, taken in. */
  ghost function Taken(o: Options, m: Moment, blocks: seq<Block>, found: seq<Discovery>): Moment {
    Moment(m.tick, AdmitAll(m.entries, Asked(found, o.maxDiscoveryPerBranch, |found|), o),
      Merged(Merged(m.resolved, Harvested(blocks, |blocks|)), Proposed(found, o.maxDiscoveryPerBranch, |found|)))
  }

  function Ticked(m: Moment): Moment {
    m.(tick := m.tick + 1)
  }

  /** The rest of a round that has made `done` passes. */
  ghost function SettleFrom(w: World, o: Options, m: Moment, blocks: seq<Block>, found: seq<Discovery>,
      done: nat): Round
    requires done <= SETTLE_CEILING
    decreases SETTLE_CEILING - done
  {
    if done == SETTLE_CEILING then Round(Settled, done, m, blocks, found) else
    var probed := PassOver(w, m.tick + 1, blocks, m.resolved);
    if probed.None? then Round(Broken, done + 1, Ticked(m), blocks, found) else
    var now := Taken(o, Ticked(m), probed.value.0, probed.value.1);
    if |now.entries| == |m.entries| then Round(Settled, done + 1, now, probed.value.0, probed.value.1)
    else if w.windDown(now.tick) then Round(WoundDown, done + 1, now, probed.value.0, probed.value.1)
    else
      var lifted := w.lift(now.tick, now.entries);
      if lifted.None? then Round(Broken, done + 1, Ticked(now), probed.value.0, probed.value.1)
      else SettleFrom(w, o, Ticked(now), lifted.value, probed.value.1, done + 1)
  }

  ghost function RoundFrom(w: World, o: Options, m: Moment): Round {
    var lifted := w.lift(m.tick, m.entries);
    if lifted.None? then Round(Broken, 0, Ticked(m), [], []) else SettleFrom(w, o, Ticked(m), lifted.value, [], 0)
  }

  /** Where `n` rounds lead. */
  ghost function After(w: World, o: Options, start: Moment, n: nat): Moment {
    if n == 0 then start else RoundFrom(w, o, After(w, o, start, n - 1)).moment
  }

  /** Everything discovery has established at a moment: addresses besides the entry, and edges. */
  ghost function FactsAt(m: Moment): int {
    |m.entries| - 1 + |Edges(m.resolved)|
  }

  /** Each of the first `n` rounds settled and established something. */
  ghost predicate Climbs(w: World, o: Options, start: Moment, n: nat) {
    forall i: nat | i < n :: Earned(w, o, start, i)
  }

  ghost predicate Earned(w: World, o: Options, start: Moment, i: nat) {
    && RoundFrom(w, o, After(w, o, start, i)).how.Settled?
    && FactsAt(After(w, o, start, i)) < FactsAt(After(w, o, start, i + 1))
  }

  /** Between the first `n` rounds no wind-down was asked for. */
  ghost predicate Unasked(w: World, o: Options, start: Moment, n: nat) {
    forall i: nat | 0 < i < n :: !AsksDown(w, o, start, i)
  }

  ghost predicate AsksDown(w: World, o: Options, start: Moment, i: nat) {
    w.windDown(After(w, o, start, i).tick)
  }

  /** Nothing known is lost from one moment to the other. */
  ghost predicate Keeps(m: Moment, now: Moment) {
    m.entries <= now.entries && Grows(m.resolved, now.resolved)
  }

  /** The same addresses and the same edges in the same order; a branch may have been asked about in vain. */
  ghost predicate NothingNew(m: Moment, now: Moment) {
    && now.entries == m.entries
    && (forall b | b in m.resolved :: b in now.resolved && now.resolved[b] == m.resolved[b])
    && (forall b | b in now.resolved && b !in m.resolved :: now.resolved[b] == [])
  }

  lemma GrowsSelf(m: Resolutions)
    ensures Grows(m, m)
  {}

  lemma GrowsOn(a: Resolutions, b: Resolutions, c: Resolutions)
    requires Grows(a, b) && Grows(b, c)
    ensures Grows(a, c)
  {}

  lemma {:induction false} AdmitAllGrows(entries: seq<nat>, discoveries: set<nat>, options: Options)
    ensures entries <= AdmitAll(entries, discoveries, options)
    decreases discoveries
  {
    hide Fence.Drops;
    if discoveries != {} {
      LeastExists(discoveries);
      var va :| IsLeast(va, discoveries);
      LeastFirst(entries, discoveries, options, va);
      AdmitAllGrows(AdmitNext(entries, va, options), discoveries - {va}, options);
    }
  }

  lemma TakenKeeps(o: Options, m: Moment, blocks: seq<Block>, found: seq<Discovery>)
    ensures Keeps(m, Taken(o, m, blocks, found))
  {
    hide AdmitAll, Asked, Merged, Grows, Harvested, Proposed;
    var cap := o.maxDiscoveryPerBranch;
    AdmitAllGrows(m.entries, Asked(found, cap, |found|), o);
    MergedListed(m.resolved, Harvested(blocks, |blocks|));
    MergedListed(Merged(m.resolved, Harvested(blocks, |blocks|)), Proposed(found, cap, |found|));
    GrowsOn(m.resolved, Merged(m.resolved, Harvested(blocks, |blocks|)), Taken(o, m, blocks, found).resolved);
  }

  lemma {:induction false} SettleKeeps(w: World, o: Options, m: Moment, blocks: seq<Block>, found: seq<Discovery>,
      done: nat)
    requires done <= SETTLE_CEILING
    ensures Keeps(m, SettleFrom(w, o, m, blocks, found, done).moment)
    decreases SETTLE_CEILING - done
  {
    hide Taken, PassOver;
    if done < SETTLE_CEILING {
      var probed := PassOver(w, m.tick + 1, blocks, m.resolved);
      if probed.Some? {
        TakenKeeps(o, Ticked(m), probed.value.0, probed.value.1);
        var now := Taken(o, Ticked(m), probed.value.0, probed.value.1);
        var lifted := w.lift(now.tick, now.entries);
        if |now.entries| != |m.entries| && !w.windDown(now.tick) && lifted.Some? {
          SettleKeeps(w, o, Ticked(now), lifted.value, probed.value.1, done + 1);
        }
      }
    }
  }

  lemma {:induction false} SettleWoundDown(w: World, o: Options, m: Moment, blocks: seq<Block>, found: seq<Discovery>,
      done: nat)
    requires done <= SETTLE_CEILING && SettleFrom(w, o, m, blocks, found, done).how.WoundDown?
    ensures w.windDown(SettleFrom(w, o, m, blocks, found, done).moment.tick)
    decreases SETTLE_CEILING - done
  {
    hide Taken, PassOver;
    var probed := PassOver(w, m.tick + 1, blocks, m.resolved);
    var now := Taken(o, Ticked(m), probed.value.0, probed.value.1);
    var lifted := w.lift(now.tick, now.entries);
    if !w.windDown(now.tick) {
      SettleWoundDown(w, o, Ticked(now), lifted.value, probed.value.1, done + 1);
    }
  }

  lemma RoundKeeps(w: World, o: Options, m: Moment)
    ensures Keeps(m, RoundFrom(w, o, m).moment)
  {
    hide SettleFrom;
    var lifted := w.lift(m.tick, m.entries);
    if lifted.Some? {
      SettleKeeps(w, o, Ticked(m), lifted.value, [], 0);
    }
  }

  /** Over a whole run, whatever the world answers, knowledge only grows. */
  lemma {:induction false} RunKeeps(w: World, o: Options, start: Moment, i: nat, j: nat)
    requires i <= j
    ensures Keeps(After(w, o, start, i), After(w, o, start, j))
    decreases j - i
  {
    hide RoundFrom;
    if i < j {
      RunKeeps(w, o, start, i, j - 1);
      RoundKeeps(w, o, After(w, o, start, j - 1));
    }
  }

  /** A settled round that admitted nothing made one pass: over a lift of the entries it started from,
      with the edges it started from. */
  lemma QuietRound(w: World, o: Options, m: Moment)
    requires RoundFrom(w, o, m).how.Settled? && |RoundFrom(w, o, m).moment.entries| == |m.entries|
    ensures var round := RoundFrom(w, o, m); var lifted := w.lift(m.tick, m.entries);
            round.passes == 1 && lifted.Some?
              && PassOver(w, m.tick + 2, lifted.value, m.resolved) == Some((round.blocks, round.found))
  {
    hide Taken, PassOver;
    var first := w.lift(m.tick, m.entries).value;
    var start := Ticked(m);
    var probed := PassOver(w, start.tick + 1, first, m.resolved);
    TakenKeeps(o, Ticked(start), probed.value.0, probed.value.1);
    var now := Taken(o, Ticked(start), probed.value.0, probed.value.1);
    if |now.entries| != |m.entries| && !w.windDown(now.tick) {
      var lifted := w.lift(now.tick, now.entries);
      SettleKeeps(w, o, Ticked(now), lifted.value, probed.value.1, 1);
    }
  }

  /** When the number of facts has stayed the same, so have the facts. */
  lemma SameCountSameFacts(m: Moment, now: Moment)
    requires Keeps(m, now) && FactsAt(m) == FactsAt(now) && NoRepeats(now.resolved)
    ensures NothingNew(m, now)
  {
    hide Edges;
    EdgesGrow(m.resolved, now.resolved);
    forall b | b in m.resolved ensures b in now.resolved && now.resolved[b] == m.resolved[b] {
      if |m.resolved[b]| < |now.resolved[b]| {
        var t := now.resolved[b][|m.resolved[b]|];
        EdgeIn(m.resolved, (b, t));
        EdgeIn(now.resolved, (b, t));
      }
    }
    forall b | b in now.resolved && b !in m.resolved ensures now.resolved[b] == [] {
      if now.resolved[b] != [] {
        EdgeIn(m.resolved, (b, now.resolved[b][0]));
        EdgeIn(now.resolved, (b, now.resolved[b][0]));
      }
    }
  }

  lemma EdgesGrow(m: Resolutions, now: Resolutions)
    requires Grows(m, now)
    ensures Edges(m) <= Edges(now) && |Edges(m)| <= |Edges(now)|
    ensures |Edges(m)| == |Edges(now)| ==> Edges(m) == Edges(now)
  {
    assert Edges(now) == Edges(m) + (Edges(now) - Edges(m));
  }

  class Driver {
    const entry: nat
    const options: Options
    const world: World
    var tick: nat
    var entries: seq<nat>
    var known: set<nat>
    var extraEntries: seq<nat>
    var resolved: Resolutions
    var rounds: nat
    var settles: nat

    ghost predicate Valid()
      reads `entries, `known, `extraEntries, `resolved
    {
      && entries == [entry] + extraEntries && Distinct(entries) && known == Elements(entries)
      && |entries| <= Max(1, options.maxTotalEntries)
      && (forall va | va in extraEntries :: !options.fence.Drops(va))
      && NoRepeats(resolved)
    }

    /** Everything discovery has established: addresses and edges. */
    ghost function Facts(): nat
      reads `extraEntries, `resolved
    {
      |extraEntries| + |Edges(resolved)|
    }

    /** Where the run is. */
    ghost function Now(): Moment
      reads `tick, `entries, `resolved
    {
      Moment(tick, entries, resolved)
    }

    constructor (entry: nat, options: Options, world: World)
      ensures Valid() && this.entry == entry && this.options == options && this.world == world
      ensures entries == [entry] && resolved == map[] && rounds == 0 && settles == 0
    {
      this.entry, this.options, this.world := entry, options, world;
      tick, entries, known, extraEntries := 0, [entry], {entry}, [];
      resolved, rounds, settles := map[], 0, 0;
    }

    /** Takes one address unless the fence drops it, it is known, or the cap is reached. */
    method AdmitOne(va: nat) returns (admitted: bool)
      requires Valid()
      modifies `entries, `known, `extraEntries
      ensures Valid()
      ensures admitted <==> !options.fence.Drops(va) && va !in old(known) && |old(known)| < options.maxTotalEntries
      ensures admitted && options.fence.enforce && options.fence.end > options.fence.start ==>
                options.fence.start <= va < options.fence.end
      ensures !admitted && va !in old(known) && |old(known)| < options.maxTotalEntries ==>
                options.fence.enforce && options.fence.end > options.fence.start
                && !(options.fence.start <= va < options.fence.end)
      ensures extraEntries == if admitted then old(extraEntries) + [va] else old(extraEntries)
      ensures entries == AdmitNext(old(entries), va, options)
    {
      hide Distinct, NoRepeats;
      KnownCount();
      admitted := !options.fence.Drops(va) && va !in known && |known| < options.maxTotalEntries;
      if admitted {
        Grown(va);
        known, entries, extraEntries := known + {va}, entries + [va], extraEntries + [va];
      }
    }

    method AdmitDiscoveries(discoveries: set<nat>) returns (foundNew: nat)
      requires Valid()
      modifies `entries, `known, `extraEntries
      ensures Valid()
      ensures |extraEntries| == |old(extraEntries)| + foundNew && old(extraEntries) <= extraEntries
      ensures Admitted([entry] + old(extraEntries), extraEntries[|old(extraEntries)|..], discoveries, options)
      ensures entries == AdmitAll(old(entries), discoveries, options)
    {
      hide Fence.Drops, Admitted, Valid, Below, AdmitNext;
      foundNew := 0;
      var rest := discoveries;
      ghost var was := [entry] + extraEntries;
      NothingAdmitted(was, extraEntries, rest, options);
      while rest != {}
        invariant rest <= discoveries && Valid()
        invariant AdmitAll(entries, rest, options) == AdmitAll(old(entries), discoveries, options)
        invariant |extraEntries| == |old(extraEntries)| + foundNew && old(extraEntries) <= extraEntries
        invariant Below(extraEntries[|old(extraEntries)|..], rest)
        invariant Admitted(was, extraEntries[|old(extraEntries)|..], discoveries - rest, options)
      {
        LeastExists(rest);
        var va :| va in rest && forall y | y in rest :: va <= y;
        EntriesSplit(old(extraEntries), was, va);
        LeastFirst(entries, rest, options, va);
        ghost var extra := extraEntries;
        var admitted := AdmitOne(va);
        AdmittedStep(was, old(extraEntries), extra, extraEntries, discoveries, rest, va, options);
        rest := rest - {va};
        if admitted { foundNew := foundNew + 1; }
      }
      assert discoveries - {} == discoveries;
    }

    /** Whether a known target of a resolved branch has no block: lifting it again will not help. */
    method HasStuckResolution(blocks: seq<Block>) returns (stuck: bool)
      requires Valid()
      ensures stuck <==> AnyStuck(blocks)
      ensures stuck <==> exists b, t ::
                Listed(resolved, b, t) && t in entries && forall i | 0 <= i < |blocks| :: blocks[i].va != t
    {
      hide Distinct, NoRepeats;
      StuckMeans(blocks);
      var rest := resolved.Keys;
      while rest != {}
        invariant rest <= resolved.Keys
        invariant forall b, t | b !in rest :: !Stuck(blocks, b, t)
      {
        var b :| b in rest;
        for i := 0 to |resolved[b]|
          invariant forall k | 0 <= k < i :: !Stuck(blocks, b, resolved[b][k])
        {
          if resolved[b][i] in known && !HasBlock(blocks, resolved[b][i]) {
            assert Stuck(blocks, b, resolved[b][i]);
            return true;
          }
        }
        assert forall t | t in resolved[b] :: !Stuck(blocks, b, t);
        rest := rest - {b};
      }
      return false;
    }

    lemma StuckMeans(blocks: seq<Block>)
      requires Valid()
      ensures AnyStuck(blocks) <==> exists b, t ::
                Listed(resolved, b, t) && t in entries && forall i | 0 <= i < |blocks| :: blocks[i].va != t
    {
      hide Distinct, NoRepeats;
      if b: nat, t: nat :| Listed(resolved, b, t) && t in entries && forall i | 0 <= i < |blocks| :: blocks[i].va != t {
        assert Stuck(blocks, b, t);
      }
      if b: nat, t: nat :| Stuck(blocks, b, t) {
        assert Listed(resolved, b, t) && t in entries;
      }
    }

    ghost predicate Stuck(blocks: seq<Block>, b: nat, t: nat)
      reads `resolved, `known
    {
      Listed(resolved, b, t) && t in known && !HasBlock(blocks, t)
    }

    ghost predicate AnyStuck(blocks: seq<Block>)
      reads `resolved, `known
    {
      exists b, t :: Stuck(blocks, b, t)
    }

    method LiftKnown() returns (fn: Option<seq<Block>>)
      modifies `tick
      ensures fn == world.lift(old(tick), entries) && tick == old(tick) + 1
    {
      fn := world.lift(tick, entries);
      tick := tick + 1;
    }

    /** The pipeline to SSA with the known edges back in place before it, then a probe. */
    method RunPass(blocks: seq<Block>) returns (probed: Option<(seq<Block>, seq<Discovery>)>)
      modifies `tick
      ensures tick == old(tick) + 1 && probed == PassOver(world, tick, blocks, resolved)
    {
      tick := tick + 1;
      var atCfg := world.toCfg(tick, blocks);
      if atCfg.None? { return None; }
      var fn := new LiftedFunction(atCfg.value);
      fn.ApplyResolutions(resolved);
      var atSsa := world.toSsa(tick, fn.blocks);
      if atSsa.None? { return None; }
      probed := world.probe(tick, atSsa.value);
    }

    /** Every believed address is known already, is dropped by the fence, or finds the cap reached. */
    ghost predicate AddressesOld(found: seq<Discovery>)
      reads `known
    {
      forall i, va | 0 <= i < |found| && Believed(found[i], options.maxDiscoveryPerBranch) && va in found[i].missing ::
        va in known || options.fence.Drops(va) || |known| >= options.maxTotalEntries
    }

    /** What one pass reports, taken into what is known. */
    method TakePass(blocks: seq<Block>, found: seq<Discovery>) returns (passNew: nat, passEdges: nat)
      requires Valid()
      modifies `entries, `known, `extraEntries, `resolved
      ensures Valid()
      ensures old(extraEntries) <= extraEntries && |extraEntries| == |old(extraEntries)| + passNew
      ensures Grows(old(resolved), resolved) && |Edges(resolved)| == |Edges(old(resolved))| + passEdges
      ensures EdgesKept(blocks, found, options.maxDiscoveryPerBranch, resolved)
      ensures passNew == 0 ==> AddressesOld(found)
      ensures Now() == Taken(options, old(Now()), blocks, found)
    {
      hide Fence.Drops, Admitted, Edges, IsFirstResolved, IsLastBelieved, Distinct, AdmitAll, Asked, Proposed,
        Harvested, Merged;
      var discoveries, pending, _ := TakeDiscoveries(found, options.maxDiscoveryPerBranch);
      passNew := AdmitDiscoveries(discoveries);
      var harvested := Harvest(blocks);
      var now, some := Absorb(resolved, harvested);
      var later, more := Absorb(now, pending);
      KeptEdges(blocks, found, options.maxDiscoveryPerBranch, harvested, pending, later);
      resolved := later;
      passEdges := some + more;
      if passNew == 0 {
        assert extraEntries == old(extraEntries) && extraEntries[|extraEntries|..] == [];
        NoneAdmitted(found, discoveries);
      }
    }

    lemma NoneAdmitted(found: seq<Discovery>, discoveries: set<nat>)
      requires Valid() && Admitted(entries, [], discoveries, options)
      requires forall va :: va in discoveries <==>
               exists i ::
                 0 <= i < |found| && Believed(found[i], options.maxDiscoveryPerBranch) && va in found[i].missing
      ensures AddressesOld(found)
    {
      hide Fence.Drops;
      KnownCount();
    }

    /** What holds of any later moment of the same run. */
    twostate predicate Extends()
      reads this
    {
      && old(extraEntries) <= extraEntries && Grows(old(resolved), resolved)
      && |Edges(old(resolved))| <= |Edges(resolved)|
    }

    /** One round's passes: lift in what a pass admitted and probe again, until a pass admits nothing. The
        blocks and reports are those of the last pass made. */
    method Settle(first: seq<Block>)
        returns (how: Settling, foundNew: nat, foundEdges: nat, blocks: seq<Block>, ghost found: seq<Discovery>)
      requires Valid()
      modifies `tick, `entries, `known, `extraEntries, `resolved, `settles
      ensures Valid() && Extends()
      ensures |extraEntries| == |old(extraEntries)| + foundNew
              && |Edges(resolved)| == |Edges(old(resolved))| + foundEdges
      ensures old(settles) + 1 <= settles <= old(settles) + SETTLE_CEILING && settles <= old(settles) + 1 + foundNew
      ensures how.Settled? && foundNew == 0 ==>
                AddressesOld(found) && EdgesKept(blocks, found, options.maxDiscoveryPerBranch, resolved)
      ensures settles <= old(settles) + 16
      ensures SettleFrom(world, options, old(Now()), first, [], 0)
              == Round(how, settles - old(settles), Now(), blocks, found)
    {
      hide Valid, Edges, EdgesKept, AddressesOld, PassOver, Taken, SettleFrom, Grows;
      GrowsSelf(resolved);
      how, foundNew, foundEdges, blocks, found := Settled, 0, 0, first, [];
      for settle := 0 to SETTLE_CEILING
        invariant Valid() && old(extraEntries) <= extraEntries && Grows(old(resolved), resolved)
        invariant |extraEntries| == |old(extraEntries)| + foundNew
                  && |Edges(resolved)| == |Edges(old(resolved))| + foundEdges
        invariant settles == old(settles) + settle && settle <= foundNew
        invariant SettleFrom(world, options, Now(), blocks, found, settle)
                  == SettleFrom(world, options, old(Now()), first, [], 0)
      {
        ghost var m := Now();
        EntriesLength();
        SettleNext(world, options, m, blocks, found, settle);
        settles := settles + 1;
        var probed := RunPass(blocks);
        if probed.None? { return Broken, foundNew, foundEdges, blocks, found; }
        blocks := probed.value.0;
        var reported := probed.value.1;
        found := reported;
        var passNew, passEdges := TakePass(blocks, reported);
        GrowsOn(old(resolved), m.resolved, resolved);
        EntriesLength();
        foundNew, foundEdges := foundNew + passNew, foundEdges + passEdges;
        if passNew == 0 { return; }
        if world.windDown(tick) { return WoundDown, foundNew, foundEdges, blocks, found; }
        var lifted := LiftKnown();
        if lifted.None? { return Broken, foundNew, foundEdges, blocks, found; }
        blocks := lifted.value;
      }
      SettleDone(world, options, Now(), blocks, found);
    }

    lemma EntriesLength()
      requires Valid()
      ensures |entries| == 1 + |extraEntries|
    {}

    /** The run whose function is returned. */
    method Finish(stop: Stop) returns (outcome: Outcome)
      modifies `tick
      ensures var last := LastRun(world, old(tick), entries, resolved, stop.WindDown?);
              outcome.Finished? == last.Some? && (last.Some? ==> outcome.blocks == last.value)
      ensures outcome.Finished? ==>
              outcome.stop == stop && (outcome.converged <==> options.coverage.Some? || stop.Converged?)
    {
      var whole := LiftKnown();
      if whole.None? { return Failed; }
      var atCfg := world.toCfg(tick, whole.value);
      if atCfg.None? { return Failed; }
      var fn := new LiftedFunction(atCfg.value);
      fn.ApplyResolutions(resolved);
      var done := world.toTarget(tick, fn.blocks, stop.WindDown?);
      if done.None? { return Failed; }
      outcome := Finished(stop, options.coverage.Some? || stop.Converged?, done.value);
    }

    /** What the round that ended the run had to say: it is the round that follows `before`, its one pass
        went over a lift of every known entry with every known edge in place, and nothing it reported was
        new. */
    ghost predicate LastRoundIsQuiet(before: Moment)
      reads `known, `resolved
    {
      var last, lifted := RoundFrom(world, options, before), world.lift(before.tick, before.entries);
      && last.how.Settled? && last.passes == 1 && NothingNew(before, last.moment)
      && lifted.Some?
      && PassOver(world, before.tick + 2, lifted.value, before.resolved) == Some((last.blocks, last.found))
      && AddressesOld(last.found) && EdgesKept(last.blocks, last.found, options.maxDiscoveryPerBranch, resolved)
    }

    /** How a run of rounds from `start` came to stop. */
    ghost predicate StopExplained(stop: Stop, start: Moment)
      reads `known, `resolved, `rounds
    {
      match stop
      case Converged =>
        && rounds > 0 && LastRoundIsQuiet(After(world, options, start, rounds - 1))
        && !AnyStuck(RoundFrom(world, options, After(world, options, start, rounds - 1)).blocks)
      case StuckResolution =>
        && rounds > 0 && LastRoundIsQuiet(After(world, options, start, rounds - 1))
        && AnyStuck(RoundFrom(world, options, After(world, options, start, rounds - 1)).blocks)
      case RoundCap =>
        && Climbs(world, options, start, rounds)
        && rounds == if options.extendWhileProving && options.maxRounds > 0 then ROUND_CEILING
             else Min(options.maxRounds, ROUND_CEILING)
      case WindDown =>
        rounds > 0 && AsksDown(world, options, start, rounds)
      case NoDiscovery => false
    }

    /** Every round but the last settled and established something, so there are at most one more rounds than
        facts, and no wind-down was asked for on the way. */
    ghost predicate RoundsEarned(start: Moment)
      reads `extraEntries, `resolved, `rounds, `settles
    {
      && (rounds > 0 ==> Climbs(world, options, start, rounds - 1)) && Unasked(world, options, start, rounds)
      && rounds <= Facts() + 1 && settles <= rounds + |extraEntries| && settles <= SETTLE_CEILING * rounds
      && rounds <= 128 && (!options.extendWhileProving ==> rounds <= options.maxRounds)
    }

    /** A run that ended after its rounds: what is known is where they led, the function is the last run's
        over all of it, and the stop means what it says. */
    ghost predicate RoundsFinished(start: Moment, outcome: Outcome)
      requires outcome.Finished?
      reads `entries, `known, `resolved, `rounds
    {
      var end := After(world, options, start, rounds);
      && entries == end.entries && resolved == end.resolved
      && LastRun(world, end.tick, entries, resolved, outcome.stop.WindDown?) == Some(outcome.blocks)
      && StopExplained(outcome.stop, start)
    }

    /** The world gave no answer, to one of the calls a run makes of it. */
    ghost predicate FailureExplained(start: Moment)
      reads `known, `resolved, `rounds
    {
      var end := After(world, options, start, rounds);
      var lifted := world.lift(end.tick, end.entries);
      if options.coverage.Some? then
        entry !in options.coverage.value || LastRun(world, start.tick, start.entries, start.resolved, false).None?
      else
        || lifted.None?
        || (options.stopsAtSsa && rounds == 1 && world.lift(start.tick, start.entries).Some?
            && world.toTarget(start.tick + 1, world.lift(start.tick, start.entries).value, false).None?)
        || (rounds > 0 && RoundFrom(world, options, After(world, options, start, rounds - 1)).how.Broken?)
        || exists stop :: StopExplained(stop, start)
             && LastRun(world, end.tick, end.entries, end.resolved, stop.WindDown?).None?
    }

    /** A run that needed no rounds of discovery. */
    ghost predicate NothingSought(start: Moment, outcome: Outcome)
      requires outcome.Finished?
      reads `entries, `resolved, `rounds
    {
      && outcome.stop.NoDiscovery? && entries == start.entries && resolved == start.resolved
      && (if options.coverage.Some? then
            rounds == 0 && entry in options.coverage.value
              && LastRun(world, start.tick, entries, resolved, false) == Some(outcome.blocks)
          else
            && rounds == 1 && options.stopsAtSsa && world.lift(start.tick, entries).Some?
            && world.toTarget(start.tick + 1, world.lift(start.tick, entries).value, false) == Some(outcome.blocks))
    }

    /** So far every round established something. */
    ghost predicate Earning(start: Moment)
      reads `extraEntries, `resolved, `rounds, `settles
    {
      && rounds <= Facts() && Climbs(world, options, start, rounds) && Unasked(world, options, start, rounds)
      && settles <= rounds + |extraEntries| && settles <= SETTLE_CEILING * rounds
    }

    /** And the run is where those rounds led. */
    ghost predicate Progressing(start: Moment)
      reads `tick, `entries, `extraEntries, `resolved, `rounds, `settles
    {
      Now() == After(world, options, start, rounds) && Earning(start)
    }

    lemma NothingYet(start: Moment)
      requires extraEntries == [] && rounds == 0 && settles == 0 && start == Now()
      ensures Progressing(start)
    {}

    /** Fewer rounds have earned no less. */
    lemma EarningIsEarned(start: Moment)
      requires Earning(start) && rounds <= ROUND_CEILING
               && (!options.extendWhileProving ==> rounds <= options.maxRounds)
      ensures RoundsEarned(start)
    {
      hide Earned, AsksDown, Edges;
    }

    lemma FactsNow()
      requires Valid()
      ensures FactsAt(Now()) == Facts()
    {
      hide Edges, Distinct, NoRepeats;
    }

    /** One more round that established something. */
    lemma ClimbsMore(start: Moment, n: nat)
      requires Climbs(world, options, start, n)
               && RoundFrom(world, options, After(world, options, start, n)).how.Settled?
      requires FactsAt(After(world, options, start, n)) < FactsAt(After(world, options, start, n + 1))
      ensures Climbs(world, options, start, n + 1)
    {
      hide Earned;
      assert Earned(world, options, start, n) by { NowEarned(start, n); }
    }

    lemma NowEarned(start: Moment, n: nat)
      requires RoundFrom(world, options, After(world, options, start, n)).how.Settled?
      requires FactsAt(After(world, options, start, n)) < FactsAt(After(world, options, start, n + 1))
      ensures Earned(world, options, start, n)
    {
      hide After, RoundFrom, FactsAt;
    }

    lemma QuietIsQuiet(before: Moment, lifted: seq<Block>, found: seq<Discovery>, blocks: seq<Block>, passes: nat)
      requires Valid() && RoundFrom(world, options, before) == Round(Settled, passes, Now(), blocks, found)
      requires FactsAt(Now()) == FactsAt(before) && |entries| == |before.entries|
      requires AddressesOld(found) && EdgesKept(blocks, found, options.maxDiscoveryPerBranch, resolved)
      ensures LastRoundIsQuiet(before)
    {
      hide Edges, EdgesKept, AddressesOld, RoundFrom, NothingNew, Keeps, PassOver, Distinct;
      RoundKeeps(world, options, before);
      SameCountSameFacts(before, Now());
      QuietRound(world, options, before);
    }

    /** One round, over a fresh lift. */
    method OneRound(ghost start: Moment, ghost before: Moment, lifted: seq<Block>)
        returns (how: Settling, quiet: bool, blocks: seq<Block>)
      requires Valid() && Earning(start) && rounds < ROUND_CEILING
               && (!options.extendWhileProving ==> rounds < options.maxRounds)
      requires before == After(world, options, start, rounds) && Now() == Ticked(before)
      requires world.lift(before.tick, before.entries) == Some(lifted)
      requires rounds > 0 ==> !world.windDown(before.tick)
      modifies `tick, `entries, `known, `extraEntries, `resolved, `rounds, `settles
      ensures Valid() && RoundsEarned(start) && rounds == old(rounds) + 1
      ensures RoundFrom(world, options, before).how == how && RoundFrom(world, options, before).blocks == blocks
      ensures Now() == After(world, options, start, rounds) == RoundFrom(world, options, before).moment
      ensures how.Settled? && !quiet ==> Progressing(start)
      ensures how.Settled? && quiet ==> LastRoundIsQuiet(before)
    {
      hide Valid, Edges, EdgesKept, AddressesOld, SettleFrom, NothingNew, Keeps, LastRoundIsQuiet, Climbs;
      ghost var found;
      var foundNew, foundEdges;
      FactsNow();
      EntriesLength();
      rounds := rounds + 1;
      how, foundNew, foundEdges, blocks, found := Settle(lifted);
      quiet := foundNew == 0 && foundEdges == 0;
      FactsNow();
      EntriesLength();
      if how.Settled? && quiet {
        QuietIsQuiet(before, lifted, found, blocks, settles - old(settles));
      }
      if how.Settled? && !quiet {
        ClimbsMore(start, old(rounds));
      }
    }

    /** The end of a run of rounds. */
    method FinishRounds(ghost start: Moment, stop: Stop) returns (outcome: Outcome)
      requires Now() == After(world, options, start, rounds) && StopExplained(stop, start)
      modifies `tick
      ensures outcome.Finished? ==> outcome.stop == stop && RoundsFinished(start, outcome)
      ensures outcome.Failed? && options.coverage.None? ==> FailureExplained(start)
      ensures outcome.Finished? ==> (outcome.converged <==> options.coverage.Some? || stop.Converged?)
    {
      hide AnyStuck, RoundFrom, After, LastRoundIsQuiet, LastRun, Climbs;
      outcome := Finish(stop);
    }

    /** A round that proved nothing ends the run, as converged unless an edge is stuck. */
    method FinishQuietRound(ghost start: Moment, blocks: seq<Block>) returns (outcome: Outcome)
      requires Valid() && rounds > 0 && Now() == After(world, options, start, rounds)
      requires LastRoundIsQuiet(After(world, options, start, rounds - 1))
      requires blocks == RoundFrom(world, options, After(world, options, start, rounds - 1)).blocks
      modifies `tick
      ensures outcome.Finished? ==>
              (outcome.stop.Converged? || outcome.stop.StuckResolution?) && RoundsFinished(start, outcome)
      ensures outcome.Failed? && options.coverage.None? ==> FailureExplained(start)
      ensures outcome.Finished? ==> (outcome.converged <==> options.coverage.Some? || outcome.stop.Converged?)
    {
      hide Valid, AnyStuck, RoundFrom, After, LastRoundIsQuiet, RoundsFinished, FailureExplained;
      var stuck := HasStuckResolution(blocks);
      outcome := FinishRounds(start, if stuck then StuckResolution else Converged);
    }

    /** The whole run. Whatever the world answers it ends, knowledge only grows from round to round, and the
        outcome is explained by the rounds as the world's answers determine them. */
    method Run() returns (outcome: Outcome)
      requires Valid() && extraEntries == [] && resolved == map[] && rounds == 0 && settles == 0
      modifies this
      ensures Valid() && RoundsEarned(old(Now()))
      ensures forall i: nat, j: nat | i <= j ::
              Keeps(After(world, options, old(Now()), i), After(world, options, old(Now()), j))
      ensures outcome.Finished? ==>
                if options.coverage.Some? || (options.stopsAtSsa && outcome.stop.NoDiscovery?)
                  then NothingSought(old(Now()), outcome)
                else RoundsFinished(old(Now()), outcome)
      ensures outcome.Failed? ==> FailureExplained(old(Now()))
      ensures outcome.Finished? ==> (outcome.converged <==> options.coverage.Some? || outcome.stop.Converged?)
    {
      hide Valid, AnyStuck, RoundsEarned, Keeps, After, RoundFrom, LastRoundIsQuiet, Climbs, RoundsFinished, Edges;
      ghost var start := Now();
      AlwaysKeeps(start);
      NothingYet(start);
      EarningIsEarned(start);
      if options.coverage.Some? {
        if entry !in options.coverage.value { return Failed; }
        outcome := Finish(NoDiscovery);
        return;
      }
      var budget := Min(options.maxRounds, ROUND_CEILING);
      var round := 0;
      while round < budget
        invariant Valid() && rounds == round <= budget <= ROUND_CEILING && Progressing(start)
        invariant round == 0 ==> entries == start.entries && resolved == start.resolved && tick == start.tick
        invariant round == 0 ==> extraEntries == [] && settles == 0
        invariant round > 0 ==> !options.stopsAtSsa
        invariant !options.extendWhileProving ==> budget == Min(options.maxRounds, ROUND_CEILING)
        invariant options.maxRounds == 0 ==> budget == 0
        invariant round < budget || !options.extendWhileProving || options.maxRounds == 0 || budget == ROUND_CEILING
        decreases ROUND_CEILING - round
      {
        EarningIsEarned(start);
        if round > 0 && world.windDown(tick) {
          outcome := FinishRounds(start, WindDown);
          return;
        }
        ghost var before := Now();
        var lifted := LiftKnown();
        if lifted.None? { return Failed; }
        if options.stopsAtSsa {
          CountRound(start);
          var atTarget := world.toTarget(tick, lifted.value, false);
          if atTarget.None? { return Failed; }
          return Finished(NoDiscovery, false, atTarget.value);
        }
        var how, quiet, blocks := OneRound(start, before, lifted.value);
        if how.Broken? { return Failed; }
        if how.WoundDown? {
          WoundDownAsAsked(before);
          outcome := FinishRounds(start, WindDown);
          return;
        }
        if quiet {
          outcome := FinishQuietRound(start, blocks);
          return;
        }
        if round + 1 == budget && options.extendWhileProving && budget < ROUND_CEILING {
          budget := budget + 1;
        }
        round := round + 1;
      }
      EarningIsEarned(start);
      outcome := FinishRounds(start, RoundCap);
    }

    lemma AlwaysKeeps(start: Moment)
      ensures forall i: nat, j: nat | i <= j :: Keeps(After(world, options, start, i), After(world, options, start, j))
    {
      hide Keeps, After;
      forall i: nat, j: nat | i <= j ensures Keeps(After(world, options, start, i), After(world, options, start, j)) {
        RunKeeps(world, options, start, i, j);
      }
    }

    lemma WoundDownAsAsked(before: Moment)
      requires RoundFrom(world, options, before).how.WoundDown?
      ensures world.windDown(RoundFrom(world, options, before).moment.tick)
    {
      hide SettleFrom;
      SettleWoundDown(world, options, Ticked(before), world.lift(before.tick, before.entries).value, [], 0);
    }

    /** The one round of a run that stops before discovery. */
    method CountRound(ghost start: Moment)
      requires Earning(start) && rounds == 0 && settles == 0 && extraEntries == []
      requires ROUND_CEILING > 0 && (!options.extendWhileProving ==> options.maxRounds > 0)
      modifies `rounds
      ensures RoundsEarned(start) && rounds == 1
    {
      hide Edges, After;
      rounds := 1;
    }

    lemma KnownCount()
      requires Valid()
      ensures |known| == |entries|
      ensures forall va :: va in known <==> va in entries
    {
      DistinctCount(entries);
    }

    lemma EntriesSplit(before: seq<nat>, was: seq<nat>, va: nat)
      requires Valid() && before <= extraEntries && was == [entry] + before
      ensures |known| == |was| + |extraEntries[|before|..]|
      ensures va in known <==> va in was || va in extraEntries[|before|..]
    {
      KnownCount();
      assert extraEntries == before + extraEntries[|before|..];
      assert entries == was + extraEntries[|before|..];
    }

    lemma Grown(va: nat)
      requires Valid() && va !in known && !options.fence.Drops(va) && |known| < options.maxTotalEntries
      ensures Distinct(entries + [va]) && known + {va} == Elements(entries + [va])
      ensures |entries + [va]| <= Max(1, options.maxTotalEntries)
      ensures entries + [va] == [entry] + (extraEntries + [va])
      ensures forall x | x in extraEntries + [va] :: !options.fence.Drops(x)
    {
      hide Fence.Drops;
      KnownCount();
      assert forall i | 0 <= i < |entries| :: entries[i] in entries;
    }
  }

  lemma NothingAdmitted(was: seq<nat>, extra: seq<nat>, rest: set<nat>, options: Options)
    ensures Below(extra[|extra|..], rest) && Admitted(was, extra[|extra|..], rest - rest, options)
  {}

  /** Every edge a pass reported is known now. */
  ghost predicate EdgesKept(blocks: seq<Block>, found: seq<Discovery>, cap: nat, resolved: Resolutions) {
    && (forall b, i, t | IsFirstResolved(blocks, b, i, |blocks|) && t in blocks[i].targets :: Listed(resolved, b, t))
    && (forall b, i, t | IsLastBelieved(found, cap, b, i, |found|) && t in found[i].targets :: Listed(resolved, b, t))
  }

  lemma KeptEdges(blocks: seq<Block>, found: seq<Discovery>, cap: nat, harvested: Resolutions, pending: Resolutions,
      later: Resolutions)
    requires forall b | b in harvested :: exists i ::
             IsFirstResolved(blocks, b, i, |blocks|) && harvested[b] == blocks[i].targets
    requires forall i | 0 <= i < |blocks| && Resolved(blocks[i]) :: blocks[i].branch.value in harvested
    requires forall b | b in pending :: exists i ::
             IsLastBelieved(found, cap, b, i, |found|) && pending[b] == found[i].targets
    requires forall i | 0 <= i < |found| && Believed(found[i], cap) :: found[i].branch in pending
    requires forall b, t | Listed(harvested, b, t) || Listed(pending, b, t) :: Listed(later, b, t)
    ensures EdgesKept(blocks, found, cap, later)
  {
    forall b, i, t | IsFirstResolved(blocks, b, i, |blocks|) && t in blocks[i].targets ensures Listed(later, b, t) {
      var k :| IsFirstResolved(blocks, b, k, |blocks|) && harvested[b] == blocks[k].targets;
      assert i == k;
      assert Listed(harvested, b, t);
    }
    forall b, i, t | IsLastBelieved(found, cap, b, i, |found|) && t in found[i].targets ensures Listed(later, b, t) {
      var k :| IsLastBelieved(found, cap, b, k, |found|) && pending[b] == found[k].targets;
      assert i == k;
      assert Listed(pending, b, t);
    }
  }
}
