/** The width at which a value and the merges it flows into are read. */
module ReadWidths {
  import opened Basics

  type Width = Option<nat>

  /** How a value is used: at full width, through truncations of at most `trunc` bits, and in merges. */
  datatype WidthUse = WidthUse(full: bool, trunc: nat, merges: seq<nat>)

  type Uses = map<nat, WidthUse>

  /** What one use asks for by itself. */
  function Demand(use: WidthUse, declared: nat): Width {
    if use.full then Some(declared) else if use.trunc != 0 then Some(use.trunc) else None
  }

  /** The wider of two answers, where no answer is narrower than any. */
  function Wider(a: Width, b: Width): Width {
    if a.None? then b else if b.None? then a else Some(Max(a.value, b.value))
  }

  predicate AtMost(a: Width, b: Width) {
    a.None? || (b.Some? && a.value <= b.value)
  }

  /** A value survives into merge `m` over `n` merges between. */
  ghost predicate FlowsIn(uses: Uses, use: WidthUse, m: nat, n: nat)
    decreases n
  {
    if n == 0 then m in use.merges
    else exists k :: FlowsIn(uses, use, k, n - 1) && k in uses && m in uses[k].merges
  }

  ghost predicate Flows(uses: Uses, use: WidthUse, m: nat) {
    exists n :: FlowsIn(uses, use, m, n)
  }

  /** The same over merges that are not in `was` and, but for the last, not read at full width. */
  ghost predicate OpenIn(uses: Uses, use: WidthUse, was: set<nat>, m: nat, n: nat)
    decreases n
  {
    && m !in was
    && if n == 0 then !use.full && m in use.merges
       else exists k :: OpenIn(uses, use, was, k, n - 1) && k in uses && !uses[k].full && m in uses[k].merges
  }

  ghost predicate Open(uses: Uses, use: WidthUse, was: set<nat>, m: nat) {
    exists n :: OpenIn(uses, use, was, m, n)
  }

  lemma {:induction false} OpenFlows(uses: Uses, use: WidthUse, was: set<nat>, m: nat, n: nat)
    requires OpenIn(uses, use, was, m, n)
    ensures FlowsIn(uses, use, m, n)
    decreases n
  {
    if n > 0 {
      var k :| OpenIn(uses, use, was, k, n - 1) && k in uses && !uses[k].full && m in uses[k].merges;
      OpenFlows(uses, use, was, k, n - 1);
    }
  }

  /** What is open to a merge of the use is open to the use. */
  lemma {:induction false} OpenThrough(uses: Uses, use: WidthUse, was: set<nat>, more: set<nat>, k: nat, m: nat, n: nat)
    requires !use.full && k in use.merges && k in uses && k !in was && was <= more && OpenIn(uses, uses[k], more, m, n)
    ensures OpenIn(uses, use, was, m, n + 1)
    decreases n
  {
    if n == 0 {
      assert OpenIn(uses, use, was, k, 0);
    } else {
      var j :| OpenIn(uses, uses[k], more, j, n - 1) && j in uses && !uses[j].full && m in uses[j].merges;
      OpenThrough(uses, use, was, more, k, j, n - 1);
    }
  }

  /** `r` is the widest demand of the use and the given merges. */
  ghost predicate WidestOf(uses: Uses, use: WidthUse, declared: nat, among: iset<nat>, r: Width) {
    && AtMost(Demand(use, declared), r)
    && (forall m | m in uses && m in among :: AtMost(Demand(uses[m], declared), r))
    && (r.Some? ==> r == Demand(use, declared) || exists m :: m in uses && m in among && r == Demand(uses[m], declared))
  }

  lemma WidestIsUnique(uses: Uses, use: WidthUse, declared: nat, among: iset<nat>, r: Width, s: Width)
    requires WidestOf(uses, use, declared, among, r) && WidestOf(uses, use, declared, among, s)
    ensures r == s
  {}

  ghost function FlowsInto(uses: Uses, use: WidthUse): iset<nat> {
    iset m | Flows(uses, use, m)
  }

  ghost function OpenTo(uses: Uses, use: WidthUse): iset<nat> {
    iset m | Open(uses, use, {}, m)
  }

  ghost function Fresh(was: set<nat>, walked: set<nat>): iset<nat> {
    iset m | m in walked - was
  }

  /** The widest demand of the use and everything it flows into. */
  ghost predicate IsWidest(uses: Uses, use: WidthUse, declared: nat, r: Width) {
    WidestOf(uses, use, declared, FlowsInto(uses, use), r)
  }

  /** The widest demand short of what lies behind a full-width reader. */
  ghost predicate IsAnswer(uses: Uses, use: WidthUse, declared: nat, r: Width) {
    WidestOf(uses, use, declared, OpenTo(uses, use), r)
  }

  /** A truncation of at least `width` bits is met before any full-width reader. */
  ghost predicate Shown(uses: Uses, use: WidthUse, width: nat) {
    || (!use.full && use.trunc >= width)
    || exists m :: m in uses && Open(uses, use, {}, m) && !uses[m].full && uses[m].trunc >= width
  }

  /** No truncation wider than the value lies behind a full-width reader with none as wide before one. */
  ghost predicate NothingHidden(uses: Uses, use: WidthUse, declared: nat) {
    forall m | m in uses && Flows(uses, use, m) && !uses[m].full && uses[m].trunc > declared ::
      Shown(uses, use, uses[m].trunc)
  }

  /** Nothing the value flows into is truncated to more than its width. */
  ghost predicate Narrowed(uses: Uses, use: WidthUse, declared: nat) {
    forall m | m in uses && Flows(uses, use, m) :: uses[m].trunc <= declared
  }

  /** What the verifier of the intermediate language asks of the merges: one is as wide as what it merges,
      and a truncation does not widen. */
  ghost predicate Typed(uses: Uses, use: WidthUse, declared: nat, width: nat -> nat) {
    && (forall m | m in use.merges :: width(m) == declared)
    && (forall k | k in uses :: uses[k].trunc <= width(k) && forall m | m in uses[k].merges :: width(m) == width(k))
  }

  lemma {:induction false} FlowKeepsWidth(uses: Uses, use: WidthUse, declared: nat, width: nat -> nat, m: nat, n: nat)
    requires Typed(uses, use, declared, width) && FlowsIn(uses, use, m, n)
    ensures width(m) == declared
    decreases n
  {
    if n > 0 {
      var k :| FlowsIn(uses, use, k, n - 1) && k in uses && m in uses[k].merges;
      FlowKeepsWidth(uses, use, declared, width, k, n - 1);
    }
  }

  /** Of a function the verifier accepts, a walk's answer is the widest demand over everything the value
      flows into, full-width readers or not. */
  lemma TypedIsWidest(uses: Uses, use: WidthUse, declared: nat, width: nat -> nat, r: Width)
    requires Typed(uses, use, declared, width) && IsAnswer(uses, use, declared, r)
    ensures Narrowed(uses, use, declared) && IsWidest(uses, use, declared, r)
  {
    hide FlowsIn, IsAnswer, IsWidest;
    forall m | m in uses && Flows(uses, use, m) ensures uses[m].trunc <= declared {
      var n :| FlowsIn(uses, use, m, n);
      FlowKeepsWidth(uses, use, declared, width, m, n);
    }
    WidestExactly(uses, use, declared, r);
  }

  /** A value flows on without meeting a full-width reader, or has met one. */
  lemma {:induction false} FlowIsSeen(uses: Uses, use: WidthUse, m: nat, n: nat)
    requires FlowsIn(uses, use, m, n)
    ensures Open(uses, use, {}, m) || use.full || exists k :: Open(uses, use, {}, k) && k in uses && uses[k].full
    decreases n
  {
    if n == 0 {
      assert !use.full ==> OpenIn(uses, use, {}, m, 0);
    } else {
      var k :| FlowsIn(uses, use, k, n - 1) && k in uses && m in uses[k].merges;
      FlowIsSeen(uses, use, k, n - 1);
      if Open(uses, use, {}, k) && !uses[k].full {
        var i: nat :| OpenIn(uses, use, {}, k, i);
        assert OpenIn(uses, use, {}, m, i + 1);
      }
    }
  }

  lemma AnswerCovers(uses: Uses, use: WidthUse, declared: nat, r: Width, m: nat)
    requires IsAnswer(uses, use, declared, r) && NothingHidden(uses, use, declared) && m in uses && Flows(uses, use, m)
    ensures AtMost(Demand(uses[m], declared), r)
  {
    hide FlowsIn, OpenIn, Open;
    var n :| FlowsIn(uses, use, m, n);
    FlowIsSeen(uses, use, m, n);
  }

  /** The answer is the widest demand exactly when no wider truncation is hidden. */
  lemma WidestExactly(uses: Uses, use: WidthUse, declared: nat, r: Width)
    requires IsAnswer(uses, use, declared, r)
    ensures IsWidest(uses, use, declared, r) <==> NothingHidden(uses, use, declared)
  {
    hide Flows, Open;
    forall m | Open(uses, use, {}, m) ensures Flows(uses, use, m) {
      OpenFlowsOn(uses, use, m);
    }
    if NothingHidden(uses, use, declared) {
      forall m | m in uses && Flows(uses, use, m) ensures AtMost(Demand(uses[m], declared), r) {
        AnswerCovers(uses, use, declared, r, m);
      }
    }
  }

  lemma OpenFlowsOn(uses: Uses, use: WidthUse, m: nat)
    requires Open(uses, use, {}, m)
    ensures Flows(uses, use, m)
  {
    hide OpenIn, FlowsIn;
    var n :| OpenIn(uses, use, {}, m, n);
    OpenFlows(uses, use, {}, m, n);
  }

  /** What a walk has established when it returns `r`, having gone from `was` to `walked`: it has walked
      just the merges open to it, and answers the widest demand among them. */
  ghost predicate Walked(uses: Uses, use: WidthUse, declared: nat, was: set<nat>, walked: set<nat>, r: Width) {
    && was <= walked
    && WidestOf(uses, use, declared, Fresh(was, walked), r)
    && (forall m | m in walked - was :: Open(uses, use, was, m))
    && (!use.full ==> forall m | m in use.merges :: m in walked)
    && (forall k | k in walked - was && k in uses && !uses[k].full :: forall m | m in uses[k].merges :: m in walked)
  }

  lemma {:induction false} OpenIsWalked(uses: Uses, use: WidthUse, declared: nat, was: set<nat>, walked: set<nat>,
      r: Width, m: nat, n: nat)
    requires Walked(uses, use, declared, was, walked, r) && OpenIn(uses, use, was, m, n)
    ensures m in walked
    decreases n
  {
    if n > 0 {
      var k :| OpenIn(uses, use, was, k, n - 1) && k in uses && !uses[k].full && m in uses[k].merges;
      OpenIsWalked(uses, use, declared, was, walked, r, k, n - 1);
      assert k !in was by { OpenIsNew(uses, use, was, k, n - 1); }
    }
  }

  lemma OpenIsNew(uses: Uses, use: WidthUse, was: set<nat>, m: nat, n: nat)
    requires OpenIn(uses, use, was, m, n)
    ensures m !in was
  {}

  /** A walk has walked exactly what is open to it. */
  lemma WalkedExactly(uses: Uses, use: WidthUse, declared: nat, was: set<nat>, walked: set<nat>, r: Width)
    requires Walked(uses, use, declared, was, walked, r)
    ensures forall m :: m in walked - was <==> Open(uses, use, was, m)
    ensures was == {} ==> IsAnswer(uses, use, declared, r)
  {
    hide OpenIn;
    forall m | Open(uses, use, was, m) ensures m in walked - was {
      var n :| OpenIn(uses, use, was, m, n);
      OpenIsWalked(uses, use, declared, was, walked, r, m, n);
      OpenIsNew(uses, use, was, m, n);
    }
    if was == {} {
      assert Fresh(was, walked) == OpenTo(uses, use);
    }
  }

  /** Whatever order it took, a walk from `was` walks the same merges and gives the same answer. */
  lemma WalkIsDetermined(uses: Uses, use: WidthUse, declared: nat, was: set<nat>, walked: set<nat>, r: Width,
      other: set<nat>, s: Width)
    requires Walked(uses, use, declared, was, walked, r) && Walked(uses, use, declared, was, other, s)
    ensures walked == other && r == s
  {
    hide Open, OpenIn;
    WalkedExactly(uses, use, declared, was, walked, r);
    WalkedExactly(uses, use, declared, was, other, s);
    assert forall m :: m in walked <==> m in was || m in walked - was;
    assert forall m :: m in other <==> m in was || m in other - was;
    WidestIsUnique(uses, use, declared, Fresh(was, walked), r, s);
  }

  lemma {:induction false} OpenInMore(uses: Uses, use: WidthUse, more: WidthUse, was: set<nat>, m: nat, n: nat)
    requires OpenIn(uses, use, was, m, n) && use.full == more.full && forall x | x in use.merges :: x in more.merges
    ensures OpenIn(uses, more, was, m, n)
    decreases n
  {
    if n > 0 {
      var k :| OpenIn(uses, use, was, k, n - 1) && k in uses && !uses[k].full && m in uses[k].merges;
      OpenInMore(uses, use, more, was, k, n - 1);
    }
  }

  lemma OpenMore(uses: Uses, use: WidthUse, more: WidthUse, was: set<nat>, m: nat)
    requires Open(uses, use, was, m) && use.full == more.full && forall x | x in use.merges :: x in more.merges
    ensures Open(uses, more, was, m)
  {
    var n :| OpenIn(uses, use, was, m, n);
    OpenInMore(uses, use, more, was, m, n);
  }

  function Part(use: WidthUse, i: nat): WidthUse
    requires i <= |use.merges|
  {
    use.(merges := use.merges[..i])
  }

  lemma PartNext(uses: Uses, use: WidthUse, was: set<nat>, i: nat)
    requires i < |use.merges| && !use.full
    ensures forall x :: x in Part(use, i + 1).merges <==> x in Part(use, i).merges || x == use.merges[i]
    ensures forall m | Open(uses, Part(use, i), was, m) :: Open(uses, Part(use, i + 1), was, m)
    ensures use.merges[i] in was || Open(uses, Part(use, i + 1), was, use.merges[i])
  {
    forall m | Open(uses, Part(use, i), was, m) ensures Open(uses, Part(use, i + 1), was, m) {
      OpenMore(uses, Part(use, i), Part(use, i + 1), was, m);
    }
    if use.merges[i] !in was {
      assert OpenIn(uses, Part(use, i + 1), was, use.merges[i], 0);
    }
  }

  /** A merge already walked, or one nothing is known of, adds nothing. */
  lemma WalkedOver(uses: Uses, use: WidthUse, declared: nat, was: set<nat>, walked: set<nat>, r: Width, i: nat)
    requires i < |use.merges| && !use.full && Walked(uses, Part(use, i), declared, was, walked, r)
    requires use.merges[i] in walked || use.merges[i] !in uses
    ensures Walked(uses, Part(use, i + 1), declared, was, walked + {use.merges[i]}, r)
  {
    hide OpenIn, Open;
    PartNext(uses, use, was, i);
    SameDemand(use, i, declared);
    forall m | m in walked + {use.merges[i]} - was ensures Open(uses, Part(use, i + 1), was, m) {
      assert m in walked - was || m == use.merges[i];
    }
  }

  lemma SameDemand(use: WidthUse, i: nat, declared: nat)
    requires i < |use.merges|
    ensures Demand(Part(use, i + 1), declared) == Demand(Part(use, i), declared)
  {}

  lemma WiderBounds(a: Width, b: Width)
    ensures AtMost(a, Wider(a, b)) && AtMost(b, Wider(a, b))
    ensures Wider(a, b) == a || Wider(a, b) == b
    ensures forall c | AtMost(c, a) || AtMost(c, b) :: AtMost(c, Wider(a, b))
  {}

  lemma OpenFrom(uses: Uses, use: WidthUse, was: set<nat>, more: set<nat>, i: nat)
    requires i < |use.merges| && !use.full && use.merges[i] in uses && use.merges[i] !in was && was <= more
    ensures forall m | Open(uses, uses[use.merges[i]], more, m) :: Open(uses, Part(use, i + 1), was, m)
  {
    hide OpenIn;
    forall m | Open(uses, uses[use.merges[i]], more, m) ensures Open(uses, Part(use, i + 1), was, m) {
      var n :| OpenIn(uses, uses[use.merges[i]], more, m, n);
      assert use.merges[i] == use.merges[..i + 1][i];
      OpenThrough(uses, Part(use, i + 1), was, more, use.merges[i], m, n);
    }
  }

  /** A merge walked for the first time adds what its own walk found. */
  lemma WalkedThrough(uses: Uses, use: WidthUse, declared: nat, was: set<nat>, before: set<nat>, now: set<nat>,
      r: Width, through: Width, i: nat)
    requires i < |use.merges| && !use.full && use.merges[i] in uses && use.merges[i] !in before
    requires Walked(uses, Part(use, i), declared, was, before, r)
    requires Walked(uses, uses[use.merges[i]], declared, before + {use.merges[i]}, now, through)
    ensures Walked(uses, Part(use, i + 1), declared, was, now, Wider(r, through))
  {
    hide OpenIn, Open;
    PartNext(uses, use, was, i);
    OpenFrom(uses, use, was, before + {use.merges[i]}, i);
    SameDemand(use, i, declared);
    WiderBounds(r, through);
    var merge := use.merges[i];
    forall m | m in now - was && m in uses ensures AtMost(Demand(uses[m], declared), Wider(r, through)) {
      assert m in before - was || m == merge || m in now - (before + {merge});
    }
    forall m | m in now - was ensures Open(uses, Part(use, i + 1), was, m) {
      assert m in before - was || m == merge || m in now - (before + {merge});
    }
    forall k | k in now - was && k in uses && !uses[k].full ensures forall m | m in uses[k].merges :: m in now {
      assert k in before - was || k == merge || k in now - (before + {merge});
    }
  }

  class Walk {
    var walked: set<nat>

    constructor ()
      ensures walked == {}
    {
      walked := {};
    }

    /** Each merge is walked once; one already walked has given what it has to give. */
    method ReadWidth(uses: Uses, use: WidthUse, declared: nat) returns (widest: Width)
      modifies this
      ensures Walked(uses, use, declared, old(walked), walked, widest)
      decreases uses.Keys - walked
    {
      hide Walked;
      if use.full {
        WalkedFull(uses, use, declared, walked);
        return Some(declared);
      }
      widest := if use.trunc != 0 then Some(use.trunc) else None;
      WalkedStart(uses, use, declared, walked);
      for i := 0 to |use.merges|
        invariant old(walked) <= walked && Walked(uses, Part(use, i), declared, old(walked), walked, widest)
      {
        var merge := use.merges[i];
        ghost var before, narrower := walked, widest;
        if merge in walked || merge !in uses {
          WalkedOver(uses, use, declared, old(walked), walked, widest, i);
        }
        if merge in walked {
          assert walked + {merge} == walked;
          continue;
        }
        walked := walked + {merge};
        if merge !in uses { continue; }
        var through := ReadWidth(uses, uses[merge], declared);
        WalkedGrows(uses, uses[merge], declared, before + {merge}, walked, through);
        widest := Wider(widest, through);
        WalkedThrough(uses, use, declared, old(walked), before, walked, narrower, through, i);
      }
      assert Part(use, |use.merges|) == use;
    }
  }

  lemma WalkedFull(uses: Uses, use: WidthUse, declared: nat, was: set<nat>)
    requires use.full
    ensures Walked(uses, use, declared, was, was, Some(declared))
  {}

  lemma WalkedStart(uses: Uses, use: WidthUse, declared: nat, was: set<nat>)
    requires !use.full
    ensures Walked(uses, Part(use, 0), declared, was, was, if use.trunc != 0 then Some(use.trunc) else None)
  {}

  lemma WalkedGrows(uses: Uses, use: WidthUse, declared: nat, was: set<nat>, walked: set<nat>, r: Width)
    requires Walked(uses, use, declared, was, walked, r)
    ensures was <= walked
  {}

  /** A fresh walk answers the widest demand it can meet short of a full-width reader. That is the widest of
      all exactly when no wider truncation is hidden behind one, and there is none that wide in a typed
      function. */
  method ReadWidth(uses: Uses, use: WidthUse, declared: nat) returns (widest: Width)
    ensures IsAnswer(uses, use, declared, widest)
    ensures IsWidest(uses, use, declared, widest) <==> NothingHidden(uses, use, declared)
    ensures Narrowed(uses, use, declared) ==> IsWidest(uses, use, declared, widest)
  {
    hide Walked, IsWidest, IsAnswer, NothingHidden;
    var walk := new Walk();
    widest := walk.ReadWidth(uses, use, declared);
    WalkedExactly(uses, use, declared, {}, walk.walked, widest);
    WidestExactly(uses, use, declared, widest);
    if Narrowed(uses, use, declared) { NarrowedHidesNothing(uses, use, declared); }
  }

  lemma NarrowedHidesNothing(uses: Uses, use: WidthUse, declared: nat)
    requires Narrowed(uses, use, declared)
    ensures NothingHidden(uses, use, declared)
  {
    hide Flows, Open;
  }
}
