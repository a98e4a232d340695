/** The search that fills the value lists, against the value sets it stands for. */
module ExactSearch {
  import opened Bits
  import opened Expressions
  import opened Basics
  import opened BitFactors
  import opened ExactValueSets

  type Listing = Option<seq<nat>>

  ghost predicate Lists(q: seq<nat>, s: set<nat>) {
    Distinct(q) && Elements(q) == s
  }

  /** The list answers exactly when the set does, with the same values, each once. */
  ghost predicate Answers(out: Listing, values: Values) {
    out.Some? == values.Some? && (out.Some? ==> Lists(out.value, values.value))
  }

  lemma Snoc(q: seq<nat>, i: nat)
    requires i < |q|
    ensures Elements(q[..i + 1]) == Elements(q[..i]) + {q[i]}
  {}

  method InsertUnique(values: seq<nat>, v: nat) returns (out: seq<nat>)
    requires Distinct(values)
    ensures Lists(out, Elements(values) + {v})
    ensures values <= out
  {
    if v in values {
      out := values;
      assert Elements(values) + {v} == Elements(values);
    } else {
      out := values + [v];
      assert Elements(out) == Elements(values) + {v};
    }
  }

  method InsertAll(values: seq<nat>, more: seq<nat>) returns (out: seq<nat>)
    requires Distinct(values)
    ensures Lists(out, Elements(values) + Elements(more))
  {
    out := values;
    assert Elements(values) + Elements(more[..0]) == Elements(values);
    for i := 0 to |more|
      invariant Lists(out, Elements(values) + Elements(more[..i]))
    {
      Snoc(more, i);
      out := InsertUnique(out, more[i]);
    }
    assert more[..|more|] == more;
  }

  method ValuesOfWidthList(w: nat) returns (out: Listing)
    ensures Answers(out, ValuesOfWidth(w))
  {
    var ceiling := LowMask(w);
    if ceiling >= SET_CAP { return None; }
    var q: seq<nat> := [];
    var v := 0;
    while v <= ceiling
      invariant v <= ceiling + 1 && |q| == v
      invariant forall i | 0 <= i < v :: q[i] == i
    {
      q := q + [v];
      v := v + 1;
    }
    assert forall x: nat :: x in q <==> x <= ceiling by {
      forall x: nat | x <= ceiling ensures x in q { assert q[x] == x; }
    }
    assert Elements(q) == UpTo(ceiling);
    out := Some(q);
  }

  method CastEach(k: CastOp, values: seq<nat>, from: nat, w: nat) returns (out: seq<nat>)
    requires from > 0
    ensures Lists(out, set x | x in Elements(values) :: CastValue(k, x, from, w))
  {
    hide CastValue;
    out := [];
    for i := 0 to |values|
      invariant Lists(out, set x | x in Elements(values[..i]) :: CastValue(k, x, from, w))
    {
      Snoc(values, i);
      out := InsertUnique(out, CastValue(k, values[i], from, w));
    }
    assert values[..|values|] == values;
  }

  method ShiftEach(values: seq<nat>, k: nat, w: nat) returns (out: seq<nat>)
    ensures Lists(out, set x | x in Elements(values) :: ShiftedValue(x, k, w))
  {
    hide ShiftedValue;
    out := [];
    for i := 0 to |values|
      invariant Lists(out, set x | x in Elements(values[..i]) :: ShiftedValue(x, k, w))
    {
      Snoc(values, i);
      out := InsertUnique(out, ShiftedValue(values[i], k, w));
    }
    assert values[..|values|] == values;
  }

  method CrossProduct(op: BinOp, xs: seq<nat>, ys: seq<nat>, w: nat) returns (out: seq<nat>)
    ensures Lists(out, Cross(op, Elements(xs), Elements(ys), w))
  {
    hide Combine;
    out := [];
    for i := 0 to |xs|
      invariant Lists(out, Cross(op, Elements(xs[..i]), Elements(ys), w))
    {
      ghost var before := Cross(op, Elements(xs[..i]), Elements(ys), w);
      for j := 0 to |ys|
        invariant Lists(out, before + Cross(op, {xs[i]}, Elements(ys[..j]), w))
      {
        Snoc(ys, j);
        out := InsertUnique(out, Combine(op, xs[i], ys[j], w));
      }
      assert ys[..|ys|] == ys;
      Snoc(xs, i);
    }
    assert xs[..|xs|] == xs;
  }

  method CapList(q: seq<nat>) returns (out: Listing)
    requires Distinct(q)
    ensures Answers(out, Capped(Elements(q)))
  {
    DistinctCount(q);
    out := if |q| > SET_CAP then None else Some(q);
  }

  method JoinPairList(op: BinOp, l: BitFactor, r: BitFactor, w: nat) returns (out: seq<nat>)
    ensures Lists(out, JoinPair(op, l, r, w))
  {
    hide Combine;
    out := InsertUnique([], Combine(op, Side(l, false), Side(r, false), w));
    out := InsertUnique(out, Combine(op, Side(l, true), Side(r, true), w));
  }

  // ----- the leaves of a chain not yet in a group

  function Remaining(leaves: seq<Expr>, claimed: seq<bool>, i: nat): seq<Expr>
    requires i <= |leaves| == |claimed|
    decreases |leaves| - i
  {
    if i == |leaves| then []
    else if claimed[i] then Remaining(leaves, claimed, i + 1)
    else [leaves[i]] + Remaining(leaves, claimed, i + 1)
  }

  /** How many unclaimed leaves stand at `i` and up to `j`. */
  function Skipped(leaves: seq<Expr>, claimed: seq<bool>, i: nat, j: nat): nat
    requires i <= j <= |leaves| == |claimed|
    decreases j - i
  {
    if i == j then 0 else (if claimed[i] then 0 else 1) + Skipped(leaves, claimed, i + 1, j)
  }

  lemma {:induction false} ClaimRemoves(leaves: seq<Expr>, claimed: seq<bool>, i: nat, j: nat)
    requires i <= j < |leaves| == |claimed| && !claimed[j]
    ensures Skipped(leaves, claimed, i, j) < |Remaining(leaves, claimed, i)|
    ensures Remaining(leaves, claimed, i)[Skipped(leaves, claimed, i, j)] == leaves[j]
    ensures Remaining(leaves, claimed[j := true], i)
            == Without(Remaining(leaves, claimed, i), Skipped(leaves, claimed, i, j))
    decreases j - i
  {
    hide Without;
    var rest := Remaining(leaves, claimed, i + 1);
    if i == j {
      ClaimBehind(leaves, claimed, i + 1, j);
      WithoutBehind([], [leaves[j]] + rest, 0);
    } else {
      ClaimRemoves(leaves, claimed, i + 1, j);
      WithoutBehind(if claimed[i] then [] else [leaves[i]], rest, Skipped(leaves, claimed, i + 1, j));
    }
  }

  lemma WithoutBehind(p: seq<Expr>, r: seq<Expr>, k: nat)
    requires k < |r|
    ensures Without(p + r, |p| + k) == p + Without(r, k)
    ensures Without(r, 0) == r[1..]
    ensures (p + r)[|p| + k] == r[k]
  {}

  lemma {:induction false} ClaimBehind(leaves: seq<Expr>, claimed: seq<bool>, i: nat, j: nat)
    requires j < i <= |leaves| == |claimed|
    ensures Remaining(leaves, claimed[j := true], i) == Remaining(leaves, claimed, i)
    decreases |leaves| - i
  {
    if i < |leaves| {
      ClaimBehind(leaves, claimed, i + 1, j);
    }
  }

  lemma {:induction false} SkippedNext(leaves: seq<Expr>, claimed: seq<bool>, i: nat, j: nat)
    requires i <= j < |leaves| == |claimed|
    ensures Skipped(leaves, claimed, i, j + 1) == Skipped(leaves, claimed, i, j) + if claimed[j] then 0 else 1
    decreases j - i
  {
    if i < j {
      SkippedNext(leaves, claimed, i + 1, j);
    }
  }

  ghost function Shift(k: nat, o: Option<nat>): Option<nat> {
    if o.None? then None else Some(k + o.value)
  }

  lemma PartnerAhead(head: Expr, first: Expr, rest: seq<Expr>)
    requires !Complementary(head, first)
    ensures Partner(head, [first] + rest) == Shift(1, Partner(head, rest))
  {
    hide Complementary;
    assert ([first] + rest)[1..] == rest;
  }

  lemma PartnerFirst(head: Expr, first: Expr, rest: seq<Expr>)
    requires Complementary(head, first)
    ensures Partner(head, [first] + rest) == Some(0)
  {}

  lemma PartnerOfNone(head: Expr)
    ensures Partner(head, []) == None
  {}

  lemma SkippedNone(leaves: seq<Expr>, claimed: seq<bool>, i: nat)
    requires i <= |leaves| == |claimed|
    ensures Skipped(leaves, claimed, i, i) == 0
  {}

  method FindPartner(head: Expr, leaves: seq<Expr>, claimed: seq<bool>, i: nat) returns (j: Option<nat>)
    requires i < |leaves| == |claimed|
    ensures j.Some? ==> i < j.value < |leaves| && !claimed[j.value] && Complementary(head, leaves[j.value])
    ensures Partner(head, Remaining(leaves, claimed, i + 1))
            == if j.Some? then Some(Skipped(leaves, claimed, i + 1, j.value)) else None
  {
    hide Complementary, Partner, Remaining, Skipped;
    SkippedNone(leaves, claimed, i + 1);
    for k := i + 1 to |leaves|
      invariant Partner(head, Remaining(leaves, claimed, i + 1))
                == Shift(Skipped(leaves, claimed, i + 1, k), Partner(head, Remaining(leaves, claimed, k)))
    {
      SkippedNext(leaves, claimed, i + 1, k);
      RemainingNext(leaves, claimed, k);
      if !claimed[k] {
        if Complementary(head, leaves[k]) {
          PartnerFirst(head, leaves[k], Remaining(leaves, claimed, k + 1));
          return Some(k);
        }
        PartnerAhead(head, leaves[k], Remaining(leaves, claimed, k + 1));
      }
    }
    RemainingEnd(leaves, claimed);
    PartnerOfNone(head);
    return None;
  }

  lemma RemainingNext(leaves: seq<Expr>, claimed: seq<bool>, i: nat)
    requires i < |leaves| == |claimed|
    ensures Remaining(leaves, claimed, i)
            == if claimed[i] then Remaining(leaves, claimed, i + 1) else [leaves[i]] + Remaining(leaves, claimed, i + 1)
  {}

  lemma RemainingEnd(leaves: seq<Expr>, claimed: seq<bool>)
    requires |leaves| == |claimed|
    ensures Remaining(leaves, claimed, |leaves|) == []
  {}

  lemma {:induction false} NoneClaimed(leaves: seq<Expr>, claimed: seq<bool>, i: nat)
    requires i <= |leaves| == |claimed| && forall k | i <= k < |claimed| :: !claimed[k]
    ensures Remaining(leaves, claimed, i) == leaves[i..]
    decreases |leaves| - i
  {
    if i < |leaves| {
      NoneClaimed(leaves, claimed, i + 1);
    }
  }

  ghost function SetsOf(groups: seq<seq<nat>>): seq<set<nat>> {
    seq(|groups|, i requires 0 <= i < |groups| => Elements(groups[i]))
  }

  lemma SetsSnoc(groups: seq<seq<nat>>, group: seq<nat>)
    ensures SetsOf(groups + [group]) == SetsOf(groups) + [Elements(group)]
  {}

  /** Groups already gathered, in front of those still to come. */
  ghost function Gathered(sets: seq<set<nat>>, anyPair: bool, rest: Option<Groups>): Option<Groups> {
    if rest.None? then None else Some(Groups(sets + rest.value.sets, anyPair || rest.value.anyPair))
  }

  lemma GatheredOne(sets: seq<set<nat>>, anyPair: bool, group: set<nat>, pair: bool, rest: Option<Groups>)
    ensures Gathered(sets, anyPair, Gathered([group], pair, rest)) == Gathered(sets + [group], anyPair || pair, rest)
  {
    if rest.Some? {
      assert sets + ([group] + rest.value.sets) == (sets + [group]) + rest.value.sets;
    }
  }

  lemma GatheredNone(rest: Option<Groups>)
    ensures Gathered([], false, rest) == rest
  {
    if rest.Some? { assert [] + rest.value.sets == rest.value.sets; }
  }

  lemma GatheredLast(c: Context, sets: seq<set<nat>>, anyPair: bool, w: nat, depth: nat)
    requires depth <= MAX_DEPTH
    ensures Gathered(sets, anyPair, ChainGroups(c, [], w, depth)) == Some(Groups(sets, anyPair))
  {
    assert ChainGroups(c, [], w, depth) == Some(Groups([], false));
    assert sets + [] == sets;
  }

  /** The next group of a chain: the first leaf with its partner, or alone. */
  lemma NextGroup(c: Context, head: Expr, tail: seq<Expr>, w: nat, depth: nat)
    requires depth <= MAX_DEPTH
    ensures var j := Partner(head, tail);
            ChainGroups(c, [head] + tail, w, depth)
            == if j.Some? then
                 Gathered([JoinPair(BitOr, MatchBitFactor(head).value, MatchBitFactor(tail[j.value]).value, w)], true,
                          ChainGroups(c, Without(tail, j.value), w, depth))
               else if Exact(c, head, depth + 1).None? then None
               else Gathered([Exact(c, head, depth + 1).value], false, ChainGroups(c, tail, w, depth))
  {
    hide JoinPair, MatchBitFactor, Complementary, Exact, Without;
    var leaves := [head] + tail;
    assert leaves[0] == head && leaves[1..] == tail;
  }

  ghost predicate Grouped(groups: Option<seq<seq<nat>>>, anyPair: bool, expected: Option<Groups>) {
    && groups.Some? == expected.Some?
    && (groups.Some? ==> Groups(SetsOf(groups.value), anyPair) == expected.value && forall q | q in groups.value ::
         Distinct(q))
  }

  method ChainGroupLists(c: Context, leaves: seq<Expr>, w: nat, depth: nat)
      returns (groups: Option<seq<seq<nat>>>, anyPair: bool)
    requires depth <= MAX_DEPTH
    ensures Grouped(groups, anyPair, ChainGroups(c, leaves, w, depth))
    decreases MAX_DEPTH + 1 - depth, 0
  {
    hide JoinPair, MatchBitFactor, Complementary, Exact, Without, ChainGroups, Remaining;
    var claimed := seq(|leaves|, _ => false);
    NoneClaimed(leaves, claimed, 0);
    var q: seq<seq<nat>> := [];
    anyPair := false;
    GatheredNone(ChainGroups(c, leaves, w, depth));
    assert SetsOf(q) == [];
    for i := 0 to |leaves|
      invariant |claimed| == |leaves|
      invariant Gathered(SetsOf(q), anyPair, ChainGroups(c, Remaining(leaves, claimed, i), w, depth))
                == ChainGroups(c, leaves, w, depth)
      invariant forall g | g in q :: Distinct(g)
    {
      RemainingNext(leaves, claimed, i);
      if claimed[i] { continue; }
      var j := FindPartner(leaves[i], leaves, claimed, i);
      NextGroup(c, leaves[i], Remaining(leaves, claimed, i + 1), w, depth);
      var group;
      if j.Some? {
        ComplementaryMatches(leaves[i], leaves[j.value]);
        ClaimRemoves(leaves, claimed, i + 1, j.value);
        group := JoinPairList(BitOr, MatchBitFactor(leaves[i]).value, MatchBitFactor(leaves[j.value]).value, w);
      } else {
        var values := ExactValues(c, leaves[i], depth + 1);
        if values.None? { return None, anyPair; }
        group := values.value;
      }
      GatheredOne(SetsOf(q), anyPair, Elements(group), j.Some?,
                  ChainGroups(c, Rest(Remaining(leaves, claimed, i + 1), leaves, claimed, i, j), w, depth));
      SetsSnoc(q, group);
      q, anyPair := q + [group], anyPair || j.Some?;
      claimed := Claim(leaves, claimed, i, j);
    }
    RemainingEnd(leaves, claimed);
    GatheredLast(c, SetsOf(q), anyPair, w, depth);
    groups := Some(q);
  }

  /** The leaves left once the group at `i` is taken. */
  ghost function Rest(tail: seq<Expr>, leaves: seq<Expr>, claimed: seq<bool>, i: nat, j: Option<nat>): seq<Expr>
    requires i < |leaves| == |claimed|
             && (j.Some? ==> i < j.value < |leaves| && Skipped(leaves, claimed, i + 1, j.value) < |tail|)
  {
    if j.Some? then Without(tail, Skipped(leaves, claimed, i + 1, j.value)) else tail
  }

  method Claim(leaves: seq<Expr>, claimed: seq<bool>, i: nat, j: Option<nat>) returns (now: seq<bool>)
    requires i < |leaves| == |claimed| && (j.Some? ==> i < j.value < |leaves| && !claimed[j.value])
    requires j.Some? ==> Skipped(leaves, claimed, i + 1, j.value) < |Remaining(leaves, claimed, i + 1)|
    ensures |now| == |leaves|
    ensures Remaining(leaves, now, i + 1) == Rest(Remaining(leaves, claimed, i + 1), leaves, claimed, i, j)
  {
    hide Without, Remaining, Skipped;
    now := claimed[i := true];
    ClaimBehind(leaves, claimed, i + 1, i);
    if j.Some? {
      ClaimRemoves(leaves, claimed, i + 1, j.value);
      now := claimed[j.value := true];
      ClaimBehind(leaves, now, i + 1, i);
      now := now[i := true];
    }
  }

  method FoldGroupLists(groups: seq<seq<nat>>, w: nat) returns (out: Listing)
    requires forall q | q in groups :: Distinct(q)
    ensures Answers(out, FoldGroups({0}, SetsOf(groups), w))
  {
    hide Cross;
    var q: seq<nat> := [0];
    assert Elements(q) == {0};
    assert SetsOf(groups)[0..] == SetsOf(groups);
    for i := 0 to |groups|
      invariant Distinct(q)
      invariant FoldGroups({0}, SetsOf(groups), w) == FoldGroups(Elements(q), SetsOf(groups)[i..], w)
    {
      DistinctCount(q);
      DistinctCount(groups[i]);
      assert SetsOf(groups)[i..][0] == Elements(groups[i]) && SetsOf(groups)[i..][1..] == SetsOf(groups)[i + 1..];
      if |q| * |groups[i]| > SET_CAP { return None; }
      q := CrossProduct(BitOr, q, groups[i], w);
    }
    out := CapList(q);
  }

  method ExactOrChainValues(c: Context, e: Expr, w: nat, depth: nat) returns (out: Listing)
    requires depth <= MAX_DEPTH
    ensures Answers(out, ExactOrChain(c, e, w, depth))
    decreases MAX_DEPTH + 1 - depth, 1
  {
    hide ChainGroups, FoldGroups, OrLeaves;
    var leaves := OrLeaves(e);
    if |leaves| <= 2 { return None; }
    var groups, anyPair := ChainGroupLists(c, leaves, w, depth);
    if groups.None? || !anyPair { return None; }
    out := FoldGroupLists(groups.value, w);
  }

  ghost function Kept(anyComputed: bool, arms: seq<Expr>): seq<Expr> {
    if anyComputed then Computed(arms) else arms
  }

  lemma KeptNext(anyComputed: bool, arms: seq<Expr>, i: nat)
    requires i < |arms|
    ensures Kept(anyComputed, arms[i..])
            == if anyComputed && arms[i].EntryReg? then Kept(anyComputed, arms[i + 1..])
              else [arms[i]] + Kept(anyComputed, arms[i + 1..])
  {
    assert arms[i..][0] == arms[i] && arms[i..][1..] == arms[i + 1..];
    assert [arms[i]] + arms[i + 1..] == arms[i..];
  }

  lemma UnionNext(c: Context, arm: Expr, rest: seq<Expr>, out: set<nat>, depth: nat)
    requires depth <= MAX_DEPTH
    ensures UnionArms(c, [arm] + rest, out, depth)
            == if Exact(c, arm, depth + 1).None? || |out + Exact(c, arm, depth + 1).value| > SET_CAP then None
               else UnionArms(c, rest, out + Exact(c, arm, depth + 1).value, depth)
  {
    hide Exact;
    assert ([arm] + rest)[1..] == rest;
  }

  lemma UnionEnd(c: Context, anyComputed: bool, arms: seq<Expr>, out: set<nat>, depth: nat)
    requires depth <= MAX_DEPTH
    ensures UnionArms(c, Kept(anyComputed, arms[|arms|..]), out, depth) == Some(out)
  {}

  /** Whether any arm is something other than an entry register. */
  method AnyComputed(arms: seq<Expr>) returns (any: bool)
    ensures KeptArms(arms) == Kept(any, arms)
  {
    any := false;
    for i := 0 to |arms|
      invariant any == exists a :: a in arms[..i] && !a.EntryReg?
    {
      assert forall a :: a in arms[..i + 1] <==> a in arms[..i] || a == arms[i];
      if !arms[i].EntryReg? {
        assert arms[i] in arms && !arms[i].EntryReg?;
        return true;
      }
    }
    assert arms[..|arms|] == arms;
  }

  method UnionOfArms(c: Context, arms: seq<Expr>, depth: nat) returns (out: Listing)
    requires depth <= MAX_DEPTH
    ensures Answers(out, UnionArms(c, KeptArms(arms), {}, depth))
    decreases MAX_DEPTH + 1 - depth, 0
  {
    hide Exact, UnionArms, Kept, KeptArms;
    var anyComputed := AnyComputed(arms);
    var q: seq<nat> := [];
    assert arms[0..] == arms && Elements(q) == {};
    for i := 0 to |arms|
      invariant Distinct(q)
      invariant UnionArms(c, KeptArms(arms), {}, depth)
                == UnionArms(c, Kept(anyComputed, arms[i..]), Elements(q), depth)
    {
      KeptNext(anyComputed, arms, i);
      if anyComputed && arms[i].EntryReg? { continue; }
      UnionNext(c, arms[i], Kept(anyComputed, arms[i + 1..]), Elements(q), depth);
      var values := ExactValues(c, arms[i], depth + 1);
      if values.None? { return None; }
      q := InsertAll(q, values.value);
      DistinctCount(q);
      if |q| > SET_CAP { return None; }
    }
    UnionEnd(c, anyComputed, arms, Elements(q), depth);
    out := Some(q);
  }

  method ShiftedArmValues(known: Expr, values: seq<nat>, other: Expr, w: nat) returns (out: Listing)
    requires Distinct(values)
    ensures Answers(out, ShiftedArm(known, Elements(values), other, w))
  {
    hide Combine, SameValue;
    if other.Bin? && (other.op.Add? || other.op.Sub?) && SameValue(other.left, known) && other.right.Const? {
      var q := values;
      for i := 0 to |values|
        invariant Lists(q, Elements(values) + set x | x in Elements(values[..i]) ::
                  Combine(other.op, x, other.right.value, w))
      {
        Snoc(values, i);
        q := InsertUnique(q, Combine(other.op, values[i], other.right.value, w));
      }
      assert values[..|values|] == values;
      out := CapList(q);
    } else {
      out := None;
    }
  }

  method BinValues(c: Context, e: Expr, depth: nat) returns (out: Listing)
    requires e.Bin? && !e.op.ShrU? && depth <= MAX_DEPTH
    ensures Answers(out, ExactBin(c, e, depth))
    decreases MAX_DEPTH + 1 - depth, 2
  {
    hide ExactOrChain, Exact, Complementary, JoinPair, Cross;
    if e.op.BitOr? {
      out := ExactOrChainValues(c, e, e.width, depth);
      if out.Some? { return; }
    }
    if Complementary(e.left, e.right) {
      ComplementaryMatches(e.left, e.right);
      var pair := JoinPairList(e.op, MatchBitFactor(e.left).value, MatchBitFactor(e.right).value, e.width);
      return Some(pair);
    }
    var left := ExactValues(c, e.left, depth + 1);
    if left.None? { return None; }
    var right := ExactValues(c, e.right, depth + 1);
    if right.None? { return None; }
    DistinctCount(left.value);
    DistinctCount(right.value);
    if |left.value| * |right.value| > SET_CAP { return None; }
    var q := CrossProduct(e.op, left.value, right.value, e.width);
    out := CapList(q);
  }

  lemma ComplementaryMatches(l: Expr, r: Expr)
    requires Complementary(l, r)
    ensures MatchBitFactor(l).Some? && MatchBitFactor(r).Some?
  {}

  method SelectValues(c: Context, e: Expr, depth: nat) returns (out: Listing)
    requires e.Select? && depth <= MAX_DEPTH
    ensures Answers(out, ExactSelect(c, e, depth))
    decreases MAX_DEPTH + 1 - depth, 2
  {
    hide Exact, ShiftedArm;
    var onTrue := ExactValues(c, e.onTrue, depth + 1);
    var onFalse := ExactValues(c, e.onFalse, depth + 1);
    if onTrue.Some? && onFalse.Some? {
      var q := InsertAll(onTrue.value, onFalse.value);
      out := CapList(q);
    } else if onTrue.Some? {
      out := ShiftedArmValues(e.onTrue, onTrue.value, e.onFalse, e.width);
    } else if onFalse.Some? {
      out := ShiftedArmValues(e.onFalse, onFalse.value, e.onTrue, e.width);
    } else {
      out := None;
    }
  }

  method ExactValues(c: Context, e: Expr, depth: nat) returns (out: Listing)
    requires depth <= MAX_DEPTH + 1
    ensures Answers(out, Exact(c, e, depth))
    decreases MAX_DEPTH + 1 - depth, 3
  {
    hide ValuesOfWidth, CastValue, ShiftedValue, UnionArms, KeptArms, ExactBin, ExactSelect;
    if depth > MAX_DEPTH { return None; }
    match e
    case Const(_, v) =>
      out := Some([v]);
      assert Elements([v]) == {v};
    case Cast(k, w, a) =>
      var inner := ExactValues(c, a, depth + 1);
      if inner.None? {
        if !k.Trunc? { return None; }
        out := ValuesOfWidthList(w);
      } else if a.Width() == 0 {
        out := None;
      } else {
        var q := CastEach(k, inner.value, a.Width(), w);
        out := Some(q);
      }
    case Value(w, id) =>
      if id !in c.defined {
        out := None;
      } else if id !in c.phis {
        out := ValuesOfWidthList(w);
      } else {
        out := UnionOfArms(c, c.phis[id], depth);
      }
    case Bin(op, w, l, r) =>
      if !op.ShrU? {
        out := BinValues(c, e, depth);
      } else if !r.Const? {
        out := None;
      } else if r.value >= w {
        out := Some([0]);
        assert Elements([0]) == {0};
      } else {
        var inner := ExactValues(c, l, depth + 1);
        if inner.Some? {
          var q := ShiftEach(inner.value, r.value, w);
          out := Some(q);
        } else {
          out := ValuesOfWidthList(w - r.value);
        }
      }
    case Select(_, _, _, _) =>
      out := SelectValues(c, e, depth);
    case _ =>
      out := ValuesOfWidthList(e.Width());
  }

  // ----- the answer, in order

  predicate Increasing(q: seq<nat>) {
    forall i, j | 0 <= i < j < |q| :: q[i] < q[j]
  }

  function Insert(v: nat, q: seq<nat>): seq<nat> {
    if q == [] || v <= q[0] then [v] + q else [q[0]] + Insert(v, q[1..])
  }

  function Sort(q: seq<nat>): seq<nat> {
    if q == [] then [] else Insert(q[0], Sort(q[1..]))
  }

  lemma ConsOrder(h: nat, t: seq<nat>)
    requires Increasing(t) && forall x | x in t :: h < x
    ensures Increasing([h] + t)
  {
    var q := [h] + t;
    forall i, j | 0 <= i < j < |q| ensures q[i] < q[j] {
      assert q[j] == t[j - 1] && q[j] in t;
      if i > 0 { assert q[i] == t[i - 1]; }
    }
  }

  lemma {:induction false} InsertKeepsOrder(v: nat, q: seq<nat>)
    requires Increasing(q) && v !in q
    ensures Increasing(Insert(v, q)) && |Insert(v, q)| == |q| + 1
    ensures forall x :: x in Insert(v, q) <==> x == v || x in q
  {
    if q != [] && v > q[0] {
      InsertKeepsOrder(v, q[1..]);
      assert forall x :: x in q <==> x == q[0] || x in q[1..];
      ConsOrder(q[0], Insert(v, q[1..]));
    } else if q != [] {
      assert forall x | x in q :: v < x;
      ConsOrder(v, q);
    }
  }

  /** Sorting lists the same values, each once, in increasing order. */
  lemma {:induction false} SortOrders(q: seq<nat>)
    requires Distinct(q)
    ensures Increasing(Sort(q)) && |Sort(q)| == |q| && Elements(Sort(q)) == Elements(q)
  {
    if q != [] {
      SortOrders(q[1..]);
      assert forall x :: x in q <==> x == q[0] || x in q[1..];
      assert forall x :: x in Sort(q[1..]) <==> x in Elements(Sort(q[1..]));
      InsertKeepsOrder(q[0], Sort(q[1..]));
    }
  }

  /** What a caller must know of the program for the answer to be trusted. */
  ghost predicate Understood(c: Context, index: Expr, envs: iset<Env>, widths: nat -> nat) {
    && WellTyped(index) && ValueWidths(index, widths)
    && Typed(c, widths) && PhisArrive(c, envs, widths) && Trusted(c, index, 0)
  }

  /** An answer is 1 to 64 values in increasing order, no more than the expression's exact set, and
      the index is among them wherever it is evaluated. */
  method PreciseIndexSet(c: Context, index: Expr, ghost envs: iset<Env>, ghost widths: nat -> nat)
      returns (out: Listing)
    ensures out.Some? <==> Exact(c, index, 0).Some? && Exact(c, index, 0).value != {}
    ensures out.Some? ==>
              && Increasing(out.value) && 1 <= |out.value| <= SET_CAP
              && Elements(out.value) == Exact(c, index, 0).value
    ensures out.Some? && Understood(c, index, envs, widths) ==>
              forall env | env in envs :: Eval(index, env) in out.value
  {
    hide Exact, Trusted, Typed, PhisArrive, Sort, WellTyped, ValueWidths;
    var values := ExactValues(c, index, 0);
    if Exact(c, index, 0).Some? {
      DistinctCount(values.value);
      ExactSmall(c, index, 0);
    }
    if values.None? || |values.value| == 0 || |values.value| > SET_CAP { return None; }
    SortOrders(values.value);
    if Understood(c, index, envs, widths) {
      ExactSound(c, index, 0, envs, widths);
    }
    out := Some(Sort(values.value));
    assert forall v :: v in out.value <==> v in Elements(out.value);
  }
}
