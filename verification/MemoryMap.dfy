/** The runtime view of a loaded file: sorted regions, file bytes, and zeros past them. */
module MemoryMaps {
  import opened Basics
  import Bits

  type Byte = b: nat | b < 256

  datatype Region = Region(va: nat, size: nat, fileOffset: nat, fileSize: nat, backing: nat, permissions: nat) {

    function End(): nat {
      va + size
    }

    predicate Contains(a: nat) {
      va <= a < End()
    }
  }

  /** The region by itself is one `Finalize` accepts. */
  predicate Acceptable(r: Region, parts: seq<seq<Byte>>) {
    && r.End() < Bits.WORD_SIZE && r.fileSize <= r.size
    && (r.fileSize != 0 ==> r.backing < |parts| && r.fileOffset + r.fileSize <= |parts[r.backing]|)
  }

  predicate Apart(r: Region, s: Region) {
    r.End() <= s.va || s.End() <= r.va
  }

  ghost predicate AllAcceptable(rs: seq<Region>, parts: seq<seq<Byte>>) {
    forall r | r in rs :: Acceptable(r, parts)
  }

  ghost predicate AllApart(rs: seq<Region>) {
    forall i, j | 0 <= i < j < |rs| :: Apart(rs[i], rs[j])
  }

  ghost predicate Ordered(rs: seq<Region>) {
    forall i, j | 0 <= i < j < |rs| :: rs[i].va <= rs[j].va
  }

  // ----- the per-byte definition

  /** The region holding an address, by looking at every region. */
  function Lookup(rs: seq<Region>, a: nat): (r: Option<Region>)
    ensures r.Some? ==> r.value in rs && r.value.Contains(a)
    ensures r.None? ==> forall s | s in rs :: !s.Contains(a)
  {
    if rs == [] then None else if rs[0].Contains(a) then Some(rs[0]) else Lookup(rs[1..], a)
  }

  ghost predicate AllMapped(rs: seq<Region>, va: nat, n: nat) {
    forall a | va <= a < va + n :: Lookup(rs, a).Some?
  }

  function ByteOf(r: Region, parts: seq<seq<Byte>>, a: nat): Byte
    requires Acceptable(r, parts) && r.Contains(a)
  {
    if a - r.va < r.fileSize then parts[r.backing][r.fileOffset + (a - r.va)] else 0
  }

  function ByteAt(rs: seq<Region>, parts: seq<seq<Byte>>, a: nat): Option<Byte>
    requires AllAcceptable(rs, parts)
  {
    var r := Lookup(rs, a);
    if r.None? then None else Some(ByteOf(r.value, parts, a))
  }

  /** Apart regions leave one candidate. */
  lemma OneHolder(rs: seq<Region>, r: Region, a: nat)
    requires AllApart(rs) && r in rs && r.Contains(a)
    ensures Lookup(rs, a) == Some(r)
  {
    var s := Lookup(rs, a);
    var i :| 0 <= i < |rs| && rs[i] == r;
    var j :| 0 <= j < |rs| && rs[j] == s.value;
  }

  // ----- sorting

  function Insert(r: Region, rs: seq<Region>): seq<Region> {
    if rs == [] || r.va <= rs[0].va then [r] + rs else [rs[0]] + Insert(r, rs[1..])
  }

  function Sort(rs: seq<Region>): seq<Region> {
    if rs == [] then [] else Insert(rs[0], Sort(rs[1..]))
  }

  lemma ConsOrdered(r: Region, rs: seq<Region>)
    requires Ordered(rs) && forall s | s in rs :: r.va <= s.va
    ensures Ordered([r] + rs)
  {
    var q := [r] + rs;
    forall i, j | 0 <= i < j < |q| ensures q[i].va <= q[j].va {
      assert q[j] == rs[j - 1] && q[j] in rs;
      if i > 0 { assert q[i] == rs[i - 1]; }
    }
  }

  lemma {:induction false} InsertOrders(r: Region, rs: seq<Region>)
    requires Ordered(rs)
    ensures Ordered(Insert(r, rs)) && multiset(Insert(r, rs)) == multiset{r} + multiset(rs)
    ensures forall s :: s in Insert(r, rs) <==> s == r || s in rs
  {
    if rs == [] || r.va <= rs[0].va {
      assert forall s | s in rs :: r.va <= s.va;
      ConsOrdered(r, rs);
    } else {
      InsertOrders(r, rs[1..]);
      assert rs == [rs[0]] + rs[1..];
      assert forall s | s in rs[1..] :: rs[0].va <= s.va;
      ConsOrdered(rs[0], Insert(r, rs[1..]));
    }
  }

  lemma {:induction false} SortOrders(rs: seq<Region>)
    ensures Ordered(Sort(rs)) && multiset(Sort(rs)) == multiset(rs)
  {
    if rs != [] {
      SortOrders(rs[1..]);
      InsertOrders(rs[0], Sort(rs[1..]));
      assert rs == [rs[0]] + rs[1..];
    }
  }

  function Without(rs: seq<Region>, i: nat): seq<Region>
    requires i < |rs|
  {
    rs[..i] + rs[i + 1..]
  }

  lemma WithoutCounts(rs: seq<Region>, i: nat)
    requires i < |rs|
    ensures multiset(Without(rs, i)) == multiset(rs) - multiset{rs[i]}
  {
    assert rs == rs[..i] + [rs[i]] + rs[i + 1..];
  }

  lemma HeadCounts(qs: seq<Region>)
    requires qs != []
    ensures qs[0] in multiset(qs) && multiset(qs[1..]) == multiset(qs) - multiset{qs[0]}
    ensures forall k | 0 < k < |qs| :: qs[k] in multiset(qs[1..])
  {
    assert qs == [qs[0]] + qs[1..];
    forall k | 0 < k < |qs| ensures qs[k] in multiset(qs[1..]) {
      assert qs[k] == qs[1..][k - 1];
    }
  }

  /** Being apart does not depend on the order the regions stand in. */
  lemma {:induction false} ApartPermutes(rs: seq<Region>, qs: seq<Region>)
    requires multiset(rs) == multiset(qs) && AllApart(rs)
    ensures AllApart(qs)
    decreases |qs|
  {
    hide Apart, Without;
    if qs != [] {
      HeadCounts(qs);
      assert qs[0] in multiset(rs);
      var i :| 0 <= i < |rs| && rs[i] == qs[0];
      WithoutCounts(rs, i);
      ApartWithout(rs, i);
      ApartPermutes(Without(rs, i), qs[1..]);
      forall k | 0 < k < |qs| ensures Apart(qs[0], qs[k]) {
        assert qs[k] in multiset(Without(rs, i));
      }
      ConsApart(qs);
    }
  }

  lemma ConsApart(qs: seq<Region>)
    requires qs != [] && AllApart(qs[1..]) && forall k | 0 < k < |qs| :: Apart(qs[0], qs[k])
    ensures AllApart(qs)
  {
    hide Apart;
    forall i, j | 0 <= i < j < |qs| ensures Apart(qs[i], qs[j]) {
      if i > 0 { assert qs[i] == qs[1..][i - 1] && qs[j] == qs[1..][j - 1]; }
    }
  }

  lemma ApartWithout(rs: seq<Region>, i: nat)
    requires i < |rs| && AllApart(rs)
    ensures AllApart(Without(rs, i))
    ensures forall s | s in Without(rs, i) :: Apart(rs[i], s)
  {
    var rest := Without(rs, i);
    assert forall k | 0 <= k < |rest| :: rest[k] == rs[if k < i then k else k + 1];
  }

  ghost predicate NonEmpty(rs: seq<Region>) {
    forall r | r in rs :: r.size > 0
  }

  ghost predicate Stacked(rs: seq<Region>) {
    forall i, j | 0 <= i < j < |rs| && j == i + 1 :: rs[i].End() <= rs[j].va
  }

  /** In address order it is enough to look at neighbours. */
  lemma StackedExactly(rs: seq<Region>)
    requires Ordered(rs) && NonEmpty(rs)
    ensures Stacked(rs) <==> AllApart(rs)
  {
    hide Ordered;
    if Stacked(rs) {
      forall i, j | 0 <= i < j < |rs| ensures Apart(rs[i], rs[j]) {
        StackedFar(rs, i, j);
      }
    } else {
      var i, j :| 0 <= i < j < |rs| && j == i + 1 && rs[i].End() > rs[j].va;
      NeighboursMeet(rs, i);
    }
  }

  lemma NeighboursMeet(rs: seq<Region>, i: nat)
    requires Ordered(rs) && NonEmpty(rs) && i + 1 < |rs| && rs[i].End() > rs[i + 1].va
    ensures !Apart(rs[i], rs[i + 1])
  {
    assert rs[i + 1] in rs;
  }

  lemma {:induction false} StackedFar(rs: seq<Region>, i: nat, j: nat)
    requires Stacked(rs) && NonEmpty(rs) && i < j < |rs|
    ensures rs[i].End() <= rs[j].va
    decreases j
  {
    if j > i + 1 {
      StackedFar(rs, i, j - 1);
      assert rs[j - 1] in rs;
      assert rs[j - 1].End() <= rs[j].va;
    }
  }

  method CheckEach(rs: seq<Region>, parts: seq<seq<Byte>>) returns (ok: bool)
    ensures ok <==> AllAcceptable(rs, parts)
  {
    hide Acceptable;
    for i := 0 to |rs|
      invariant forall k | 0 <= k < i :: Acceptable(rs[k], parts)
    {
      if !Acceptable(rs[i], parts) {
        assert rs[i] in rs;
        return false;
      }
    }
    return true;
  }

  method CheckNeighbours(rs: seq<Region>) returns (ok: bool)
    ensures ok <==> Stacked(rs)
  {
    var i := 1;
    while i < |rs|
      invariant 1 <= i
      invariant forall k, j | 0 <= k < j < i && j == k + 1 && j < |rs| :: rs[k].End() <= rs[j].va
    {
      if rs[i].va < rs[i - 1].End() {
        ghost var k: int := i - 1;
        assert 0 <= k < i && i == k + 1 && rs[k].End() > rs[i].va;
        return false;
      }
      i := i + 1;
    }
    return true;
  }

  class MemoryMap {
    var regions: seq<Region>
    var parts: seq<seq<Byte>>
    var finalized: bool

    /** Once finalized: in order, apart, and readable. */
    ghost predicate Valid()
      reads this
    {
      NonEmpty(regions) && (finalized ==> Ordered(regions) && AllApart(regions) && AllAcceptable(regions, parts))
    }

    constructor (parts: seq<seq<Byte>>)
      ensures Valid() && !finalized && regions == [] && this.parts == parts
    {
      this.parts, regions, finalized := parts, [], false;
    }

    method AddRegion(r: Region)
      requires Valid() && !finalized
      modifies `regions
      ensures Valid() && regions == if r.size == 0 then old(regions) else old(regions) + [r]
    {
      if r.size == 0 { return; }
      regions := regions + [r];
    }

    /** Sorts, and accepts exactly the region lists whose members are acceptable and pairwise apart. */
    method Finalize() returns (ok: bool)
      requires Valid() && !finalized
      modifies `regions, `finalized
      ensures Valid() && Ordered(regions) && multiset(regions) == multiset(old(regions))
      ensures finalized == ok
      ensures ok <==> AllAcceptable(old(regions), parts) && AllApart(old(regions))
    {
      hide Apart, Acceptable, Ordered, NonEmpty, Stacked, AllApart, AllAcceptable;
      ghost var given := regions;
      SortOrders(regions);
      regions := Sort(regions);
      SameMembers(given, regions);
      if AllApart(given) { ApartPermutes(given, regions); }
      if AllApart(regions) { ApartPermutes(regions, given); }
      StackedExactly(regions);
      var acceptable := CheckEach(regions, parts);
      if !acceptable { return false; }
      var apart := CheckNeighbours(regions);
      if !apart { return false; }
      finalized := true;
      return true;
    }

    lemma SameMembers(a: seq<Region>, b: seq<Region>)
      requires multiset(a) == multiset(b)
      ensures forall r :: r in a <==> r in b
      ensures NonEmpty(a) ==> NonEmpty(b)
      ensures AllAcceptable(a, parts) <==> AllAcceptable(b, parts)
    {
      hide Acceptable;
      forall r ensures r in a <==> r in b {
        assert r in a <==> r in multiset(a);
        assert r in b <==> r in multiset(b);
      }
    }

    /** The region holding an address, by binary search. */
    method RegionAt(a: nat) returns (r: Option<Region>)
      requires Valid() && finalized
      ensures r == Lookup(regions, a)
    {
      hide Apart, Acceptable, Lookup;
      var lo, hi := 0, |regions|;
      while lo < hi
        invariant 0 <= lo <= hi <= |regions|
        invariant forall i | 0 <= i < lo :: regions[i].va <= a
        invariant forall i | hi <= i < |regions| :: regions[i].va > a
      {
        var mid := (lo + hi) / 2;
        if a < regions[mid].va { hi := mid; } else { lo := mid + 1; }
      }
      LastBelow(lo, a);
      if lo == 0 || !regions[lo - 1].Contains(a) { return None; }
      OneHolder(regions, regions[lo - 1], a);
      return Some(regions[lo - 1]);
    }

    lemma LastBelow(lo: nat, a: nat)
      requires Valid() && finalized && lo <= |regions|
      requires forall i | 0 <= i < lo :: regions[i].va <= a
      requires forall i | lo <= i < |regions| :: regions[i].va > a
      ensures lo == 0 || !regions[lo - 1].Contains(a) ==> Lookup(regions, a) == None
    {
      hide Acceptable, Lookup;
      if lo == 0 || !regions[lo - 1].Contains(a) {
        forall i | 0 <= i < |regions| ensures !regions[i].Contains(a) {
          StackedExactly(regions);
          if i < lo - 1 {
            StackedFar(regions, i, lo - 1);
          }
        }
      }
    }

    ghost predicate Filled(out: array<Byte>, va: nat, n: nat)
      requires n <= out.Length && AllAcceptable(regions, parts)
      reads this, out
    {
      forall k | 0 <= k < n :: Some(out[k]) == ByteAt(regions, parts, va + k)
    }

    /** The part of a read that one region answers: file bytes, then zeros. */
    method FillFrom(region: Region, va: nat, written: nat, wanted: nat, out: array<Byte>)
      requires Valid() && finalized && region in regions && written + wanted <= out.Length
      requires region.va <= va + written && va + written + wanted <= region.End() && Filled(out, va, written)
      modifies out
      ensures Filled(out, va, written + wanted)
    {
      hide Apart, Lookup;
      var offset := va + written - region.va;
      var available := if offset < region.fileSize then region.fileSize - offset else 0;
      var fromFile := Min(available, wanted);
      for i := 0 to wanted
        invariant Filled(out, va, written + i)
      {
        assert Acceptable(region, parts);
        OneHolder(regions, region, va + written + i);
        out[written + i] := if i < fromFile then parts[region.backing][region.fileOffset + offset + i] else 0;
      }
    }

    /** Succeeds exactly when every byte is mapped, and then fills in each byte's definition. */
    method Read(va: nat, out: array<Byte>) returns (ok: bool)
      requires Valid() && finalized
      modifies out
      ensures ok <==> AllMapped(regions, va, out.Length)
      ensures ok ==> Filled(out, va, out.Length)
      ensures ok ==> forall k, r | 0 <= k < out.Length && r in regions && r.va <= va + k < r.va + r.size ::
                out[k] == FileByte(r, va + k - r.va)
    {
      hide Apart, Lookup, Acceptable;
      var written, cursor := 0, va;
      while written < out.Length
        invariant written <= out.Length && cursor == va + written && Filled(out, va, written)
      {
        var found := RegionAt(cursor);
        if found.None? { return false; }
        var wanted := Min(found.value.End() - cursor, out.Length - written);
        FillFrom(found.value, va, written, wanted, out);
        written, cursor := written + wanted, cursor + wanted;
      }
      forall a | va <= a < va + out.Length ensures Lookup(regions, a).Some? {
        assert Some(out[a - va]) == ByteAt(regions, parts, va + (a - va));
      }
      forall k, r | 0 <= k < out.Length && r in regions && r.va <= va + k < r.va + r.size
        ensures out[k] == FileByte(r, va + k - r.va)
      {
        HeldByte(r, va + k);
      }
      return true;
    }

    /** Byte `i` of a region: the file's as far as the file goes, and zero from there on. */
    ghost function FileByte(r: Region, i: nat): int
      requires Valid() && finalized && r in regions
      reads this
    {
      assert Acceptable(r, parts);
      if i < r.fileSize then parts[r.backing][r.fileOffset + i] else 0
    }

    lemma HeldByte(r: Region, a: nat)
      requires Valid() && finalized && r in regions && r.va <= a < r.va + r.size
      ensures ByteAt(regions, parts, a).Some? && ByteAt(regions, parts, a).value == FileByte(r, a - r.va)
    {
      hide Apart, Lookup;
      OneHolder(regions, r, a);
    }
  }
}
