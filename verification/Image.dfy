/** The immutable image: indices by address, relocated reads, and lookups over them. */
module BinaryImages {
  import opened Bits
  import opened Basics
  import opened MemoryMaps

  datatype Relocation = Relocation(va: nat, width: nat, value: nat, hasValue: bool) {
    function End(): nat { va + width }

    /** The loader's write at this address is known, and reaches the byte. */
    predicate Patches(a: nat) {
      hasValue && va <= a < End()
    }
  }

  datatype Symbol = Symbol(va: nat, size: nat, defined: bool, isFile: bool, exported: bool) {
    predicate Covers(a: nat) {
      va <= a < va + size
    }
  }

  // ----- sorting indices

  type Order = (nat, nat) -> bool

  ghost predicate IsOrder(le: Order) {
    (forall a, b :: le(a, b) || le(b, a)) && (forall a, b, c :: le(a, b) && le(b, c) ==> le(a, c))
  }

  ghost predicate OrderedBy(le: Order, q: seq<nat>) {
    forall i, j | 0 <= i < j < |q| :: le(q[i], q[j])
  }

  function InsertIndex(le: Order, x: nat, q: seq<nat>): seq<nat> {
    if q == [] || le(x, q[0]) then [x] + q else [q[0]] + InsertIndex(le, x, q[1..])
  }

  function SortIndices(le: Order, q: seq<nat>): seq<nat> {
    if q == [] then [] else InsertIndex(le, q[0], SortIndices(le, q[1..]))
  }

  lemma ConsOrderedBy(le: Order, x: nat, q: seq<nat>)
    requires OrderedBy(le, q) && forall y | y in q :: le(x, y)
    ensures OrderedBy(le, [x] + q)
  {
    var r := [x] + q;
    forall i, j | 0 <= i < j < |r| ensures le(r[i], r[j]) {
      assert r[j] == q[j - 1] && q[j - 1] in q;
      if i > 0 { assert r[i] == q[i - 1]; }
    }
  }

  lemma {:induction false} InsertIndexOrders(le: Order, x: nat, q: seq<nat>)
    requires IsOrder(le) && OrderedBy(le, q)
    ensures OrderedBy(le, InsertIndex(le, x, q))
    ensures forall y :: y in InsertIndex(le, x, q) <==> y == x || y in q
  {
    if q == [] {
    } else if le(x, q[0]) {
      forall y | y in q ensures le(x, y) {
        var k :| 0 <= k < |q| && q[k] == y;
        assert k > 0 ==> le(q[0], q[k]);
      }
      ConsOrderedBy(le, x, q);
    } else {
      InsertIndexOrders(le, x, q[1..]);
      assert forall y :: y in q <==> y == q[0] || y in q[1..];
      forall y | y in q[1..] ensures le(q[0], y) {
        var k :| 0 <= k < |q[1..]| && q[1..][k] == y;
        assert q[k + 1] == y;
      }
      ConsOrderedBy(le, q[0], InsertIndex(le, x, q[1..]));
    }
  }

  lemma {:induction false} SortIndicesOrders(le: Order, q: seq<nat>)
    requires IsOrder(le)
    ensures OrderedBy(le, SortIndices(le, q)) && forall y :: y in SortIndices(le, q) <==> y in q
  {
    if q != [] {
      SortIndicesOrders(le, q[1..]);
      InsertIndexOrders(le, q[0], SortIndices(le, q[1..]));
      assert forall y :: y in q <==> y == q[0] || y in q[1..];
    }
  }

  lemma {:induction false} InsertIndexDistinct(le: Order, x: nat, q: seq<nat>)
    requires Distinct(q) && x !in q
    ensures Distinct(InsertIndex(le, x, q)) && forall y :: y in InsertIndex(le, x, q) <==> y == x || y in q
  {
    if q == [] || le(x, q[0]) {
      ConsDistinct(x, q);
    } else {
      assert forall y :: y in q <==> y == q[0] || y in q[1..];
      assert Distinct(q[1..]);
      InsertIndexDistinct(le, x, q[1..]);
      ConsDistinct(q[0], InsertIndex(le, x, q[1..]));
    }
  }

  lemma ConsDistinct(x: nat, q: seq<nat>)
    requires Distinct(q) && x !in q
    ensures Distinct([x] + q) && forall y :: y in [x] + q <==> y == x || y in q
  {}

  /** Sorting repeats nothing. */
  lemma {:induction false} SortIndicesDistinct(le: Order, q: seq<nat>)
    requires Distinct(q)
    ensures Distinct(SortIndices(le, q)) && forall y :: y in SortIndices(le, q) <==> y in q
  {
    if q != [] {
      assert Distinct(q[1..]) && q[0] !in q[1..];
      SortIndicesDistinct(le, q[1..]);
      InsertIndexDistinct(le, q[0], SortIndices(le, q[1..]));
      assert forall y :: y in q <==> y == q[0] || y in q[1..];
    }
  }

  // ----- relocated bytes, one at a time

  ghost predicate Indexes(q: seq<nat>, n: nat) {
    forall i | 0 <= i < |q| :: q[i] < n
  }

  /** The last of the first `n` relocations in index order whose known value reaches the byte. */
  function LastPatch(rs: seq<Relocation>, order: seq<nat>, n: nat, a: nat): (m: Option<nat>)
    requires n <= |order| && Indexes(order, |rs|)
    ensures m.Some? ==> m.value < n && rs[order[m.value]].Patches(a)
    ensures forall k | (if m.Some? then m.value else -1) < k < n :: k >= 0 ==> !rs[order[k]].Patches(a)
  {
    if n == 0 then None
    else if rs[order[n - 1]].Patches(a) then Some(n - 1)
    else LastPatch(rs, order, n - 1, a)
  }

  /** Byte `i` of a relocated value. */
  function Encoded(r: Relocation, little: bool, i: nat): Byte
    requires i < r.width
  {
    r.value / Pow2(8 * (if little then i else r.width - 1 - i)) % 256
  }

  function Overlaid(rs: seq<Relocation>, order: seq<nat>, n: nat, little: bool, file: Byte, a: nat): Byte
    requires n <= |order| && Indexes(order, |rs|)
  {
    var m := LastPatch(rs, order, n, a);
    if m.None? then file else Encoded(rs[order[m.value]], little, a - rs[order[m.value]].va)
  }

  lemma {:induction false} NoneBetween(rs: seq<Relocation>, order: seq<nat>, i: nat, j: nat, a: nat)
    requires i <= j <= |order| && Indexes(order, |rs|) && forall k | i <= k < j :: !rs[order[k]].Patches(a)
    ensures LastPatch(rs, order, j, a) == LastPatch(rs, order, i, a)
    decreases j
  {
    if i < j { NoneBetween(rs, order, i, j - 1, a); }
  }

  /** The number a slot's bytes spell, first byte least significant if little-endian, most if not. */
  function Spelled(bs: seq<Byte>, little: bool): nat
    decreases |bs|
  {
    if bs == [] then 0
    else if little then bs[0] + 256 * Spelled(bs[1..], little)
    else 256 * Spelled(bs[..|bs| - 1], little) + bs[|bs| - 1]
  }

  /** The bytes a value is encoded in spell as much of the value as they hold. */
  lemma {:induction false} EncodedSpells(bs: seq<Byte>, little: bool, v: nat)
    requires forall i | 0 <= i < |bs| :: bs[i] == v / Pow2(8 * (if little then i else |bs| - 1 - i)) % 256
    ensures Spelled(bs, little) == v % Pow2(8 * |bs|)
    decreases |bs|
  {
    hide Pow2;
    PowOfBytes();
    if bs != [] {
      var n := |bs| - 1;
      var rest := if little then bs[1..] else bs[..n];
      forall i | 0 <= i < n ensures rest[i] == v / 256 / Pow2(8 * (if little then i else n - 1 - i)) % 256 {
        var k := if little then i else n - 1 - i;
        PowNextByte(k);
        DivideTwice(v, 256, Pow2(8 * k));
      }
      EncodedSpells(rest, little, v / 256);
      PowNextByte(n);
      LowBytes(v, Pow2(8 * n));
    }
  }

  lemma PowOfBytes()
    ensures Pow2(0) == 1 && Pow2(8) == 256
  {
    assert Pow2(4) == 16;
    Pow2Add(4, 4);
  }

  lemma PowNextByte(k: nat)
    ensures Pow2(8 * (k + 1)) == 256 * Pow2(8 * k)
  {
    hide Pow2;
    PowOfBytes();
    Pow2Add(8, 8 * k);
  }

  lemma DivideTwice(x: nat, p: nat, q: nat)
    requires p > 0 && q > 0
    ensures x / p / q == x / (p * q)
  {
    var a, r := x / p / q, x / p % q;
    assert x / p == q * a + r;
    assert x == p * (x / p) + x % p;
    Nested(p, q, a, r, x % p);
    ModUnique(x, p * q, a, p * r + x % p);
  }

  lemma Nested(p: nat, q: nat, a: nat, r: nat, low: nat)
    requires r < q && low < p
    ensures p * (q * a + r) + low == a * (p * q) + (p * r + low)
    ensures p * r + low < p * q
  {
    assert p * (q - r) == p * q - p * r;
    AtLeastOnce(q - r, p);
    assert (q - r) * p == p * (q - r);
  }

  lemma LowBytes(v: nat, p: nat)
    requires p > 0
    ensures v % (256 * p) == v % 256 + 256 * (v / 256 % p)
  {
    var a, r := v / 256 / p, v / 256 % p;
    assert v / 256 == p * a + r;
    assert v == 256 * (v / 256) + v % 256;
    Nested(256, p, a, r, v % 256);
    ModUnique(v, 256 * p, a, 256 * r + v % 256);
  }

  function RelocationBefore(rs: seq<Relocation>): Order {
    (a: nat, b: nat) => if a < |rs| && b < |rs| then rs[a].va <= rs[b].va else b >= |rs|
  }

  /** By address, the widest first, exported before local. */
  function SymbolBefore(ss: seq<Symbol>): Order {
    (a: nat, b: nat) =>
      if a < |ss| && b < |ss| then
        ss[a].va < ss[b].va || (ss[a].va == ss[b].va
          && (ss[a].size > ss[b].size || (ss[a].size == ss[b].size && (ss[a].exported || !ss[b].exported))))
      else b >= |ss|
  }

  lemma OrdersAreOrders(rs: seq<Relocation>, ss: seq<Symbol>)
    ensures IsOrder(RelocationBefore(rs)) && IsOrder(SymbolBefore(ss))
  {}

  predicate Named(s: Symbol) {
    s.defined && !s.isFile
  }

  method CopyOver(r: Relocation, little: bool, va: nat, out: array<Byte>)
    requires r.hasValue
    modifies out
    ensures forall k | 0 <= k < out.Length ::
              out[k] == if r.Patches(va + k) then Encoded(r, little, va + k - r.va) else old(out[k])
  {
    hide Encoded;
    var encoded := seq(r.width, k requires 0 <= k < r.width => Encoded(r, little, k));
    var start, end := Max(va, r.va), Min(va + out.Length, r.End());
    var a := start;
    while a < end
      invariant start <= a && (a <= end || a == start)
      invariant forall k | 0 <= k < out.Length ::
                  out[k] == if start <= va + k < a && va + k < end then encoded[va + k - r.va] else old(out[k])
    {
      out[a - va] := encoded[a - r.va];
      a := a + 1;
    }
  }

  class BinaryImage {
    const memory: MemoryMap
    const relocations: seq<Relocation>
    const symbols: seq<Symbol>
    const little: bool
    var relocationsByAddress: seq<nat>
    var symbolsByAddress: seq<nat>
    var maxSymbolSize: nat
    var lowestRelocation: nat
    var highestRelocationEnd: nat
    var maxRelocationWidth: nat

    /** The relocations fit the address space, and known values fit the eight bytes they are encoded in. */
    ghost predicate Fits() {
      forall r | r in relocations :: r.End() < WORD_SIZE && (r.hasValue ==> r.width <= 8)
    }

    ghost predicate RelocationsIndexed()
      reads `relocationsByAddress, `lowestRelocation, `highestRelocationEnd, `maxRelocationWidth
    {
      && Indexes(relocationsByAddress, |relocations|) && OrderedBy(RelocationBefore(relocations), relocationsByAddress)
      && (forall i | 0 <= i < |relocations| :: i in relocationsByAddress) && Distinct(relocationsByAddress)
      && (forall r | r in relocations ::
           lowestRelocation <= r.va && r.End() <= highestRelocationEnd && r.width <= maxRelocationWidth)
    }

    ghost predicate SymbolsIndexed()
      reads `symbolsByAddress, `maxSymbolSize
    {
      && Indexes(symbolsByAddress, |symbols|) && OrderedBy(SymbolBefore(symbols), symbolsByAddress)
      && (forall i: nat | i < |symbols| :: Named(symbols[i]) <==> i in symbolsByAddress) && Distinct(symbolsByAddress)
      && (forall s | s in symbols && Named(s) :: s.size <= maxSymbolSize)
    }

    ghost predicate Valid()
      reads this, memory
    {
      Fits() && RelocationsIndexed() && SymbolsIndexed() && memory.Valid() && memory.finalized
    }

    constructor (memory: MemoryMap, relocations: seq<Relocation>, symbols: seq<Symbol>, little: bool)
      requires memory.Valid() && memory.finalized
      requires forall r | r in relocations :: r.End() < WORD_SIZE && (r.hasValue ==> r.width <= 8)
      ensures Valid()
      ensures this.memory == memory && this.relocations == relocations && this.symbols == symbols
              && this.little == little
    {
      this.memory, this.relocations, this.symbols, this.little := memory, relocations, symbols, little;
      new;
      IndexSymbols();
      IndexRelocations();
    }

    method IndexSymbols()
      modifies `symbolsByAddress, `maxSymbolSize
      ensures SymbolsIndexed() && SymbolsInOrder()
      ensures forall i: nat | i < |symbols| :: i in symbolsByAddress <==> symbols[i].defined && !symbols[i].isFile
    {
      hide IsOrder, SymbolBefore, OrderedBy;
      OrdersAreOrders(relocations, symbols);
      var named: seq<nat> := [];
      maxSymbolSize := 0;
      for i := 0 to |symbols|
        invariant Indexes(named, i) && Distinct(named) && (forall k: nat | k < i :: Named(symbols[k]) <==> k in named)
        invariant forall k | 0 <= k < i && Named(symbols[k]) :: symbols[k].size <= maxSymbolSize
      {
        if Named(symbols[i]) {
          assert forall k | 0 <= k < |named| :: named[k] < i;
          named := named + [i];
          maxSymbolSize := Max(maxSymbolSize, symbols[i].size);
        }
      }
      SortIndicesOrders(SymbolBefore(symbols), named);
      SortIndicesDistinct(SymbolBefore(symbols), named);
      symbolsByAddress := SortIndices(SymbolBefore(symbols), named);
      StillIndexes(named, symbolsByAddress, |symbols|);
      SortedSymbols();
    }

    /** By address, at one address the widest first, and of one width the exported ones first. */
    ghost predicate SymbolsInOrder()
      reads `symbolsByAddress
    {
      && Indexes(symbolsByAddress, |symbols|)
      && forall i, j | 0 <= i < j < |symbolsByAddress| ::
           var s, t := symbols[symbolsByAddress[i]], symbols[symbolsByAddress[j]];
           && s.va <= t.va
           && (s.va == t.va ==> s.size >= t.size)
           && (s.va == t.va && s.size == t.size && t.exported ==> s.exported)
    }

    lemma SortedSymbols()
      requires Indexes(symbolsByAddress, |symbols|) && OrderedBy(SymbolBefore(symbols), symbolsByAddress)
      ensures SymbolsInOrder()
    {
      forall i, j | 0 <= i < j < |symbolsByAddress|
        ensures SymbolBefore(symbols)(symbolsByAddress[i], symbolsByAddress[j])
      {
      }
    }

    method IndexRelocations()
      modifies `relocationsByAddress, `lowestRelocation, `highestRelocationEnd, `maxRelocationWidth
      ensures RelocationsIndexed()
      ensures forall i, j | 0 <= i < j < |relocationsByAddress| ::
                relocations[relocationsByAddress[i]].va <= relocations[relocationsByAddress[j]].va
    {
      hide IsOrder, RelocationBefore, OrderedBy;
      OrdersAreOrders(relocations, symbols);
      var all := seq(|relocations|, i => i);
      forall i | 0 <= i < |relocations| ensures i in all { assert all[i] == i; }
      SortIndicesOrders(RelocationBefore(relocations), all);
      SortIndicesDistinct(RelocationBefore(relocations), all);
      relocationsByAddress := SortIndices(RelocationBefore(relocations), all);
      StillIndexes(all, relocationsByAddress, |relocations|);
      lowestRelocation, highestRelocationEnd, maxRelocationWidth := 0, 0, 0;
      if relocationsByAddress != [] {
        lowestRelocation := relocations[relocationsByAddress[0]].va;
      }
      for i := 0 to |relocationsByAddress|
        invariant forall k | 0 <= k < i :: Bounded(relocationsByAddress[k])
        modifies `highestRelocationEnd, `maxRelocationWidth
      {
        var r := relocations[relocationsByAddress[i]];
        highestRelocationEnd := Max(highestRelocationEnd, r.End());
        maxRelocationWidth := Max(maxRelocationWidth, r.width);
      }
      FirstIsLowest();
      forall r | r in relocations
        ensures lowestRelocation <= r.va && r.End() <= highestRelocationEnd && r.width <= maxRelocationWidth
      {
        var i :| 0 <= i < |relocations| && relocations[i] == r;
        assert i in relocationsByAddress;
        var k :| 0 <= k < |relocationsByAddress| && relocationsByAddress[k] == i;
        assert Bounded(relocationsByAddress[k]);
      }
      forall i, j | 0 <= i < j < |relocationsByAddress|
        ensures relocations[relocationsByAddress[i]].va <= relocations[relocationsByAddress[j]].va
      {
        RelocationOrder(j);
      }
    }

    ghost predicate Bounded(i: nat)
      reads `highestRelocationEnd, `maxRelocationWidth
    {
      i < |relocations| && relocations[i].End() <= highestRelocationEnd && relocations[i].width <= maxRelocationWidth
    }

    lemma FirstIsLowest()
      requires OrderedBy(RelocationBefore(relocations), relocationsByAddress)
               && Indexes(relocationsByAddress, |relocations|)
      ensures forall k | 0 <= k < |relocationsByAddress| ::
                relocations[relocationsByAddress[0]].va <= relocations[relocationsByAddress[k]].va
    {
      forall k | 0 <= k < |relocationsByAddress|
        ensures relocations[relocationsByAddress[0]].va <= relocations[relocationsByAddress[k]].va
      {
        if k > 0 { assert RelocationBefore(relocations)(relocationsByAddress[0], relocationsByAddress[k]); }
      }
    }

    /** The number of relocations, in index order, that start below an address. */
    method RelocationsBelow(a: nat) returns (n: nat)
      requires RelocationsIndexed()
      ensures n <= |relocationsByAddress|
      ensures forall k | 0 <= k < n :: relocations[relocationsByAddress[k]].va < a
      ensures forall k | n <= k < |relocationsByAddress| :: a <= relocations[relocationsByAddress[k]].va
    {
      hide RelocationBefore, OrderedBy;
      n := 0;
      var hi := |relocationsByAddress|;
      while n < hi
        invariant n <= hi <= |relocationsByAddress|
        invariant forall k | 0 <= k < n :: relocations[relocationsByAddress[k]].va < a
        invariant forall k | hi <= k < |relocationsByAddress| :: a <= relocations[relocationsByAddress[k]].va
      {
        var mid := (n + hi) / 2;
        RelocationOrder(mid);
        if relocations[relocationsByAddress[mid]].va < a { n := mid + 1; } else { hi := mid; }
      }
    }

    lemma RelocationOrder(m: nat)
      requires RelocationsIndexed() && m < |relocationsByAddress|
      ensures forall k | 0 <= k <= m ::
              relocations[relocationsByAddress[k]].va <= relocations[relocationsByAddress[m]].va
      ensures forall k | m <= k < |relocationsByAddress| ::
                relocations[relocationsByAddress[m]].va <= relocations[relocationsByAddress[k]].va
    {
      forall k | 0 <= k < m ensures relocations[relocationsByAddress[k]].va <= relocations[relocationsByAddress[m]].va {
        assert RelocationBefore(relocations)(relocationsByAddress[k], relocationsByAddress[m]);
      }
      forall k | m < k < |relocationsByAddress|
        ensures relocations[relocationsByAddress[m]].va <= relocations[relocationsByAddress[k]].va
      {
        assert RelocationBefore(relocations)(relocationsByAddress[m], relocationsByAddress[k]);
      }
    }

    // ----- relocated reads

    /** What the image holds at an address: the last known relocation in index order that reaches it,
        and the file's byte otherwise. */
    ghost function ByteAt(a: nat): Byte
      requires Valid() && Lookup(memory.regions, a).Some?
      reads this, memory
    {
      Overlaid(relocations, relocationsByAddress, |relocationsByAddress|, little,
        MemoryMaps.ByteAt(memory.regions, memory.parts, a).value, a)
    }

    /** The overlay of the first `n` relocations on a buffer that starts at `va`. */
    ghost predicate Shows(out: seq<Byte>, file: seq<Byte>, va: nat, n: nat)
      requires RelocationsIndexed() && n <= |relocationsByAddress|
      reads `relocationsByAddress, `lowestRelocation, `highestRelocationEnd, `maxRelocationWidth
    {
      && |out| == |file|
      && forall k | 0 <= k < |out| :: out[k] == Overlaid(relocations, relocationsByAddress, n, little, file[k], va + k)
    }

    ghost predicate Silent(i: nat, va: nat, size: nat)
      requires RelocationsIndexed() && i < |relocationsByAddress|
      reads `relocationsByAddress, `lowestRelocation, `highestRelocationEnd, `maxRelocationWidth
    {
      forall a | va <= a < va + size :: !relocations[relocationsByAddress[i]].Patches(a)
    }

    lemma SilentKeeps(out: seq<Byte>, file: seq<Byte>, va: nat, i: nat, j: nat)
      requires RelocationsIndexed() && i <= j <= |relocationsByAddress| && Shows(out, file, va, i)
      requires forall k | i <= k < j :: Silent(k, va, |out|)
      ensures Shows(out, file, va, j)
    {
      hide RelocationBefore, OrderedBy, LastPatch, Encoded, Relocation.Patches;
      forall k | 0 <= k < |out|
        ensures out[k] == Overlaid(relocations, relocationsByAddress, j, little, file[k], va + k) {
        forall m | i <= m < j ensures !relocations[relocationsByAddress[m]].Patches(va + k) {
          assert Silent(m, va, |out|);
        }
        NoneBetween(relocations, relocationsByAddress, i, j, va + k);
      }
    }

    lemma NothingShown(file: seq<Byte>, va: nat)
      requires RelocationsIndexed()
      ensures Shows(file, file, va, 0)
    {}

    /** One relocation's known value, spliced over the part of the buffer it reaches. */
    method Splice(i: nat, va: nat, out: array<Byte>, ghost file: seq<Byte>)
      requires RelocationsIndexed() && i < |relocationsByAddress| && Shows(out[..], file, va, i)
      requires relocations[relocationsByAddress[i]].hasValue
      modifies out
      ensures Shows(out[..], file, va, i + 1)
      ensures var r := relocations[relocationsByAddress[i]];
              va <= r.va && r.va + r.width <= va + out.Length ==>
                Spelled(out[..][r.va - va..r.va - va + r.width], little) == r.value % Pow2(8 * r.width)
    {
      hide RelocationBefore, OrderedBy, LastPatch, Encoded, Overlaid, Pow2, Spelled;
      ghost var was := out[..];
      CopyOver(relocations[relocationsByAddress[i]], little, va, out);
      var r := relocations[relocationsByAddress[i]];
      if va <= r.va && r.va + r.width <= va + out.Length { CopySpells(r, va, out[..]); }
      forall k | 0 <= k < out.Length
        ensures out[k] == Overlaid(relocations, relocationsByAddress, i + 1, little, file[k], va + k)
      {
        OverlaidNext(i, file[k], va + k);
        assert was[k] == Overlaid(relocations, relocationsByAddress, i, little, file[k], va + k);
      }
    }

    lemma CopySpells(r: Relocation, va: nat, out: seq<Byte>)
      requires r.hasValue && va <= r.va && r.va + r.width <= va + |out|
      requires forall k | 0 <= k < |out| && r.Patches(va + k) :: out[k] == Encoded(r, little, va + k - r.va)
      ensures Spelled(out[r.va - va..r.va - va + r.width], little) == r.value % Pow2(8 * r.width)
    {
      hide Pow2;
      EncodedSpells(out[r.va - va..r.va - va + r.width], little, r.value);
    }

    lemma OverlaidNext(i: nat, file: Byte, a: nat)
      requires RelocationsIndexed() && i < |relocationsByAddress|
      ensures var r := relocations[relocationsByAddress[i]];
              Overlaid(relocations, relocationsByAddress, i + 1, little, file, a)
              == if r.Patches(a) then Encoded(r, little, a - r.va)
                 else Overlaid(relocations, relocationsByAddress, i, little, file, a)
    {
      hide RelocationBefore, OrderedBy, Encoded;
    }

    /** Succeeds exactly when every byte is mapped, and then reads each byte as the image defines it. */
    method Read(va: nat, out: array<Byte>) returns (ok: bool)
      requires Valid()
      modifies out
      ensures Valid() && (ok <==> AllMapped(memory.regions, va, out.Length))
      ensures ok ==> forall k | 0 <= k < out.Length :: Lookup(memory.regions, va + k).Some? && out[k] == ByteAt(va + k)
      ensures ok ==> out[..] == Bytes(va, out.Length)
      ensures ok ==> SlotsHold(va, out[..]) && FileHolds(va, out[..])
    {
      hide RelocationBefore, OrderedBy, LastPatch, Encoded, SymbolsIndexed, Overlaid, Ordered, AllApart, Acceptable,
        Lookup, SlotsHold, FileHolds;
      ok := memory.Read(va, out);
      if !ok { return; }
      ghost var file := out[..];
      NothingShown(file, va);
      Overlay(va, out, file);
      forall k | 0 <= k < out.Length ensures Lookup(memory.regions, va + k).Some? && out[k] == ByteAt(va + k) {
        assert Some(file[k]) == MemoryMaps.ByteAt(memory.regions, memory.parts, va + k);
      }
      forall k: nat | k < out.Length ensures out[k] == Bytes(va, out.Length)[k] {
        BytesAt(va, out.Length, k);
      }
      ReadMeans(va, out[..]);
    }

    /** The relocation at a place of the index. */
    ghost function Slot(m: nat): Relocation
      requires RelocationsIndexed() && m < |relocationsByAddress|
      reads `relocationsByAddress, `lowestRelocation, `highestRelocationEnd, `maxRelocationWidth
    {
      relocations[relocationsByAddress[m]]
    }

    /** The loader's write there is known, and reaches the byte. */
    ghost predicate Writes(m: nat, a: nat)
      requires RelocationsIndexed()
      reads `relocationsByAddress, `lowestRelocation, `highestRelocationEnd, `maxRelocationWidth
    {
      m < |relocationsByAddress| && Slot(m).hasValue && Slot(m).va <= a < Slot(m).va + Slot(m).width
    }

    /** A known write, no later one in index order reaching any of its bytes, wholly within the range. */
    ghost predicate LastInRange(m: nat, va: nat, size: nat)
      requires RelocationsIndexed()
      reads `relocationsByAddress, `lowestRelocation, `highestRelocationEnd, `maxRelocationWidth
    {
      && m < |relocationsByAddress| && Slot(m).hasValue
      && va <= Slot(m).va && Slot(m).va + Slot(m).width <= va + size
      && forall k: nat, a: nat | m < k && Writes(m, a) :: !Writes(k, a)
    }

    /** Every such write has left its value in the buffer, in the byte order of the image. */
    ghost predicate SlotsHold(va: nat, out: seq<Byte>)
      requires RelocationsIndexed()
      reads `relocationsByAddress, `lowestRelocation, `highestRelocationEnd, `maxRelocationWidth
    {
      forall m: nat | LastInRange(m, va, |out|) ::
        var start := Slot(m).va - va;
        Spelled(out[start..start + Slot(m).width], little) == Slot(m).value % Pow2(8 * Slot(m).width)
    }

    /** Every byte no known write reaches is the file's. */
    ghost predicate FileHolds(va: nat, out: seq<Byte>)
      requires Valid()
      reads this, memory
    {
      forall k, r | 0 <= k < |out| && r in memory.regions && r.va <= va + k < r.va + r.size && Unrelocated(va + k) ::
        out[k] == memory.FileByte(r, va + k - r.va)
    }

    ghost predicate Unrelocated(a: nat) {
      forall r | r in relocations :: !(r.hasValue && r.va <= a < r.va + r.width)
    }

    lemma SlotSpells(va: nat, out: seq<Byte>, m: nat)
      requires Valid() && AllMapped(memory.regions, va, |out|) && LastInRange(m, va, |out|)
      requires forall k: nat | k < |out| :: Lookup(memory.regions, va + k).Some? && out[k] == ByteAt(va + k)
      ensures var start := Slot(m).va - va;
              Spelled(out[start..start + Slot(m).width], little) == Slot(m).value % Pow2(8 * Slot(m).width)
    {
      hide RelocationBefore, OrderedBy, Pow2, Lookup, MemoryMap.Valid, SymbolsIndexed;
      var r, start := Slot(m), Slot(m).va - va;
      var bs := out[start..start + r.width];
      forall i: nat | i < r.width
        ensures bs[i] == r.value / Pow2(8 * (if little then i else r.width - 1 - i)) % 256
      {
        assert out[start + i] == ByteAt(va + (start + i));
        LastPatchIs(m, va, |out|, r.va + i);
      }
      EncodedSpells(bs, little, r.value);
    }

    lemma InRange(m: nat, va: nat, size: nat)
      requires RelocationsIndexed() && LastInRange(m, va, size)
      ensures m < |relocationsByAddress| && va <= Slot(m).va && Slot(m).va + Slot(m).width <= va + size
    {}

    lemma LastPatchIs(m: nat, va: nat, size: nat, a: nat)
      requires RelocationsIndexed() && LastInRange(m, va, size) && Writes(m, a)
      ensures LastPatch(relocations, relocationsByAddress, |relocationsByAddress|, a) == Some(m)
    {
      hide RelocationBefore, OrderedBy;
      var p := LastPatch(relocations, relocationsByAddress, |relocationsByAddress|, a);
      assert relocations[relocationsByAddress[m]].Patches(a);
      if p.Some? { assert Writes(p.value, a); }
    }

    lemma UnrelocatedByte(a: nat)
      requires Valid() && Lookup(memory.regions, a).Some? && Unrelocated(a)
      ensures Some(ByteAt(a)) == MemoryMaps.ByteAt(memory.regions, memory.parts, a)
    {
      hide RelocationBefore, OrderedBy, Lookup;
    }

    lemma ReadMeans(va: nat, out: seq<Byte>)
      requires Valid() && AllMapped(memory.regions, va, |out|)
      requires forall k: nat | k < |out| :: Lookup(memory.regions, va + k).Some? && out[k] == ByteAt(va + k)
      ensures SlotsHold(va, out) && FileHolds(va, out)
    {
      hide Pow2, Lookup, LastInRange, RelocationsIndexed, SymbolsIndexed, MemoryMap.Valid, Unrelocated;
      forall m: nat | LastInRange(m, va, |out|)
        ensures m < |relocationsByAddress| && va <= Slot(m).va && Slot(m).va + Slot(m).width <= va + |out|
        ensures var start := Slot(m).va - va;
                Spelled(out[start..start + Slot(m).width], little) == Slot(m).value % Pow2(8 * Slot(m).width)
      {
        InRange(m, va, |out|);
        SlotSpells(va, out, m);
      }
      forall k, r | 0 <= k < |out| && r in memory.regions && r.va <= va + k < r.va + r.size && Unrelocated(va + k)
        ensures out[k] == memory.FileByte(r, va + k - r.va)
      {
        UnrelocatedByte(va + k);
        memory.HeldByte(r, va + k);
      }
    }

    method Overlay(va: nat, out: array<Byte>, ghost file: seq<Byte>)
      requires Valid() && Shows(out[..], file, va, 0)
      modifies out
      ensures Shows(out[..], file, va, |relocationsByAddress|)
    {
      hide RelocationBefore, OrderedBy, LastPatch, Encoded, SymbolsIndexed, Overlaid, Shows, MemoryMap.Valid, Lookup;
      if out.Length == 0 || va >= highestRelocationEnd || va + out.Length <= lowestRelocation {
        OutOfReach(va, out.Length);
        SilentKeeps(out[..], file, va, 0, |relocationsByAddress|);
        return;
      }
      var searchStart := if va >= maxRelocationWidth then va - maxRelocationWidth else 0;
      var first := RelocationsBelow(searchStart);
      BelowReach(va, out.Length, first);
      SilentKeeps(out[..], file, va, 0, first);
      var i := first;
      while i < |relocationsByAddress|
        invariant first <= i <= |relocationsByAddress| && Shows(out[..], file, va, i)
      {
        var r := relocations[relocationsByAddress[i]];
        if r.va >= va + out.Length {
          AboveReach(va, out.Length, i);
          SilentKeeps(out[..], file, va, i, |relocationsByAddress|);
          return;
        }
        if !r.hasValue || r.width == 0 || r.End() <= va {
          assert Silent(i, va, out.Length);
          SilentKeeps(out[..], file, va, i, i + 1);
        } else {
          Splice(i, va, out, file);
        }
        i := i + 1;
      }
    }

    lemma OutOfReach(va: nat, size: nat)
      requires RelocationsIndexed() && (size == 0 || va >= highestRelocationEnd || va + size <= lowestRelocation)
      ensures forall k | 0 <= k < |relocationsByAddress| :: Silent(k, va, size)
    {
      hide RelocationBefore, OrderedBy;
      forall k | 0 <= k < |relocationsByAddress| ensures Silent(k, va, size) {
        assert relocations[relocationsByAddress[k]] in relocations;
      }
    }

    lemma BelowReach(va: nat, size: nat, first: nat)
      requires RelocationsIndexed() && first <= |relocationsByAddress|
      requires var start := if va >= maxRelocationWidth then va - maxRelocationWidth else 0;
               forall k | 0 <= k < first :: relocations[relocationsByAddress[k]].va < start
      ensures forall k | 0 <= k < first :: Silent(k, va, size)
    {
      hide RelocationBefore, OrderedBy;
      forall k | 0 <= k < first ensures Silent(k, va, size) {
        assert relocations[relocationsByAddress[k]] in relocations;
      }
    }

    lemma AboveReach(va: nat, size: nat, i: nat)
      requires RelocationsIndexed() && i < |relocationsByAddress|
               && relocations[relocationsByAddress[i]].va >= va + size
      ensures forall k | i <= k < |relocationsByAddress| :: Silent(k, va, size)
    {
      RelocationOrder(i);
    }

    ghost predicate Meets(r: Relocation, va: nat, size: nat) {
      r.End() > va && r.va < va + size
    }

    /** Some relocation that meets the range, if any does. */
    method RelocationOverlapping(va: nat, size: nat) returns (r: Option<Relocation>)
      requires RelocationsIndexed() && Fits() && va + size < WORD_SIZE
      ensures r.Some? ==> r.value in relocations && size > 0 && Meets(r.value, va, size)
      ensures r.None? ==> size == 0 || forall s | s in relocations :: !Meets(s, va, size)
    {
      hide RelocationBefore, OrderedBy;
      if size == 0 || relocationsByAddress == [] {
        NoneIfEmpty();
        return None;
      }
      if va >= highestRelocationEnd || va + size <= lowestRelocation { return None; }
      var n := RelocationsBelow(va + size);
      var lowest := if va >= maxRelocationWidth then va - maxRelocationWidth else 0;
      var i := n;
      while i > 0
        invariant 0 <= i <= n
        invariant forall k | i <= k < |relocationsByAddress| :: !Meets(relocations[relocationsByAddress[k]], va, size)
      {
        i := i - 1;
        var s := relocations[relocationsByAddress[i]];
        if s.va < lowest {
          RelocationOrder(i);
          break;
        }
        if s.End() > va && s.va < va + size { return Some(s); }
      }
      forall s | s in relocations ensures !Meets(s, va, size) {
        var k := PlaceOf(s);
        assert k < i ==> s.va <= relocations[relocationsByAddress[i]].va;
      }
      return None;
    }

    lemma NoneIfEmpty()
      requires RelocationsIndexed()
      ensures relocationsByAddress == [] ==> relocations == []
    {
      hide RelocationBefore, OrderedBy;
      if relocations != [] { assert 0 in relocationsByAddress; }
    }

    lemma PlaceOf(s: Relocation) returns (k: nat)
      requires RelocationsIndexed() && s in relocations
      ensures k < |relocationsByAddress| && relocations[relocationsByAddress[k]] == s
    {
      hide RelocationBefore, OrderedBy;
      var i :| 0 <= i < |relocations| && relocations[i] == s;
      assert i in relocationsByAddress;
      k :| k < |relocationsByAddress| && relocationsByAddress[k] == i;
    }

    // ----- pieces of a read

    ghost function Bytes(va: nat, n: nat): (bs: seq<Byte>)
      requires Valid() && AllMapped(memory.regions, va, n)
      reads this, memory
      ensures |bs| == n
    {
      if n == 0 then [] else
      assert AllMapped(memory.regions, va, n - 1);
      assert va <= va + (n - 1) < va + n;
      Bytes(va, n - 1) + [ByteAt(va + (n - 1))]
    }

    lemma {:induction false} BytesAt(va: nat, n: nat, k: nat)
      requires Valid() && AllMapped(memory.regions, va, n) && k < n
      ensures Lookup(memory.regions, va + k).Some? && Bytes(va, n)[k] == ByteAt(va + k)
      decreases n
    {
      hide Valid, Lookup, ByteAt;
      MappedPrefix(va, n - 1);
      if k < n - 1 {
        BytesAt(va, n - 1, k);
      } else {
        assert va + k == va + (n - 1);
      }
    }

    lemma MappedPrefix(va: nat, n: nat)
      requires AllMapped(memory.regions, va, n + 1)
      ensures AllMapped(memory.regions, va, n)
    {
      hide Lookup;
    }

    /** A long read is the concatenation of its pieces, and succeeds exactly when they do. */
    lemma {:induction false} ReadSplits(va: nat, m: nat, n: nat)
      requires Valid()
      ensures AllMapped(memory.regions, va, m + n) <==>
              AllMapped(memory.regions, va, m) && AllMapped(memory.regions, va + m, n)
      ensures AllMapped(memory.regions, va, m + n) ==> Bytes(va, m + n) == Bytes(va, m) + Bytes(va + m, n)
      decreases n
    {
      hide Valid, Lookup, ByteAt;
      if AllMapped(memory.regions, va, m + n) {
        assert AllMapped(memory.regions, va, m) && AllMapped(memory.regions, va + m, n);
        if n > 0 {
          assert AllMapped(memory.regions, va, m + (n - 1));
          ReadSplits(va, m, n - 1);
          assert va + (m + n - 1) == va + m + (n - 1);
        }
      }
    }

    // ----- the narrowest symbol over an address

    method SymbolsUpTo(a: nat) returns (n: nat)
      requires SymbolsIndexed()
      ensures n <= |symbolsByAddress|
      ensures forall k | 0 <= k < n :: symbols[symbolsByAddress[k]].va <= a
      ensures forall k | n <= k < |symbolsByAddress| :: a < symbols[symbolsByAddress[k]].va
    {
      hide SymbolBefore, OrderedBy;
      n := 0;
      var hi := |symbolsByAddress|;
      while n < hi
        invariant n <= hi <= |symbolsByAddress|
        invariant forall k | 0 <= k < n :: symbols[symbolsByAddress[k]].va <= a
        invariant forall k | hi <= k < |symbolsByAddress| :: a < symbols[symbolsByAddress[k]].va
      {
        var mid := (n + hi) / 2;
        SymbolOrder(mid);
        if a < symbols[symbolsByAddress[mid]].va { hi := mid; } else { n := mid + 1; }
      }
    }

    lemma SymbolOrder(m: nat)
      requires SymbolsIndexed() && m < |symbolsByAddress|
      ensures forall k | 0 <= k <= m :: symbols[symbolsByAddress[k]].va <= symbols[symbolsByAddress[m]].va
      ensures forall k | m <= k < |symbolsByAddress| ::
              symbols[symbolsByAddress[m]].va <= symbols[symbolsByAddress[k]].va
    {
      forall k | 0 <= k < m ensures symbols[symbolsByAddress[k]].va <= symbols[symbolsByAddress[m]].va {
        assert SymbolBefore(symbols)(symbolsByAddress[k], symbolsByAddress[m]);
      }
      forall k | m < k < |symbolsByAddress| ensures symbols[symbolsByAddress[m]].va <= symbols[symbolsByAddress[k]].va {
        assert SymbolBefore(symbols)(symbolsByAddress[m], symbolsByAddress[k]);
      }
    }

    ghost predicate NoNarrower(best: Option<Symbol>, i: nat, a: nat)
      requires SymbolsIndexed()
      reads `symbolsByAddress, `maxSymbolSize
    {
      forall k | i <= k < |symbolsByAddress| && symbols[symbolsByAddress[k]].Covers(a) ::
        best.Some? && best.value.size <= symbols[symbolsByAddress[k]].size
    }

    /** The narrowest named symbol that covers an address, if any does. */
    method SymbolContaining(a: nat) returns (best: Option<Symbol>)
      requires SymbolsIndexed()
      ensures best.Some? ==> best.value in symbols && Named(best.value) && best.value.Covers(a)
      ensures best.Some? ==> forall s | s in symbols && Named(s) && s.Covers(a) :: best.value.size <= s.size
      ensures best.None? ==> forall s | s in symbols && Named(s) :: !s.Covers(a)
    {
      hide SymbolBefore, OrderedBy;
      best := None;
      var n := SymbolsUpTo(a);
      var lowest := if a >= maxSymbolSize then a - maxSymbolSize else 0;
      var i := n;
      while i > 0
        invariant 0 <= i <= n && NoNarrower(best, i, a)
        invariant best.Some? ==> best.value in symbols && Named(best.value) && best.value.Covers(a)
      {
        i := i - 1;
        var s := symbols[symbolsByAddress[i]];
        assert symbolsByAddress[i] in symbolsByAddress;
        if s.va < lowest {
          TooFar(best, i, a);
          i := 0;
          break;
        }
        if s.size != 0 && a >= s.va && a - s.va < s.size {
          if best.None? || s.size < best.value.size { best := Some(s); }
        }
      }
      NarrowestOfAll(best, a);
    }

    lemma TooFar(best: Option<Symbol>, i: nat, a: nat)
      requires SymbolsIndexed() && i < |symbolsByAddress| && NoNarrower(best, i + 1, a)
      requires symbols[symbolsByAddress[i]].va + maxSymbolSize < a
      ensures NoNarrower(best, 0, a)
    {
      hide SymbolBefore, OrderedBy;
      SymbolOrder(i);
      forall k | 0 <= k <= i ensures !symbols[symbolsByAddress[k]].Covers(a) {
        assert symbolsByAddress[k] in symbolsByAddress;
        assert symbols[symbolsByAddress[k]] in symbols;
      }
    }

    lemma NarrowestOfAll(best: Option<Symbol>, a: nat)
      requires SymbolsIndexed() && NoNarrower(best, 0, a)
      ensures forall s | s in symbols && Named(s) && s.Covers(a) :: best.Some? && best.value.size <= s.size
    {
      hide SymbolBefore, OrderedBy;
      forall s | s in symbols && Named(s) && s.Covers(a) ensures best.Some? && best.value.size <= s.size {
        var i: nat :| i < |symbols| && symbols[i] == s;
        assert i in symbolsByAddress;
        var k :| 0 <= k < |symbolsByAddress| && symbolsByAddress[k] == i;
      }
    }
  }

  lemma StillIndexes(q: seq<nat>, sorted: seq<nat>, n: nat)
    requires Indexes(q, n) && forall y :: y in sorted <==> y in q
    ensures Indexes(sorted, n)
  {
    forall i | 0 <= i < |sorted| ensures sorted[i] < n {
      assert sorted[i] in q;
    }
  }
}
