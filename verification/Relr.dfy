/** The compact table of relative relocations: address words and bitmap words. */
module RelrTables {
  import opened Bits
  import opened Basics

  // ----- decoding, word by word

  /** The addresses a bitmap names: bit 0 is the address itself, each further bit the next word's. */
  function Unpack(bitmap: nat, address: nat, wordSize: nat, n: nat): seq<nat>
    decreases n
  {
    if n == 0 then [] else
    (if bitmap % 2 == 1 then [address % WORD_SIZE] else []) + Unpack(bitmap / 2, address + wordSize, wordSize, n - 1)
  }

  function PerBitmap(wordSize: nat): nat
    requires wordSize > 0
  {
    8 * wordSize - 1
  }

  /** An address some bytes on, in a 64-bit word. */
  function Advance(address: nat, bytes: nat): nat {
    (address + bytes) % WORD_SIZE
  }

  function Decode(words: seq<nat>, wordSize: nat, cursor: nat): seq<nat>
    requires wordSize > 0
  {
    if words == [] then []
    else if words[0] % 2 == 0 then [words[0]] + Decode(words[1..], wordSize, Advance(words[0], wordSize))
    else Unpack(words[0] / 2, cursor, wordSize, PerBitmap(wordSize))
         + Decode(words[1..], wordSize, Advance(cursor, PerBitmap(wordSize) * wordSize))
  }

  // ----- what the words of a table mean

  /** The addresses an odd word names at a cursor: for each of its upper bits that is set, from the lowest
      up, the word as many words on as there are bits below it, not counting the lowest. */
  ghost predicate Names(word: nat, cursor: nat, wordSize: nat, addresses: seq<nat>)
    requires wordSize > 0
  {
    exists bits: seq<nat> :: SetBits(word, 8 * wordSize - 1, bits) && AddressesOf(bits, cursor, wordSize, addresses)
  }

  /** The places of the set bits above the lowest, in order. */
  ghost predicate SetBits(word: nat, n: nat, bits: seq<nat>) {
    && (forall i, j | 0 <= i < j < |bits| :: bits[i] < bits[j])
    && (forall i: nat :: i in bits <==> i < n && BitSet(word, i + 1))
  }

  ghost predicate BitSet(word: nat, i: nat) {
    word / Pow2(i) % 2 == 1
  }

  ghost predicate AddressesOf(bits: seq<nat>, cursor: nat, wordSize: nat, addresses: seq<nat>) {
    |addresses| == |bits| && forall j | 0 <= j < |bits| :: addresses[j] == (cursor + bits[j] * wordSize) % WORD_SIZE
  }

  /** What a table that is read from `cursor` on names: an even word itself, and the cursor goes behind it;
      for an odd word what its bits name, and the cursor goes behind all the words they could. */
  ghost predicate IsTable(words: seq<nat>, wordSize: nat, cursor: nat, addresses: seq<nat>)
    requires wordSize > 0
    decreases |words|
  {
    if words == [] then addresses == [] else
    exists named: seq<nat>, more: seq<nat> ::
      && addresses == named + more
      && (if words[0] % 2 == 0 then
            named == [words[0]] && IsTable(words[1..], wordSize, (words[0] + wordSize) % WORD_SIZE, more)
          else
            && Names(words[0], cursor, wordSize, named)
            && IsTable(words[1..], wordSize, (cursor + (8 * wordSize - 1) * wordSize) % WORD_SIZE, more))
  }

  /** The places of the set bits of a bitmap, the first of them numbered `at`. */
  ghost function Places(bitmap: nat, at: nat, n: nat): seq<nat>
    decreases n
  {
    if n == 0 then [] else (if bitmap % 2 == 1 then [at] else []) + Places(bitmap / 2, at + 1, n - 1)
  }

  lemma {:induction false} PlacesAreBits(bitmap: nat, at: nat, n: nat)
    ensures forall i, j | 0 <= i < j < |Places(bitmap, at, n)| :: Places(bitmap, at, n)[i] < Places(bitmap, at, n)[j]
    ensures forall i: nat :: i in Places(bitmap, at, n) <==> at <= i < at + n && BitSet(bitmap, i - at)
    decreases n
  {
    hide Pow2, BitSet;
    if n > 0 {
      PlacesAreBits(bitmap / 2, at + 1, n - 1);
      var rest, all := Places(bitmap / 2, at + 1, n - 1), Places(bitmap, at, n);
      forall i: nat ensures i in all <==> at <= i < at + n && BitSet(bitmap, i - at) {
        FirstBit(bitmap);
        if at < i { NextBit(bitmap, i - at - 1); }
        assert i in all <==> (bitmap % 2 == 1 && i == at) || i in rest;
      }
      assert forall k | 0 <= k < |rest| :: rest[k] in rest;
    }
  }

  lemma FirstBit(bitmap: nat)
    ensures BitSet(bitmap, 0) <==> bitmap % 2 == 1
  {
    assert Pow2(0) == 1;
  }

  lemma NextBit(bitmap: nat, i: nat)
    ensures BitSet(bitmap / 2, i) <==> BitSet(bitmap, i + 1)
  {
    HalfFirst(bitmap, Pow2(i));
  }

  lemma HalfFirst(x: nat, p: nat)
    requires p > 0
    ensures x / 2 / p == x / (2 * p)
  {
    var q, r := x / 2 / p, x / 2 % p;
    assert x / 2 == p * q + r;
    assert x == 2 * (x / 2) + x % 2;
    assert x == q * (2 * p) + (2 * r + x % 2);
    ModUnique(x, 2 * p, q, 2 * r + x % 2);
  }

  lemma {:induction false} UnpackPlaces(bitmap: nat, cursor: nat, at: nat, wordSize: nat, n: nat)
    ensures AddressesOf(Places(bitmap, at, n), cursor, wordSize, Unpack(bitmap, cursor + at * wordSize, wordSize, n))
    decreases n
  {
    hide Pow2;
    if n > 0 {
      UnpackPlaces(bitmap / 2, cursor, at + 1, wordSize, n - 1);
      assert (at + 1) * wordSize == at * wordSize + wordSize;
    }
  }

  /** What decoding makes of an odd word is what its bits name. */
  lemma UnpackNames(word: nat, cursor: nat, wordSize: nat)
    requires wordSize > 0
    ensures Names(word, cursor, wordSize, Unpack(word / 2, cursor, wordSize, PerBitmap(wordSize)))
  {
    hide Pow2, Unpack, Places, BitSet, AddressesOf;
    var n := 8 * wordSize - 1;
    PlacesAreBits(word / 2, 0, n);
    forall i: nat ensures BitSet(word / 2, i) <==> BitSet(word, i + 1) {
      NextBit(word, i);
    }
    UnpackPlaces(word / 2, cursor, 0, wordSize, n);
    assert SetBits(word, n, Places(word / 2, 0, n));
  }

  /** Decoding gives what the table names. */
  lemma {:induction false} DecodeIsTable(words: seq<nat>, wordSize: nat, cursor: nat)
    requires wordSize > 0
    ensures IsTable(words, wordSize, cursor, Decode(words, wordSize, cursor))
    decreases |words|
  {
    hide Pow2, Unpack, Names;
    if words != [] {
      if words[0] % 2 == 0 {
        DecodeIsTable(words[1..], wordSize, Advance(words[0], wordSize));
      } else {
        UnpackNames(words[0], cursor, wordSize);
        DecodeIsTable(words[1..], wordSize, Advance(cursor, (8 * wordSize - 1) * wordSize));
      }
    }
  }

  lemma {:induction false} SameRising(a: seq<nat>, b: seq<nat>)
    requires forall i, j | 0 <= i < j < |a| :: a[i] < a[j]
    requires forall i, j | 0 <= i < j < |b| :: b[i] < b[j]
    requires forall x: nat :: x in a <==> x in b
    ensures a == b
    decreases |a|
  {
    FirstIsMember(b);
    if a != [] {
      assert a[0] in a && a[0] in b && b[0] in b && b[0] in a;
      assert a[0] == b[0];
      forall x: nat ensures x in a[1..] <==> x in b[1..] {
        assert x in a <==> x == a[0] || x in a[1..];
        assert x in b <==> x == b[0] || x in b[1..];
      }
      SameRising(a[1..], b[1..]);
      assert a == [a[0]] + a[1..] && b == [b[0]] + b[1..];
    }
  }

  lemma FirstIsMember(s: seq<nat>)
    ensures s == [] || s[0] in s
  {}

  lemma NamesOnce(word: nat, cursor: nat, wordSize: nat, a: seq<nat>, b: seq<nat>)
    requires wordSize > 0 && Names(word, cursor, wordSize, a) && Names(word, cursor, wordSize, b)
    ensures a == b
  {
    hide Pow2, BitSet;
    var n := 8 * wordSize - 1;
    var p: seq<nat> :| SetBits(word, n, p) && AddressesOf(p, cursor, wordSize, a);
    var q: seq<nat> :| SetBits(word, n, q) && AddressesOf(q, cursor, wordSize, b);
    SameRising(p, q);
  }

  /** A table names one list of addresses. */
  lemma {:induction false} TableIsUnique(words: seq<nat>, wordSize: nat, cursor: nat, a: seq<nat>, b: seq<nat>)
    requires wordSize > 0 && IsTable(words, wordSize, cursor, a) && IsTable(words, wordSize, cursor, b)
    ensures a == b
    decreases |words|
  {
    hide Pow2, Names;
    if words != [] {
      var even := words[0] % 2 == 0;
      var next := (if even then words[0] + wordSize else cursor + (8 * wordSize - 1) * wordSize) % WORD_SIZE;
      var n1: seq<nat>, m1: seq<nat> :| a == n1 + m1 && IsTable(words[1..], wordSize, next, m1)
        && if even then n1 == [words[0]] else Names(words[0], cursor, wordSize, n1);
      var n2: seq<nat>, m2: seq<nat> :| b == n2 + m2 && IsTable(words[1..], wordSize, next, m2)
        && if even then n2 == [words[0]] else Names(words[0], cursor, wordSize, n2);
      if !even { NamesOnce(words[0], cursor, wordSize, n1, n2); }
      TableIsUnique(words[1..], wordSize, next, m1, m2);
    }
  }

  // ----- encoding, as a linker does it

  datatype Packed = Packed(bitmap: nat, rest: seq<nat>)

  /** The bitmap of the leading addresses among the `n` words from `address`, and the addresses left over. */
  function Pack(list: seq<nat>, address: nat, wordSize: nat, n: nat): (p: Packed)
    ensures |p.rest| <= |list|
    decreases n
  {
    if n == 0 then Packed(0, list)
    else if list != [] && list[0] == address then
      var p := Pack(list[1..], address + wordSize, wordSize, n - 1);
      Packed(1 + 2 * p.bitmap, p.rest)
    else
      var p := Pack(list, address + wordSize, wordSize, n - 1);
      Packed(2 * p.bitmap, p.rest)
  }

  lemma {:induction false} PackFits(list: seq<nat>, address: nat, wordSize: nat, n: nat)
    ensures Pack(list, address, wordSize, n).bitmap < Pow2(n)
    decreases n
  {
    if n > 0 {
      if list != [] && list[0] == address {
        PackFits(list[1..], address + wordSize, wordSize, n - 1);
      } else {
        PackFits(list, address + wordSize, wordSize, n - 1);
      }
    }
  }

  ghost predicate Encodable(list: seq<nat>, wordSize: nat)
    requires WordSize(wordSize)
  {
    && (forall i | 0 <= i < |list| :: list[i] % wordSize == 0 && list[i] < Pow2(8 * wordSize))
    && (forall i, j | 0 <= i < j < |list| :: list[i] < list[j])
  }

  predicate WordSize(wordSize: nat) {
    wordSize == 4 || wordSize == 8
  }

  /** Bitmaps as long as the next address is within the next one's reach, else an address word. */
  function Encode(list: seq<nat>, wordSize: nat): seq<nat>
    requires WordSize(wordSize)
    decreases |list|, 0, 0
  {
    if list == [] then [] else [list[0]] + EncodeMore(list[1..], list[0] + wordSize, wordSize)
  }

  function EncodeMore(list: seq<nat>, cursor: nat, wordSize: nat): seq<nat>
    requires WordSize(wordSize)
    decreases |list|, 1
  {
    var p := Pack(list, cursor, wordSize, PerBitmap(wordSize));
    if |p.rest| == |list| then Encode(list, wordSize)
    else [1 + 2 * p.bitmap] + EncodeMore(p.rest, cursor + PerBitmap(wordSize) * wordSize, wordSize)
  }

  // ----- decoding inverts encoding

  lemma PackNothing(list: seq<nat>, address: nat, wordSize: nat)
    ensures Pack(list, address, wordSize, 0) == Packed(0, list) && Unpack(0, address, wordSize, 0) == []
  {}

  lemma PackNext(list: seq<nat>, address: nat, wordSize: nat, n: nat)
    requires n > 0
    ensures var taken := list != [] && list[0] == address;
            var p := Pack(if taken then list[1..] else list, address + wordSize, wordSize, n - 1);
            Pack(list, address, wordSize, n) == Packed(2 * p.bitmap + (if taken then 1 else 0), p.rest)
  {}

  lemma UnpackNext(b: nat, on: bool, address: nat, wordSize: nat, n: nat)
    requires n > 0
    ensures Unpack(2 * b + (if on then 1 else 0), address, wordSize, n)
            == (if on then [address % WORD_SIZE] else []) + Unpack(b, address + wordSize, wordSize, n - 1)
  {
    hide Pow2, WORD_SIZE;
    var bitmap := 2 * b + if on then 1 else 0;
    assert bitmap / 2 == b && (bitmap % 2 == 1 <==> on);
  }

  lemma {:induction false} UnpackPack(list: seq<nat>, address: nat, wordSize: nat, n: nat)
    requires forall a | a in list :: a < WORD_SIZE
    ensures var p := Pack(list, address, wordSize, n);
            Unpack(p.bitmap, address, wordSize, n) + p.rest == list
            && (forall a | a in p.rest :: a in list)
    decreases n
  {
    hide Pow2, Pack, Unpack;
    if n == 0 {
      PackNothing(list, address, wordSize);
    } else {
      PackNext(list, address, wordSize, n);
      var taken := list != [] && list[0] == address;
      var p := Pack(if taken then list[1..] else list, address + wordSize, wordSize, n - 1);
      var u := Unpack(p.bitmap, address + wordSize, wordSize, n - 1);
      UnpackNext(p.bitmap, taken, address, wordSize, n);
      if taken {
        assert forall a | a in list[1..] :: a in list;
        UnpackPack(list[1..], address + wordSize, wordSize, n - 1);
        assert list[0] in list;
        SmallMod(list[0], WORD_SIZE);
        Regroup(list[0], u, p.rest, list[1..]);
        assert [list[0]] + list[1..] == list;
      } else {
        UnpackPack(list, address + wordSize, wordSize, n - 1);
        assert [] + u == u;
      }
    }
  }

  lemma Regroup(x: nat, u: seq<nat>, rest: seq<nat>, tail: seq<nat>)
    requires u + rest == tail
    ensures [x] + u + rest == [x] + tail
  {}

  /** The cursor a table keeps may wrap where the true one does not: what a bitmap names is the same. */
  lemma {:induction false} UnpackWraps(bitmap: nat, address: nat, wordSize: nat, n: nat)
    ensures Unpack(bitmap, address % WORD_SIZE, wordSize, n) == Unpack(bitmap, address, wordSize, n)
    decreases n
  {
    hide Pow2;
    if n > 0 {
      SumMod(address, 0);
      SumMod(address, wordSize);
      UnpackWraps(bitmap / 2, address % WORD_SIZE + wordSize, wordSize, n - 1);
      UnpackWraps(bitmap / 2, address + wordSize, wordSize, n - 1);
    }
  }

  lemma DecodeAddress(word: nat, more: seq<nat>, wordSize: nat, cursor: nat)
    requires wordSize > 0 && word % 2 == 0
    ensures Decode([word] + more, wordSize, cursor) == [word] + Decode(more, wordSize, Advance(word, wordSize))
  {
    hide Pow2, Unpack;
    assert ([word] + more)[1..] == more;
  }

  lemma DecodeBitmap(bitmap: nat, more: seq<nat>, wordSize: nat, cursor: nat)
    requires wordSize > 0
    ensures Decode([1 + 2 * bitmap] + more, wordSize, cursor)
            == Unpack(bitmap, cursor, wordSize, PerBitmap(wordSize))
               + Decode(more, wordSize, Advance(cursor, PerBitmap(wordSize) * wordSize))
  {
    hide Pow2, Unpack, PerBitmap;
    assert ([1 + 2 * bitmap] + more)[1..] == more;
  }

  lemma {:induction false} DecodeEncode(list: seq<nat>, wordSize: nat, cursor: nat)
    requires WordSize(wordSize) && forall a | a in list :: a % 2 == 0 && a < WORD_SIZE
    ensures Decode(Encode(list, wordSize), wordSize, cursor) == list
    decreases |list|, 0
  {
    hide Pow2, Pack, EncodeMore, Decode;
    if list == [] {
      DecodeNothing(wordSize, cursor);
    } else {
      assert list[0] in list && forall a | a in list[1..] :: a in list;
      DecodeAddress(list[0], EncodeMore(list[1..], list[0] + wordSize, wordSize), wordSize, cursor);
      DecodeMore(list[1..], list[0] + wordSize, wordSize);
      assert list == [list[0]] + list[1..];
    }
  }

  lemma DecodeNothing(wordSize: nat, cursor: nat)
    requires wordSize > 0
    ensures Decode([], wordSize, cursor) == []
  {}

  lemma {:induction false} DecodeMore(list: seq<nat>, cursor: nat, wordSize: nat)
    requires WordSize(wordSize) && forall a | a in list :: a % 2 == 0 && a < WORD_SIZE
    ensures Decode(EncodeMore(list, cursor, wordSize), wordSize, cursor % WORD_SIZE) == list
    decreases |list|, 1
  {
    hide Pow2, Pack, Unpack, Encode, Decode, PerBitmap;
    var n := PerBitmap(wordSize);
    var p := Pack(list, cursor, wordSize, n);
    if |p.rest| == |list| {
      DecodeEncode(list, wordSize, cursor % WORD_SIZE);
    } else {
      UnpackPack(list, cursor, wordSize, n);
      UnpackWraps(p.bitmap, cursor, wordSize, n);
      SumMod(cursor, n * wordSize);
      DecodeBitmap(p.bitmap, EncodeMore(p.rest, cursor + n * wordSize, wordSize), wordSize, cursor % WORD_SIZE);
      DecodeMore(p.rest, cursor + n * wordSize, wordSize);
    }
  }

  /** Decoding inverts encoding: any strictly increasing list of word-aligned addresses comes back in
      order, whatever the cursor was before the table. */
  lemma RoundTrip(list: seq<nat>, wordSize: nat)
    requires WordSize(wordSize) && Encodable(list, wordSize)
    ensures Decode(Encode(list, wordSize), wordSize, 0) == list
    ensures forall k | 0 <= k < |Encode(list, wordSize)| :: Encode(list, wordSize)[k] < Pow2(8 * wordSize)
  {
    hide Pow2, Encode, Decode;
    Pow2Monotone(8 * wordSize, 64);
    forall a | a in list ensures a % 2 == 0 && a < WORD_SIZE {
      var i :| 0 <= i < |list| && list[i] == a;
      assert list[i] % wordSize == 0 && list[i] < Pow2(8 * wordSize);
    }
    DecodeEncode(list, wordSize, 0);
    assert forall a | a in list :: a < Pow2(8 * wordSize);
    EncodeFits(list, wordSize);
    assert forall k | 0 <= k < |Encode(list, wordSize)| :: Encode(list, wordSize)[k] in Encode(list, wordSize);
  }

  /** Every encoded word fits its width. */
  lemma {:induction false} EncodeFits(list: seq<nat>, wordSize: nat)
    requires WordSize(wordSize) && forall a | a in list :: a < Pow2(8 * wordSize)
    ensures forall x | x in Encode(list, wordSize) :: x < Pow2(8 * wordSize)
    decreases |list|, 0
  {
    hide Pow2, Pack, EncodeMore;
    if list != [] {
      assert list[0] in list && forall a | a in list[1..] :: a in list;
      var more := EncodeMore(list[1..], list[0] + wordSize, wordSize);
      MoreFits(list[1..], list[0] + wordSize, wordSize);
      assert forall x | x in [list[0]] + more :: x == list[0] || x in more;
    }
  }

  lemma {:induction false} MoreFits(list: seq<nat>, cursor: nat, wordSize: nat)
    requires WordSize(wordSize) && forall a | a in list :: a < Pow2(8 * wordSize)
    ensures forall x | x in EncodeMore(list, cursor, wordSize) :: x < Pow2(8 * wordSize)
    decreases |list|, 1
  {
    hide Pow2, Pack, Encode;
    var n := PerBitmap(wordSize);
    var p := Pack(list, cursor, wordSize, n);
    if |p.rest| == |list| {
      EncodeFits(list, wordSize);
    } else {
      RestOf(list, cursor, wordSize, n);
      PackFits(list, cursor, wordSize, n);
      DoublePow(n);
      MoreFits(p.rest, cursor + n * wordSize, wordSize);
    }
  }

  lemma DoublePow(n: nat)
    ensures Pow2(n + 1) == 2 * Pow2(n)
  {}

  lemma {:induction false} RestOf(list: seq<nat>, address: nat, wordSize: nat, n: nat)
    ensures forall a | a in Pack(list, address, wordSize, n).rest :: a in list
    decreases n
  {
    if n > 0 {
      if list != [] && list[0] == address {
        RestOf(list[1..], address + wordSize, wordSize, n - 1);
        assert forall a | a in list[1..] :: a in list;
      } else {
        RestOf(list, address + wordSize, wordSize, n - 1);
      }
    }
  }

  // ----- the table in the file

  /** A relative relocation whose addend is what the slot already holds. */
  datatype Relocation = Relocation(va: nat, width: nat)

  function Relocations(addresses: seq<nat>, width: nat): (rs: seq<Relocation>)
    ensures |rs| == |addresses| && forall i | 0 <= i < |rs| :: rs[i].va == addresses[i] && rs[i].width == width
  {
    seq(|addresses|, i requires 0 <= i < |addresses| => Relocation(addresses[i], width))
  }

  /** The words before the first one the file does not hold. */
  function Readable(words: seq<Option<nat>>): (held: seq<nat>)
    ensures |held| <= |words| && forall i | 0 <= i < |held| :: words[i] == Some(held[i])
    ensures |held| < |words| ==> words[|held|].None?
  {
    if words == [] || words[0].None? then [] else [words[0].value] + Readable(words[1..])
  }

  class Loader {
    var relocations: seq<Relocation>

    constructor ()
      ensures relocations == []
    {
      relocations := [];
    }

    /** Appends one relocation for each address the table names, in order, up to where the file ends. What the
        table names is said by `IsTable`, and there is one such list. */
    method ParseRelrTable(words: seq<Option<nat>>, wordSize: nat)
      requires WordSize(wordSize)
      modifies this
      ensures relocations == old(relocations) + Relocations(Decode(Readable(words), wordSize, 0), wordSize)
      ensures forall addresses | IsTable(Readable(words), wordSize, 0, addresses) ::
                relocations == old(relocations) + Relocations(addresses, wordSize)
      ensures IsTable(Readable(words), wordSize, 0, Decode(Readable(words), wordSize, 0))
    {
      hide Pow2, Unpack, Advance, Decode, Readable, Relocations, PerBitmap, IsTable;
      OneTable(Readable(words), wordSize);
      var cursor: nat := 0;
      ghost var addresses: seq<nat> := [];
      assert words[0..] == words;
      RelocationsSplit([], [], wordSize);
      for position := 0 to |words|
        invariant relocations == old(relocations) + Relocations(addresses, wordSize)
        invariant addresses + Decode(Readable(words[position..]), wordSize, cursor)
                  == Decode(Readable(words), wordSize, 0)
      {
        ReadableNext(words, position);
        if words[position].None? {
          DecodeNothing(wordSize, cursor);
          assert addresses + [] == addresses;
          return;
        }
        var word := words[position].value;
        ghost var rest := Readable(words[position + 1..]);
        ghost var named: seq<nat>;
        if word % 2 == 0 {
          DecodeAddress(word, rest, wordSize, cursor);
          relocations := relocations + [Relocation(word, wordSize)];
          named := [word];
          cursor := Advance(word, wordSize);
        } else {
          OddWord(word);
          DecodeBitmap(word / 2, rest, wordSize, cursor);
          AppendBitmap(word / 2, cursor, wordSize);
          named := Unpack(word / 2, cursor, wordSize, PerBitmap(wordSize));
          cursor := Advance(cursor, PerBitmap(wordSize) * wordSize);
        }
        RelocationsSplit(addresses, named, wordSize);
        Joined(addresses, named, Decode(rest, wordSize, cursor));
        addresses := addresses + named;
      }
      ReadableEnd(words);
      DecodeNothing(wordSize, cursor);
      assert addresses + [] == addresses;
    }

    lemma OneTable(words: seq<nat>, wordSize: nat)
      requires wordSize > 0
      ensures IsTable(words, wordSize, 0, Decode(words, wordSize, 0))
      ensures forall addresses | IsTable(words, wordSize, 0, addresses) :: addresses == Decode(words, wordSize, 0)
    {
      hide IsTable, Decode;
      DecodeIsTable(words, wordSize, 0);
      forall addresses | IsTable(words, wordSize, 0, addresses) ensures addresses == Decode(words, wordSize, 0) {
        TableIsUnique(words, wordSize, 0, addresses, Decode(words, wordSize, 0));
      }
    }

    /** Appends one relocation for each address that the bits of an odd word, halved, name. */
    method AppendBitmap(bitmap: nat, cursor: nat, wordSize: nat)
      requires wordSize > 0
      modifies this
      ensures relocations
              == old(relocations) + Relocations(Unpack(bitmap, cursor, wordSize, PerBitmap(wordSize)), wordSize)
      ensures Names(2 * bitmap + 1, cursor, wordSize, Unpack(bitmap, cursor, wordSize, PerBitmap(wordSize)))
    {
      hide Pow2, Relocations, Unpack, ShiftRight, Advance, Names;
      assert (2 * bitmap + 1) / 2 == bitmap;
      UnpackNames(2 * bitmap + 1, cursor, wordSize);
      var n := PerBitmap(wordSize);
      var address: nat := cursor;
      ghost var addresses: seq<nat> := [];
      Shifted(bitmap);
      RelocationsSplit([], [], wordSize);
      for bit := 0 to n
        invariant relocations == old(relocations) + Relocations(addresses, wordSize)
        invariant addresses + Unpack(ShiftRight(bitmap, bit), address, wordSize, n - bit)
                  == Unpack(bitmap, cursor, wordSize, n)
      {
        ghost var named: seq<nat> := [];
        BitNext(bitmap, bit, address, wordSize, n - bit);
        if ShiftRight(bitmap, bit) % 2 == 1 {
          named := [Advance(address, 0)];
          relocations := relocations + [Relocation(Advance(address, 0), wordSize)];
        }
        RelocationsSplit(addresses, named, wordSize);
        address := Advance(address, wordSize);
        Joined(addresses, named, Unpack(ShiftRight(bitmap, bit + 1), address, wordSize, n - bit - 1));
        addresses := addresses + named;
      }
      UnpackNothing(ShiftRight(bitmap, n), address, wordSize);
      assert addresses + [] == addresses;
    }
  }

  lemma Joined(a: seq<nat>, b: seq<nat>, c: seq<nat>)
    ensures (a + b) + c == a + (b + c)
  {}

  lemma OddWord(word: nat)
    requires word % 2 != 0
    ensures 1 + 2 * (word / 2) == word
  {}

  lemma UnpackNothing(bitmap: nat, address: nat, wordSize: nat)
    ensures Unpack(bitmap, address, wordSize, 0) == []
  {}

  function ShiftRight(bitmap: nat, bit: nat): nat {
    Quotient(bitmap, Pow2(bit))
  }

  /** What the bits from `bit` on name: this address if the bit is set, then what the later bits name. */
  lemma BitNext(bitmap: nat, bit: nat, address: nat, wordSize: nat, n: nat)
    requires n > 0
    ensures Unpack(ShiftRight(bitmap, bit), address, wordSize, n)
            == (if ShiftRight(bitmap, bit) % 2 == 1 then [Advance(address, 0)] else [])
               + Unpack(ShiftRight(bitmap, bit + 1), Advance(address, wordSize), wordSize, n - 1)
  {
    hide Pow2;
    ShiftedAgain(bitmap, bit);
    UnpackWraps(ShiftRight(bitmap, bit + 1), address + wordSize, wordSize, n - 1);
  }

  lemma ReadableEnd(words: seq<Option<nat>>)
    ensures Readable(words[|words|..]) == []
  {}

  lemma Shifted(bitmap: nat)
    ensures ShiftRight(bitmap, 0) == bitmap
  {}

  lemma ShiftedAgain(bitmap: nat, bit: nat)
    ensures bitmap / Pow2(bit) / 2 == bitmap / Pow2(bit + 1)
  {
    var p := Pow2(bit);
    var q, r := bitmap / p / 2, bitmap / p % 2;
    var low := bitmap % p;
    assert bitmap / p == 2 * q + r;
    assert bitmap == p * (2 * q + r) + low;
    Spread(p, q, r, low);
    ModUnique(bitmap, 2 * p, q, r * p + low);
  }

  lemma Spread(p: nat, q: nat, r: nat, low: nat)
    requires r <= 1 && low < p
    ensures p * (2 * q + r) + low == q * (2 * p) + (r * p + low)
    ensures r * p + low < 2 * p
  {
    if r == 1 { assert r * p == p; } else { assert r * p == 0; }
  }

  lemma RelocationsSplit(a: seq<nat>, b: seq<nat>, width: nat)
    ensures Relocations(a + b, width) == Relocations(a, width) + Relocations(b, width)
    ensures Relocations([], width) == []
    ensures |b| == 1 ==> Relocations(b, width) == [Relocation(b[0], width)]
  {}

  lemma ReadableNext(words: seq<Option<nat>>, i: nat)
    requires i < |words|
    ensures Readable(words[i..]) == if words[i].None? then [] else [words[i].value] + Readable(words[i + 1..])
  {
    assert words[i..][1..] == words[i + 1..];
  }
}
