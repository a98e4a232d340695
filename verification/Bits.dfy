/** Fixed-width unsigned arithmetic on naturals: masks, bitwise operators and their bounds. */
module Bits {

  function Pow2(w: nat): (p: nat)
    ensures p >= 1
  {
    if w == 0 then 1 else 2 * Pow2(w - 1)
  }

  function Quotient(a: nat, d: nat): nat
    requires d > 0
  {
    a / d
  }

  const WORD: nat := 64

  /** How many values a machine word has. */
  const WORD_SIZE: nat := Pow2(WORD)

  /** The low `w` bits set; a width of 64 or more is a whole word. */
  function LowMask(w: nat): nat {
    Pow2(if w >= WORD then WORD else w) - 1
  }

  /** The number of bits a value needs; 0 for 0. */
  function SignificantBits(x: nat): nat {
    if x == 0 then 0 else 1 + SignificantBits(x / 2)
  }

  lemma {:induction false} Pow2Monotone(a: nat, b: nat)
    requires a <= b
    ensures Pow2(a) <= Pow2(b)
    decreases b - a
  {
    if a < b { Pow2Monotone(a + 1, b); }
  }

  lemma {:induction false} Pow2Add(a: nat, b: nat)
    ensures Pow2(a + b) == Pow2(a) * Pow2(b)
  {
    if a > 0 {
      Pow2Add(a - 1, b);
      assert Pow2(a + b) == 2 * Pow2(a - 1 + b);
    }
  }

  lemma {:induction false} SignificantBitsBound(x: nat)
    ensures x < Pow2(SignificantBits(x))
  {
    if x > 0 { SignificantBitsBound(x / 2); }
  }

  lemma {:induction false} SignificantBitsWithin(x: nat, w: nat)
    requires x < Pow2(w)
    ensures SignificantBits(x) <= w
  {
    if x > 0 {
      assert x / 2 < Pow2(w - 1);
      SignificantBitsWithin(x / 2, w - 1);
    }
  }

  datatype BitOp = And | Or | Xor

  function Bit(op: BitOp, a: bool, b: bool): bool {
    match op
    case And => a && b
    case Or => a || b
    case Xor => a != b
  }

  /** A bitwise operator, bit by bit from the low end. */
  function Bitwise(op: BitOp, a: nat, b: nat): nat
    decreases a + b
  {
    if a == 0 && b == 0 then 0 else
    (if Bit(op, a % 2 == 1, b % 2 == 1) then 1 else 0) + 2 * Bitwise(op, a / 2, b / 2)
  }

  lemma {:induction false} BitwiseWithin(op: BitOp, a: nat, b: nat, w: nat)
    requires a < Pow2(w) && b < Pow2(w)
    ensures Bitwise(op, a, b) < Pow2(w)
    decreases a + b
  {
    if a != 0 || b != 0 {
      BitwiseWithin(op, a / 2, b / 2, w - 1);
    }
  }

  lemma {:induction false} AndBelow(a: nat, b: nat)
    ensures Bitwise(And, a, b) <= a && Bitwise(And, a, b) <= b
    decreases a + b
  {
    if a != 0 || b != 0 {
      AndBelow(a / 2, b / 2);
    }
  }

  lemma {:induction false} BitwiseCommutes(op: BitOp, a: nat, b: nat)
    ensures Bitwise(op, a, b) == Bitwise(op, b, a)
    decreases a + b
  {
    if a != 0 || b != 0 {
      BitwiseCommutes(op, a / 2, b / 2);
    }
  }

  lemma {:induction false} OrZero(a: nat)
    ensures Bitwise(Or, a, 0) == a && Bitwise(Or, 0, a) == a
  {
    if a != 0 {
      OrZero(a / 2);
    }
  }

  lemma BitwiseParts(op: BitOp, a: nat, b: nat)
    ensures Bitwise(op, a, b) / 2 == Bitwise(op, a / 2, b / 2)
    ensures Bitwise(op, a, b) % 2 == if Bit(op, a % 2 == 1, b % 2 == 1) then 1 else 0
  {}

  lemma {:induction false} OrAssociates(a: nat, b: nat, c: nat)
    ensures Bitwise(Or, Bitwise(Or, a, b), c) == Bitwise(Or, a, Bitwise(Or, b, c))
    decreases a + b + c
  {
    if a + b + c == 0 {
    } else {
      OrAssociates(a / 2, b / 2, c / 2);
      BitwiseParts(Or, a, b);
      BitwiseParts(Or, b, c);
      BitwiseParts(Or, Bitwise(Or, a, b), c);
      BitwiseParts(Or, a, Bitwise(Or, b, c));
    }
  }

  /** Bits can only join: a value below `2^k` ORed with a literal stays below the full mask ORed with it. */
  lemma {:induction false} OrBelowMask(a: nat, k: nat, literal: nat)
    requires a < Pow2(k)
    ensures Bitwise(Or, a, literal) <= Bitwise(Or, Pow2(k) - 1, literal)
    decreases k
  {
    if k == 0 {
    } else {
      OrBelowMask(a / 2, k - 1, literal / 2);
      assert (Pow2(k) - 1) / 2 == Pow2(k - 1) - 1 && (Pow2(k) - 1) % 2 == 1;
      BitwiseParts(Or, a, literal);
      BitwiseParts(Or, Pow2(k) - 1, literal);
    }
  }

  /** The low bits of a bitwise result are the result on the low bits. */
  lemma {:induction false} BitwiseMod(op: BitOp, a: nat, b: nat, w: nat)
    ensures Bitwise(op, a, b) % Pow2(w) == Bitwise(op, a % Pow2(w), b % Pow2(w)) % Pow2(w)
    ensures Bitwise(op, a % Pow2(w), b % Pow2(w)) < Pow2(w)
    decreases w
  {
    BitwiseWithin(op, a % Pow2(w), b % Pow2(w), w);
    if w > 0 {
      BitwiseMod(op, a / 2, b / 2, w - 1);
      ModHalf(a, w);
      ModHalf(b, w);
      ModHalf(Bitwise(op, a, b), w);
      BitwiseParts(op, a, b);
      BitwiseParts(op, a % Pow2(w), b % Pow2(w));
      ModHalf(Bitwise(op, a % Pow2(w), b % Pow2(w)), w);
      HalvesEqual(Bitwise(op, a, b) % Pow2(w), Bitwise(op, a % Pow2(w), b % Pow2(w)) % Pow2(w));
    }
  }

  lemma HalvesEqual(a: nat, b: nat)
    requires a / 2 == b / 2 && a % 2 == b % 2
    ensures a == b
  {}

  lemma ModHalf(a: nat, w: nat)
    requires w > 0
    ensures (a % Pow2(w)) / 2 == (a / 2) % Pow2(w - 1) && (a % Pow2(w)) % 2 == a % 2
  {
    var p := Pow2(w - 1);
    var q, r := (a / 2) / p, (a / 2) % p;
    assert a == 2 * (q * p + r) + a % 2;
    assert a == q * (2 * p) + (2 * r + a % 2);
    ModUnique(a, 2 * p, q, 2 * r + a % 2);
  }

  lemma {:induction false} AtLeastOnce(d: nat, m: nat)
    requires d >= 1
    ensures d * m >= m
  {
    assert d * m == (d - 1) * m + m;
  }

  lemma QuotientOrder(m: nat, q: int, r: int, q': int, r': int)
    requires m > 0 && q * m + r == q' * m + r' && 0 <= r < m && 0 <= r' < m
    ensures q <= q'
  {
    assert (q - q') * m == q * m - q' * m;
    if q > q' {
      AtLeastOnce(q - q', m);
    }
  }

  lemma ModUnique(a: int, m: nat, q: int, r: int)
    requires m > 0 && a == q * m + r && 0 <= r < m
    ensures a % m == r && a / m == q
  {
    var q', r' := a / m, a % m;
    assert a == q' * m + r';
    QuotientOrder(m, q, r, q', r');
    QuotientOrder(m, q', r', q, r);
  }

  lemma ModAddMultiple(a: int, m: nat, k: int)
    requires m > 0
    ensures (a + k * m) % m == a % m
  {
    ModUnique(a + k * m, m, a / m + k, a % m);
  }

  lemma SmallMod(x: nat, m: nat)
    requires x < m
    ensures x % m == x
  {}

  lemma ModBelow(x: nat, m: nat)
    requires m > 0
    ensures x % m <= x
  {
    if x < m { SmallMod(x, m); }
  }

  lemma SumMod(a: int, b: int)
    ensures (a % WORD_SIZE + b) % WORD_SIZE == (a + b) % WORD_SIZE
  {
    hide Pow2;
    assert a == WORD_SIZE * (a / WORD_SIZE) + a % WORD_SIZE;
    ModAddMultiple(a % WORD_SIZE + b, WORD_SIZE, a / WORD_SIZE);
  }
}
