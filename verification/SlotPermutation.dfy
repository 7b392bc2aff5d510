/** The frozen 16-bit permutation behind scrambled aliases (internal/identity/alias.go),
    on natural numbers below 2^16. */
module SlotPermutation {
  import opened Basics

  const SLOTS: nat := 65536

  /** Bitwise exclusive or. */
  function Xor(a: nat, b: nat): nat
    decreases a + b
  {
    if a == 0 && b == 0 then 0 else (a % 2 + b % 2) % 2 + 2 * Xor(a / 2, b / 2)
  }

  function ShiftRight(a: nat, k: nat): nat {
    if k == 0 then a else ShiftRight(a / 2, k - 1)
  }

  /** slot ^= slot >> k */
  function XorShift(slot: nat, k: nat): nat {
    Xor(slot, ShiftRight(slot, k))
  }

  /** slot *= factor, in uint16 */
  function Multiply(slot: nat, factor: nat): nat {
    (slot * factor) % SLOTS
  }

  function Scramble(slot: nat): nat {
    XorShift(Multiply(XorShift(Multiply(XorShift(slot, 7), 0x9e37), 9), 0x85eb), 8)
  }

  lemma Parts(bit: nat, half: nat)
    requires bit < 2
    ensures (bit + 2 * half) % 2 == bit && (bit + 2 * half) / 2 == half
  {
  }

  lemma {:induction false} XorParts(a: nat, b: nat)
    ensures Xor(a, b) % 2 == (if a % 2 == b % 2 then 0 else 1)
    ensures Xor(a, b) / 2 == Xor(a / 2, b / 2)
  {
    Parts((a % 2 + b % 2) % 2, Xor(a / 2, b / 2));
  }

  lemma {:induction false} XorCancel(a: nat, b: nat, c: nat, d: nat)
    requires Xor(a, b) == Xor(c, d)
    ensures Xor(a, c) == Xor(b, d)
    decreases a + b + c + d
  {
    if a + b + c + d > 0 {
      XorParts(a, b);
      XorParts(c, d);
      XorCancel(a / 2, b / 2, c / 2, d / 2);
      XorParts(a, c);
      XorParts(b, d);
    }
  }

  lemma {:induction false} XorZero(a: nat, b: nat)
    requires Xor(a, b) == 0
    ensures a == b
    decreases a + b
  {
    if a + b > 0 { XorZero(a / 2, b / 2); }
  }

  lemma {:induction false} ShiftXor(a: nat, b: nat, k: nat)
    ensures ShiftRight(Xor(a, b), k) == Xor(ShiftRight(a, k), ShiftRight(b, k))
    decreases k
  {
    if k > 0 {
      XorParts(a, b);
      ShiftXor(a / 2, b / 2, k - 1);
    }
  }

  lemma {:induction false} ShiftShrinks(a: nat, k: nat)
    ensures ShiftRight(a, k) <= a
    ensures a > 0 && k > 0 ==> ShiftRight(a, k) < a
  {
    if k > 0 { ShiftShrinks(a / 2, k - 1); }
  }

  /** x ^ (x >> k) determines x: the difference of two candidates would equal its own
      shift. */
  lemma XorShiftInjective(x: nat, y: nat, k: nat)
    requires k > 0 && XorShift(x, k) == XorShift(y, k)
    ensures x == y
  {
    XorCancel(x, ShiftRight(x, k), y, ShiftRight(y, k));
    ShiftXor(x, y, k);
    ShiftShrinks(Xor(x, y), k);
    XorZero(x, y);
  }

  lemma {:induction false} XorBelow(a: nat, b: nat, k: nat)
    requires a < Pow2(k) && b < Pow2(k)
    ensures Xor(a, b) < Pow2(k)
    decreases k
  {
    if k > 0 {
      XorBelow(a / 2, b / 2, k - 1);
    }
  }

  lemma Distribute(p: int, q: int, inverse: int)
    ensures (p - SLOTS * q) * inverse == p * inverse - SLOTS * (q * inverse)
  {
    assert (SLOTS * q) * inverse == SLOTS * (q * inverse);
  }

  lemma Regroup(x: int, factor: int, inverse: int, excess: int)
    requires factor * inverse == 1 + SLOTS * excess
    ensures x * factor * inverse == x + SLOTS * (x * excess)
  {
    assert x * factor * inverse == x * (factor * inverse);
    assert x * (1 + SLOTS * excess) == x + x * (SLOTS * excess);
    assert x * (SLOTS * excess) == SLOTS * (x * excess);
  }

  lemma RemainderOf(x: nat, m: int)
    requires x < SLOTS
    ensures (x + SLOTS * m) % SLOTS == x
  {
  }

  /** Multiplying by an odd constant is undone by its inverse modulo 2^16. */
  lemma MultiplyInverse(x: nat, factor: nat, inverse: nat, excess: nat)
    requires x < SLOTS && factor * inverse == 1 + SLOTS * excess
    ensures (Multiply(x, factor) * inverse) % SLOTS == x
  {
    var q := (x * factor) / SLOTS;
    var p := x * factor;
    assert Multiply(x, factor) == p - SLOTS * q;
    Distribute(p, q, inverse);
    Regroup(x, factor, inverse, excess);
    RemainderOf(x, x * excess - q * inverse);
  }

  lemma MultiplyInjective(x: nat, y: nat, factor: nat, inverse: nat, excess: nat)
    requires x < SLOTS && y < SLOTS && factor * inverse == 1 + SLOTS * excess
    requires Multiply(x, factor) == Multiply(y, factor)
    ensures x == y
  {
    MultiplyInverse(x, factor, inverse, excess);
    MultiplyInverse(y, factor, inverse, excess);
  }

  lemma XorShiftBelow(slot: nat, k: nat)
    requires slot < SLOTS
    ensures XorShift(slot, k) < SLOTS
  {
    ShiftShrinks(slot, k);
    assert Pow2(4) == 16 && Pow2(8) == 256 && Pow2(12) == 4096 && Pow2(16) == SLOTS;
    XorBelow(slot, ShiftRight(slot, k), 16);
  }

  /** scrambledAliasSlot is a permutation of the 16-bit slots: it stays below 2^16 and
      never maps two slots to one. */
  lemma ScrambleIsPermutation(x: nat, y: nat)
    requires x < SLOTS && y < SLOTS
    ensures Scramble(x) < SLOTS
    ensures Scramble(x) == Scramble(y) ==> x == y
  {
    XorShiftBelow(x, 7);
    XorShiftBelow(y, 7);
    var x1, y1 := Multiply(XorShift(x, 7), 0x9e37), Multiply(XorShift(y, 7), 0x9e37);
    XorShiftBelow(x1, 9);
    XorShiftBelow(y1, 9);
    var x2, y2 := Multiply(XorShift(x1, 9), 0x85eb), Multiply(XorShift(y1, 9), 0x85eb);
    XorShiftBelow(x2, 8);
    if Scramble(x) == Scramble(y) {
      XorShiftInjective(x2, y2, 8);
      MultiplyInjective(XorShift(x1, 9), XorShift(y1, 9), 0x85eb, 0x7ac3, 0x4038);
      XorShiftInjective(x1, y1, 9);
      MultiplyInjective(XorShift(x, 7), XorShift(y, 7), 0x9e37, 0x7787, 0x49df);
      XorShiftInjective(x, y, 7);
    }
  }
}
