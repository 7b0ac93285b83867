/**
 * The firmware's fixed-width integers, as bounded integers, and the one
 * bitwise operation the emulator needs: the AND of the one-time-programmable
 * write rule, defined bit by bit from the lowest bit up.
 */
module Uint {

  newtype uint8 = x: int | 0 <= x < 0x100
  newtype uint16 = x: int | 0 <= x < 0x1_0000

  /** Bitwise AND: bit k of the result is set exactly when bit k of both operands is. */
  function And(a: uint8, b: uint8): (r: uint8)
    ensures r <= a && r <= b
    decreases a
  {
    if a == 0 || b == 0 then 0
    else (2 * (And(a / 2, b / 2) as int) + (if a % 2 == 1 && b % 2 == 1 then 1 else 0)) as uint8
  }

  /** The lowest bit of an AND, and what is left above it. */
  lemma AndBits(a: uint8, b: uint8)
    ensures And(a, b) % 2 == (if a % 2 == 1 && b % 2 == 1 then 1 else 0)
    ensures And(a, b) / 2 == And(a / 2, b / 2)
  {
  }

  /** Bit `k` of `x`, counting from the lowest. */
  function Bit(x: uint8, k: nat): int
    decreases k
  {
    if k == 0 then (x % 2) as int else Bit(x / 2, k - 1)
  }

  /** `And` is the bitwise AND: each bit of the result is the AND of the operands' bits. */
  lemma {:induction false} AndIsBitwise(a: uint8, b: uint8, k: nat)
    ensures Bit(And(a, b), k) == if Bit(a, k) == 1 && Bit(b, k) == 1 then 1 else 0
    decreases k
  {
    AndBits(a, b);
    if k > 0 {
      AndIsBitwise(a / 2, b / 2, k - 1);
    }
  }

  lemma {:induction false} AndCommutes(a: uint8, b: uint8)
    ensures And(a, b) == And(b, a)
    decreases a
  {
    if a != 0 && b != 0 {
      AndCommutes(a / 2, b / 2);
    }
  }

  lemma {:induction false} AndIdempotent(a: uint8)
    ensures And(a, a) == a
    decreases a
  {
    if a != 0 {
      AndIdempotent(a / 2);
    }
  }

  lemma {:induction false} AndAssociates(a: uint8, b: uint8, c: uint8)
    ensures And(And(a, b), c) == And(a, And(b, c))
    decreases a
  {
    if a != 0 && b != 0 && c != 0 {
      AndAssociates(a / 2, b / 2, c / 2);
      AndBits(a, b);
      AndBits(b, c);
    }
  }

  /** 0xFF keeps every bit. */
  lemma AndAllOnes(a: uint8)
    ensures And(a, 0xFF) == a && And(0xFF, a) == a
  {
    AndOnes(a, 0xFF);
    AndCommutes(a, 0xFF);
  }

  /** A number whose bits are all ones: 0, 1, 3, 7, ... */
  predicate AllOnes(m: uint8)
    decreases m
  {
    m == 0 || (m % 2 == 1 && AllOnes(m / 2))
  }

  lemma {:induction false} AndOnes(a: uint8, m: uint8)
    requires AllOnes(m) && a <= m
    ensures And(a, m) == a
    decreases a
  {
    if a != 0 {
      AndOnes(a / 2, m / 2);
    }
  }

  /** An AND never sets a bit its first operand lacks: `And(a, m)` is a sub-mask of `a`. */
  lemma SubMask(a: uint8, m: uint8)
    ensures And(And(a, m), a) == And(a, m)
  {
    AndCommutes(And(a, m), a);
    AndAssociates(a, a, m);
    AndIdempotent(a);
  }

  /** ANDing a value that already holds all bits of `b` with `b` again changes nothing. */
  lemma AndAbsorbs(a: uint8, b: uint8)
    ensures And(And(a, b), b) == And(a, b)
  {
    AndAssociates(a, b, b);
    AndIdempotent(b);
  }
}
