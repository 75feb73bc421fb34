/**
 * Bit-level arithmetic on unbounded integers, the substrate for the 64-bit
 * bitboards of the FEN decoder and for the JavaScript number and BigInt
 * operators it is written with.
 *
 * A bitboard is a natural number; bit k is `Bit(b, k)`. Negative integers
 * are read in two's complement (`IntBit`), as BigInt's bitwise operators
 * read them.
 */
module Bitboards {

  function Pow2(n: nat): (r: nat)
    ensures r >= 1
  {
    if n == 0 then 1 else 2 * Pow2(n - 1)
  }

  /** Bit k of b, counting from the least significant bit. */
  predicate Bit(b: nat, k: nat)
  {
    if k == 0 then b % 2 == 1 else Bit(b / 2, k - 1)
  }

  /** Bit k of the infinite two's complement form of a, as BigInt sees it. */
  predicate IntBit(a: int, k: nat)
  {
    if a >= 0 then Bit(a, k) else !Bit(-1 - a, k)
  }

  lemma BitShiftDown(n: nat)
    ensures forall k: nat :: Bit(n, k + 1) == Bit(n / 2, k)
  {
  }

  lemma {:induction false} ZeroBit(k: nat)
    ensures !Bit(0, k)
  {
    if k > 0 { ZeroBit(k - 1); }
  }

  lemma ZeroHasNoBits()
    ensures forall k: nat :: !Bit(0, k)
  {
    forall k: nat ensures !Bit(0, k) { ZeroBit(k); }
  }

  /** A natural number is determined by its bits. */
  lemma {:induction false} BitsDetermine(a: nat, b: nat)
    requires forall k: nat :: Bit(a, k) == Bit(b, k)
    ensures a == b
    decreases a + b
  {
    assert Bit(a, 0) == Bit(b, 0);
    if a != 0 || b != 0 {
      forall k: nat ensures Bit(a / 2, k) == Bit(b / 2, k) {
        assert Bit(a, k + 1) == Bit(b, k + 1);
      }
      BitsDetermine(a / 2, b / 2);
    }
  }

  /** A number below 2^m has no bit at or above m. */
  lemma {:induction false} HighBitsClear(b: nat, m: nat, k: nat)
    requires b < Pow2(m) && m <= k
    ensures !Bit(b, k)
  {
    if m == 0 {
      assert b == 0;
      ZeroBit(k);
    } else {
      HighBitsClear(b / 2, m - 1, k - 1);
    }
  }

  /** Bitwise OR of two naturals. */
  function Or(a: nat, b: nat): (r: nat)
    ensures forall k: nat :: Bit(r, k) <==> Bit(a, k) || Bit(b, k)
    decreases a + b
  {
    if a == 0 then ZeroHasNoBits(); b
    else if b == 0 then ZeroHasNoBits(); a
    else
      var h := Or(a / 2, b / 2);
      var r := 2 * h + (if a % 2 == 1 || b % 2 == 1 then 1 else 0);
      assert r / 2 == h;
      BitShiftDown(r); BitShiftDown(a); BitShiftDown(b);
      r
  }

  /** Bitwise AND of two naturals. */
  function And(a: nat, b: nat): (r: nat)
    ensures forall k: nat :: Bit(r, k) <==> Bit(a, k) && Bit(b, k)
    decreases a
  {
    if a == 0 then ZeroHasNoBits(); 0
    else
      var h := And(a / 2, b / 2);
      var r := 2 * h + (if a % 2 == 1 && b % 2 == 1 then 1 else 0);
      assert r / 2 == h;
      BitShiftDown(r); BitShiftDown(a); BitShiftDown(b);
      r
  }

  /** The bits of a that are clear in b (`a & ~b`). */
  function AndNot(a: nat, b: nat): (r: nat)
    ensures forall k: nat :: Bit(r, k) <==> Bit(a, k) && !Bit(b, k)
    decreases a
  {
    if a == 0 then ZeroHasNoBits(); 0
    else
      var h := AndNot(a / 2, b / 2);
      var r := 2 * h + (if a % 2 == 1 && b % 2 == 0 then 1 else 0);
      assert r / 2 == h;
      BitShiftDown(r); BitShiftDown(a); BitShiftDown(b);
      r
  }

  /**
   * BigInt's `|`: the OR of two integers in infinite two's complement.
   * Non-negative operands give a non-negative result.
   */
  function BigIntOr(a: int, b: int): (r: int)
    ensures forall k: nat :: IntBit(r, k) <==> IntBit(a, k) || IntBit(b, k)
    ensures a >= 0 && b >= 0 <==> r >= 0
  {
    if a >= 0 && b >= 0 then Or(a, b)
    else if a < 0 && b < 0 then -1 - And(-1 - a, -1 - b)
    else if a < 0 then -1 - AndNot(-1 - a, b)
    else -1 - AndNot(-1 - b, a)
  }

  /** OR of two numbers below 2^m stays below 2^m. */
  lemma {:induction false} OrBound(a: nat, b: nat, m: nat)
    requires a < Pow2(m) && b < Pow2(m)
    ensures Or(a, b) < Pow2(m)
  {
    var r := Or(a, b);
    var t := Low(r, m);
    forall k: nat ensures Bit(t, k) == Bit(r, k) {
      if m <= k {
        HighBitsClear(a, m, k);
        HighBitsClear(b, m, k);
      }
    }
    BitsDetermine(t, r);
  }

  /** The low m bits of y: y modulo 2^m. */
  function Low(y: nat, m: nat): (r: nat)
    ensures r < Pow2(m)
    ensures forall k: nat :: Bit(r, k) <==> k < m && Bit(y, k)
  {
    if m == 0 then ZeroHasNoBits(); 0
    else
      var h := Low(y / 2, m - 1);
      var r := 2 * h + y % 2;
      assert r / 2 == h;
      BitShiftDown(r); BitShiftDown(y);
      r
  }

  /** Unbounded left shift: x times 2^n. */
  function ShiftLeft(x: nat, n: nat): (r: nat)
    ensures forall k: nat :: Bit(r, k) <==> n <= k && Bit(x, k - n)
  {
    if n == 0 then x
    else
      var h := ShiftLeft(x, n - 1);
      var r := 2 * h;
      assert r / 2 == h;
      BitShiftDown(r);
      r
  }

  /**
   * Left shift of an unsigned 64-bit word: bits moved past position 63 are
   * lost, and a shift by 64 or more gives 0.
   */
  function Shl64(x: nat, n: nat): (r: nat)
    ensures r < Pow2(64)
    ensures forall k: nat :: Bit(r, k) <==> n <= k < 64 && Bit(x, k - n)
  {
    Low(ShiftLeft(x, n), 64)
  }
}
