/**
 Python's integer bit operators, as the emulator and the ALU-ROM builder use
 them. Python integers are unbounded and `&` acts on their (infinite) two's
 complement representation, so `BitAnd` is defined over all of `int`: the
 address setter masks `address - 1`, which is `-1` when the address is 0, and
 the builder masks `~a`. `|` and `^` are only ever applied to non-negative
 values, so `BitOr` and `BitXor` are defined over `nat`. `>>` is floor
 division by a power of two, which Dafny's Euclidean `/` computes for a
 positive divisor, and `<<` is multiplication by one.
 */
module Bits {

  /** 2 to the power k. */
  function Pow2(k: nat): (r: nat)
    ensures r >= 1
  {
    if k == 0 then 1 else 2 * Pow2(k - 1)
  }

  /** Python's `x >> k`. */
  function ShiftRight(x: int, k: nat): (r: int) {
    x / Pow2(k)
  }

  /** Python's `x << k` for a non-negative x. */
  function ShiftLeft(x: nat, k: nat): (r: nat) {
    x * Pow2(k)
  }

  function Abs(x: int): (r: nat) {
    if x < 0 then -x else x
  }

  /** Python's `x & y`: bit 0 is set when both low bits are, the rest is
      the conjunction of the two values shifted right by one; 0 and -1 (all
      bits clear, all bits set) end the recursion. */
  function BitAnd(x: int, y: int): (r: int)
    decreases Abs(x) + Abs(y)
  {
    if x == 0 || y == 0 then 0
    else if x == -1 then y
    else if y == -1 then x
    else 2 * BitAnd(x / 2, y / 2) + (if x % 2 == 1 && y % 2 == 1 then 1 else 0)
  }

  /** Python's `x | y` on non-negative integers. */
  function BitOr(x: nat, y: nat): (r: nat)
    decreases x
  {
    if x == 0 then y
    else if y == 0 then x
    else 2 * BitOr(x / 2, y / 2) + (if x % 2 == 1 || y % 2 == 1 then 1 else 0)
  }

  /** Python's `x ^ y` on non-negative integers. */
  function BitXor(x: nat, y: nat): (r: nat)
    decreases x
  {
    if x == 0 then y
    else if y == 0 then x
    else 2 * BitXor(x / 2, y / 2) + (if x % 2 != y % 2 then 1 else 0)
  }

  /** Bit i of x in two's complement. */
  predicate Bit(x: int, i: nat) {
    (x / Pow2(i)) % 2 == 1
  }

  // ---------------------------------------------------------------------
  // Division facts

  lemma DivModUnique(x: int, m: int, q: int, r: int)
    requires m > 0 && 0 <= r < m
    requires x == m * q + r
    ensures x / m == q && x % m == r
  {
    var d := q - x / m;
    assert m * d == x % m - r;
  }

  lemma MulMonotone(a: int, x: int, y: int)
    requires a >= 0 && x <= y
    ensures a * x <= a * y
  {
  }

  lemma MulDistributes(a: int, b: int, q: int, r: int)
    ensures a * (b * q + r) == (a * b) * q + a * r
  {
  }

  lemma DivDiv(x: int, a: int, b: int)
    requires a > 0 && b > 0
    ensures x / a / b == x / (a * b)
  {
    var q, r := x / a, x % a;
    var q2, r2 := q / b, q % b;
    MulDistributes(a, b, q2, r2);
    MulMonotone(a, r2, b - 1);
    MulDistributes(a, 1, b, -1);
    DivModUnique(x, a * b, q2, a * r2 + r);
  }

  /** Dividing by 2^k is halving, then dividing by 2^(k-1); the remainder
      modulo 2^k is the low bit plus twice the remainder of the half. */
  lemma Pow2Step(x: int, k: nat)
    requires k >= 1
    ensures x / Pow2(k) == (x / 2) / Pow2(k - 1)
    ensures x % Pow2(k) == 2 * ((x / 2) % Pow2(k - 1)) + x % 2
  {
    var p := Pow2(k - 1);
    var q, r := x / 2, x % 2;
    var q2, r2 := q / p, q % p;
    assert q == p * q2 + r2;
    assert x == (2 * p) * q2 + (2 * r2 + r) by {
      assert (2 * p) * q2 == 2 * (p * q2);
    }
    DivModUnique(x, 2 * p, q2, 2 * r2 + r);
  }

  /** 2^(i + k) is 2^i times 2^k. */
  lemma {:induction false} Pow2Add(i: nat, k: nat)
    ensures Pow2(i + k) == Pow2(i) * Pow2(k)
    decreases i
  {
    if i > 0 {
      Pow2Add(i - 1, k);
      assert Pow2(i + k) == 2 * Pow2(i - 1 + k);
    }
  }

  /** `>>` moves every bit down by k places: bit i of `x >> k` is bit i + k
      of x. */
  lemma ShiftRightBits(x: int, k: nat, i: nat)
    ensures Bit(ShiftRight(x, k), i) == Bit(x, i + k)
  {
    DivDiv(x, Pow2(k), Pow2(i));
    Pow2Add(i, k);
    assert Pow2(k) * Pow2(i) == Pow2(i) * Pow2(k);
  }

  /** `<<` on a non-negative value loses nothing: `(x << k) >> k == x`, and
      the k low bits of `x << k` are clear. */
  lemma ShiftLeftRight(x: nat, k: nat)
    ensures ShiftRight(ShiftLeft(x, k), k) == x
    ensures ShiftLeft(x, k) % Pow2(k) == 0
  {
    DivModUnique(x * Pow2(k), Pow2(k), x, 0);
  }

  lemma BitStep(x: int, i: nat)
    requires i >= 1
    ensures Bit(x, i) == Bit(x / 2, i - 1)
  {
    Pow2Step(x, i);
  }

  // ---------------------------------------------------------------------
  // Masks and shifts

  /** Masking with 2^k - 1 keeps the value modulo 2^k, negative values
      included (`-1 & 0xf == 15`). */
  lemma {:induction false} LowMask(x: int, k: nat)
    ensures BitAnd(x, Pow2(k) - 1) == x % Pow2(k)
    decreases k
  {
    if k > 0 {
      var p := Pow2(k - 1);
      assert Pow2(k) - 1 == 2 * (p - 1) + 1;
      AndOddMask(x, p - 1);
      LowMask(x / 2, k - 1);
      Pow2Step(x, k);
    }
  }

  /** Masking with an odd value: the low bit is kept. */
  lemma AndOddMask(x: int, m: nat)
    ensures BitAnd(x, 2 * m + 1) == 2 * BitAnd(x / 2, m) + x % 2
  {
    if x == -1 {
      assert BitAnd(-1, m) == m;
      DivModUnique(-1, 2, -1, 1);
    } else if x != 0 {
      DivModUnique(2 * m + 1, 2, m, 1);
    }
  }

  /** Masking with an even value: the low bit drops out. */
  lemma AndEvenMask(x: int, m: int)
    ensures BitAnd(x, 2 * m) == 2 * BitAnd(x / 2, m)
  {
    if x == 0 || m == 0 {
      assert BitAnd(x / 2, m) == 0;
    } else if x == -1 {
      assert BitAnd(-1, m) == m;
    } else {
      DivModUnique(2 * m, 2, m, 0);
      assert BitAnd(x, 2 * m) == 2 * BitAnd(x / 2, (2 * m) / 2);
    }
  }

  /** OR-ing a value below 2^k with a multiple of 2^k is addition: the
      packing `lo | hi << k` in construct_address loses nothing. */
  lemma {:induction false} OrDisjoint(a: nat, b: nat, k: nat)
    requires a < Pow2(k)
    ensures BitOr(a, b * Pow2(k)) == a + b * Pow2(k)
  {
    if k > 0 && a != 0 && b != 0 {
      var p := Pow2(k - 1);
      var y := b * Pow2(k);
      assert y == 2 * (b * p);
      DivModUnique(y, 2, b * p, 0);
      OrDisjoint(a / 2, b, k - 1);
    }
  }

  // ---------------------------------------------------------------------
  // Bitwise characterisations

  lemma {:induction false} AndBits(x: nat, y: nat, i: nat)
    ensures BitAnd(x, y) >= 0
    ensures Bit(BitAnd(x, y), i) <==> Bit(x, i) && Bit(y, i)
  {
    if x == 0 || y == 0 {
    } else {
      var z := BitAnd(x / 2, y / 2);
      var low := if x % 2 == 1 && y % 2 == 1 then 1 else 0;
      assert BitAnd(x, y) == 2 * z + low;
      DivModUnique(BitAnd(x, y), 2, z, low);
      if i == 0 {
        AndBits(x / 2, y / 2, 0);
        assert Pow2(0) == 1;
      } else {
        AndBits(x / 2, y / 2, i - 1);
        BitStep(BitAnd(x, y), i);
        BitStep(x, i);
        BitStep(y, i);
      }
    }
  }

  lemma {:induction false} OrBits(x: nat, y: nat, i: nat)
    ensures Bit(BitOr(x, y), i) <==> Bit(x, i) || Bit(y, i)
  {
    if x == 0 || y == 0 {
      assert 0 / Pow2(i) == 0;
    } else {
      var z := BitOr(x / 2, y / 2);
      var low := if x % 2 == 1 || y % 2 == 1 then 1 else 0;
      assert BitOr(x, y) == 2 * z + low;
      DivModUnique(BitOr(x, y), 2, z, low);
      if i == 0 {
        assert Pow2(0) == 1;
      } else {
        OrBits(x / 2, y / 2, i - 1);
        BitStep(BitOr(x, y), i);
        BitStep(x, i);
        BitStep(y, i);
      }
    }
  }

  lemma {:induction false} XorBits(x: nat, y: nat, i: nat)
    ensures Bit(BitXor(x, y), i) <==> Bit(x, i) != Bit(y, i)
  {
    if x == 0 || y == 0 {
      assert 0 / Pow2(i) == 0;
    } else {
      var z := BitXor(x / 2, y / 2);
      var low := if x % 2 != y % 2 then 1 else 0;
      assert BitXor(x, y) == 2 * z + low;
      DivModUnique(BitXor(x, y), 2, z, low);
      if i == 0 {
        assert Pow2(0) == 1;
      } else {
        XorBits(x / 2, y / 2, i - 1);
        BitStep(BitXor(x, y), i);
        BitStep(x, i);
        BitStep(y, i);
      }
    }
  }

  /** OR plus AND is the sum: each bit set in both is counted twice. */
  lemma {:induction false} OrPlusAnd(x: nat, y: nat)
    ensures BitOr(x, y) + BitAnd(x, y) == x + y
  {
    if x != 0 && y != 0 {
      OrPlusAnd(x / 2, y / 2);
      assert BitOr(x, y) == 2 * BitOr(x / 2, y / 2) + (if x % 2 == 1 || y % 2 == 1 then 1 else 0);
      assert BitAnd(x, y) == 2 * BitAnd(x / 2, y / 2) + (if x % 2 == 1 && y % 2 == 1 then 1 else 0);
    }
  }

  /** XOR is addition without carries; the carries are the AND. */
  lemma {:induction false} XorPlusAnd(x: nat, y: nat)
    ensures BitXor(x, y) + 2 * BitAnd(x, y) == x + y
  {
    if x != 0 && y != 0 {
      XorPlusAnd(x / 2, y / 2);
      assert BitXor(x, y) == 2 * BitXor(x / 2, y / 2) + (if x % 2 != y % 2 then 1 else 0);
      assert BitAnd(x, y) == 2 * BitAnd(x / 2, y / 2) + (if x % 2 == 1 && y % 2 == 1 then 1 else 0);
    }
  }

  /** Bitwise operations on k-bit values stay within k bits. */
  lemma {:induction false} BitwiseBound(x: nat, y: nat, k: nat)
    requires x < Pow2(k) && y < Pow2(k)
    ensures 0 <= BitAnd(x, y) < Pow2(k)
    ensures BitOr(x, y) < Pow2(k)
    ensures BitXor(x, y) < Pow2(k)
  {
    if x != 0 && y != 0 {
      assert k >= 1;
      Pow2Step(x, k);
      Pow2Step(y, k);
      BitwiseBound(x / 2, y / 2, k - 1);
    }
  }
}
