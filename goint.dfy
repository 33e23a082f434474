/** Go's 64-bit `int` and the few operations on it that the buffer's code uses:
    wrap-around addition and multiplication, bitwise AND and bitwise complement
    (the operators `&` and `^` of the alignment trick). */
module GoInt {

  const MinInt: int := -0x8000_0000_0000_0000
  const MaxInt: int := 0x7FFF_FFFF_FFFF_FFFF
  const Modulus: int := 0x1_0000_0000_0000_0000

  /** A value of Go's `int` (and `int64`) on a 64-bit platform. */
  type Int = x: int | MinInt <= x <= MaxInt

  /** The 64-bit two's-complement value of the exact result `x`: what Go's
      `+`, `-` and `*` produce when the exact result does not fit. */
  function Wrap(x: int): (r: Int)
    ensures (x - r) % Modulus == 0
    ensures MinInt <= x <= MaxInt ==> r == x
  {
    (x - MinInt) % Modulus + MinInt
  }

  /** The number of value bits of a two's-complement integer, as a measure:
      halving decreases it until the value is 0 or -1. */
  function Mag(x: int): nat {
    if x >= 0 then x else -x - 1
  }

  /** Bitwise AND of two's-complement integers, bit by bit from the lowest;
      0 and -1 are the all-zeros and all-ones patterns. On values of `Int`
      this is Go's `a & b`. */
  function And(a: int, b: int): int
    decreases Mag(a) + Mag(b)
  {
    if (a == 0 || a == -1) && (b == 0 || b == -1) then
      (if a == -1 && b == -1 then -1 else 0)
    else
      2 * And(a / 2, b / 2) + (if a % 2 == 1 && b % 2 == 1 then 1 else 0)
  }

  /** Go's bitwise complement `^a`: every bit flipped. */
  function Not(a: Int): (r: Int)
    ensures And(a, r) == 0
    ensures a + r == -1
  {
    AndComplement(a);
    -1 - a
  }

  /** `m` is a power of two: 1, 2, 4, ... */
  predicate IsPow2(m: int)
    decreases if m > 0 then m else 0
  {
    if m <= 1 then m == 1 else m % 2 == 0 && IsPow2(m / 2)
  }

  lemma {:induction false} AndComplement(a: int)
    ensures And(a, -a - 1) == 0
    decreases Mag(a)
  {
    if !(a == 0 || a == -1) {
      assert (-a - 1) / 2 == -(a / 2) - 1;
      AndComplement(a / 2);
    }
  }

  /** AND with a non-negative value is non-negative and no larger than it,
      and AND of two negative values is negative (the sign bit is an AND of
      sign bits). */
  lemma {:induction false} AndBounds(a: int, b: int)
    ensures 0 <= a ==> 0 <= And(a, b) <= a
    ensures 0 <= b ==> 0 <= And(a, b) <= b
    ensures a < 0 && b < 0 ==> And(a, b) < 0
    decreases Mag(a) + Mag(b)
  {
    if !((a == 0 || a == -1) && (b == 0 || b == -1)) {
      AndBounds(a / 2, b / 2);
    }
  }

  /** AND with all ones leaves a value unchanged. */
  lemma {:induction false} AndAllOnes(x: int)
    ensures And(x, -1) == x
    decreases Mag(x)
  {
    if !(x == 0 || x == -1) {
      AndAllOnes(x / 2);
    }
  }

  /** Euclidean division by `d` is unique: the quotient and remainder of `x`
      are the only pair that rebuilds `x` with a remainder in `[0, d)`. */
  lemma DivModUnique(x: int, d: int, q: int, u: int)
    requires d > 0 && 0 <= u < d && x == d * q + u
    ensures x / d == q && x % d == u
  {
    var q', u' := x / d, x % d;
    assert d * (q - q') == u' - u;
    MulSmall(d, q - q');
  }

  lemma MulSmall(d: int, k: int)
    requires d > 0 && -d < d * k < d
    ensures k == 0
  {
  }

  /** Splitting off the lowest bit: the remainder modulo `2m` is the lowest
      bit plus twice the remainder of the halved value modulo `m`. */
  lemma ModDouble(x: int, m: int)
    requires m > 0
    ensures x % (2 * m) == x % 2 + 2 * ((x / 2) % m)
  {
    var h := x / 2;
    assert h == m * (h / m) + h % m;
    assert x == 2 * m * (h / m) + (x % 2 + 2 * (h % m));
    DivModUnique(x, 2 * m, h / m, x % 2 + 2 * (h % m));
  }

  /** AND with the complement of `m - 1`, for a power of two `m`, clears the
      low bits: it rounds `x` down to a multiple of `m`. */
  lemma {:induction false} AndClearLow(x: int, m: int)
    requires IsPow2(m)
    ensures And(x, -m) == x - x % m
    decreases m
  {
    if m == 1 {
      AndAllOnes(x);
    } else {
      assert -m / 2 == -(m / 2) && -m % 2 == 0;
      AndClearLow(x / 2, m / 2);
      ModDouble(x, m / 2);
    }
  }

  /** AND keeps both operands' range: if both lie in `[-P, P)` for a power of
      two `P`, so does their AND. */
  lemma {:induction false} AndRange(a: int, b: int, p: int)
    requires IsPow2(p) && -p <= a < p && -p <= b < p
    ensures -p <= And(a, b) < p
    decreases p
  {
    if !((a == 0 || a == -1) && (b == 0 || b == -1)) {
      AndRange(a / 2, b / 2, p / 2);
    }
  }

  lemma Pow2Double(x: int)
    requires IsPow2(x)
    ensures IsPow2(2 * x)
  {
  }

  lemma {:induction false} Pow2Product(a: int, b: int)
    requires IsPow2(a) && IsPow2(b)
    ensures IsPow2(a * b)
    decreases b
  {
    if b == 1 {
      assert a * b == a;
    } else {
      var h := b / 2;
      Pow2Product(a, h);
      var ah := a * h;
      assert a * b == 2 * ah by {
        assert b == 2 * h;
      }
      Pow2Double(ah);
    }
  }

  /** 2^63 is a power of two, so the whole of `Int` is `[-2^63, 2^63)`. */
  lemma HalfModulusIsPow2()
    ensures IsPow2(Modulus / 2)
  {
    assert IsPow2(4);
    Pow2Product(4, 4);
    Pow2Product(16, 16);
    Pow2Product(256, 256);
    Pow2Product(0x1_0000, 0x1_0000);
    Pow2Product(0x1_0000_0000, 0x1_0000);
    Pow2Product(0x1_0000_0000_0000, 0x100);
    Pow2Product(0x100_0000_0000_0000, 16);
    Pow2Product(0x1000_0000_0000_0000, 4);
    Pow2Product(0x4000_0000_0000_0000, 2);
  }

  /** Go's `a & b` on two `int` values is again an `int`. */
  lemma AndIsInt(a: Int, b: Int)
    ensures MinInt <= And(a, b) <= MaxInt
  {
    HalfModulusIsPow2();
    AndRange(a, b, Modulus / 2);
  }
}
