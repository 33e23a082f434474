/** The growth policy of the buffer: how far the mapping grows when a write
    needs more room (grower.go). */
module Grower {
  import opened GoInt
  import opened ByteSeq

  /** Go's `Grower`: from the current capacity and the size that must fit,
      the next capacity. Any function of this type can be installed. */
  type Policy = (Int, Int) -> Int

  const OneMB: Int := 1024 * 1024
  const OneGB: Int := 1024 * OneMB
  const TwoGB: Int := 2 * OneGB

  /** The largest size for which the default policy's additions cannot
      overflow `int`: above it `current + OneGB` and the alignment wrap. */
  const MaxGrowSize: Int := MaxInt - OneGB - OneMB + 1

  /** What the buffer relies on when it grows for a write: the next capacity
      holds the requested size. The code does not check this of a policy
      installed with `ChangeGrowPolicy`. */
  ghost predicate ValidPolicy(g: Policy) {
    forall c: Int, a: Int :: 0 <= c < a <= MaxGrowSize ==> a <= g(c, a)
  }

  lemma OneMBIsPow2()
    ensures IsPow2(OneMB)
  {
    assert IsPow2(4);
    Pow2Product(4, 4);
    Pow2Product(16, 16);
    Pow2Product(256, 256);
    Pow2Product(0x1_0000, 16);
  }

  /** Go's `align(n, m)`: `(n + (m - 1)) & ^(m - 1)` in 64-bit arithmetic.
      For a power of two `m` it rounds the 64-bit sum `n + m - 1` down to a
      multiple of `m`; when that sum does not overflow, the result is the
      first multiple of `m` at or above `n`. */
  function Align(n: Int, m: Int): (r: Int)
    ensures IsPow2(m) ==> r == Wrap(n + m - 1) - Wrap(n + m - 1) % m
    ensures IsPow2(m) ==> r % m == 0
    ensures IsPow2(m) && n + m - 1 <= MaxInt ==> n <= r < n + m
  {
    AlignBits(n, m);
    And(Wrap(n + Wrap(m - 1)), Not(Wrap(m - 1)))
  }

  /** The facts behind `Align`: the masked sum is an `int`, and for a power of
      two `m` it is the sum with its remainder modulo `m` cleared. */
  lemma AlignBits(n: Int, m: Int)
    ensures MinInt <= And(Wrap(n + Wrap(m - 1)), Not(Wrap(m - 1))) <= MaxInt
    ensures IsPow2(m) ==>
      var w := Wrap(n + m - 1);
      && And(Wrap(n + Wrap(m - 1)), Not(Wrap(m - 1))) == w - w % m
      && (w - w % m) % m == 0
  {
    var w := Wrap(n + Wrap(m - 1));
    var mask := Not(Wrap(m - 1));
    AndIsInt(w, mask);
    if IsPow2(m) {
      assert 1 <= m;
      assert mask == -m;
      MaskedMultiple(w, m);
    }
  }

  /** Clearing the low bits with `-m` leaves a multiple of `m`. */
  lemma MaskedMultiple(w: int, m: int)
    requires IsPow2(m)
    ensures And(w, -m) == w - w % m
    ensures (w - w % m) % m == 0
  {
    AndClearLow(w, m);
    DivModUnique(w - w % m, m, w / m, 0);
  }

  /** Go's `alignOneMB`. */
  function AlignOneMB(n: Int): (r: Int)
    ensures r % OneMB == 0
    ensures n <= MaxInt - OneMB + 1 ==> n <= r < n + OneMB
  {
    OneMBIsPow2();
    Align(n, OneMB)
  }

  /** Go's `DefaultGrowPolicy`: double below 2 GiB, add 1 GiB from there on,
      raise to `atLeast`, then round up to a whole number of MiB. Within the
      bound where nothing overflows, the result is the first multiple of 1 MiB
      at or above the larger of the proposal and `atLeast`: it holds
      `atLeast` and never shrinks the capacity. */
  function DefaultGrowPolicy(current: Int, atLeast: Int): (next: Int)
    ensures next % OneMB == 0
    ensures 0 <= current <= MaxGrowSize && atLeast <= MaxGrowSize ==>
      var want := Max(if current < TwoGB then 2 * current else current + OneGB, atLeast);
      want <= next < want + OneMB
    ensures 0 <= current <= MaxGrowSize && atLeast <= MaxGrowSize ==>
      atLeast <= next && current <= next && (current > 0 ==> current < next)
  {
    var proposed := if current < TwoGB then Wrap(current * 2) else Wrap(current + OneGB);
    var fac := if proposed < atLeast then atLeast else proposed;
    AlignOneMB(fac)
  }

  /** Two different multiples of `m` are at least `m` apart. */
  lemma MultiplesApart(x: int, y: int, m: int)
    requires m > 0 && x % m == 0 && y % m == 0 && x < y
    ensures x + m <= y
  {
    var a, b := x / m, y / m;
    assert x == m * a && y == m * b;
    assert y - x == m * (b - a);
    MulPositive(m, b - a);
  }

  /** A positive multiple of `m` is at least `m`. */
  lemma MulPositive(m: int, k: int)
    requires m > 0 && m * k > 0
    ensures m * k >= m
  {
    if m * k < m {
      MulSmall(m, k);
    }
  }

  /** `Align(n, m)` is the least multiple of `m` that is at least `n`. */
  lemma AlignIsLeastMultiple(n: Int, m: Int, j: int)
    requires IsPow2(m) && n + m - 1 <= MaxInt
    requires j % m == 0 && n <= j
    ensures Align(n, m) <= j
  {
    var r := Align(n, m);
    if j < r {
      MultiplesApart(j, r, m);
    }
  }

  /** Aligning a multiple of `m` leaves it unchanged. */
  lemma AlignExact(n: Int, m: Int)
    requires IsPow2(m) && n + m - 1 <= MaxInt && n % m == 0
    ensures Align(n, m) == n
  {
    AlignIsLeastMultiple(n, m, n);
  }

  /** The division formula for rounding `n` up to a multiple of `m` gives a
      multiple of `m` in `[n, n + m)`. */
  lemma RoundUpMultiple(n: int, m: int)
    requires m > 0
    ensures ((n + m - 1) / m) * m % m == 0
    ensures n <= ((n + m - 1) / m) * m < n + m
  {
    var q := (n + m - 1) / m;
    assert n + m - 1 == m * q + (n + m - 1) % m;
    DivModUnique(q * m, m, q, 0);
  }

  /** Only one multiple of `m` lies in `[n, n + m)`. */
  lemma OneMultipleInWindow(n: int, m: int, a: int, b: int)
    requires m > 0 && a % m == 0 && b % m == 0
    requires n <= a < n + m && n <= b < n + m
    ensures a == b
  {
    if a < b {
      MultiplesApart(a, b, m);
    } else if b < a {
      MultiplesApart(b, a, m);
    }
  }

  /** The bit trick agrees with the division formula for rounding up. */
  lemma AlignArithmetic(n: Int, m: Int)
    requires IsPow2(m) && 0 <= n && n + m - 1 <= MaxInt
    ensures Align(n, m) == ((n + m - 1) / m) * m
  {
    RoundUpMultiple(n, m);
    OneMultipleInWindow(n, m, Align(n, m), ((n + m - 1) / m) * m);
  }

  /** Below 2 GiB, when doubling already holds `atLeast`, the default policy
      doubles and rounds up to whole MiB. */
  lemma DefaultGrowPolicyDoubles(current: Int, atLeast: Int)
    requires 0 <= current < TwoGB && atLeast <= 2 * current
    ensures DefaultGrowPolicy(current, atLeast) == AlignOneMB(2 * current)
    ensures DefaultGrowPolicy(current, atLeast) == ((2 * current + OneMB - 1) / OneMB) * OneMB
  {
    OneMBIsPow2();
    AlignArithmetic(2 * current, OneMB);
  }

  /** From 2 GiB on, when adding 1 GiB already holds `atLeast`, the default
      policy adds 1 GiB and rounds up to whole MiB. */
  lemma DefaultGrowPolicyAddsOneGB(current: Int, atLeast: Int)
    requires TwoGB <= current <= MaxGrowSize && atLeast <= current + OneGB
    ensures DefaultGrowPolicy(current, atLeast) == AlignOneMB(current + OneGB)
    ensures DefaultGrowPolicy(current, atLeast) == ((current + OneGB + OneMB - 1) / OneMB) * OneMB
  {
    OneMBIsPow2();
    AlignArithmetic(current + OneGB, OneMB);
  }

  /** When `atLeast` exceeds the proposal, the default policy rounds
      `atLeast` itself up to whole MiB. */
  lemma DefaultGrowPolicyRaises(current: Int, atLeast: Int)
    requires 0 <= current <= MaxGrowSize && atLeast <= MaxGrowSize
    requires (if current < TwoGB then 2 * current else current + OneGB) < atLeast
    ensures DefaultGrowPolicy(current, atLeast) == AlignOneMB(atLeast)
    ensures 0 <= atLeast ==> DefaultGrowPolicy(current, atLeast) == ((atLeast + OneMB - 1) / OneMB) * OneMB
  {
    OneMBIsPow2();
    if 0 <= atLeast {
      AlignArithmetic(atLeast, OneMB);
    }
  }

  /** A buffer of at most 512 KiB that grows for at most 1 MiB grows to
      exactly 1 MiB. */
  lemma DefaultGrowPolicySmall(current: Int, atLeast: Int)
    requires 0 <= current && 2 * current <= OneMB && 0 < atLeast <= OneMB
    ensures DefaultGrowPolicy(current, atLeast) == OneMB
  {
    var want := Max(2 * current, atLeast);
    OneMultipleInWindow(want, OneMB, DefaultGrowPolicy(current, atLeast), OneMB);
  }

  /** The first growth of a 12-byte buffer for a 24-byte write gives 1 MiB. */
  lemma DefaultGrowPolicyFromTwelve()
    ensures DefaultGrowPolicy(12, 24) == OneMB
  {
    DefaultGrowPolicySmall(12, 24);
  }

  /** Beyond the bound the arithmetic wraps: growing from `MaxInt - OneGB`
      for `MaxInt` bytes yields a negative capacity. */
  lemma DefaultGrowPolicyWraps()
    ensures DefaultGrowPolicy(MaxInt - OneGB, MaxInt) == MinInt
  {
    OneMBIsPow2();
    assert Wrap(MaxInt - OneGB + OneGB) == MaxInt;
    var w := Wrap(MaxInt + OneMB - 1);
    assert w == MaxInt + OneMB - 1 - Modulus;
    assert w % OneMB == OneMB - 2;
    assert AlignOneMB(MaxInt) == MinInt;
  }

  /** The default policy is one the buffer can rely on. */
  lemma DefaultPolicyIsValid()
    ensures ValidPolicy(DefaultGrowPolicy)
  {
    forall c: Int, a: Int | 0 <= c < a <= MaxGrowSize
      ensures a <= DefaultGrowPolicy(c, a)
    {
    }
  }
}
