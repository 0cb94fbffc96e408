/** Machine words and the bit tricks of base/bits.h.

    A `size_t` is a `nat` below 2^64.  Bitwise `&` is defined on the binary digits, so that what
    `Align` computes with `&` and `~` is proved, not assumed, to be rounding up. */
module Bits {

  const WORD: nat := 0x1_0000_0000_0000_0000
  const HALF_WORD: nat := 0x1_0000_0000

  function Pow2(k: nat): (p: nat)
    ensures p > 0
  {
    if k == 0 then 1 else 2 * Pow2(k - 1)
  }

  /** `x & y` on n-bit words. */
  function And(x: nat, y: nat, n: nat): nat {
    if n == 0 then 0
    else (if x % 2 == 1 && y % 2 == 1 then 1 else 0) + 2 * And(x / 2, y / 2, n - 1)
  }

  /** `~x` on n-bit words. */
  function Not(x: nat, n: nat): nat
    requires x < Pow2(n)
  {
    Pow2(n) - 1 - x
  }

  /** What the DCHECK of `Align` tests: alignment & (alignment - 1) == 0. */
  predicate AlignmentCheck(alignment: nat)
    requires 0 < alignment
  {
    And(alignment, alignment - 1, 64) == 0
  }

  /** `n >> k`. */
  function Shr(n: nat, k: nat): nat {
    if k == 0 then n else Shr(n / 2, k - 1)
  }

  /** x + y in a size_t. */
  function WrappedSum(x: nat, y: nat): nat
    requires x < WORD && y < WORD
  {
    if x + y < WORD then x + y else x + y - WORD
  }

  /** (size + alignment - 1) & ~(alignment - 1), with the unsigned wrap-around of the sum. */
  function Align(size: nat, alignment: nat): nat
    requires size < WORD && 0 < alignment < WORD
  {
    Words();
    And(WrappedSum(size, alignment - 1), Not(alignment - 1, 64), 64)
  }

  lemma Words()
    ensures Pow2(32) == HALF_WORD && Pow2(64) == WORD
  {
    assert Pow2(8) == 0x100;
    Pow2Add(8, 8);
    Pow2Add(16, 16);
    Pow2Add(32, 32);
  }

  lemma {:induction false} Pow2Add(a: nat, b: nat)
    ensures Pow2(a + b) == Pow2(a) * Pow2(b)
  {
    if a == 0 {
    } else {
      Pow2Add(a - 1, b);
      assert Pow2(a + b) == 2 * (Pow2(a - 1) * Pow2(b)) == Pow2(a) * Pow2(b);
    }
  }

  lemma {:induction false} Pow2Increases(a: nat, b: nat)
    requires a < b
    ensures 2 * Pow2(a) <= Pow2(b)
  {
    if a + 1 == b {
    } else {
      Pow2Increases(a, b - 1);
    }
  }

  lemma {:induction false} AndSelf(x: nat, n: nat)
    requires x < Pow2(n)
    ensures And(x, x, n) == x
  {
    if n == 0 {
    } else {
      AndSelf(x / 2, n - 1);
    }
  }

  /** The DCHECK passes exactly for the powers of two. */
  lemma {:induction false} CheckMeansPowerOfTwo(a: nat, n: nat) returns (k: nat)
    requires 0 < a < Pow2(n)
    requires And(a, a - 1, n) == 0
    ensures k < n && a == Pow2(k)
  {
    if a % 2 == 1 {
      assert (a - 1) / 2 == a / 2;
      AndSelf(a / 2, n - 1);
      k := 0;
    } else {
      assert (a - 1) / 2 == a / 2 - 1;
      k := CheckMeansPowerOfTwo(a / 2, n - 1);
      k := k + 1;
    }
  }

  lemma {:induction false} PowerOfTwoPassesCheck(k: nat, n: nat)
    requires k < n
    ensures And(Pow2(k), Pow2(k) - 1, n) == 0
  {
    if k == 0 {
      AndZero(0, n - 1);
    } else {
      assert (Pow2(k) - 1) / 2 == Pow2(k - 1) - 1;
      PowerOfTwoPassesCheck(k - 1, n - 1);
    }
  }

  lemma {:induction false} AndZero(x: nat, n: nat)
    ensures And(x, 0, n) == 0
  {
    if n == 0 {
    } else {
      AndZero(x / 2, n - 1);
    }
  }

  lemma ModTwice(x: nat, m: nat)
    requires m > 0
    ensures x % (2 * m) == 2 * ((x / 2) % m) + x % 2
  {
    var q, r := (x / 2) / m, (x / 2) % m;
    assert x == 2 * (q * m + r) + x % 2 == q * (2 * m) + (2 * r + x % 2);
    QuotientUnique(x, 2 * m, q, 2 * r + x % 2);
  }

  lemma MulMonotone(a: nat, b: nat, d: nat)
    requires a <= b
    ensures a * d <= b * d
  {
    assert b * d == a * d + (b - a) * d;
  }

  lemma QuotientUnique(x: nat, d: nat, q: nat, r: nat)
    requires d > 0 && r < d && x == q * d + r
    ensures x / d == q && x % d == r
  {
    var q', r' := x / d, x % d;
    assert x == q' * d + r';
    if q' < q {
      MulMonotone(q' + 1, q, d);
    } else if q < q' {
      MulMonotone(q + 1, q', d);
    }
  }

  /** The greatest multiple of d that is not above x. */
  lemma FloorBounds(x: nat, d: nat)
    requires d > 0
    ensures var f := x - x % d;
            f == x / d * d && f % d == 0 && x < f + d && f <= x
  {
    var q := x / d;
    assert x == q * d + x % d;
    QuotientUnique(q * d, d, q, 0);
  }

  lemma MultiplesCoincide(a: nat, b: nat, x: nat, d: nat)
    requires d > 0 && a % d == 0 && b % d == 0
    requires x <= a < x + d && x <= b < x + d
    ensures a == b
  {
    FloorBounds(a, d);
    FloorBounds(b, d);
    ProductsCoincide(a / d, b / d, d);
  }

  lemma ProductsCoincide(p: nat, q: nat, d: nat)
    requires p * d < q * d + d && q * d < p * d + d
    ensures p == q
  {
    MulDistributes(p, 1, d);
    MulDistributes(q, 1, d);
    if p < q {
      MulMonotone(p + 1, q, d);
    } else if q < p {
      MulMonotone(q + 1, p, d);
    }
  }

  lemma {:induction false} AndAllOnes(x: nat, n: nat)
    requires x < Pow2(n)
    ensures And(x, Pow2(n) - 1, n) == x
  {
    if n == 0 {
    } else {
      assert (Pow2(n) - 1) / 2 == Pow2(n - 1) - 1;
      AndAllOnes(x / 2, n - 1);
    }
  }

  /** Masking with ~(2^k - 1) clears the low k bits. */
  lemma {:induction false} MaskClearsLowBits(x: nat, k: nat, n: nat)
    requires k <= n && x < Pow2(n)
    ensures Pow2(k) <= Pow2(n)
    ensures And(x, Pow2(n) - Pow2(k), n) == x - x % Pow2(k)
    decreases n
  {
    if k == 0 {
      AndAllOnes(x, n);
      FloorBounds(x, 1);
    } else {
      MaskClearsLowBits(x / 2, k - 1, n - 1);
      ModTwice(x, Pow2(k - 1));
      assert (Pow2(n) - Pow2(k)) / 2 == Pow2(n - 1) - Pow2(k - 1);
    }
  }

  lemma AlignMasks(size: nat, alignment: nat)
    requires size < WORD && 0 < alignment < WORD
    requires AlignmentCheck(alignment)
    ensures var sum := WrappedSum(size, alignment - 1);
            Align(size, alignment) == sum - sum % alignment
  {
    Words();
    var k := CheckMeansPowerOfTwo(alignment, 64);
    MaskClearsLowBits(WrappedSum(size, alignment - 1), k, 64);
  }

  /** `Align` on every size and every alignment its DCHECK lets through: the least multiple that is
      not below `size`, unless the sum wraps around, when the answer is 0. */
  lemma AlignRoundsUp(size: nat, alignment: nat)
    requires size < WORD && 0 < alignment < WORD
    requires AlignmentCheck(alignment)
    ensures size + alignment - 1 < WORD ==>
              var r := Align(size, alignment);
              r % alignment == 0 && size <= r < size + alignment
    ensures size + alignment - 1 >= WORD ==> Align(size, alignment) == 0
  {
    AlignMasks(size, alignment);
    var sum := WrappedSum(size, alignment - 1);
    FloorBounds(sum, alignment);
    if size + alignment - 1 >= WORD {
      QuotientUnique(sum, alignment, 0, sum);
    }
  }

  /** Rounding up to a multiple of `unit`, as plain arithmetic. */
  function RoundUp(size: nat, unit: nat): (r: nat)
    requires unit > 0
    ensures size <= r < size + unit
  {
    var excess := size % unit;
    if excess == 0 then size else size - excess + unit
  }

  lemma RoundUpIsMultiple(size: nat, unit: nat)
    requires unit > 0
    ensures RoundUp(size, unit) % unit == 0
  {
    var excess := size % unit;
    FloorBounds(size, unit);
    var floor := size - excess;
    if excess > 0 {
      MulDistributes(floor / unit, 1, unit);
      QuotientUnique(floor + unit, unit, floor / unit + 1, 0);
    }
  }

  lemma MulDistributes(a: nat, b: nat, c: nat)
    ensures (a + b) * c == a * c + b * c
  {
  }

  lemma UnitPassesCheck(unit: nat)
    requires unit == 4 || unit == 64 || unit == 4096
    ensures AlignmentCheck(unit)
  {
    hide And;
    assert Pow2(2) == 4 && Pow2(6) == 64 && Pow2(12) == 4096;
    PowerOfTwoPassesCheck(if unit == 4 then 2 else if unit == 64 then 6 else 12, 64);
  }

  /** Away from the top of the address space, `Align` is `RoundUp`, for the three alignments in use. */
  lemma AlignIs(size: nat, unit: nat)
    requires unit == 4 || unit == 64 || unit == 4096
    requires size + unit <= WORD
    ensures Align(size, unit) == RoundUp(size, unit)
  {
    Words();
    UnitPassesCheck(unit);
    hide Align, AlignmentCheck, RoundUp;
    AlignRoundsUp(size, unit);
    RoundUpIsMultiple(size, unit);
    MultiplesCoincide(Align(size, unit), RoundUp(size, unit), size, unit);
  }

  /** Index of the highest set bit, by binary search on the width. */
  method Log2Floor(n: nat) returns (log: int)
    requires n < HALF_WORD
    ensures n == 0 ==> log == -1
    ensures n > 0 ==> 0 <= log < 32 && Pow2(log) <= n < Pow2(log + 1)
  {
    if n == 0 {
      return -1;
    }
    log := 0;
    var value := n;
    ghost var width := StartWidth(n);
    var i := 4;
    while i >= 0
      invariant -1 <= i <= 4 && width == Pow2(i + 1)
      invariant 0 <= log && log + width <= 32
      invariant Shifted(n, value, log, width)
    {
      var shift := Pow2(i);
      ShiftStep(n, value, log, shift);
      var x := Shr(value, shift);
      if x != 0 {
        value := x;
        log := log + shift;
      }
      width := shift;
      i := i - 1;
    }
    ShrOne(n, log);
  }

  /** `value` is n shifted right by `log`, is not 0 and fits in `width` bits. */
  ghost predicate Shifted(n: nat, value: nat, log: nat, width: nat) {
    value == Shr(n, log) && 0 < value < Pow2(width)
  }

  lemma StartWidth(n: nat) returns (width: nat)
    requires 0 < n < HALF_WORD
    ensures width == Pow2(5) == 32 && Shifted(n, n, 0, width)
  {
    Words();
    width := 32;
    assert Pow2(5) == 32;
  }

  lemma ShiftStep(n: nat, value: nat, log: nat, shift: nat)
    requires Shifted(n, value, log, 2 * shift)
    ensures var x := Shr(value, shift);
            if x != 0 then Shifted(n, x, log + shift, shift) else Shifted(n, value, log, shift)
  {
    ShrTwice(n, log, shift);
    ShrFits(value, shift, shift);
    ShrZero(value, shift);
  }

  lemma {:induction false} ShrTwice(n: nat, a: nat, b: nat)
    ensures Shr(Shr(n, a), b) == Shr(n, a + b)
  {
    if a == 0 {
    } else {
      ShrTwice(n / 2, a - 1, b);
    }
  }

  lemma {:induction false} ShrFits(n: nat, a: nat, b: nat)
    requires n < Pow2(a + b)
    ensures Shr(n, a) < Pow2(b)
  {
    if a == 0 {
    } else {
      ShrFits(n / 2, a - 1, b);
    }
  }

  lemma {:induction false} ShrZero(n: nat, a: nat)
    ensures Shr(n, a) == 0 <==> n < Pow2(a)
  {
    if a == 0 {
    } else {
      ShrZero(n / 2, a - 1);
    }
  }

  lemma {:induction false} ShrOne(n: nat, a: nat)
    ensures Shr(n, a) == 1 <==> Pow2(a) <= n < Pow2(a + 1)
  {
    if a == 0 {
    } else {
      ShrOne(n / 2, a - 1);
    }
  }

  /** Least exponent whose power reaches n; n == 1 gives 0 through Log2Floor(0) == -1. */
  method Log2Ceiling(n: nat) returns (log: int)
    requires n < HALF_WORD
    ensures n == 0 ==> log == -1
    ensures n > 0 ==> 0 <= log <= 32 && n <= Pow2(log)
    ensures n > 0 ==> forall k: nat :: k < log ==> Pow2(k) < n
  {
    if n == 0 {
      return -1;
    }
    var floor := Log2Floor(n - 1);
    log := 1 + floor;
    forall k: nat | k < log
      ensures Pow2(k) < n
    {
      if k < floor {
        Pow2Increases(k, floor);
      }
    }
  }
}
