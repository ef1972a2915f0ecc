/** Facts about powers of two and the rewriter's 32-bit rounding. */
module Rounding {
  import opened ElfTypes

  const UINT32_MODULUS: nat := 0x1_0000_0000

  lemma ModOfMultiple(q: nat, m: nat)
    requires m > 0
    ensures q * m % m == 0
  {
    if q > 0 {
      ModOfMultiple(q - 1, m);
      assert q * m == (q - 1) * m + m;
      ModAdd((q - 1) * m, m);
    }
  }

  lemma ModAdd(n: nat, m: nat)
    requires m > 0
    ensures (n + m) % m == n % m
  {
    var q, r := n / m, n % m;
    assert n == q * m + r;
    assert n + m == (q + 1) * m + r;
    DivUnique(n + m, q + 1, m, r);
  }

  lemma SmallMultiple(d: int, m: nat)
    requires -(d * m) < m && d * m < m
    ensures d == 0
  {
  }

  lemma DivUnique(n: nat, q: nat, m: nat, r: nat)
    requires m > 0 && r < m && n == q * m + r
    ensures n / m == q && n % m == r
  {
    var q', r' := n / m, n % m;
    assert n == q' * m + r';
    Distribute(q', q, m);
    SmallMultiple(q' - q, m);
  }

  lemma Distribute(a: int, b: int, m: int)
    ensures (a - b) * m == a * m - b * m
  {
  }

  /** A smaller power of two divides a larger one. */
  lemma {:induction false} PowersDivide(a: nat, b: nat)
    requires PowerOfTwo(a) && PowerOfTwo(b) && a <= b
    ensures b % a == 0
    decreases a
  {
    if a > 1 {
      PowersDivide(a / 2, b / 2);
      var q := (b / 2) / (a / 2);
      assert b / 2 == q * (a / 2);
      assert b == q * a by {
        assert b == 2 * (b / 2) == 2 * (q * (a / 2)) == q * (2 * (a / 2));
      }
      ModOfMultiple(q, a);
    }
  }

  lemma Uint32ModulusIsPower()
    ensures PowerOfTwo(UINT32_MODULUS)
  {
    assert PowerOfTwo(0x1_0000) by {
      assert PowerOfTwo(0x100);
      assert PowerOfTwo(0x200);
      assert PowerOfTwo(0x800);
      assert PowerOfTwo(0x2000);
      assert PowerOfTwo(0x8000);
    }
    assert PowerOfTwo(0x8_0000);
    assert PowerOfTwo(0x40_0000);
    assert PowerOfTwo(0x200_0000);
    assert PowerOfTwo(0x1000_0000);
  }

  lemma Uint32Quotient(m: nat) returns (q: nat)
    requires PowerOfTwo(m) && m < UINT32_MODULUS
    ensures q * m == UINT32_MODULUS
  {
    Uint32ModulusIsPower();
    PowersDivide(m, UINT32_MODULUS);
    q := UINT32_MODULUS / m;
  }

  lemma RoundUpZero(m: nat)
    requires PowerOfTwo(m) && m < UINT32_MODULUS
    ensures RoundUp(0, m) == 0
  {
    var q := Uint32Quotient(m);
    RoundUpZeroWith(q, m);
  }

  lemma RoundUpZeroWith(q: nat, m: nat)
    requires 0 < m < UINT32_MODULUS && q * m == UINT32_MODULUS
    ensures RoundUp(0, m) == 0
  {
    Distribute(q, 1, m);
    DivUnique(UINT32_MODULUS - 1, q - 1, m, m - 1);
  }

  lemma RoundUpPositive(n: nat, m: nat)
    requires 0 < m < UINT32_MODULUS && 0 < n && n + m <= UINT32_MODULUS
    ensures n <= RoundUp(n, m) < n + m
    ensures RoundUp(n, m) % m == 0
  {
    RoundUpPositiveWith(n, (n - 1) / m, (n - 1) % m, m);
  }

  lemma RoundUpPositiveWith(n: nat, k: nat, r: nat, m: nat)
    requires 0 < m < UINT32_MODULUS && 0 < n && n + m <= UINT32_MODULUS
    requires r < m && n - 1 == k * m + r && k == (n - 1) / m
    ensures n <= RoundUp(n, m) < n + m
    ensures RoundUp(n, m) % m == 0
  {
    Distribute(k + 1, k, m);
    ModOfMultiple(k + 1, m);
    SmallMod(n);
    SmallMod(n - 1);
    SmallMod((k + 1) * m);
  }

  lemma SmallMod(n: nat)
    requires n < UINT32_MODULUS
    ensures n % UINT32_MODULUS == n
  {
  }

  /** Away from the top of the 32-bit range, `roundUp` gives the least multiple of `m` at or above `n`, also for 0. */
  lemma RoundUpIsCeiling(n: nat, m: nat)
    requires PowerOfTwo(m) && m < UINT32_MODULUS && n + m <= UINT32_MODULUS
    ensures n <= RoundUp(n, m) < n + m
    ensures RoundUp(n, m) % m == 0
  {
    if n == 0 {
      RoundUpZero(m);
    } else {
      RoundUpPositive(n, m);
    }
  }

  // ---------------------------------------------------------------- residues of integers

  lemma IntMultiple(q: int, m: nat)
    requires m > 0
    ensures q * m % m == 0
  {
    var x := q * m;
    var d, r := x / m, x % m;
    assert x == d * m + r;
    Distribute(q, d, m);
    SmallMultiple(q - d, m);
  }

  lemma SameResidue(x: int, y: int, q: int, m: nat)
    requires m > 0 && x - y == q * m
    ensures x % m == y % m
  {
    var c, d := x / m, y / m;
    assert x == c * m + x % m && y == d * m + y % m;
    Distribute(c, d, m);
    Distribute(q, c - d, m);
    SmallMultiple(q - (c - d), m);
  }

  lemma ResidueOfDifference(x: int, y: int, m: nat)
    requires m > 0 && y % m == 0
    ensures (x - y) % m == x % m
  {
    var q := y / m;
    assert y == q * m;
    assert (x - y) - x == (-q) * m;
    SameResidue(x - y, x, -q, m);
  }

  /** A divisor of `b` divides the multiples of `b`. */
  lemma DivisorDivides(x: int, b: nat, a: nat, k: int)
    requires a > 0 && b > 0 && b % a == 0 && x == k * b
    ensures x % a == 0
  {
    var q := b / a;
    assert b == q * a;
    assert x == (k * q) * a by {
      assert k * (q * a) == (k * q) * a;
    }
    IntMultiple(k * q, a);
  }

  lemma ModOfMod(x: int, b: nat, a: nat)
    requires a > 0 && b > 0 && b % a == 0
    ensures x % b % a == x % a
  {
    var k := x / b;
    var t := k * b;
    assert x == t + x % b;
    DivisorDivides(t, b, a, k);
    assert t % a == 0;
    ResidueOfDifference(x, t, a);
  }

  lemma {:induction false} ReduceIsMod(x: int, m: nat)
    requires m > 0
    ensures Reduce(x, m) == x % m
    decreases if x < 0 then m - x else x
  {
    if x < 0 {
      ReduceIsMod(x + m, m);
      SameResidue(x + m, x, 1, m);
    } else if x < m {
      SmallResidue(x, m);
    } else {
      ReduceIsMod(x - m, m);
      SameResidue(x, x - m, 1, m);
    }
  }

  lemma SmallResidue(x: nat, m: nat)
    requires x < m
    ensures x % m == x
  {
  }

  /** Addresses wrap around at 2^32 or 2^64, and sizes in the file are rounded up to multiples of 4 or 8. */
  lemma WidthsOfClass(cls: ElfClass, x: int, n: nat)
    ensures cls.Wrap(x) == x % (if cls.Elf32? then 0x1_0000_0000 else 0x1_0000_0000_0000_0000)
    ensures var w := if cls.Elf32? then 4 else 8;
      n + w <= 0x1_0000_0000 ==> n <= cls.Align(n) < n + w && cls.Align(n) % w == 0
  {
    hide RoundUp, Reduce;
    ReduceIsMod(x, cls.AddrModulus());
    assert PowerOfTwo(4) && PowerOfTwo(8);
    if n + 4 <= 0x1_0000_0000 {
      RoundUpIsCeiling(n, 4);
    }
    if n + 8 <= 0x1_0000_0000 {
      RoundUpIsCeiling(n, 8);
    }
  }

  /** Whole pages that cover `n` bytes. */
  lemma PagesCover(n: nat, page: nat)
    requires PowerOfTwo(page) && page < UINT32_MODULUS && 0 < n && n + page <= UINT32_MODULUS
    ensures RoundUp(n, page) / page * page == RoundUp(n, page)
    ensures n <= RoundUp(n, page) < n + page && page <= RoundUp(n, page)
  {
    hide PowerOfTwo, RoundUp;
    RoundUpIsCeiling(n, page);
    WholePages(RoundUp(n, page), page);
  }

  lemma WholePages(r: nat, page: nat)
    requires page > 0 && r % page == 0 && r > 0
    ensures r / page * page == r && page <= r
  {
    var q := r / page;
    assert r == q * page + r % page;
    AtLeastOne(q, page);
  }

  lemma AtLeastOne(q: nat, m: nat)
    requires q * m > 0
    ensures q * m >= m
  {
  }

  /** `roundUp` reaches its argument exactly when the result fits in 32 bits. */
  lemma RoundUpCovers(n: nat, m: nat)
    requires PowerOfTwo(m) && m < UINT32_MODULUS
    ensures RoundUp(n, m) >= n <==> n + m <= UINT32_MODULUS
    ensures RoundUp(n, m) % m == 0 && RoundUp(n, m) + m <= UINT32_MODULUS
  {
    var q := Uint32Quotient(m);
    RoundUpIsMultiple(n, m, q);
    if n + m <= UINT32_MODULUS {
      RoundUpIsCeiling(n, m);
    }
  }

  /** In any case `roundUp` gives a multiple of `m` below 2^32. */
  lemma RoundUpIsMultiple(n: nat, m: nat, q: nat)
    requires 0 < m < UINT32_MODULUS && q * m == UINT32_MODULUS
    ensures RoundUp(n, m) % m == 0 && RoundUp(n, m) + m <= UINT32_MODULUS
  {
    var x := (n % UINT32_MODULUS - 1) % UINT32_MODULUS;
    MultipleBelowModulus(x, x / m, x % m, m, q);
  }

  lemma MultipleBelowModulus(x: nat, k: nat, r: nat, m: nat, q: nat)
    requires 0 < m < UINT32_MODULUS && q * m == UINT32_MODULUS && x == k * m + r && x < UINT32_MODULUS
    ensures (k + 1) * m % UINT32_MODULUS % m == 0 && (k + 1) * m % UINT32_MODULUS + m <= UINT32_MODULUS
  {
    MultipleBelow(k, q, m);
    ModOfMultiple(k + 1, m);
    Distribute(k + 1, k, m);
    if k + 1 < q {
      NextMultipleBelow(k + 1, q, m);
      SmallMod((k + 1) * m);
    } else {
      ModOfMultiple(0, m);
    }
  }

  lemma NextMultipleBelow(k: nat, q: nat, m: nat)
    requires m > 0 && k < q
    ensures k * m + m <= q * m
  {
    Distribute(q, k, m);
    AtLeastOne(q - k, m);
  }

  /** A smaller multiple is smaller by at least `m`. */
  lemma MultipleBelow(k: nat, q: nat, m: nat)
    requires m > 0 && k * m < q * m
    ensures k < q && k * m + m <= q * m
  {
    Distribute(q, k, m);
    PositiveFactor(q - k, m);
    AtLeastOne(q - k, m);
  }

  lemma PositiveFactor(d: int, m: nat)
    requires m > 0 && d * m > 0
    ensures d >= 1
  {
  }
}
