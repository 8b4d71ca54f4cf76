/** Wrapping 64-bit arithmetic (`u64` of linux/mm_types.h), the `is_power_of_2`, `min` and `max` helpers of
    linux/kernel.h, and the alignment computation that drm_mm_insert_node_in_range and drm_mm_scan_add_block
    both carry out on a hole. */
module KernelMath {

  datatype Option<+T> = None | Some(value: T)

  const U64_MAX: nat := 0xFFFF_FFFF_FFFF_FFFF

  type u64 = x: nat | x <= U64_MAX

  type u32 = x: nat | x <= 0xFFFF_FFFF

  /** Addition modulo 2^64. */
  function Add64(a: u64, b: u64): u64 {
    if a + b > U64_MAX then a + b - U64_MAX - 1 else a + b
  }

  /** Subtraction modulo 2^64. */
  function Sub64(a: u64, b: u64): u64 {
    if a < b then a + U64_MAX + 1 - b else a - b
  }

  function Min(a: int, b: int): int {
    if a < b then a else b
  }

  function Max(a: int, b: int): int {
    if a > b then a else b
  }

  /** The bitwise `&` of two unsigned integers, bit by bit. */
  function BitAnd(x: nat, y: nat): nat {
    if x == 0 || y == 0 then 0 else 2 * BitAnd(x / 2, y / 2) + (x % 2) * (y % 2)
  }

  predicate IsPowerOf2(n: nat) {
    n != 0 && BitAnd(n, n - 1) == 0
  }

  function Pow2(k: nat): nat {
    if k == 0 then 1 else 2 * Pow2(k - 1)
  }

  lemma {:induction false} BitAndSelf(x: nat)
    ensures BitAnd(x, x) == x
  {
    if x != 0 {
      BitAndSelf(x / 2);
      assert x % 2 == 0 || x % 2 == 1;
    }
  }

  /** An odd number other than one is no power of two, and an even one is a power iff its half is. */
  lemma PowerOf2Halves(n: nat)
    requires n > 1
    ensures n % 2 == 1 ==> !IsPowerOf2(n)
    ensures n % 2 == 0 ==> (IsPowerOf2(n) <==> IsPowerOf2(n / 2))
  {
    if n % 2 == 1 {
      BitAndSelf(n / 2);
      assert (n - 1) / 2 == n / 2 && (n - 1) % 2 == 0;
    } else {
      assert (n - 1) / 2 == n / 2 - 1;
      assert BitAnd(n, n - 1) == 2 * BitAnd(n / 2, n / 2 - 1);
    }
  }

  /** The test `n & (n - 1) == 0` recognises exactly the powers of two. */
  lemma {:induction false} IsPowerOf2Exact(n: nat)
    ensures IsPowerOf2(n) <==> exists k: nat :: n == Pow2(k)
  {
    if n == 0 {
      forall k: nat ensures Pow2(k) != 0 { Pow2Positive(k); }
    } else if n == 1 {
      assert n == Pow2(0);
    } else {
      PowerOf2Halves(n);
      IsPowerOf2Exact(n / 2);
      if IsPowerOf2(n) {
        var k: nat :| n / 2 == Pow2(k);
        assert n == Pow2(k + 1);
      }
      forall k: nat | n == Pow2(k) ensures IsPowerOf2(n) {
        assert k > 0 && n / 2 == Pow2(k - 1);
      }
    }
  }

  lemma {:induction false} Pow2Positive(k: nat)
    ensures Pow2(k) > 0
  {
    if k > 0 { Pow2Positive(k - 1); }
  }

  lemma {:induction false} Pow2Monotone(a: nat, b: nat)
    requires a <= b
    ensures Pow2(a) <= Pow2(b)
    decreases b
  {
    if a < b { Pow2Monotone(a, b - 1); }
  }

  lemma {:induction false} Pow2Double(k: nat)
    ensures Pow2(2 * k) == Pow2(k) * Pow2(k)
  {
    if k > 0 {
      Pow2Double(k - 1);
      assert Pow2(2 * k) == 2 * (2 * Pow2(2 * k - 2));
      var p := Pow2(k - 1);
      assert (2 * p) * (2 * p) == 4 * (p * p);
    }
  }

  lemma SquareMonotone(a: nat, b: nat)
    requires a <= b
    ensures a * a <= b * b
  {
    assert b * b - a * a == (b - a) * (b + a);
    assert (b - a) * (b + a) >= 0;
  }

  lemma MulMonotone(n: nat, a: int, b: int)
    requires a <= b
    ensures n * a <= n * b
  {
    assert n * b - n * a == n * (b - a);
  }

  /** A quotient and a small remainder determine `%`. */
  lemma RemainderUnique(x: nat, n: nat, q: nat, r: nat)
    requires 0 < n && r < n && x == n * q + r
    ensures x % n == r && x / n == q
  {
    var p := x / n;
    assert n * (p + 1) == n * p + n && n * (q + 1) == n * q + n;
    if p < q {
      MulMonotone(n, p + 1, q);
    } else if q < p {
      MulMonotone(n, q + 1, p);
    }
  }

  lemma RemainderDoubled(x: nat, k: nat)
    requires 0 < k
    ensures x % (2 * k) == 2 * ((x / 2) % k) + x % 2
  {
    var h := x / 2;
    var q, r := h / k, h % k;
    assert x == 2 * h + x % 2;
    assert h == k * q + r;
    assert x == (2 * k) * q + (2 * r + x % 2);
    RemainderUnique(x, 2 * k, q, 2 * r + x % 2);
  }

  /** For a power of two the mask `n - 1` extracts the remainder. */
  lemma {:induction false} MaskIsRemainder(x: nat, n: nat)
    requires IsPowerOf2(n)
    ensures BitAnd(x, n - 1) == x % n
  {
    if n > 1 {
      PowerOf2Halves(n);
      var k := n / 2;
      assert n == 2 * k && (n - 1) / 2 == k - 1 && (n - 1) % 2 == 1;
      MaskIsRemainder(x / 2, k);
      RemainderDoubled(x, k);
      if x == 0 {
        RemainderUnique(0, n, 0, 0);
      }
    } else {
      assert n == 1;
    }
  }

  /** The multiples of `n` around `x`. */
  lemma MultiplesAround(x: nat, n: nat, b: nat)
    requires 0 < n && b % n == 0
    ensures 0 <= x - x % n && (x - x % n) % n == 0
    ensures (x - x % n + n) % n == 0
    ensures b <= x ==> b <= x - x % n
    ensures b >= x && x % n != 0 ==> b >= x - x % n + n
  {
    var q, p := x / n, b / n;
    var down := n * q;
    assert x == down + x % n && b == n * p;
    MulMonotone(n, 0, q);
    RemainderUnique(down, n, q, 0);
    assert down + n == n * (q + 1);
    RemainderUnique(down + n, n, q + 1, 0);
    if p <= q {
      MulMonotone(n, p, q);
    } else {
      MulMonotone(n, q + 1, p);
    }
  }

  /** `alignment <= 1` means no alignment at all. */
  predicate Aligned(a: int, alignment: nat) {
    alignment <= 1 || a % alignment == 0
  }

  /** The distance between two aligned starts. */
  function Stride(alignment: nat): nat {
    if alignment <= 1 then 1 else alignment
  }

  lemma MultipleMod(n: nat, q: int)
    requires n > 0
    ensures (n * q) % n == 0
  {
    var p, r := (n * q) / n, (n * q) % n;
    assert n * q == n * p + r;
    assert n * (q - p) == r;
    if q > p {
      MulMonotone(n, 1, q - p);
    } else if q < p {
      MulMonotone(n, q - p, -1);
    }
  }

  lemma MultiplesApart(n: nat, p: int, q: int)
    requires n > 0
    ensures n * p < n * q ==> n * p + n <= n * q
    ensures (n * q - n) % n == 0
  {
    MultipleMod(n, q - 1);
    assert n * (q - 1) == n * q - n;
    if p < q {
      MulMonotone(n, p, q - 1);
    } else {
      MulMonotone(n, q, p);
    }
  }

  lemma AlignedNeighbours(a: int, b: int, alignment: nat)
    requires Aligned(a, alignment) && Aligned(b, alignment)
    ensures a < b ==> a + Stride(alignment) <= b
    ensures Aligned(b - Stride(alignment), alignment)
  {
    if alignment > 1 {
      var p, q := a / alignment, b / alignment;
      assert a == alignment * p && b == alignment * q;
      MultiplesApart(alignment, p, q);
    }
  }

  /** `[a, a + size)` is an aligned placement inside both the hole `[holeStart, holeEnd)` and the range. */
  predicate Fits(a: int, holeStart: int, holeEnd: int, rangeStart: int, rangeEnd: int, size: nat, alignment: nat) {
    && Max(holeStart, rangeStart) <= a
    && a + size <= Min(holeEnd, rangeEnd)
    && Aligned(a, alignment)
  }

  /** The placement both callers compute for one hole, in their own wrapping arithmetic: `None` is the `continue`
      of the insertion loop and the `return false` of the scan. */
  function AdjustedStart(holeStart: u64, holeEnd: u64, rangeStart: u64, rangeEnd: u64, size: u64, alignment: u64,
                         high: bool): Option<u64> {
    var adjStart: u64 := Max(holeStart, rangeStart);
    var adjEnd: u64 := Min(holeEnd, rangeEnd);
    if adjEnd <= adjStart || adjEnd - adjStart < size then None else
    var base: u64 := if high then adjEnd - size else adjStart;
    var alignment: u64 := if alignment <= 1 then 0 else alignment;
    if alignment == 0 then Some(base) else
    var rem: u64 := if IsPowerOf2(alignment) then BaseMask(base, alignment) else base % alignment;
    if rem == 0 then Some(base) else
    var down := Sub64(base, rem);
    var a: u64 := if high then down else Add64(down, alignment);
    if a < adjStart || Sub64(adjEnd, a) < size then None else
    if adjEnd <= a || adjEnd - a < size then None else
    Some(a)
  }

  /** `base & (alignment - 1)`. */
  function BaseMask(base: u64, alignment: u64): (rem: u64)
    requires IsPowerOf2(alignment)
    ensures rem == base % alignment
  {
    MaskIsRemainder(base, alignment);
    BitAnd(base, alignment - 1)
  }

  /** The computation finds a placement exactly when the hole admits one, and it is the lowest admitted start, or
      the highest when allocating from the top: an alignment step that wraps or overshoots is always rejected. */
  lemma AdjustedStartExact(holeStart: u64, holeEnd: u64, rangeStart: u64, rangeEnd: u64, size: u64, alignment: u64,
                           high: bool, b: int)
    requires size > 0
    ensures var r := AdjustedStart(holeStart, holeEnd, rangeStart, rangeEnd, size, alignment, high);
            && (r.Some? ==> Fits(r.value, holeStart, holeEnd, rangeStart, rangeEnd, size, alignment))
            && (Fits(b, holeStart, holeEnd, rangeStart, rangeEnd, size, alignment) ==>
                  r.Some? && if high then b <= r.value else r.value <= b)
  {
    var adjStart, adjEnd := Max(holeStart, rangeStart), Min(holeEnd, rangeEnd);
    if adjStart + size <= adjEnd && alignment > 1 {
      var base := if high then adjEnd - size else adjStart;
      MultiplesAround(base, alignment, if b >= 0 && b % alignment == 0 then b else 0);
    }
  }
}
