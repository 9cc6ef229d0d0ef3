/** The static partition of the outer grid axis `[0, n)` among `p` worker
    processes: the BLOCK_LOW, BLOCK_HIGH, BLOCK_SIZE and BLOCK_OWNER macros.
    Every operand the program passes is non-negative, so C's truncating
    division coincides with Dafny's Euclidean `/`. */
module Partition {

  /** First coordinate owned by worker `id`. */
  function BlockLow(id: nat, p: nat, n: nat): nat
    requires p > 0
  {
    id * n / p
  }

  /** Last coordinate owned by worker `id` (one before the next block's start). */
  function BlockHigh(id: nat, p: nat, n: nat): int
    requires p > 0
  {
    BlockLow(id + 1, p, n) - 1
  }

  /** Number of coordinates owned by worker `id`. */
  function BlockSize(id: nat, p: nat, n: nat): int
    requires p > 0
  {
    BlockHigh(id, p, n) - BlockLow(id, p, n) + 1
  }

  /** The worker that owns coordinate `index`. */
  function BlockOwner(index: nat, p: nat, n: nat): nat
    requires p > 0 && n > 0
  {
    (p * (index + 1) - 1) / n
  }

  /** Worker `id`'s block, as a predicate on coordinates. */
  predicate InBlock(c: int, id: nat, p: nat, n: nat)
    requires p > 0
  {
    BlockLow(id, p, n) <= c <= BlockHigh(id, p, n)
  }

  // ---------------------------------------------------------------------
  // Integer-division facts used below.

  /** Euclid's division: quotient and remainder of `x` by a positive `d`. */
  lemma DivMod(x: int, d: int)
    requires d > 0
    ensures x == (x / d) * d + x % d && 0 <= x % d < d
  {
  }

  lemma MulMonotone(a: int, b: int, c: nat)
    requires a <= b
    ensures a * c <= b * c
  {
    var k := b - a;
    assert b * c == a * c + k * c;
  }

  /** Quotient and remainder are the only ones with `x == q * d + r`, `0 <= r < d`. */
  lemma DivUnique(x: int, d: int, q: int, r: int)
    requires d > 0 && x == q * d + r && 0 <= r < d
    ensures x / d == q && x % d == r
  {
    var q' := x / d;
    DivMod(x, d);
    if q > q' {
      MulMonotone(1, q - q', d);
      assert false;
    } else if q < q' {
      MulMonotone(1, q' - q, d);
      assert false;
    }
  }

  lemma DivMonotone(x: int, y: int, d: int)
    requires d > 0 && x <= y
    ensures x / d <= y / d
  {
    DivMod(x, d);
    DivMod(y, d);
    if x / d > y / d {
      MulMonotone(y / d + 1, x / d, d);
      assert false;
    }
  }

  lemma DivAddDivisor(x: int, d: int)
    requires d > 0
    ensures (x + d) / d == x / d + 1
  {
    DivMod(x, d);
    DivUnique(x + d, d, x / d + 1, x % d);
  }

  lemma DivOfMultiple(k: int, d: int)
    requires d > 0
    ensures k * d / d == k
  {
    DivUnique(k * d, d, k, 0);
  }

  /** Floor division splits a sum into the sum of quotients, plus at most one. */
  lemma DivSum(a: int, b: int, d: int)
    requires d > 0
    ensures a / d + b / d <= (a + b) / d <= a / d + b / d + 1
  {
    DivMod(a, d);
    DivMod(b, d);
    var qa, ra := a / d, a % d;
    var qb, rb := b / d, b % d;
    if ra + rb < d {
      DivUnique(a + b, d, qa + qb, ra + rb);
    } else {
      DivUnique(a + b, d, qa + qb + 1, ra + rb - d);
    }
  }

  // ---------------------------------------------------------------------
  // Properties of the partition.

  /** Blocks are ordered: a later worker never starts before an earlier one. */
  lemma BlockLowMonotone(a: nat, b: nat, p: nat, n: nat)
    requires p > 0 && a <= b
    ensures BlockLow(a, p, n) <= BlockLow(b, p, n)
  {
    MulMonotone(a, b, n);
    DivMonotone(a * n, b * n, p);
  }

  /** The first block starts at 0 and the last one ends at `n - 1`. */
  lemma BlockEnds(p: nat, n: nat)
    requires p > 0
    ensures BlockLow(0, p, n) == 0
    ensures BlockHigh(p - 1, p, n) == n - 1
  {
    assert p * n == n * p;
    DivOfMultiple(n, p);
  }

  /** Consecutive blocks are contiguous: each starts right after the previous one ends. */
  lemma BlocksContiguous(id: nat, p: nat, n: nat)
    requires p > 0
    ensures BlockLow(id + 1, p, n) == BlockHigh(id, p, n) + 1
    ensures BlockSize(id, p, n) == BlockLow(id + 1, p, n) - BlockLow(id, p, n)
  {
  }

  /** With no more workers than coordinates, every block is non-empty, and
      block sizes differ from `n / p` by at most one. */
  lemma BlockSizeBalanced(id: nat, p: nat, n: nat)
    requires 1 <= p <= n && id < p
    ensures n / p <= BlockSize(id, p, n) <= n / p + 1
    ensures BlockSize(id, p, n) >= 1
  {
    assert (id + 1) * n == id * n + n;
    DivSum(id * n, n, p);
    assert n / p >= 1 by {
      DivMonotone(p, n, p);
      DivOfMultiple(1, p);
    }
  }

  /** The owner of a coordinate is a valid worker and its block holds the coordinate. */
  lemma BlockOwnerContains(c: nat, p: nat, n: nat)
    requires p > 0 && n > 0 && c < n
    ensures BlockOwner(c, p, n) < p
    ensures InBlock(c, BlockOwner(c, p, n), p, n)
  {
    var o := BlockOwner(c, p, n);
    var t := p * (c + 1) - 1;
    // o < p
    assert p * (c + 1) <= p * n by {
      MulMonotone(c + 1, n, p);
      assert (c + 1) * p == p * (c + 1);
      assert n * p == p * n;
    }
    if o >= p {
      MulMonotone(p, o, n);
      assert false;
    }
    // BlockLow(o) <= c: o * n <= t < p * (c + 1)
    assert o * n <= t;
    assert o * n / p <= c by {
      DivMod(o * n, p);
      if o * n / p > c {
        MulMonotone(c + 1, o * n / p, p);
        assert false;
      }
    }
    // c <= BlockHigh(o): (o + 1) * n > t, so (o + 1) * n >= p * (c + 1)
    assert (o + 1) * n >= p * (c + 1) by {
      assert t < (o + 1) * n;
    }
    assert (o + 1) * n / p >= c + 1 by {
      assert p * (c + 1) == (c + 1) * p;
      DivMonotone((c + 1) * p, (o + 1) * n, p);
      DivOfMultiple(c + 1, p);
    }
  }

  /** Blocks do not overlap: a coordinate lies in worker `id`'s block exactly
      when `id` is its owner. */
  lemma BlockOwnerIff(c: nat, id: nat, p: nat, n: nat)
    requires p > 0 && n > 0 && c < n && id < p
    ensures InBlock(c, id, p, n) <==> id == BlockOwner(c, p, n)
  {
    BlockOwnerContains(c, p, n);
    var o := BlockOwner(c, p, n);
    if InBlock(c, id, p, n) && id != o {
      if id < o {
        BlockLowMonotone(id + 1, o, p, n);
      } else {
        BlockLowMonotone(o + 1, id, p, n);
      }
    }
  }

  /** Total size of the first `k` blocks. */
  function SizeOfFirst(k: nat, p: nat, n: nat): int
    requires p > 0
  {
    if k == 0 then 0 else SizeOfFirst(k - 1, p, n) + BlockSize(k - 1, p, n)
  }

  /** The first `k` blocks together cover `[0, BlockLow(k))`; in particular all
      `p` blocks cover exactly `n` coordinates. */
  lemma {:induction false} SizeOfFirstIsLow(k: nat, p: nat, n: nat)
    requires p > 0
    ensures SizeOfFirst(k, p, n) == BlockLow(k, p, n)
  {
    if k > 0 {
      SizeOfFirstIsLow(k - 1, p, n);
    }
  }

  lemma BlocksCoverAll(p: nat, n: nat)
    requires p > 0
    ensures SizeOfFirst(p, p, n) == n
  {
    SizeOfFirstIsLow(p, p, n);
    BlockEnds(p, n);
  }
}
