/**
 * Slot arithmetic of the interval heap.
 *
 * The backing array is read as a sequence of intervals: slots `2k` (low end)
 * and `2k+1` (high end) hold interval `k`, and interval `k` hangs below
 * interval `(k-1)/2`. The even slots form a min-heap and the odd slots a
 * max-heap; a final even slot without a partner (the "lone" slot) belongs to
 * both. Java's shift and mask operators are written out on integers: for a
 * non-negative `x`, `x >> 1` is `x / 2`, `x & ~1` clears the low bit and
 * `x | 1` sets it (Dafny's `/` and `%` by 2 agree with the arithmetic shift
 * for negative operands too).
 */
module IntervalIndex {

  /** Java `x >> 1` */
  function Shr1(x: int): int {
    x / 2
  }

  /** Java `x & ~1` */
  function ClearLow(x: int): (r: int)
    ensures r % 2 == 0 && r <= x < r + 2
  {
    x - x % 2
  }

  /** Java `x | 1` */
  function SetLow(x: int): (r: int)
    ensures r % 2 == 1 && r - 1 <= x <= r
  {
    x - x % 2 + 1
  }

  /**
   * Java `((i >> 1) - 1) & ~1`: the min-heap parent of the even slot `i`,
   * the low end of the parent interval. Its min-heap children are exactly
   * `2p + 2` and `2p + 4`.
   */
  function MinParent(i: nat): (p: nat)
    requires 2 <= i && i % 2 == 0
    ensures p % 2 == 0 && p < i
    ensures i == 2 * p + 2 || i == 2 * p + 4
  {
    ClearLow(Shr1(i) - 1)
  }

  /**
   * Java `((i >> 1) - 1) | 1`: the max-heap parent of slot `i` (an odd slot,
   * or the lone last slot), the high end of the parent interval. Its max-heap
   * children are the slots `2p` through `2p + 3`.
   */
  function MaxParent(i: nat): (p: nat)
    requires 2 <= i
    ensures p % 2 == 1 && p < i
    ensures 2 * p <= i <= 2 * p + 3
  {
    SetLow(Shr1(i) - 1)
  }

  /** The two ends of an interval share their parent interval. */
  lemma ParentsOfInterval(i: nat)
    requires 2 <= i && i % 2 == 0
    ensures MaxParent(i) == MinParent(i) + 1
    ensures MaxParent(i + 1) == MaxParent(i)
  {
  }

  /** The even slots whose min-heap parent is `p` are `2p + 2` and `2p + 4`. */
  lemma MinChildren(p: nat, c: nat)
    requires p % 2 == 0 && 2 <= c && c % 2 == 0
    ensures MinParent(c) == p <==> c == 2 * p + 2 || c == 2 * p + 4
  {
  }

  /** The slots whose max-heap parent is `p` are `2p` through `2p + 3`. */
  lemma MaxChildren(p: nat, c: nat)
    requires p % 2 == 1 && 2 <= c
    ensures MaxParent(c) == p <==> 2 * p <= c <= 2 * p + 3
  {
  }

  /** Two distinct slots of the same parity are at least two apart. */
  lemma SameParityGap(k: int, h: int)
    requires k % 2 == h % 2 && k < h
    ensures k + 2 <= h
  {
  }

  /** The slots next to an even slot are odd, and those next to an odd slot are even. */
  lemma Partner(i: int)
    ensures i % 2 == 0 ==> (i + 1) % 2 == 1 && (i - 1) % 2 == 1
    ensures i % 2 == 1 ==> (i - 1) % 2 == 0 && (i + 1) % 2 == 0
  {
  }

  /** Parity of the slots two apart and of the first child slots. */
  lemma ChildSlots(i: int)
    ensures (i + 2) % 2 == i % 2
    ensures (2 * i + 1) % 2 == 1 && (2 * i + 2) % 2 == 0
    ensures (2 * i + 3) % 2 == 1 && (2 * i + 4) % 2 == 0
  {
  }

  /** An even slot `p` with `2p + 2` at or past the end `n` has no min-heap children before `n`. */
  lemma NoMinChildren(p: nat, n: nat)
    requires p % 2 == 0 && n <= 2 * p + 2
    ensures forall d {:trigger MinParent(d)} | 2 <= d && d % 2 == 0 && MinParent(d) == p :: n <= d
  {
  }

  /** An odd slot `p` with `2p` at or past the end `n` has no max-heap children before `n`. */
  lemma NoMaxChildren(p: nat, n: nat)
    requires p % 2 == 1 && n <= 2 * p
    ensures forall d {:trigger MaxParent(d)} | 2 <= d && MaxParent(d) == p :: n <= d
  {
  }
}
