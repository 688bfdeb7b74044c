/**
 * Bulk construction of the interval heap: the source's `heapify`, a rebuild
 * that restores the invariants, and `addAll`.
 *
 * The source's `heapify` walks the intervals from the last to the first,
 * orders each pair, pushes the high end down the max-heap and the low end
 * down the min-heap. It never orders the pair at the slot where the high end
 * comes to rest, and it compares a lone last slot with the slot before it
 * rather than with its max-heap parent, so the three invariants do not
 * always hold afterwards. `HeapifyAsWritten` is that routine, and both the
 * constructor from a collection and the bulk branch of `addAll` run it.
 * `AsWrittenBreaksPair` and `AsWrittenBreaksRegression` exhibit inputs it
 * leaves broken. `RebuildByOffers` builds the heap by offering the elements
 * one at a time, which is what `addAll` does on its other branch; it is the
 * corrected construction, valid for every input.
 */
module IntervalHeapify {
  import opened Elements
  import opened IntervalIndex
  import opened IntervalHeap

  /**
   * The body of the source's `heapify` loop at the even slot `i`, up to the
   * push down the min-heap: order the pair at `i` and push its high end down
   * the max-heap, or, for a lone slot, order it against the slot before it.
   */
  function HeapifyPair(a: seq<Elem>, i: nat): (r: seq<Elem>)
    requires i < |a| && i % 2 == 0
    ensures |r| == |a| && multiset(r) == multiset(a)
  {
    if i + 1 < |a| then
      Partner(i);
      LessSwapPermutes(a, i + 1, i);
      PushDownMaxPermutes(LessSwap(a, i + 1, i).0, i + 1);
      PushDownMax(LessSwap(a, i + 1, i).0, i + 1).0
    else if 0 < i - 1 then
      LessSwapPermutes(a, i - 1, i);
      LessSwap(a, i - 1, i).0
    else
      a
  }

  /** One pass of the source's `heapify` loop body at the even slot `i`, then the passes below it. */
  function HeapifyFrom(a: seq<Elem>, i: int): (r: seq<Elem>)
    requires -2 <= i < |a| && i % 2 == 0
    ensures |r| == |a| && multiset(r) == multiset(a)
    decreases i + 2
  {
    if i < 0 then
      a
    else
      var b := HeapifyPair(a, i);
      ChildSlots(i - 2);
      PushDownMinPermutes(b, i);
      HeapifyFrom(PushDownMin(b, i).0, i - 2)
  }

  /** `heapify()` as the source writes it, starting at the low end of the last interval. */
  function HeapifyAsWritten(a: seq<Elem>): (r: seq<Elem>)
    ensures |r| == |a| && multiset(r) == multiset(a)
  {
    HeapifyFrom(a, ClearLow(|a| - 1))
  }

  /** The four elements with keys 0, 0, 1, 1, in that order. */
  function BrokenInput(): seq<Elem> {
    [Elem(0, 0), Elem(1, 0), Elem(2, 1), Elem(3, 1)]
  }

  /** What the source's `heapify` leaves of `BrokenInput()`: keys 0, 1, 1, 0. */
  function BrokenOutput(): seq<Elem> {
    [Elem(0, 0), Elem(3, 1), Elem(2, 1), Elem(1, 0)]
  }

  /** The pass at slot 2 changes nothing: the interval is ordered and has no children. */
  lemma BrokenPassAtTwo()
    ensures HeapifyFrom(BrokenInput(), 2) == HeapifyFrom(BrokenInput(), 0)
  {
    var a := BrokenInput();
    assert ClearLow(3) == 2;
    assert LessSwap(a, 3, 2) == (a, false);
    assert PushDownMax(a, 3) == (a, 3);
    assert PushDownMin(a, 2) == (a, 2);
  }

  /** At slot 1 the high end is pushed down to slot 3, swapping keys 0 and 1. */
  lemma BrokenPushDownMax()
    ensures PushDownMax(BrokenInput(), 1) == (BrokenOutput(), 3)
  {
    var b := BrokenOutput();
    assert Swap(BrokenInput(), 1, 3) == b;
    assert LessSwap(BrokenInput(), 1, 3) == (b, true);
    assert PushDownMax(b, 3) == (b, 3);
  }

  /** The pass at slot 0 turns the input into the output and ends the loop. */
  lemma BrokenPassAtZero()
    ensures HeapifyFrom(BrokenInput(), 0) == BrokenOutput()
  {
    var a := BrokenInput();
    assert LessSwap(a, 1, 0) == (a, false);
    BrokenPushDownMax();
    assert PushDownMin(BrokenOutput(), 0) == (BrokenOutput(), 0);
  }

  /** Both heap orders hold on the broken result; only the interval at slots 2 and 3 is out of order. */
  lemma BrokenOutputShape()
    ensures MinOrdered(BrokenOutput()) && MaxOrdered(BrokenOutput())
    ensures !PairOk(BrokenOutput(), 2) && !Valid(BrokenOutput())
  {
    assert MinParent(2) == 0 && MaxParent(2) == 1 && MaxParent(3) == 1;
  }

  /**
   * On keys [0, 0, 1, 1] the source's `heapify` leaves keys [0, 1, 1, 0]: the
   * interval at slots 2 and 3 is out of order, so the result is not a valid
   * interval heap although both the min-heap and the max-heap order hold.
   */
  lemma AsWrittenBreaksPair()
    ensures HeapifyAsWritten(BrokenInput()) == BrokenOutput()
    ensures MinOrdered(BrokenOutput()) && MaxOrdered(BrokenOutput())
    ensures !Valid(HeapifyAsWritten(BrokenInput()))
  {
    assert HeapifyAsWritten(BrokenInput()) == HeapifyFrom(BrokenInput(), 2);
    BrokenPassAtTwo();
    BrokenPassAtZero();
    BrokenOutputShape();
  }

  /** The first `pollLast` on the broken result: key 1 comes out, keys 0, 0, 1 stay. */
  lemma BrokenFirstPollLast()
    ensures PollLast(BrokenOutput()) == ([Elem(0, 0), Elem(1, 0), Elem(2, 1)], Elem(3, 1))
  {
    var b := [Elem(0, 0), Elem(1, 0), Elem(2, 1)];
    assert Refill(BrokenOutput(), 1) == b;
    assert PushDownMax(b, 1) == (b, 1);
    assert LessSwap(b, 1, 0) == (b, false);
  }

  /**
   * In that first `pollLast`, `pushDownMax(1)` stops with the lone last slot as
   * its only child and that child greater: the assertion in `pushDownMax`,
   * which `PollLastLoneChild` proves for valid heaps, is false here.
   */
  lemma BrokenPollLastAssert()
    ensures var (c, i) := PushDownMax(Refill(BrokenOutput(), 1), 1);
      i == 1 && 2 * i + 1 == |c| && Less(c[i], c[|c| - 1])
  {
    var b := [Elem(0, 0), Elem(1, 0), Elem(2, 1)];
    assert Refill(BrokenOutput(), 1) == b;
    assert PushDownMax(b, 1) == (b, 1);
  }

  /** The second `pollLast`: key 0 comes out, although key 1 is still stored. */
  lemma BrokenSecondPollLast()
    ensures PollLast([Elem(0, 0), Elem(1, 0), Elem(2, 1)]) == ([Elem(0, 0), Elem(2, 1)], Elem(1, 0))
  {
    var b := [Elem(0, 0), Elem(1, 0), Elem(2, 1)];
    var c := [Elem(0, 0), Elem(2, 1)];
    assert Refill(b, 1) == c;
    assert PushDownMax(c, 1) == (c, 1);
    assert LessSwap(c, 1, 0) == (c, false);
  }

  /**
   * On that result `pollLast` answers with key 1, and a second `pollLast`
   * answers with key 0 while an element with key 1 is still stored: the
   * second answer is not a greatest element.
   */
  lemma AsWrittenPollsWrongMax()
    ensures var h := HeapifyAsWritten(BrokenInput());
      var (h1, x1) := PollLast(h);
      var (h2, x2) := PollLast(h1);
      x1.key == 1 && x2.key == 0 && Elem(2, 1) in h2 && !IsGreatest(x2, multiset(h1))
  {
    AsWrittenBreaksPair();
    BrokenFirstPollLast();
    BrokenSecondPollLast();
    var b := [Elem(0, 0), Elem(1, 0), Elem(2, 1)];
    assert Elem(2, 1) in multiset(b) && Less(Elem(1, 0), Elem(2, 1));
  }

  /** The keys 92, 100, 71, 85, 47, 42, 85, 51, 41, 102, 53 of the library's `heapify` regression test. */
  function RegressionList(): seq<Elem> {
    [Elem(0, 92), Elem(1, 100), Elem(2, 71), Elem(3, 85), Elem(4, 47), Elem(5, 42), Elem(6, 85), Elem(7, 51), Elem(8, 41), Elem(9, 102), Elem(10, 53)]
  }

  /** After the passes at slots 10, 8 and 6: only the interval at slot 6 was swapped. */
  function RegressionAfterSix(): seq<Elem> {
    [Elem(0, 92), Elem(1, 100), Elem(2, 71), Elem(3, 85), Elem(4, 47), Elem(5, 42), Elem(7, 51), Elem(6, 85), Elem(8, 41), Elem(9, 102), Elem(10, 53)]
  }

  /** After the pass at slot 4: the interval at slot 4 was swapped. */
  function RegressionAfterFour(): seq<Elem> {
    [Elem(0, 92), Elem(1, 100), Elem(2, 71), Elem(3, 85), Elem(5, 42), Elem(4, 47), Elem(7, 51), Elem(6, 85), Elem(8, 41), Elem(9, 102), Elem(10, 53)]
  }

  /** In the pass at slot 2, after `pushDownMax(3)`: 102 and 85 exchanged. */
  function RegressionMaxDownAtTwo(): seq<Elem> {
    [Elem(0, 92), Elem(1, 100), Elem(2, 71), Elem(9, 102), Elem(5, 42), Elem(4, 47), Elem(7, 51), Elem(6, 85), Elem(8, 41), Elem(3, 85), Elem(10, 53)]
  }

  /** After the pass at slot 2: 41 moved up into slot 2. */
  function RegressionAfterTwo(): seq<Elem> {
    [Elem(0, 92), Elem(1, 100), Elem(8, 41), Elem(9, 102), Elem(5, 42), Elem(4, 47), Elem(7, 51), Elem(6, 85), Elem(2, 71), Elem(3, 85), Elem(10, 53)]
  }

  /** In the pass at slot 0, after `pushDownMax(1)`: 102 moved up to slot 1. */
  function RegressionMaxDownAtZero(): seq<Elem> {
    [Elem(0, 92), Elem(9, 102), Elem(8, 41), Elem(1, 100), Elem(5, 42), Elem(4, 47), Elem(7, 51), Elem(6, 85), Elem(2, 71), Elem(3, 85), Elem(10, 53)]
  }

  /** In `pushDownMin(0)`, after its first exchange: 41 moved up to slot 0. */
  function RegressionRootSwapped(): seq<Elem> {
    [Elem(8, 41), Elem(9, 102), Elem(0, 92), Elem(1, 100), Elem(5, 42), Elem(4, 47), Elem(7, 51), Elem(6, 85), Elem(2, 71), Elem(3, 85), Elem(10, 53)]
  }

  /** What `heapify` leaves: keys 41, 102, 51, 100, 42, 47, 92, 85, 71, 85, 53. */
  function RegressionOutput(): seq<Elem> {
    [Elem(8, 41), Elem(9, 102), Elem(7, 51), Elem(1, 100), Elem(5, 42), Elem(4, 47), Elem(0, 92), Elem(6, 85), Elem(2, 71), Elem(3, 85), Elem(10, 53)]
  }

  /** The lone slot 10 is not below slot 9, so the pass at slot 10 changes nothing. */
  lemma RegressionPassAtTen()
    ensures HeapifyFrom(RegressionList(), 10) == HeapifyFrom(RegressionList(), 8)
  {
    var a := RegressionList();
    assert LessSwap(a, 9, 10) == (a, false);
    assert HeapifyPair(a, 10) == a;
    assert PushDownMin(a, 10) == (a, 10);
  }

  /** The interval at slot 8 is ordered and has no children. */
  lemma RegressionPassAtEight()
    ensures HeapifyFrom(RegressionList(), 8) == HeapifyFrom(RegressionList(), 6)
  {
    var a := RegressionList();
    assert LessSwap(a, 9, 8) == (a, false);
    assert PushDownMax(a, 9) == (a, 9);
    assert HeapifyPair(a, 8) == a;
    assert PushDownMin(a, 8) == (a, 8);
  }

  /** The interval at slot 6 is reversed and gets swapped; it has no children. */
  lemma RegressionPassAtSix()
    ensures HeapifyFrom(RegressionList(), 6) == HeapifyFrom(RegressionAfterSix(), 4)
  {
    var a, b := RegressionList(), RegressionAfterSix();
    assert Swap(a, 7, 6) == b;
    assert LessSwap(a, 7, 6) == (b, true);
    assert PushDownMax(b, 7) == (b, 7);
    assert PushDownMin(b, 6) == (b, 6);
  }

  /**
   * In the pass at slot 4, `pushDownMax(5)` stops at slot 5, whose only child
   * is the lone last slot, holding a greater key (53 above 47): the
   * assertion in `pushDownMax` does not hold here.
   */
  lemma RegressionLoneAssert()
    ensures LessSwap(RegressionAfterSix(), 5, 4) == (RegressionAfterFour(), true)
    ensures var (c, i) := PushDownMax(RegressionAfterFour(), 5);
      c == RegressionAfterFour() && i == 5 && 2 * i + 1 == |c| && Less(c[i], c[|c| - 1])
  {
    assert Swap(RegressionAfterSix(), 5, 4) == RegressionAfterFour();
    assert PushDownMax(RegressionAfterFour(), 5) == (RegressionAfterFour(), 5);
  }

  /** The pass at slot 4 orders its interval and moves nothing else. */
  lemma RegressionPassAtFour()
    ensures HeapifyFrom(RegressionAfterSix(), 4) == HeapifyFrom(RegressionAfterFour(), 2)
  {
    var b := RegressionAfterFour();
    RegressionLoneAssert();
    assert PushDownMin(b, 4) == (b, 4);
  }

  /** `pushDownMax(3)` in the pass at slot 2: 85 sinks to slot 9. */
  lemma RegressionMaxAtTwo()
    ensures PushDownMax(RegressionAfterFour(), 3) == (RegressionMaxDownAtTwo(), 9)
  {
    var b, c := RegressionAfterFour(), RegressionMaxDownAtTwo();
    assert Swap(b, 3, 9) == c;
    assert LessSwap(b, 3, 9) == (c, true);
    assert PushDownMax(c, 9) == (c, 9);
  }

  /** `pushDownMin(2)` in the pass at slot 2: 71 sinks to slot 8. */
  lemma RegressionMinAtTwo()
    ensures PushDownMin(RegressionMaxDownAtTwo(), 2) == (RegressionAfterTwo(), 8)
  {
    var c, d := RegressionMaxDownAtTwo(), RegressionAfterTwo();
    assert Swap(c, 8, 2) == d;
    assert LessSwap(c, 8, 2) == (d, true);
    assert PushDownMin(d, 8) == (d, 8);
  }

  lemma RegressionPassAtTwo()
    ensures HeapifyFrom(RegressionAfterFour(), 2) == HeapifyFrom(RegressionAfterTwo(), 0)
  {
    var b := RegressionAfterFour();
    assert LessSwap(b, 3, 2) == (b, false);
    RegressionMaxAtTwo();
    RegressionMinAtTwo();
  }

  /** `pushDownMax(1)` in the pass at slot 0: 100 sinks to slot 3 and stops. */
  lemma RegressionMaxAtZero()
    ensures PushDownMax(RegressionAfterTwo(), 1) == (RegressionMaxDownAtZero(), 3)
  {
    var d, e := RegressionAfterTwo(), RegressionMaxDownAtZero();
    assert Swap(d, 1, 3) == e;
    assert LessSwap(d, 1, 3) == (e, true);
    assert LessSwap(e, 3, 7) == (e, false);
    assert PushDownMax(e, 3) == (e, 3);
  }

  /** `pushDownMin(0)` in the pass at slot 0: 92 sinks to slot 6. */
  lemma RegressionMinAtZero()
    ensures PushDownMin(RegressionMaxDownAtZero(), 0) == (RegressionOutput(), 6)
  {
    var e, f, h := RegressionMaxDownAtZero(), RegressionRootSwapped(), RegressionOutput();
    assert Swap(e, 2, 0) == f;
    assert LessSwap(e, 2, 0) == (f, true);
    assert Swap(f, 6, 2) == h;
    assert LessSwap(f, 6, 2) == (h, true);
    assert PushDownMin(h, 6) == (h, 6);
    assert PushDownMin(f, 2) == (h, 6);
  }

  lemma RegressionPassAtZero()
    ensures HeapifyFrom(RegressionAfterTwo(), 0) == RegressionOutput()
  {
    var d := RegressionAfterTwo();
    assert LessSwap(d, 1, 0) == (d, false);
    RegressionMaxAtZero();
    RegressionMinAtZero();
  }

  /** The whole sweep of `heapify` over the regression list. */
  lemma RegressionSweep()
    ensures HeapifyAsWritten(RegressionList()) == RegressionOutput()
  {
    assert ClearLow(10) == 10;
    RegressionPassAtTen();
    RegressionPassAtEight();
    RegressionPassAtSix();
    RegressionPassAtFour();
    RegressionPassAtTwo();
    RegressionPassAtZero();
  }

  /** Slots 6 and 7 hold 92 and 85; slot 10 holds 53, above 47 at its max-heap parent. */
  lemma RegressionOutputBroken()
    ensures !PairOk(RegressionOutput(), 6)
    ensures Less(RegressionOutput()[MaxParent(10)], RegressionOutput()[10])
    ensures !Valid(RegressionOutput())
  {
    assert MaxParent(10) == 5;
  }

  /**
   * The regression test adds its eleven values to an empty heap, which takes
   * the bulk branch of `addAll` (11 is at most 11 log2 11). The result has the
   * interval at slots 6 and 7 reversed (92 above 85) and the lone slot 10
   * above its max-heap parent, slot 5 (53 above 47).
   */
  lemma AsWrittenBreaksRegression()
    ensures var h := AddAll([], RegressionList(), true);
      h == RegressionOutput() && !PairOk(h, 6) && Less(h[MaxParent(10)], h[10]) && !Valid(h)
  {
    assert [] + RegressionList() == RegressionList();
    RegressionSweep();
    RegressionOutputBroken();
  }

  /** Offer the elements of `c` one at a time, in order (`super.addAll`). */
  function OfferAll(a: seq<Elem>, c: seq<Elem>): (r: seq<Elem>)
    ensures |r| == |a| + |c| && multiset(r) == multiset(a) + multiset(c)
    decreases |c|
  {
    if c == [] then
      a
    else
      assert c == [c[0]] + c[1..];
      OfferAll(Offer(a, c[0]), c[1..])
  }

  /** Offering one element after another keeps the invariants. */
  lemma {:induction false} OfferAllValid(a: seq<Elem>, c: seq<Elem>)
    requires Valid(a)
    ensures Valid(OfferAll(a, c))
    decreases |c|
  {
    if c != [] {
      OfferValid(a, c[0]);
      OfferAllValid(Offer(a, c[0]), c[1..]);
    }
  }

  /** A heap built from `a` by offering its elements to an empty heap. */
  function RebuildByOffers(a: seq<Elem>): (r: seq<Elem>)
    ensures |r| == |a| && multiset(r) == multiset(a)
  {
    OfferAll([], a)
  }

  /** The rebuilt heap satisfies all three invariants, whatever the input. */
  lemma RebuildByOffersValid(a: seq<Elem>)
    ensures Valid(RebuildByOffers(a))
  {
    OfferAllValid([], a);
  }

  /**
   * `addAll(c)`: either append everything and run `heapify` (`bulk`, the
   * source's size test, which uses floating-point logarithms) or offer the
   * elements one by one.
   */
  function AddAll(a: seq<Elem>, c: seq<Elem>, bulk: bool): (r: seq<Elem>)
    ensures |r| == |a| + |c| && multiset(r) == multiset(a) + multiset(c)
  {
    if bulk then HeapifyAsWritten(a + c) else OfferAll(a, c)
  }

  /**
   * On the offer branch the invariants hold afterwards. The bulk branch
   * gives no such guarantee: `AddAllBulkBreaks` is a counterexample.
   */
  lemma AddAllValid(a: seq<Elem>, c: seq<Elem>, bulk: bool)
    requires Valid(a)
    ensures !bulk ==> Valid(AddAll(a, c, bulk))
  {
    if !bulk {
      OfferAllValid(a, c);
    }
  }

  /** Adding keys 0, 0, 1, 1 to an empty heap on the bulk branch leaves keys 0, 1, 1, 0, which is not valid. */
  lemma AddAllBulkBreaks()
    ensures AddAll([], BrokenInput(), true) == BrokenOutput()
    ensures !Valid(AddAll([], BrokenInput(), true))
  {
    assert [] + BrokenInput() == BrokenInput();
    AsWrittenBreaksPair();
  }
}
