/**
 * The interval heap drained from either end, and the library's own unit-test
 * data run through it.
 */
module IntervalScenarios {
  import opened Elements
  import opened IntervalIndex
  import opened IntervalHeap
  import opened IntervalHeapify

  /** `pollFirst` until the heap is empty; the answers in the order given. */
  function DrainFirst(a: seq<Elem>): (r: seq<Elem>)
    ensures |r| == |a| && multiset(r) == multiset(a)
    decreases |a|
  {
    if |a| == 0 then
      []
    else
      var (b, x) := PollFirst(a);
      assert multiset(a) == multiset(b) + multiset{x};
      [x] + DrainFirst(b)
  }

  /** `pollLast` until the heap is empty; the answers in the order given. */
  function DrainLast(a: seq<Elem>): (r: seq<Elem>)
    ensures |r| == |a| && multiset(r) == multiset(a)
    decreases |a|
  {
    if |a| == 0 then
      []
    else
      var (b, x) := PollLast(a);
      assert multiset(a) == multiset(b) + multiset{x};
      [x] + DrainLast(b)
  }

  /** Putting a least element in front of an ascending sequence keeps it ascending. */
  lemma ConsAscending(x: Elem, s: seq<Elem>)
    requires Ascending(s) && forall y | y in multiset(s) :: Le(x, y)
    ensures Ascending([x] + s)
  {
    var r := [x] + s;
    forall i, j | 0 <= i < j < |r|
      ensures Le(r[i], r[j])
    {
      assert r[j] == s[j - 1] && r[j] in multiset(s);
      if 0 < i {
        assert r[i] == s[i - 1];
      }
    }
  }

  /** Putting a greatest element in front of a descending sequence keeps it descending. */
  lemma ConsDescending(x: Elem, s: seq<Elem>)
    requires Descending(s) && forall y | y in multiset(s) :: Le(y, x)
    ensures Descending([x] + s)
  {
    var r := [x] + s;
    forall i, j | 0 <= i < j < |r|
      ensures Le(r[j], r[i])
    {
      assert r[j] == s[j - 1] && r[j] in multiset(s);
      if 0 < i {
        assert r[i] == s[i - 1];
      }
    }
  }

  /** Draining a valid heap from the low end yields its contents in ascending key order. */
  lemma {:induction false} DrainFirstAscending(a: seq<Elem>)
    requires Valid(a)
    ensures Ascending(DrainFirst(a))
    decreases |a|
  {
    if |a| > 0 {
      PollFirstValid(a);
      var b := PollFirst(a).0;
      DrainFirstAscending(b);
      ConsAscending(PollFirst(a).1, DrainFirst(b));
    }
  }

  /** Draining a valid heap from the high end yields its contents in descending key order. */
  lemma {:induction false} DrainLastDescending(a: seq<Elem>)
    requires Valid(a)
    ensures Descending(DrainLast(a))
    decreases |a|
  {
    if |a| > 0 {
      PollLastValid(a);
      var b := PollLast(a).0;
      DrainLastDescending(b);
      ConsDescending(PollLast(a).1, DrainLast(b));
    }
  }

  /**
   * When no two stored keys are equal, draining from the low end gives
   * exactly the sorted contents.
   */
  lemma {:induction false} DrainFirstSorted(a: seq<Elem>, sorted: seq<Elem>)
    requires Valid(a) && multiset(a) == multiset(sorted) && StrictlyAscending(sorted)
    ensures DrainFirst(a) == sorted
    decreases |a|
  {
    if |a| > 0 {
      assert |sorted| == |multiset(sorted)|;
      PollFirstValid(a);
      var (b, x) := PollFirst(a);
      LeastOfStrict(sorted, x);
      DrainFirstSorted(b, sorted[1..]);
      assert sorted == [x] + sorted[1..];
    } else {
      assert |sorted| == |multiset(a)|;
    }
  }

  /** The elements of `s` last to first. */
  function Reversed(s: seq<Elem>): (r: seq<Elem>)
    ensures |r| == |s| && forall i | 0 <= i < |s| :: r[i] == s[|s| - 1 - i]
  {
    if s == [] then [] else [s[|s| - 1]] + Reversed(s[..|s| - 1])
  }

  /**
   * When no two stored keys are equal, draining from the high end gives the
   * sorted contents last to first.
   */
  lemma {:induction false} DrainLastSorted(a: seq<Elem>, sorted: seq<Elem>)
    requires Valid(a) && multiset(a) == multiset(sorted) && StrictlyAscending(sorted)
    ensures DrainLast(a) == Reversed(sorted)
    decreases |a|
  {
    if |a| > 0 {
      assert |sorted| == |multiset(sorted)|;
      PollLastValid(a);
      GreatestOfStrict(sorted, PollLast(a).1);
      DrainLastSorted(PollLast(a).0, sorted[..|sorted| - 1]);
    } else {
      assert |sorted| == |multiset(a)|;
    }
  }

  /** The nine test values 1, 7, 5, 3, 8, 2, 4, 6, 0, each with its own identity. */
  function TestData(): seq<Elem>
  {
    [Elem(0, 1), Elem(1, 7), Elem(2, 5), Elem(3, 3), Elem(4, 8), Elem(5, 2), Elem(6, 4), Elem(7, 6), Elem(8, 0)]
  }

  /** The same elements by increasing key: the element at slot `i` has key `i`. */
  function TestDataSorted(): seq<Elem>
  {
    [Elem(8, 0), Elem(0, 1), Elem(5, 2), Elem(3, 3), Elem(6, 4), Elem(2, 5), Elem(7, 6), Elem(1, 7), Elem(4, 8)]
  }

  /** `TestData()` as a union of one-element bags. */
  lemma TestDataBag()
    ensures var t := TestData(); |t| == 9 && multiset(t) == multiset{t[0]} + multiset{t[1]} + multiset{t[2]} + multiset{t[3]} + multiset{t[4]} + multiset{t[5]} + multiset{t[6]} + multiset{t[7]} + multiset{t[8]}
  {
    var t := TestData();
    assert t == [t[0], t[1], t[2], t[3], t[4], t[5], t[6], t[7], t[8]];
  }

  /** `TestDataSorted()` as a union of one-element bags. */
  lemma TestDataSortedBag()
    ensures var s := TestDataSorted(); |s| == 9 && multiset(s) == multiset{s[0]} + multiset{s[1]} + multiset{s[2]} + multiset{s[3]} + multiset{s[4]} + multiset{s[5]} + multiset{s[6]} + multiset{s[7]} + multiset{s[8]}
  {
    var s := TestDataSorted();
    assert s == [s[0], s[1], s[2], s[3], s[4], s[5], s[6], s[7], s[8]];
  }

  /** The rearrangement that sorts `TestData()`, on one-element bags. */
  lemma TestDataReorder(a0: Elem, a1: Elem, a2: Elem, a3: Elem, a4: Elem, a5: Elem, a6: Elem, a7: Elem, a8: Elem)
    ensures multiset{a1} + multiset{a7} + multiset{a5} + multiset{a3} + multiset{a8} + multiset{a2} + multiset{a4} + multiset{a6} + multiset{a0} == multiset{a0} + multiset{a1} + multiset{a2} + multiset{a3} + multiset{a4} + multiset{a5} + multiset{a6} + multiset{a7} + multiset{a8}
  {
  }

  lemma TestDataPermuted()
    ensures multiset(TestData()) == multiset(TestDataSorted())
  {
    var t, s := TestData(), TestDataSorted();
    TestDataBag();
    TestDataSortedBag();
    TestDataReorder(s[0], s[1], s[2], s[3], s[4], s[5], s[6], s[7], s[8]);
    assert t[0] == s[1] && t[1] == s[7] && t[2] == s[5] && t[3] == s[3] && t[4] == s[8];
    assert t[5] == s[2] && t[6] == s[4] && t[7] == s[6] && t[8] == s[0];
  }

  lemma TestDataSortedKeys()
    ensures |TestDataSorted()| == 9 && forall i | 0 <= i < 9 :: TestDataSorted()[i].key == i
  {
  }

  lemma TestDataSortedOrder()
    ensures StrictlyAscending(TestDataSorted())
    ensures Keys(TestDataSorted()) == [0, 1, 2, 3, 4, 5, 6, 7, 8]
  {
    TestDataSortedKeys();
    var k := Keys(TestDataSorted());
    assert k == [k[0], k[1], k[2], k[3], k[4], k[5], k[6], k[7], k[8]];
  }

  lemma TestDataReversedKeys()
    ensures Keys(Reversed(TestDataSorted())) == [8, 7, 6, 5, 4, 3, 2, 1, 0]
  {
    TestDataSortedKeys();
    var k := Keys(Reversed(TestDataSorted()));
    assert k == [k[0], k[1], k[2], k[3], k[4], k[5], k[6], k[7], k[8]];
  }

  /** Any valid heap holding the test data answers `pollFirst` with keys 0, 1, ..., 8 and `pollLast` with 8, 7, ..., 0. */
  lemma DrainTestData(h: seq<Elem>)
    requires Valid(h) && multiset(h) == multiset(TestData())
    ensures Keys(DrainFirst(h)) == [0, 1, 2, 3, 4, 5, 6, 7, 8]
    ensures Keys(DrainLast(h)) == [8, 7, 6, 5, 4, 3, 2, 1, 0]
  {
    TestDataPermuted();
    TestDataSortedOrder();
    TestDataReversedKeys();
    DrainFirstSorted(h, TestDataSorted());
    DrainLastSorted(h, TestDataSorted());
  }

  /** The test data after the passes of `heapify` at slots 8, 6 and 4: only the interval at slot 4 was swapped. */
  function TestDataAfterFour(): seq<Elem>
  {
    [Elem(0, 1), Elem(1, 7), Elem(2, 5), Elem(3, 3), Elem(5, 2), Elem(4, 8), Elem(6, 4), Elem(7, 6), Elem(8, 0)]
  }

  /** In the pass at slot 2, after its interval is swapped. */
  function TestDataPairAtTwo(): seq<Elem>
  {
    [Elem(0, 1), Elem(1, 7), Elem(3, 3), Elem(2, 5), Elem(5, 2), Elem(4, 8), Elem(6, 4), Elem(7, 6), Elem(8, 0)]
  }

  /** In the pass at slot 2, after `pushDownMax(3)`: 5 sank to slot 7. */
  function TestDataMaxDownAtTwo(): seq<Elem>
  {
    [Elem(0, 1), Elem(1, 7), Elem(3, 3), Elem(7, 6), Elem(5, 2), Elem(4, 8), Elem(6, 4), Elem(2, 5), Elem(8, 0)]
  }

  /** After the pass at slot 2: 0 moved up into slot 2. */
  function TestDataAfterTwo(): seq<Elem>
  {
    [Elem(0, 1), Elem(1, 7), Elem(8, 0), Elem(7, 6), Elem(5, 2), Elem(4, 8), Elem(6, 4), Elem(2, 5), Elem(3, 3)]
  }

  /** In the pass at slot 0, after `pushDownMax(1)`: 8 moved up to slot 1. */
  function TestDataMaxDownAtZero(): seq<Elem>
  {
    [Elem(0, 1), Elem(4, 8), Elem(8, 0), Elem(7, 6), Elem(5, 2), Elem(1, 7), Elem(6, 4), Elem(2, 5), Elem(3, 3)]
  }

  /** What the constructor's `heapify` leaves of the test data: keys 0, 8, 1, 6, 2, 7, 4, 5, 3. */
  function TestDataHeap(): seq<Elem>
  {
    [Elem(8, 0), Elem(4, 8), Elem(0, 1), Elem(7, 6), Elem(5, 2), Elem(1, 7), Elem(6, 4), Elem(2, 5), Elem(3, 3)]
  }

  /** The lone slot 8 is not below slot 7, so the pass at slot 8 changes nothing. */
  lemma TestDataPassAtEight()
    ensures HeapifyFrom(TestData(), 8) == HeapifyFrom(TestData(), 6)
  {
    var t := TestData();
    assert LessSwap(t, 7, 8) == (t, false);
    assert HeapifyPair(t, 8) == t;
    assert PushDownMin(t, 8) == (t, 8);
  }

  /** The interval at slot 6 is ordered and has no children. */
  lemma TestDataPassAtSix()
    ensures HeapifyFrom(TestData(), 6) == HeapifyFrom(TestData(), 4)
  {
    var t := TestData();
    assert LessSwap(t, 7, 6) == (t, false);
    assert PushDownMax(t, 7) == (t, 7);
    assert HeapifyPair(t, 6) == t;
    assert PushDownMin(t, 6) == (t, 6);
  }

  /** The interval at slot 4 is reversed and gets swapped; it has no children. */
  lemma TestDataPassAtFour()
    ensures HeapifyFrom(TestData(), 4) == HeapifyFrom(TestDataAfterFour(), 2)
  {
    var t, b := TestData(), TestDataAfterFour();
    assert Swap(t, 5, 4) == b;
    assert LessSwap(t, 5, 4) == (b, true);
    assert PushDownMax(b, 5) == (b, 5);
    assert PushDownMin(b, 4) == (b, 4);
  }

  /** Ordering the interval at slot 2, then `pushDownMax(3)`: 5 sinks to slot 7. */
  lemma TestDataMaxAtTwo()
    ensures HeapifyPair(TestDataAfterFour(), 2) == TestDataMaxDownAtTwo()
  {
    var b, c, e := TestDataAfterFour(), TestDataPairAtTwo(), TestDataMaxDownAtTwo();
    assert Swap(b, 3, 2) == c;
    assert LessSwap(b, 3, 2) == (c, true);
    assert Swap(c, 3, 7) == e;
    assert LessSwap(c, 3, 7) == (e, true);
    assert PushDownMax(e, 7) == (e, 7);
    assert PushDownMax(c, 3) == (e, 7);
  }

  /** `pushDownMin(2)` in the pass at slot 2: 3 sinks to slot 8. */
  lemma TestDataMinAtTwo()
    ensures PushDownMin(TestDataMaxDownAtTwo(), 2) == (TestDataAfterTwo(), 8)
  {
    var e, d := TestDataMaxDownAtTwo(), TestDataAfterTwo();
    assert Swap(e, 8, 2) == d;
    assert LessSwap(e, 8, 2) == (d, true);
    assert PushDownMin(d, 8) == (d, 8);
  }

  lemma TestDataPassAtTwo()
    ensures HeapifyFrom(TestDataAfterFour(), 2) == HeapifyFrom(TestDataAfterTwo(), 0)
  {
    TestDataMaxAtTwo();
    TestDataMinAtTwo();
  }

  /** `pushDownMax(1)` in the pass at slot 0: 7 sinks to slot 5. */
  lemma TestDataMaxAtZero()
    ensures HeapifyPair(TestDataAfterTwo(), 0) == TestDataMaxDownAtZero()
  {
    var d, e := TestDataAfterTwo(), TestDataMaxDownAtZero();
    assert LessSwap(d, 1, 0) == (d, false);
    assert Swap(d, 1, 5) == e;
    assert LessSwap(d, 1, 5) == (e, true);
    assert PushDownMax(e, 5) == (e, 5);
    assert PushDownMax(d, 1) == (e, 5);
  }

  /** `pushDownMin(0)` in the pass at slot 0: 1 sinks to slot 2 and stops above 3 and 4. */
  lemma TestDataMinAtZero()
    ensures PushDownMin(TestDataMaxDownAtZero(), 0) == (TestDataHeap(), 2)
  {
    var e, h := TestDataMaxDownAtZero(), TestDataHeap();
    assert Swap(e, 2, 0) == h;
    assert LessSwap(e, 2, 0) == (h, true);
    assert LessSwap(h, 8, 2) == (h, false);
    assert PushDownMin(h, 2) == (h, 2);
  }

  lemma TestDataPassAtZero()
    ensures HeapifyFrom(TestDataAfterTwo(), 0) == TestDataHeap()
  {
    TestDataMaxAtZero();
    TestDataMinAtZero();
  }

  /** The whole sweep of the constructor's `heapify` over the test data. */
  lemma TestDataSweep()
    ensures HeapifyAsWritten(TestData()) == TestDataHeap()
  {
    assert ClearLow(8) == 8;
    TestDataPassAtEight();
    TestDataPassAtSix();
    TestDataPassAtFour();
    TestDataPassAtTwo();
    TestDataPassAtZero();
  }

  /** The min-heap order of keys 0, 8, 1, 6, 2, 7, 4, 5, 3: slots 2 and 4 hang below slot 0, slots 6 and 8 below slot 2. */
  lemma TestDataHeapMin()
    ensures MinOrdered(TestDataHeap())
  {
    var h := TestDataHeap();
    forall i | 2 <= i < |h| && i % 2 == 0
      ensures Le(h[MinParent(i)], h[i])
    {
      if i < 6 {
        assert i == 2 || i == 4;
        assert MinParent(i) == 0;
      } else {
        assert i == 6 || i == 8;
        assert MinParent(i) == 2;
      }
    }
  }

  /** The max-heap order: slots 3 and 5 hang below slot 1, slot 7 and the lone slot 8 below slot 3. */
  lemma TestDataHeapMax()
    ensures MaxOrdered(TestDataHeap())
  {
    var h := TestDataHeap();
    forall i | 2 <= i && OnMaxSide(|h|, i)
      ensures Le(h[i], h[MaxParent(i)])
    {
      if i < 6 {
        assert i == 3 || i == 5;
        assert MaxParent(i) == 1;
      } else {
        assert i == 7 || i == 8;
        assert MaxParent(i) == 3;
      }
    }
  }

  /** The intervals (0, 8), (1, 6), (2, 7) and (4, 5) are in order. */
  lemma TestDataHeapPairs()
    ensures PairOrdered(TestDataHeap())
  {
    var h := TestDataHeap();
    forall i | 0 <= i && i % 2 == 0
      ensures PairOk(h, i)
    {
      if i + 1 < |h| {
        assert i == 0 || i == 2 || i == 4 || i == 6;
      }
    }
  }

  lemma TestDataHeapValid()
    ensures HeapifyAsWritten(TestData()) == TestDataHeap()
    ensures Valid(TestDataHeap())
  {
    TestDataSweep();
    TestDataHeapMin();
    TestDataHeapMax();
    TestDataHeapPairs();
  }

  /**
   * The heap the constructor builds from the test data answers `pollFirst`
   * with keys 0, 1, ..., 8 and `pollLast` with 8, 7, ..., 0.
   */
  lemma TestDataScenario()
    ensures Keys(DrainFirst(HeapifyAsWritten(TestData()))) == [0, 1, 2, 3, 4, 5, 6, 7, 8]
    ensures Keys(DrainLast(HeapifyAsWritten(TestData()))) == [8, 7, 6, 5, 4, 3, 2, 1, 0]
  {
    TestDataHeapValid();
    DrainTestData(TestDataHeap());
  }

  /** The values 0, 100, 1, 40, 2, 50, 60, offered in that order. */
  function CraftedOffers(): seq<Elem>
  {
    [Elem(0, 0), Elem(1, 100), Elem(2, 1), Elem(3, 40), Elem(4, 2), Elem(5, 50), Elem(6, 60)]
  }

  /** The crafted values by increasing key. */
  function CraftedSorted(): seq<Elem>
  {
    [Elem(0, 0), Elem(2, 1), Elem(4, 2), Elem(3, 40), Elem(5, 50), Elem(6, 60), Elem(1, 100)]
  }

  lemma CraftedSortedOrder()
    ensures StrictlyAscending(CraftedSorted())
    ensures Keys(Reversed(CraftedSorted())) == [100, 60, 50, 40, 2, 1, 0]
  {
    var k := Keys(Reversed(CraftedSorted()));
    assert k == [k[0], k[1], k[2], k[3], k[4], k[5], k[6]];
  }

  /** `CraftedOffers()` as a union of one-element bags. */
  lemma CraftedOffersBag()
    ensures var t := CraftedOffers(); |t| == 7 && multiset(t) == multiset{t[0]} + multiset{t[1]} + multiset{t[2]} + multiset{t[3]} + multiset{t[4]} + multiset{t[5]} + multiset{t[6]}
  {
    var t := CraftedOffers();
    assert t == [t[0], t[1], t[2], t[3], t[4], t[5], t[6]];
  }

  /** `CraftedSorted()` as a union of one-element bags. */
  lemma CraftedSortedBag()
    ensures var s := CraftedSorted(); |s| == 7 && multiset(s) == multiset{s[0]} + multiset{s[1]} + multiset{s[2]} + multiset{s[3]} + multiset{s[4]} + multiset{s[5]} + multiset{s[6]}
  {
    var s := CraftedSorted();
    assert s == [s[0], s[1], s[2], s[3], s[4], s[5], s[6]];
  }

  /** The rearrangement that sorts `CraftedOffers()`, on one-element bags. */
  lemma CraftedReorder(a0: Elem, a1: Elem, a2: Elem, a3: Elem, a4: Elem, a5: Elem, a6: Elem)
    ensures multiset{a0} + multiset{a6} + multiset{a1} + multiset{a3} + multiset{a2} + multiset{a4} + multiset{a5} == multiset{a0} + multiset{a1} + multiset{a2} + multiset{a3} + multiset{a4} + multiset{a5} + multiset{a6}
  {
  }

  lemma CraftedPermuted()
    ensures multiset(CraftedOffers()) == multiset(CraftedSorted())
  {
    var t, s := CraftedOffers(), CraftedSorted();
    CraftedOffersBag();
    CraftedSortedBag();
    CraftedReorder(s[0], s[1], s[2], s[3], s[4], s[5], s[6]);
    assert t[0] == s[0] && t[1] == s[6] && t[2] == s[1] && t[3] == s[3] && t[4] == s[2];
    assert t[5] == s[4] && t[6] == s[5];
  }

  /**
   * Offering values crafted to put 50 and 40 out of order in the max-heap,
   * in that order or any other, leaves a valid heap, which answers
   * `pollLast` with 100, 60, 50, 40, 2, 1, 0.
   */
  lemma CraftedOffersScenario(t: seq<Elem>)
    requires multiset(t) == multiset(CraftedOffers())
    ensures Valid(OfferAll([], t))
    ensures Keys(DrainLast(OfferAll([], t))) == [100, 60, 50, 40, 2, 1, 0]
  {
    OfferAllValid([], t);
    CraftedPermuted();
    CraftedSortedOrder();
    DrainLastSorted(OfferAll([], t), CraftedSorted());
  }
}
