/**
 * The binary heap on the data of the library's own unit tests.
 */
module HeapScenarios {
  import opened Elements
  import opened Heap

  /** The nine test items, keys 4, 1, 5, 7, 3, 8, 6, 2, 0, each with its own identity. */
  function TestItems(): seq<Elem>
  {
    [Elem(0, 4), Elem(1, 1), Elem(2, 5), Elem(3, 7), Elem(4, 3), Elem(5, 8), Elem(6, 6), Elem(7, 2), Elem(8, 0)]
  }

  /** The same items, by increasing key: the item at slot `i` has key `i`. */
  function SortedItems(): seq<Elem>
  {
    [Elem(8, 0), Elem(1, 1), Elem(7, 2), Elem(4, 3), Elem(0, 4), Elem(2, 5), Elem(6, 6), Elem(3, 7), Elem(5, 8)]
  }

  /** `TestItems()` as a union of one-element bags. */
  lemma TestItemsBag()
    ensures var t := TestItems(); |t| == 9 && multiset(t) == multiset{t[0]} + multiset{t[1]} + multiset{t[2]} + multiset{t[3]} + multiset{t[4]} + multiset{t[5]} + multiset{t[6]} + multiset{t[7]} + multiset{t[8]}
  {
    var t := TestItems();
    assert t == [t[0], t[1], t[2], t[3], t[4], t[5], t[6], t[7], t[8]];
  }

  /** `SortedItems()` as a union of one-element bags. */
  lemma SortedItemsBag()
    ensures var s := SortedItems(); |s| == 9 && multiset(s) == multiset{s[0]} + multiset{s[1]} + multiset{s[2]} + multiset{s[3]} + multiset{s[4]} + multiset{s[5]} + multiset{s[6]} + multiset{s[7]} + multiset{s[8]}
  {
    var s := SortedItems();
    assert s == [s[0], s[1], s[2], s[3], s[4], s[5], s[6], s[7], s[8]];
  }

  /** The rearrangement that sorts `TestItems()`, on one-element bags. */
  lemma TestItemsReorder(a0: Elem, a1: Elem, a2: Elem, a3: Elem, a4: Elem, a5: Elem, a6: Elem, a7: Elem, a8: Elem)
    ensures multiset{a4} + multiset{a1} + multiset{a5} + multiset{a7} + multiset{a3} + multiset{a8} + multiset{a6} + multiset{a2} + multiset{a0} == multiset{a0} + multiset{a1} + multiset{a2} + multiset{a3} + multiset{a4} + multiset{a5} + multiset{a6} + multiset{a7} + multiset{a8}
  {
  }

  /** The test items are a rearrangement of the sorted items. */
  lemma TestItemsPermuted()
    ensures multiset(TestItems()) == multiset(SortedItems())
  {
    var t, s := TestItems(), SortedItems();
    TestItemsBag();
    SortedItemsBag();
    TestItemsReorder(s[0], s[1], s[2], s[3], s[4], s[5], s[6], s[7], s[8]);
    assert t[0] == s[4] && t[1] == s[1] && t[2] == s[5] && t[3] == s[7] && t[4] == s[3];
    assert t[5] == s[8] && t[6] == s[6] && t[7] == s[2] && t[8] == s[0];
  }

  lemma SortedItemsKeys()
    ensures |SortedItems()| == 9 && forall i | 0 <= i < 9 :: SortedItems()[i].key == i
  {
  }

  lemma SortedItemsOrder()
    ensures StrictlyAscending(SortedItems())
    ensures Keys(SortedItems()) == [0, 1, 2, 3, 4, 5, 6, 7, 8]
  {
    SortedItemsKeys();
    var k := Keys(SortedItems());
    assert k == [k[0], k[1], k[2], k[3], k[4], k[5], k[6], k[7], k[8]];
  }

  lemma PollStep(sorted: seq<Elem>, n: nat, e: Elem)
    requires StrictlyAscending(sorted) && n < |sorted| && IsLeast(e, multiset(sorted[n..]))
    ensures multiset(sorted[n..]) - multiset{e} == multiset(sorted[n + 1..])
    ensures Keys(sorted[..n + 1]) == Keys(sorted[..n]) + [e.key]
  {
    LeastOfStrict(sorted[n..], e);
    assert sorted[n..][1..] == sorted[n + 1..];
    assert sorted[..n + 1] == sorted[..n] + [e];
  }

  /**
   * Polling a heap whose contents, in key order, have no two equal keys
   * returns them exactly in that order.
   */
  method PollInOrder(q: seq<Elem>, sorted: seq<Elem>) returns (keys: seq<int>)
    requires HeapOrdered(q) && multiset(q) == multiset(sorted) && StrictlyAscending(sorted)
    ensures keys == Keys(sorted)
  {
    var h, p := q, map[];
    keys := [];
    for n := 0 to |sorted|
      invariant HeapOrdered(h) && multiset(h) == multiset(sorted[n..])
      invariant keys == Keys(sorted[..n])
    {
      assert |h| == |multiset(sorted[n..])|;
      var e;
      h, p, e := Poll(h, p);
      PollStep(sorted, n, e);
      keys := keys + [e.key];
    }
    assert sorted[..|sorted|] == sorted;
  }

  /** Building a heap from the test items and polling nine times yields keys 0 through 8. */
  method PollScenario() returns (keys: seq<int>)
    ensures keys == [0, 1, 2, 3, 4, 5, 6, 7, 8]
  {
    var h, p := Heapify(TestItems(), map[]);
    TestItemsPermuted();
    SortedItemsOrder();
    keys := PollInOrder(h, SortedItems());
  }

  /** Offering the test items one by one into an empty heap keeps it ordered and fully tracked. */
  method OfferScenario() returns (h: seq<Elem>, p: map<nat, nat>)
    ensures multiset(h) == multiset(TestItems()) && HeapOrdered(h) && PositionsAccurate(h, p)
  {
    var items := TestItems();
    h, p := [], map[];
    for n := 0 to 9
      invariant multiset(h) == multiset(items[..n]) && HeapOrdered(h) && PositionsAccurate(h, p)
    {
      forall k | 0 <= k < |h|
        ensures h[k].id != items[n].id
      {
        assert h[k] in multiset(items[..n]);
      }
      assert items[..n + 1] == items[..n] + [items[n]];
      h, p := Offer(h, p, items[n]);
    }
    assert items[..9] == items;
  }
}
