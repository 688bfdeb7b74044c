/**
 * A double-ended queue built from two single-ended queues.
 *
 * Each component is modelled abstractly: the bag of elements it holds and a
 * selector that names the element its `peek`/`poll` would answer for a given
 * bag. `fore` serves the front of the double-ended queue and `back` its rear;
 * every operation is applied to both components, so both hold the same bag.
 * With a least-first `fore` and a greatest-first `back` the pair is a
 * double-ended priority queue.
 */
module DualQueues {
  import opened Elements

  /** A single-ended queue: what it holds, and which element it would hand out first. */
  datatype Component = Component(items: multiset<Elem>, front: multiset<Elem> -> Elem)

  /** The selector always names an element of the bag it is given. */
  ghost predicate SelectsMember(c: Component) {
    forall m: multiset<Elem> | |m| > 0 :: c.front(m) in m
  }

  /** The component is a least-first priority queue. */
  ghost predicate SelectsLeast(c: Component) {
    forall m: multiset<Elem> | |m| > 0 :: IsLeast(c.front(m), m)
  }

  /** The component is a greatest-first priority queue. */
  ghost predicate SelectsGreatest(c: Component) {
    forall m: multiset<Elem> | |m| > 0 :: IsGreatest(c.front(m), m)
  }

  datatype DualQueue = DualQueue(fore: Component, back: Component)

  /** Both components hold the same bag, and each selector names a member. */
  ghost predicate Consistent(d: DualQueue) {
    d.fore.items == d.back.items && SelectsMember(d.fore) && SelectsMember(d.back)
  }

  /** The component's `offer(e)`. */
  function CompOffer(c: Component, e: Elem): (r: Component)
    ensures r.front == c.front && e in r.items
    ensures |r.items| == |c.items| + 1 && r.items - multiset{e} == c.items
  {
    c.(items := c.items + multiset{e})
  }

  /** The component's `peek()`. */
  function CompPeek(c: Component): (r: Elem)
    requires |c.items| > 0
    ensures SelectsMember(c) ==> r in c.items
  {
    c.front(c.items)
  }

  /** The component's `removeElem(e)`: one occurrence of `e` leaves, if there is one. */
  function CompRemove(c: Component, e: Elem): (r: Component)
    ensures r.front == c.front
    ensures e in c.items ==> |r.items| == |c.items| - 1 && r.items + multiset{e} == c.items
    ensures e !in c.items ==> r.items == c.items
  {
    c.(items := c.items - multiset{e})
  }

  /** The component's `poll()`: its front element and the component without it. */
  function CompPoll(c: Component): (r: (Component, Elem))
    requires |c.items| > 0
    ensures r.1 == CompPeek(c) && r.0.front == c.front
    ensures SelectsMember(c) ==> |r.0.items| == |c.items| - 1 && r.0.items + multiset{r.1} == c.items
  {
    var e := CompPeek(c);
    (CompRemove(c, e), e)
  }

  /** The component's `clear()`. */
  function CompClear(c: Component): (r: Component)
    ensures r.front == c.front && |r.items| == 0
  {
    c.(items := multiset{})
  }

  /** `offer(e)`: both components receive `e`. */
  function Offer(d: DualQueue, e: Elem): (r: DualQueue)
    ensures Consistent(d) ==> Consistent(r)
    ensures Size(r) == Size(d) + 1 && e in r.fore.items && e in r.back.items
    ensures r.fore.items - multiset{e} == d.fore.items && r.back.items - multiset{e} == d.back.items
  {
    DualQueue(CompOffer(d.fore, e), CompOffer(d.back, e))
  }

  /** `peekFirst()`: the front of `fore`; nothing changes. */
  function PeekFirst(d: DualQueue): (r: Elem)
    requires Size(d) > 0
    ensures Consistent(d) ==> r in d.fore.items && r in d.back.items
    ensures SelectsLeast(d.fore) ==> IsLeast(r, d.fore.items)
  {
    CompPeek(d.fore)
  }

  /** `peekLast()`: the front of `back`; nothing changes. */
  function PeekLast(d: DualQueue): (r: Elem)
    requires |d.back.items| > 0
    ensures Consistent(d) ==> r in d.fore.items && r in d.back.items
    ensures Consistent(d) && SelectsGreatest(d.back) ==> IsGreatest(r, d.fore.items)
  {
    CompPeek(d.back)
  }

  /** `pollFirst()`: poll `fore`, then remove the same element from `back`. */
  function PollFirst(d: DualQueue): (r: (DualQueue, Elem))
    requires Size(d) > 0
    ensures r.1 == PeekFirst(d)
    ensures Consistent(d) ==> Consistent(r.0) && Size(r.0) == Size(d) - 1
    ensures Consistent(d) ==> r.0.fore.items + multiset{r.1} == d.fore.items
  {
    var (f, e) := CompPoll(d.fore);
    (DualQueue(f, CompRemove(d.back, e)), e)
  }

  /** `pollLast()`: poll `back`, then remove the same element from `fore`. */
  function PollLast(d: DualQueue): (r: (DualQueue, Elem))
    requires |d.back.items| > 0
    ensures r.1 == PeekLast(d)
    ensures Consistent(d) ==> Consistent(r.0) && Size(r.0) == Size(d) - 1
    ensures Consistent(d) ==> r.0.back.items + multiset{r.1} == d.back.items
  {
    var (b, e) := CompPoll(d.back);
    (DualQueue(CompRemove(d.fore, e), b), e)
  }

  /** `removeElem(e)`: one occurrence of `e` leaves both components, if there is one; always answers true. */
  function RemoveElem(d: DualQueue, e: Elem): (r: (DualQueue, bool))
    ensures r.1
    ensures Consistent(d) ==> Consistent(r.0)
    ensures e in d.fore.items ==> Size(r.0) == Size(d) - 1 && r.0.fore.items + multiset{e} == d.fore.items
    ensures e !in d.fore.items ==> r.0.fore.items == d.fore.items
  {
    (DualQueue(CompRemove(d.fore, e), CompRemove(d.back, e)), true)
  }

  /** `size()`: the size of `fore`. */
  function Size(d: DualQueue): (n: nat)
    ensures Consistent(d) ==> n == |d.back.items|
  {
    |d.fore.items|
  }

  /** `isEmpty()`: whether `fore` is empty. */
  function IsEmpty(d: DualQueue): (b: bool)
    ensures b <==> Size(d) == 0
    ensures Consistent(d) ==> (b <==> |d.back.items| == 0)
  {
    |d.fore.items| == 0
  }

  /** `clear()`: both components are emptied. */
  function Clear(d: DualQueue): (r: DualQueue)
    ensures IsEmpty(r) && r.back.items == multiset{}
    ensures Consistent(d) ==> Consistent(r)
  {
    DualQueue(CompClear(d.fore), CompClear(d.back))
  }

  /** A least-first or greatest-first component names a member of every non-empty bag. */
  lemma PriorityComponentsSelectMembers(c: Component)
    ensures SelectsLeast(c) ==> SelectsMember(c)
    ensures SelectsGreatest(c) ==> SelectsMember(c)
  {
  }

  /**
   * With a least-first `fore` and a greatest-first `back` holding the same
   * bag, `pollFirst` answers a least and `pollLast` a greatest element of the
   * whole queue, and either leaves the two components equal.
   */
  lemma DoubleEndedPriority(d: DualQueue)
    requires d.fore.items == d.back.items && SelectsLeast(d.fore) && SelectsGreatest(d.back) && Size(d) > 0
    ensures IsLeast(PollFirst(d).1, d.fore.items) && Consistent(PollFirst(d).0)
    ensures IsGreatest(PollLast(d).1, d.fore.items) && Consistent(PollLast(d).0)
  {
    PriorityComponentsSelectMembers(d.fore);
    PriorityComponentsSelectMembers(d.back);
  }
}
