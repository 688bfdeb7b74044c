/**
 * The single-ended indexed binary min-heap (`Heap<E>`).
 *
 * The backing `ArrayList` is a `seq<Elem>`; the caller-owned position tracker
 * (`MutableInt<E>`, a get/set pair keyed by element identity) is a
 * `map<nat, nat>` from identity to slot that every operation takes and
 * returns. The sift routines keep the source's "hole" technique: the element
 * being sifted is held aside in `v` while parents (or children) are shifted
 * into the hole, and the loop invariants speak about the sequence with `v`
 * put back into the hole, `a[i := v]`.
 */
module Heap {
  import opened Elements

  /** Java `(i - 1) >> 1`, the parent slot of a non-root slot. */
  function Parent(i: nat): nat
    requires 0 < i
  {
    (i - 1) / 2
  }

  /** Every parent-child pair whose parent is at slot `lo` or beyond is ordered. */
  ghost predicate OrderedFrom(a: seq<Elem>, lo: nat) {
    forall i | 0 < i < |a| && lo <= Parent(i) :: Le(a[Parent(i)], a[i])
  }

  /** The heap invariant: no element is less than the one at its parent slot. */
  ghost predicate HeapOrdered(a: seq<Elem>) {
    OrderedFrom(a, 0)
  }

  /** The children of `j` are not less than the parent of `j`. */
  ghost predicate Bridged(a: seq<Elem>, j: nat) {
    0 < j < |a| ==> forall i | 0 < i < |a| && Parent(i) == j :: Le(a[Parent(j)], a[i])
  }

  /** The children of `j` are not less than `a[j]`. */
  ghost predicate ChildrenOk(a: seq<Elem>, j: nat)
    requires j < |a|
  {
    forall i | 0 < i < |a| && Parent(i) == j :: Le(a[j], a[i])
  }

  /** The state `pushDown` starts from: ordered from `lo` on, except below `j`. */
  ghost predicate DownReady(a: seq<Elem>, lo: nat, j: nat) {
    && lo <= j < |a|
    && (forall i | 0 < i < |a| && lo <= Parent(i) && Parent(i) != j :: Le(a[Parent(i)], a[i]))
    && (0 < j && lo <= Parent(j) ==> Bridged(a, j))
  }

  /** The state `pullUp` starts from: ordered except on the pairs that involve `j`. */
  ghost predicate UpReady(a: seq<Elem>, j: nat) {
    && j < |a|
    && (forall i | 0 < i < |a| && i != j && Parent(i) != j :: Le(a[Parent(i)], a[i]))
    && Bridged(a, j)
  }

  /** The tracker records slot `k` for the element stored there. */
  ghost predicate Placed(a: seq<Elem>, pos: map<nat, nat>, k: nat)
    requires k < |a|
  {
    a[k].id in pos && pos[a[k].id] == k
  }

  /** The tracker is accurate for every stored element. */
  ghost predicate PositionsAccurate(a: seq<Elem>, pos: map<nat, nat>) {
    forall k | 0 <= k < |a| :: Placed(a, pos, k)
  }

  /**
   * What a sift routine started at slot `i` guarantees the tracker: the
   * start slot and every slot whose content changed are recorded, and a slot
   * that was recorded before stays recorded.
   */
  ghost predicate Tracked(q: seq<Elem>, pos: map<nat, nat>, r: seq<Elem>, pos': map<nat, nat>, i: nat)
    requires |r| == |q|
  {
    forall k | 0 <= k < |r| && (k == i || r[k] != q[k] || Placed(q, pos, k)) :: Placed(r, pos', k)
  }

  lemma AccurateIsDistinct(a: seq<Elem>, pos: map<nat, nat>)
    requires PositionsAccurate(a, pos)
    ensures DistinctIds(a)
  {
    forall x, y | 0 <= x < |a| && 0 <= y < |a| && x != y
      ensures a[x].id != a[y].id
    {
      assert Placed(a, pos, x) && Placed(a, pos, y);
    }
  }

  /** The children of slot `j` are exactly `2j+1` and `2j+2`. */
  lemma ChildSlots(j: nat, c: nat)
    requires 0 < c
    ensures Parent(c) == j <==> c == 2 * j + 1 || c == 2 * j + 2
  {
  }

  /** A slot whose first child slot is out of range has no children. */
  lemma Leaf(j: nat, n: nat)
    requires n <= 2 * j + 1
    ensures forall k | 0 < k < n :: Parent(k) != j
  {
  }

  /** The root of a heap is not greater than any stored element. */
  lemma {:induction false} RootIsLeast(a: seq<Elem>, k: nat)
    requires HeapOrdered(a) && k < |a|
    ensures Le(a[0], a[k])
    decreases k
  {
    if k > 0 {
      RootIsLeast(a, Parent(k));
    }
  }

  lemma RootIsLeastOfBag(a: seq<Elem>)
    requires HeapOrdered(a) && |a| > 0
    ensures IsLeast(a[0], multiset(a))
  {
    forall y | y in multiset(a)
      ensures Le(a[0], y)
    {
      var k :| 0 <= k < |a| && a[k] == y;
      RootIsLeast(a, k);
    }
  }

  lemma RootLeastWhenOrdered(a: seq<Elem>)
    requires |a| > 0
    ensures HeapOrdered(a) ==> IsLeast(a[0], multiset(a))
  {
    if HeapOrdered(a) {
      RootIsLeastOfBag(a);
    }
  }

  /** One shift of `pushDown`: the smaller child moves into the hole. */
  lemma DownStep(b: seq<Elem>, lo: nat, j: nat, c: nat)
    requires DownReady(b, lo, j)
    requires 0 < c < |b| && Parent(c) == j
    requires forall i | 0 < i < |b| && Parent(i) == j :: Le(b[c], b[i])
    requires Less(b[c], b[j])
    ensures DownReady(Swap(b, j, c), lo, c)
  {
    var b' := Swap(b, j, c);
    forall i | 0 < i < |b'| && lo <= Parent(i) && Parent(i) != c
      ensures Le(b'[Parent(i)], b'[i])
    {
      if i == c {
      } else if Parent(i) == j {
      } else if i == j {
        assert Bridged(b, j);
      } else {
        assert Parent(i) != j && Parent(i) != c && i != j && i != c;
      }
    }
    forall i | 0 < i < |b'| && Parent(i) == c
      ensures Le(b'[Parent(c)], b'[i])
    {
      assert i != j && i != c;
    }
  }

  /** `pushDown` stops: nothing below `j` is less than `a[j]`. */
  lemma DownStop(b: seq<Elem>, lo: nat, j: nat)
    requires DownReady(b, lo, j) && ChildrenOk(b, j)
    ensures OrderedFrom(b, lo)
  {
  }

  /** One shift of `pullUp`: the parent moves down into the hole. */
  lemma UpStep(b: seq<Elem>, j: nat)
    requires UpReady(b, j) && 0 < j && Less(b[j], b[Parent(j)])
    ensures UpReady(Swap(b, j, Parent(j)), Parent(j))
    ensures ChildrenOk(Swap(b, j, Parent(j)), Parent(j))
  {
    var p := Parent(j);
    var b' := Swap(b, j, p);
    forall i | 0 < i < |b'| && i != p && Parent(i) != p
      ensures Le(b'[Parent(i)], b'[i])
    {
      if Parent(i) == j {
        assert Bridged(b, j);
      } else if i == j {
      } else {
        assert i != j && Parent(i) != j;
      }
    }
    forall i | 0 < i < |b'| && Parent(i) == p
      ensures Le(b'[p], b'[i])
    {
      if i != j {
        assert Le(b[p], b[i]);
      }
    }
    if 0 < p {
      forall i | 0 < i < |b'| && Parent(i) == p
        ensures Le(b'[Parent(p)], b'[i])
      {
        assert Le(b[Parent(p)], b[p]);
        if i != j {
          assert Le(b[p], b[i]);
        }
      }
    }
  }

  /** `pullUp` stops: `a[j]` is not less than its parent. */
  lemma UpStop(b: seq<Elem>, j: nat)
    requires UpReady(b, j) && (j == 0 || Le(b[Parent(j)], b[j]))
    ensures DownReady(b, 0, j)
    ensures ChildrenOk(b, j) ==> HeapOrdered(b)
  {
  }

  /**
   * The tracker while a sift routine started at `i0` has its hole at `i`:
   * every other slot that the routine is responsible for is recorded.
   */
  ghost predicate HoleTracked(q: seq<Elem>, pos: map<nat, nat>, a: seq<Elem>, p: map<nat, nat>, i: nat, i0: nat)
    requires |a| == |q|
  {
    forall k | 0 <= k < |a| && k != i && (k == i0 || a[k] != q[k] || Placed(q, pos, k)) :: Placed(a, p, k)
  }

  /** Shifting the element at `src` into the hole at `i` records it there. */
  lemma ShiftTracked(q: seq<Elem>, pos: map<nat, nat>, a: seq<Elem>, p: map<nat, nat>, i: nat, i0: nat, src: nat, v: Elem)
    requires |a| == |q| && i < |a| && src < |a| && src != i
    requires DistinctIds(a[i := v]) && HoleTracked(q, pos, a, p, i, i0)
    ensures HoleTracked(q, pos, a[i := a[src]], p[a[src].id := i], src, i0)
  {
    var a', p' := a[i := a[src]], p[a[src].id := i];
    forall k | 0 <= k < |a'| && k != src && (k == i0 || a'[k] != q[k] || Placed(q, pos, k))
      ensures Placed(a', p', k)
    {
      if k != i {
        assert a[i := v][k] == a[k] && a[i := v][src] == a[src];
      }
    }
  }

  /** Putting the held element `v` into the hole completes the tracker. */
  lemma FillTracked(q: seq<Elem>, pos: map<nat, nat>, a: seq<Elem>, p: map<nat, nat>, i: nat, i0: nat, v: Elem)
    requires |a| == |q| && i < |a|
    requires DistinctIds(a[i := v]) && HoleTracked(q, pos, a, p, i, i0)
    ensures Tracked(q, pos, a[i := v], p[v.id := i], i0)
  {
    var a', p' := a[i := v], p[v.id := i];
    forall k | 0 <= k < |a'| && (k == i0 || a'[k] != q[k] || Placed(q, pos, k))
      ensures Placed(a', p', k)
    {
      if k != i {
        assert a'[k] == a[k] && a'[i] == v;
        assert Placed(a, p, k);
      }
    }
  }

  /** Shifting the element at `src` into the hole at `i` and parking `v` at `src` is a swap. */
  lemma ShiftIsSwap(a: seq<Elem>, i: nat, src: nat, v: Elem)
    requires i < |a| && src < |a| && i != src
    ensures a[i := a[src]][src := v] == Swap(a[i := v], i, src)
    ensures multiset(a[i := a[src]][src := v]) == multiset(a[i := v])
  {
    assert a[i := a[src]][src := v] == Swap(a[i := v], i, src);
    SwapPermutes(a[i := v], i, src);
  }

  /** The loop state of `pullUp` started at `i0`: `v` is held aside, the hole is at `i`. */
  ghost predicate UpInv(q: seq<Elem>, pos: map<nat, nat>, i0: nat, v: Elem, a: seq<Elem>, p: map<nat, nat>, i: nat) {
    && i <= i0 < |q| && |a| == |q| && v == q[i0]
    && multiset(a[i := v]) == multiset(q)
    && (UpReady(q, i0) ==> UpReady(a[i := v], i) && (i < i0 ==> ChildrenOk(a[i := v], i)))
    && (DistinctIds(q) ==> DistinctIds(a[i := v]) && HoleTracked(q, pos, a, p, i, i0))
  }

  lemma UpAdvance(q: seq<Elem>, pos: map<nat, nat>, i0: nat, v: Elem, a: seq<Elem>, p: map<nat, nat>, i: nat)
    requires UpInv(q, pos, i0, v, a, p, i) && 0 < i && Less(v, a[Parent(i)])
    ensures UpInv(q, pos, i0, v, a[i := a[Parent(i)]], p[a[Parent(i)].id := i], Parent(i))
  {
    var b := a[i := v];
    ShiftIsSwap(a, i, Parent(i), v);
    if UpReady(q, i0) {
      UpStep(b, i);
    }
    if DistinctIds(q) {
      ShiftTracked(q, pos, a, p, i, i0, Parent(i), v);
    }
  }

  lemma UpFinish(q: seq<Elem>, pos: map<nat, nat>, i0: nat, v: Elem, a: seq<Elem>, p: map<nat, nat>, i: nat)
    requires UpInv(q, pos, i0, v, a, p, i) && (i == 0 || !Less(v, a[Parent(i)]))
    ensures multiset(a[i := v]) == multiset(q)
    ensures UpReady(q, i0) ==> DownReady(a[i := v], 0, i)
    ensures UpReady(q, i0) && i < i0 ==> HeapOrdered(a[i := v])
    ensures DistinctIds(q) ==> DistinctIds(a[i := v]) && Tracked(q, pos, a[i := v], p[v.id := i], i0)
  {
    var b := a[i := v];
    if UpReady(q, i0) {
      UpStop(b, i);
    }
    if DistinctIds(q) {
      FillTracked(q, pos, a, p, i, i0, v);
    }
  }

  /**
   * `pullUp(i)`: sift the element at slot `i` towards the root by shifting
   * greater parents down into the hole; returns the slot it lands on.
   */
  method PullUp(q: seq<Elem>, pos: map<nat, nat>, i0: nat) returns (r: seq<Elem>, pos': map<nat, nat>, j: nat)
    requires i0 < |q|
    ensures |r| == |q| && multiset(r) == multiset(q) && j <= i0
    ensures UpReady(q, i0) ==> DownReady(r, 0, j)
    ensures UpReady(q, i0) && j < i0 ==> HeapOrdered(r)
    ensures DistinctIds(q) ==> DistinctIds(r) && Tracked(q, pos, r, pos', i0)
  {
    var a: seq<Elem>, p: map<nat, nat>, i: nat := q, pos, i0;
    var v := a[i];
    assert a[i := v] == q;
    while 0 < i
      invariant UpInv(q, pos, i0, v, a, p, i)
      decreases i
    {
      var iUp := (i - 1) / 2;
      var vUp := a[iUp];
      if !Less(v, vUp) {
        break;
      }
      UpAdvance(q, pos, i0, v, a, p, i);
      a := a[i := vUp];
      p := p[vUp.id := i];
      i := iUp;
    }
    UpFinish(q, pos, i0, v, a, p, i);
    a := a[i := v];
    p := p[v.id := i];
    r, pos', j := a, p, i;
  }

  /** The loop state of `pushDown` started at `i0`: `v` is held aside, the hole is at `i`. */
  ghost predicate DownInv(q: seq<Elem>, pos: map<nat, nat>, i0: nat, lo: nat, v: Elem, a: seq<Elem>, p: map<nat, nat>, i: nat) {
    && i0 <= i < |q| && |a| == |q| && v == q[i0]
    && multiset(a[i := v]) == multiset(q)
    && (DownReady(q, lo, i0) ==> DownReady(a[i := v], lo, i))
    && (DistinctIds(q) ==> DistinctIds(a[i := v]) && HoleTracked(q, pos, a, p, i, i0))
  }

  lemma DownAdvance(q: seq<Elem>, pos: map<nat, nat>, i0: nat, lo: nat, v: Elem, a: seq<Elem>, p: map<nat, nat>, i: nat, c: nat)
    requires DownInv(q, pos, i0, lo, v, a, p, i)
    requires 0 < c < |a| && Parent(c) == i && Less(a[c], v)
    requires forall k | 0 < k < |a| && Parent(k) == i :: Le(a[c], a[k])
    ensures DownInv(q, pos, i0, lo, v, a[i := a[c]], p[a[c].id := i], c)
  {
    var b := a[i := v];
    ShiftIsSwap(a, i, c, v);
    if DownReady(q, lo, i0) {
      forall k | 0 < k < |b| && Parent(k) == i
        ensures Le(b[c], b[k])
      {
        assert b[k] == a[k];
      }
      DownStep(b, lo, i, c);
    }
    if DistinctIds(q) {
      ShiftTracked(q, pos, a, p, i, i0, c, v);
    }
  }

  lemma DownFinish(q: seq<Elem>, pos: map<nat, nat>, i0: nat, lo: nat, v: Elem, a: seq<Elem>, p: map<nat, nat>, i: nat)
    requires DownInv(q, pos, i0, lo, v, a, p, i)
    requires forall k | 0 < k < |a| && Parent(k) == i :: Le(v, a[k])
    ensures multiset(a[i := v]) == multiset(q)
    ensures DownReady(q, lo, i0) ==> OrderedFrom(a[i := v], lo)
    ensures DistinctIds(q) ==> DistinctIds(a[i := v]) && Tracked(q, pos, a[i := v], p[v.id := i], i0)
  {
    var b := a[i := v];
    if DownReady(q, lo, i0) {
      forall k | 0 < k < |b| && Parent(k) == i
        ensures Le(b[i], b[k])
      {
        assert b[k] == a[k];
      }
      DownStop(b, lo, i);
    }
    if DistinctIds(q) {
      FillTracked(q, pos, a, p, i, i0, v);
    }
  }

  /**
   * `pushDown(i)`: sift the element at slot `i` towards the leaves by
   * shifting the smaller child up into the hole while it is less than the
   * element; returns the slot it lands on. `lo` (proof only) is the first
   * slot whose subtree is meant to be a heap.
   */
  method PushDown(q: seq<Elem>, pos: map<nat, nat>, i0: nat, ghost lo: nat) returns (r: seq<Elem>, pos': map<nat, nat>, j: nat)
    requires i0 < |q|
    ensures |r| == |q| && multiset(r) == multiset(q) && i0 <= j < |r|
    ensures DownReady(q, lo, i0) ==> OrderedFrom(r, lo)
    ensures DistinctIds(q) ==> DistinctIds(r) && Tracked(q, pos, r, pos', i0)
  {
    var a: seq<Elem>, p: map<nat, nat>, i: nat := q, pos, i0;
    var v := a[i];
    var iBound := |a|;
    assert a[i := v] == q;
    while true
      invariant DownInv(q, pos, i0, lo, v, a, p, i) && iBound == |a|
      decreases |a| - i
    {
      var iDown := 2 * i + 1;
      if iBound <= iDown {
        Leaf(i, iBound);
        break;
      }
      var vDown := a[iDown];
      var iRight := iDown + 1;
      if iRight < iBound {
        var vRight := a[iRight];
        if Less(vRight, vDown) {
          vDown := vRight;
          iDown := iRight;
        }
      }
      forall k | 0 < k < |a| && Parent(k) == i
        ensures Le(vDown, a[k])
      {
        ChildSlots(i, k);
      }
      if !Less(vDown, v) {
        break;
      }
      DownAdvance(q, pos, i0, lo, v, a, p, i, iDown);
      a := a[i := vDown];
      p := p[vDown.id := i];
      i := iDown;
    }
    DownFinish(q, pos, i0, lo, v, a, p, i);
    a := a[i := v];
    p := p[v.id := i];
    r, pos', j := a, p, i;
  }

  /** `offer(e)`: append `e` and pull it up. */
  method Offer(q: seq<Elem>, pos: map<nat, nat>, e: Elem) returns (r: seq<Elem>, pos': map<nat, nat>)
    ensures |r| == |q| + 1 && multiset(r) == multiset(q) + multiset{e}
    ensures HeapOrdered(q) ==> HeapOrdered(r)
    ensures PositionsAccurate(q, pos) && (forall k | 0 <= k < |q| :: q[k].id != e.id) ==> PositionsAccurate(r, pos')
  {
    var i := |q|;
    var a := q + [e];
    assert multiset(a) == multiset(q) + multiset{e};
    var j;
    r, pos', j := PullUp(a, pos, i);
    if HeapOrdered(q) {
      assert UpReady(a, i);
      Leaf(i, |r|);
      DownStop(r, 0, j);
    }
    if PositionsAccurate(q, pos) && (forall k | 0 <= k < |q| :: q[k].id != e.id) {
      AccurateIsDistinct(q, pos);
      assert forall k | 0 <= k < |q| :: Placed(a, pos, k) by {
        forall k | 0 <= k < |q| ensures Placed(a, pos, k) {
          assert Placed(q, pos, k);
        }
      }
    }
  }

  /** `peek()`: the element at the root, a least element of the heap. */
  function Peek(q: seq<Elem>): (r: Elem)
    requires |q| > 0
    ensures r in q
    ensures HeapOrdered(q) ==> IsLeast(r, multiset(q))
  {
    RootLeastWhenOrdered(q);
    q[0]
  }

  /** Refilling slot `i` keeps an accurate tracker accurate, and leaves slot `i` ready to sift. */
  lemma RefillFacts(q: seq<Elem>, pos: map<nat, nat>, i: nat)
    requires i < |q| - 1
    ensures PositionsAccurate(q, pos) ==> PositionsAccurate(Refill(q, i), pos[q[|q| - 1].id := i]) && DistinctIds(Refill(q, i))
    ensures HeapOrdered(q) ==> UpReady(Refill(q, i), i) && (i == 0 ==> DownReady(Refill(q, i), 0, 0))
  {
    var n := |q| - 1;
    var a, p := Refill(q, i), pos[q[n].id := i];
    if PositionsAccurate(q, pos) {
      AccurateIsDistinct(q, pos);
      forall k | 0 <= k < |a|
        ensures Placed(a, p, k)
      {
        if k != i {
          assert Placed(q, pos, k);
        }
      }
      AccurateIsDistinct(a, p);
    }
    if HeapOrdered(q) {
      RemoveReady(q, i);
    }
  }

  /** A sift routine keeps an accurate tracker accurate. */
  lemma TrackedAccurate(q: seq<Elem>, pos: map<nat, nat>, r: seq<Elem>, pos': map<nat, nat>, i: nat)
    requires |r| == |q| && PositionsAccurate(q, pos) && Tracked(q, pos, r, pos', i)
    ensures PositionsAccurate(r, pos')
  {
    forall k | 0 <= k < |r|
      ensures Placed(r, pos', k)
    {
      assert Placed(q, pos, k);
    }
  }

  /** `poll()`: remove the root, move the last element into its slot and push it down. */
  method Poll(q: seq<Elem>, pos: map<nat, nat>) returns (r: seq<Elem>, pos': map<nat, nat>, e: Elem)
    requires |q| > 0
    ensures e == Peek(q)
    ensures |r| == |q| - 1 && multiset(r) == multiset(q) - multiset{e}
    ensures HeapOrdered(q) ==> IsLeast(e, multiset(q)) && HeapOrdered(r)
    ensures PositionsAccurate(q, pos) ==> PositionsAccurate(r, pos')
  {
    e := q[0];
    var i := |q| - 1;
    if i == 0 {
      r, pos' := [], pos;
      assert q == [e];
    } else {
      var a := Refill(q, 0);
      var p := pos[q[i].id := 0];
      RefillFacts(q, pos, 0);
      RefillRemoves(q, 0);
      var j;
      r, pos', j := PushDown(a, p, 0, 0);
      if PositionsAccurate(q, pos) {
        TrackedAccurate(a, p, r, pos', 0);
      }
    }
    RootLeastWhenOrdered(q);
  }

  /**
   * `removeElem(e)`: find `e` through the tracker, move the last element into
   * its slot, then pull that element up and push it down from where it lands.
   * The answer is always `true`.
   * The tracker has to be accurate, which the source leaves to the caller.
   */
  method RemoveElem(q: seq<Elem>, pos: map<nat, nat>, e: Elem) returns (r: seq<Elem>, pos': map<nat, nat>, removed: bool)
    requires e in q && PositionsAccurate(q, pos)
    ensures removed
    ensures |r| == |q| - 1 && multiset(r) == multiset(q) - multiset{e}
    ensures PositionsAccurate(r, pos')
    ensures HeapOrdered(q) ==> HeapOrdered(r)
  {
    ghost var k0 :| 0 <= k0 < |q| && q[k0] == e;
    assert Placed(q, pos, k0);
    var i := pos[e.id];
    var iBound := |q| - 1;
    if iBound == 0 {
      r, pos' := q[1..], pos;
      assert q == [e];
    } else if i == iBound {
      r, pos' := q[..iBound], pos;
      DropLast(q, pos);
    } else {
      var a := Refill(q, i);
      var p := pos[q[iBound].id := i];
      RefillFacts(q, pos, i);
      RefillRemoves(q, i);
      var a', p', j := PullUp(a, p, i);
      TrackedAccurate(a, p, a', p', i);
      var k;
      r, pos', k := PushDown(a', p', j, 0);
      TrackedAccurate(a', p', r, pos', j);
    }
    removed := true;
  }

  /** Dropping the last slot removes its element and keeps the tracker accurate and the heap ordered. */
  lemma DropLast(q: seq<Elem>, pos: map<nat, nat>)
    requires 0 < |q| && PositionsAccurate(q, pos)
    ensures multiset(q[..|q| - 1]) == multiset(q) - multiset{q[|q| - 1]}
    ensures PositionsAccurate(q[..|q| - 1], pos)
    ensures HeapOrdered(q) ==> HeapOrdered(q[..|q| - 1])
  {
    var r := q[..|q| - 1];
    assert q == r + [q[|q| - 1]];
    forall k | 0 <= k < |r|
      ensures Placed(r, pos, k)
    {
      assert Placed(q, pos, k);
    }
  }

  /** The slot vacated by a removal, refilled by the last element, is ready for `pullUp`. */
  lemma RemoveReady(q: seq<Elem>, i: nat)
    requires HeapOrdered(q) && i < |q| - 1
    ensures UpReady(Refill(q, i), i)
  {
    var a := Refill(q, i);
    if 0 < i {
      forall c | 0 < c < |a| && Parent(c) == i
        ensures Le(a[Parent(i)], a[c])
      {
        assert Le(q[Parent(i)], q[i]) && Le(q[i], q[c]);
      }
    }
  }

  /** `heapify()`: push down every slot from the last to the first. */
  method Heapify(q: seq<Elem>, pos: map<nat, nat>) returns (r: seq<Elem>, pos': map<nat, nat>)
    ensures |r| == |q| && multiset(r) == multiset(q) && HeapOrdered(r)
    ensures DistinctIds(q) ==> PositionsAccurate(r, pos')
  {
    var a, p := q, pos;
    var i: int := |a| - 1;
    while 0 <= i
      invariant -1 <= i < |a| && |a| == |q| && multiset(a) == multiset(q)
      invariant OrderedFrom(a, i + 1)
      invariant DistinctIds(q) ==> DistinctIds(a) && forall k | i < k < |a| :: Placed(a, p, k)
    {
      ghost var before, pBefore := a, p;
      var j;
      a, p, j := PushDown(a, p, i, i);
      if DistinctIds(q) {
        forall k | i <= k < |a|
          ensures Placed(a, p, k)
        {
          if k > i {
            assert Placed(before, pBefore, k);
          }
        }
      }
      i := i - 1;
    }
    r, pos' := a, p;
  }

  /**
   * `addAll(c)`. The source picks the bulk branch (append, then `heapify`)
   * when `n <= |c| * log2(n)` for the combined size `n`, and otherwise offers
   * the elements one at a time; `bulk` stands for that floating-point test.
   */
  method AddAll(q: seq<Elem>, pos: map<nat, nat>, c: seq<Elem>, bulk: bool) returns (r: seq<Elem>, pos': map<nat, nat>)
    ensures |r| == |q| + |c| && multiset(r) == multiset(q) + multiset(c)
    ensures bulk || HeapOrdered(q) ==> HeapOrdered(r)
    ensures PositionsAccurate(q, pos) && DistinctIds(q + c) ==> PositionsAccurate(r, pos')
  {
    if bulk {
      r, pos' := Heapify(q + c, pos);
    } else {
      r, pos' := q, pos;
      ghost var tracked := PositionsAccurate(q, pos) && DistinctIds(q + c);
      for n := 0 to |c|
        invariant |r| == |q| + n && multiset(r) == multiset(q + c[..n])
        invariant HeapOrdered(q) ==> HeapOrdered(r)
        invariant tracked ==> PositionsAccurate(r, pos')
      {
        if tracked {
          forall k | 0 <= k < |r|
            ensures r[k].id != c[n].id
          {
            assert r[k] in multiset(q + c[..n]);
            var m :| 0 <= m < |q| + n && (q + c[..n])[m] == r[k];
            assert (q + c)[m] == r[k] && (q + c)[|q| + n] == c[n];
          }
        }
        assert c[..n + 1] == c[..n] + [c[n]];
        r, pos' := Offer(r, pos', c[n]);
      }
      assert c[..|c|] == c;
    }
  }

  /** `size()`. */
  function Size(q: seq<Elem>): (n: nat)
    ensures n == |multiset(q)|
  {
    |q|
  }

  /** `clear()`: empties the store; the caller-owned tracker is left as it is. */
  method Clear(q: seq<Elem>, pos: map<nat, nat>) returns (r: seq<Elem>, pos': map<nat, nat>)
    ensures multiset(r) == multiset{} && HeapOrdered(r) && pos' == pos
  {
    r, pos' := [], pos;
  }

  /** Polling a heap until it is empty yields its elements in non-decreasing order. */
  method PollAll(q: seq<Elem>, pos: map<nat, nat>) returns (out: seq<Elem>)
    requires HeapOrdered(q)
    ensures multiset(out) == multiset(q) && Ascending(out)
  {
    var h, p := q, pos;
    out := [];
    while |h| > 0
      invariant HeapOrdered(h) && multiset(out) + multiset(h) == multiset(q)
      invariant Ascending(out)
      invariant forall i, y | 0 <= i < |out| && y in multiset(h) :: Le(out[i], y)
      decreases |h|
    {
      ghost var before := h;
      var e;
      h, p, e := Poll(h, p);
      forall i, y | 0 <= i < |out| + 1 && y in multiset(h)
        ensures Le((out + [e])[i], y)
      {
        assert y in multiset(before);
        if i < |out| {
          assert (out + [e])[i] == out[i];
        }
      }
      forall i, j | 0 <= i < j < |out| + 1
        ensures Le((out + [e])[i], (out + [e])[j])
      {
        if j == |out| {
          assert e in multiset(before);
        }
      }
      out := out + [e];
    }
  }
}
