/**
 * The double-ended priority queue `IntervalHeap<E>`.
 *
 * The backing `ArrayList` is a `seq<Elem>`. The three invariants the
 * restoration routines maintain are:
 *  - min order: no even slot is less than its min-heap parent;
 *  - max order: no odd slot, and not the lone last slot, is greater than its
 *    max-heap parent;
 *  - pair order: the low end of every complete interval is not greater than
 *    its high end.
 *
 * Each `while` loop of the source is a tail-recursive function here, so that
 * the routines can be evaluated on concrete arrays. Their contracts are
 * conditional ("if the array is in the state the caller prepares, the result
 * is in the state the caller expects") because the source's `heapify` calls
 * them on arrays that are not in that state.
 */
module IntervalHeap {
  import opened Elements
  import opened IntervalIndex

  /** Slot `i` belongs to the max-heap: an odd slot, or the lone last slot. */
  predicate OnMaxSide(n: nat, i: nat) {
    i < n && (i % 2 == 1 || i == n - 1)
  }

  ghost predicate MinOrdered(a: seq<Elem>) {
    forall i {:trigger a[MinParent(i)]} | 2 <= i < |a| && i % 2 == 0 :: Le(a[MinParent(i)], a[i])
  }

  ghost predicate MaxOrdered(a: seq<Elem>) {
    forall i {:trigger a[MaxParent(i)]} | 2 <= i && OnMaxSide(|a|, i) :: Le(a[i], a[MaxParent(i)])
  }

  /** The interval whose low end is slot `i`, if complete, is in order. */
  ghost predicate PairOk(a: seq<Elem>, i: nat) {
    i + 1 < |a| ==> Le(a[i], a[i + 1])
  }

  ghost predicate PairOrdered(a: seq<Elem>) {
    forall i | 0 <= i && i % 2 == 0 :: PairOk(a, i)
  }

  /** The interval-heap invariant. */
  ghost predicate Valid(a: seq<Elem>) {
    MinOrdered(a) && MaxOrdered(a) && PairOrdered(a)
  }

  /** Min order, except possibly between slot `j` and its parent. */
  ghost predicate MinOrderedExcept(a: seq<Elem>, j: nat) {
    forall i {:trigger a[MinParent(i)]} | 2 <= i < |a| && i % 2 == 0 && i != j :: Le(a[MinParent(i)], a[i])
  }

  /** Min order, except possibly between slot `j` and its children. */
  ghost predicate MinOrderedBelow(a: seq<Elem>, j: nat) {
    forall i {:trigger a[MinParent(i)]} | 2 <= i < |a| && i % 2 == 0 && MinParent(i) != j :: Le(a[MinParent(i)], a[i])
  }

  /** Max order, except possibly between slot `j` and its parent. */
  ghost predicate MaxOrderedExcept(a: seq<Elem>, j: nat) {
    forall i {:trigger a[MaxParent(i)]} | 2 <= i && OnMaxSide(|a|, i) && i != j :: Le(a[i], a[MaxParent(i)])
  }

  /** Max order, except possibly between slot `j` and its children. */
  ghost predicate MaxOrderedAbove(a: seq<Elem>, j: nat) {
    forall i {:trigger a[MaxParent(i)]} | 2 <= i && OnMaxSide(|a|, i) && MaxParent(i) != j :: Le(a[i], a[MaxParent(i)])
  }

  /** Pair order, except possibly for the interval whose low end is slot `j`. */
  ghost predicate PairOrderedExcept(a: seq<Elem>, j: nat) {
    forall i | 0 <= i && i % 2 == 0 && i != j :: PairOk(a, i)
  }

  /** The min-heap parent of `j` is not greater than the children of `j` nor than its partner. */
  ghost predicate MinBridge(a: seq<Elem>, j: nat)
    requires 2 <= j < |a| && j % 2 == 0
  {
    && (forall c {:trigger MinParent(c), a[c]} | 2 <= c < |a| && c % 2 == 0 && MinParent(c) == j :: Le(a[MinParent(j)], a[c]))
    && (j + 1 < |a| ==> Le(a[MinParent(j)], a[j + 1]))
  }

  /** The max-heap parent of `j` is not less than the children of `j` nor than its partner. */
  ghost predicate MaxBridge(a: seq<Elem>, j: nat)
    requires 2 <= j < |a|
  {
    && (forall c {:trigger MaxParent(c), a[c]} | 2 <= c && OnMaxSide(|a|, c) && MaxParent(c) == j :: Le(a[c], a[MaxParent(j)]))
    && (j % 2 == 1 ==> Le(a[j - 1], a[MaxParent(j)]))
  }

  /** What `pullUpMin(j)` starts from: valid except that slot `j` may be less than its parent. */
  ghost predicate MinUpReady(a: seq<Elem>, j: nat) {
    && j < |a| && j % 2 == 0
    && MaxOrdered(a) && PairOrdered(a) && MinOrderedExcept(a, j)
    && (2 <= j ==> MinBridge(a, j))
  }

  /** What `pullUpMax(j)` starts from: valid except that slot `j` may be greater than its parent. */
  ghost predicate MaxUpReady(a: seq<Elem>, j: nat) {
    && OnMaxSide(|a|, j)
    && MinOrdered(a) && PairOrdered(a) && MaxOrderedExcept(a, j)
    && (2 <= j ==> MaxBridge(a, j))
  }

  /**
   * What `pushDownMin(j)` starts from: the element at `j` may be greater than
   * its children and than its partner, and the element it replaced was not
   * greater than the max-heap parent of slot `|a|` (the removed last slot).
   */
  ghost predicate MinDownReady(a: seq<Elem>, j: nat) {
    && j < |a| && j % 2 == 0
    && MaxOrderedExcept(a, j) && PairOrderedExcept(a, j) && MinOrderedBelow(a, j)
    && (2 <= j ==> MinBridge(a, j))
    && (2 <= |a| ==> Le(a[j], a[MaxParent(|a|)]))
  }

  /**
   * What `pushDownMin` leaves at the slot `j` it returns: min and max order
   * hold; only the interval at `j` may be out of order, and only when `j` has
   * no min-heap children (the source's assertion `(i << 1) + 2 > iBound`).
   */
  ghost predicate MinDownDone(a: seq<Elem>, j: nat) {
    && j < |a| && j % 2 == 0
    && MinOrdered(a) && MaxOrdered(a) && PairOrderedExcept(a, j)
    && (2 <= j && j + 1 < |a| ==> Le(a[MinParent(j)], a[j + 1]))
    && (j + 1 < |a| && Less(a[j + 1], a[j]) ==> 2 * j + 2 > |a|)
  }

  /**
   * What `pushDownMax(j)` starts from: the element at `j` may be less than its
   * children and than its partner, and it is not less than the lone slot.
   */
  ghost predicate MaxDownReady(a: seq<Elem>, j: nat) {
    && j < |a| && j % 2 == 1
    && MinOrdered(a) && PairOrderedExcept(a, j - 1) && MaxOrderedAbove(a, j)
    && (2 <= j ==> MaxBridge(a, j))
    && (|a| % 2 == 1 ==> Le(a[|a| - 1], a[j]))
  }

  /**
   * What `pushDownMax` leaves at the slot `j` it returns: min and max order
   * hold; only the interval at `j` may be out of order, and only when `j` has
   * no max-heap children (the source's assertion `(i << 1) + 1 > iBound`).
   * When `j`'s only child would be the lone slot, it is not greater than
   * slot `j` (the assertion in `pushDownMax`).
   */
  ghost predicate MaxDownDone(a: seq<Elem>, j: nat) {
    && j < |a| && j % 2 == 1
    && MinOrdered(a) && MaxOrdered(a) && PairOrderedExcept(a, j - 1)
    && (2 <= j ==> Le(a[j - 1], a[MaxParent(j)]))
    && (Less(a[j], a[j - 1]) ==> 2 * j + 1 > |a|)
    && (2 * j + 1 == |a| ==> Le(a[|a| - 1], a[j]))
  }

  /**
   * `lessSwap(iMax, iMin)`: exchange the two slots when the one meant to be
   * greater is less. Afterwards slot `iMin` is not greater than slot `iMax`.
   */
  function LessSwap(a: seq<Elem>, iMax: nat, iMin: nat): (r: (seq<Elem>, bool))
    requires iMax < |a| && iMin < |a|
    ensures r.1 <==> Less(a[iMax], a[iMin])
    ensures |r.0| == |a| && Le(r.0[iMin], r.0[iMax])
    ensures r.0 == if r.1 then Swap(a, iMax, iMin) else a
  {
    if Less(a[iMax], a[iMin]) then (Swap(a, iMax, iMin), true) else (a, false)
  }

  lemma LessSwapPermutes(a: seq<Elem>, iMax: nat, iMin: nat)
    requires iMax < |a| && iMin < |a|
    ensures multiset(LessSwap(a, iMax, iMin).0) == multiset(a)
  {
    SwapPermutes(a, iMax, iMin);
  }


  lemma MinUpStepMax(a: seq<Elem>, j: nat)
    requires 2 <= j < |a| && j % 2 == 0 && MinUpReady(a, j)
    ensures MaxOrdered(Swap(a, j, MinParent(j)))
  {
    var p := MinParent(j);
    var b := Swap(a, j, p);
    ParentsOfInterval(j);
    forall i | 2 <= i && OnMaxSide(|b|, i)
      ensures Le(b[i], b[MaxParent(i)])
    {
      assert b[MaxParent(i)] == a[MaxParent(i)];
      if i != j {
        assert b[i] == a[i];
      } else {
        assert PairOk(a, p);
      }
    }
  }

  lemma MinUpStepPairs(a: seq<Elem>, j: nat)
    requires 2 <= j < |a| && j % 2 == 0 && MinUpReady(a, j) && Less(a[j], a[MinParent(j)])
    ensures PairOrdered(Swap(a, j, MinParent(j)))
  {
    var p := MinParent(j);
    var b := Swap(a, j, p);
    forall i | 0 <= i && i % 2 == 0
      ensures PairOk(b, i)
    {
      if i + 1 < |b| {
        assert i + 1 != j && i + 1 != p;
        assert b[i + 1] == a[i + 1];
        if i == j {
          assert MinBridge(a, j);
        } else if i == p {
          assert PairOk(a, p);
        } else {
          assert b[i] == a[i];
          assert PairOk(a, i);
        }
      }
    }
  }

  lemma MinUpStepMin(a: seq<Elem>, j: nat)
    requires 2 <= j < |a| && j % 2 == 0 && MinUpReady(a, j) && Less(a[j], a[MinParent(j)])
    ensures MinOrderedExcept(Swap(a, j, MinParent(j)), MinParent(j))
  {
    var p := MinParent(j);
    var b := Swap(a, j, p);
    forall i | 2 <= i < |b| && i % 2 == 0 && i != p
      ensures Le(b[MinParent(i)], b[i])
    {
      if i == j {
      } else if MinParent(i) == p {
        assert b[i] == a[i];
      } else if MinParent(i) == j {
        assert MinBridge(a, j);
        assert b[i] == a[i];
      } else {
        assert b[i] == a[i] && b[MinParent(i)] == a[MinParent(i)];
      }
    }
  }

  lemma MinUpStepBridge(a: seq<Elem>, j: nat)
    requires 2 <= j < |a| && j % 2 == 0 && MinUpReady(a, j) && Less(a[j], a[MinParent(j)])
    requires 2 <= MinParent(j)
    ensures MinBridge(Swap(a, j, MinParent(j)), MinParent(j))
  {
    var p := MinParent(j);
    var b := Swap(a, j, p);
    assert Le(a[MinParent(p)], a[p]);
    forall c | 2 <= c < |b| && c % 2 == 0 && MinParent(c) == p
      ensures Le(b[MinParent(p)], b[c])
    {
      if c != j {
        assert Le(a[p], a[c]) && b[c] == a[c];
      }
    }
    assert PairOk(a, p);
  }

  /** One swap of `pullUpMin` moves the possible violation one level up. */
  lemma MinUpStep(a: seq<Elem>, j: nat)
    requires 2 <= j < |a| && j % 2 == 0 && Less(a[j], a[MinParent(j)])
    ensures MinUpReady(a, j) ==> MinUpReady(Swap(a, j, MinParent(j)), MinParent(j))
  {
    if MinUpReady(a, j) {
      MinUpStepMax(a, j);
      MinUpStepPairs(a, j);
      MinUpStepMin(a, j);
      if 2 <= MinParent(j) {
        MinUpStepBridge(a, j);
      }
    }
  }

  lemma MinUpStop(a: seq<Elem>, j: nat)
    requires j < |a| && j % 2 == 0 && (2 <= j ==> !Less(a[j], a[MinParent(j)]))
    ensures MinUpReady(a, j) ==> Valid(a)
  {
  }

  /**
   * `pullUpMin(i)`: swap the even slot `i` with its min-heap parent while it
   * is less than the parent.
   */
  function PullUpMin(a: seq<Elem>, i: nat): (r: seq<Elem>)
    requires i < |a| && i % 2 == 0
    ensures |r| == |a|
    ensures MinUpReady(a, i) ==> Valid(r)
    decreases i
  {
    if 0 < i then
      var up := MinParent(i);
      var (b, swapped) := LessSwap(a, i, up);
      if swapped then
        MinUpStep(a, i);
        PullUpMin(b, up)
      else
        MinUpStop(a, i);
        a
    else
      MinUpStop(a, i);
      a
  }

  lemma MaxUpStepMin(a: seq<Elem>, j: nat)
    requires 2 <= j && OnMaxSide(|a|, j) && MaxUpReady(a, j) && Less(a[MaxParent(j)], a[j])
    ensures MinOrdered(Swap(a, MaxParent(j), j))
  {
    var p := MaxParent(j);
    var b := Swap(a, p, j);
    forall i | 2 <= i < |b| && i % 2 == 0
      ensures Le(b[MinParent(i)], b[i])
    {
      assert b[MinParent(i)] == a[MinParent(i)];
      if i == j {
        ParentsOfInterval(j);
        assert PairOk(a, p - 1);
      } else {
        assert b[i] == a[i];
      }
    }
  }

  lemma MaxUpStepPairs(a: seq<Elem>, j: nat)
    requires 2 <= j && OnMaxSide(|a|, j) && MaxUpReady(a, j) && Less(a[MaxParent(j)], a[j])
    ensures PairOrdered(Swap(a, MaxParent(j), j))
  {
    var p := MaxParent(j);
    var b := Swap(a, p, j);
    forall i | 0 <= i && i % 2 == 0
      ensures PairOk(b, i)
    {
      if i + 1 < |b| {
        Partner(i);
        assert i != j && i != p;
        assert b[i] == a[i];
        assert PairOk(a, i);
        if i + 1 == j {
          assert MaxBridge(a, j);
          assert b[i + 1] == a[p];
        } else if i + 1 == p {
          assert b[i + 1] == a[j];
        } else {
          assert b[i + 1] == a[i + 1];
        }
      }
    }
  }

  lemma MaxUpStepMax(a: seq<Elem>, j: nat)
    requires 2 <= j && OnMaxSide(|a|, j) && MaxUpReady(a, j) && Less(a[MaxParent(j)], a[j])
    ensures MaxOrderedExcept(Swap(a, MaxParent(j), j), MaxParent(j))
  {
    var p := MaxParent(j);
    var b := Swap(a, p, j);
    forall i | 2 <= i && OnMaxSide(|b|, i) && i != p
      ensures Le(b[i], b[MaxParent(i)])
    {
      if i == j {
      } else if MaxParent(i) == p {
        assert b[i] == a[i];
      } else if MaxParent(i) == j {
        assert MaxBridge(a, j);
        assert b[i] == a[i];
      } else {
        assert b[i] == a[i] && b[MaxParent(i)] == a[MaxParent(i)];
      }
    }
  }

  lemma MaxUpStepBridge(a: seq<Elem>, j: nat)
    requires 2 <= j && OnMaxSide(|a|, j) && MaxUpReady(a, j) && Less(a[MaxParent(j)], a[j])
    requires 2 <= MaxParent(j)
    ensures MaxBridge(Swap(a, MaxParent(j), j), MaxParent(j))
  {
    var p := MaxParent(j);
    var b := Swap(a, p, j);
    assert Le(a[p], a[MaxParent(p)]);
    forall c | 2 <= c && OnMaxSide(|b|, c) && MaxParent(c) == p
      ensures Le(b[c], b[MaxParent(p)])
    {
      if c != j {
        assert Le(a[c], a[p]) && b[c] == a[c];
      }
    }
    assert PairOk(a, p - 1);
  }

  /** One swap of `pullUpMax` moves the possible violation one level up. */
  lemma MaxUpStep(a: seq<Elem>, j: nat)
    requires 2 <= j && OnMaxSide(|a|, j) && Less(a[MaxParent(j)], a[j])
    ensures MaxUpReady(a, j) ==> MaxUpReady(Swap(a, MaxParent(j), j), MaxParent(j))
  {
    if MaxUpReady(a, j) {
      MaxUpStepMin(a, j);
      MaxUpStepPairs(a, j);
      MaxUpStepMax(a, j);
      if 2 <= MaxParent(j) {
        MaxUpStepBridge(a, j);
      }
    }
  }

  lemma MaxUpStop(a: seq<Elem>, j: nat)
    requires OnMaxSide(|a|, j) && (2 <= j ==> !Less(a[MaxParent(j)], a[j]))
    ensures MaxUpReady(a, j) ==> Valid(a)
  {
  }

  /**
   * `pullUpMax(i)`: swap slot `i` (odd, or the lone last slot) with its
   * max-heap parent while it is greater than the parent.
   */
  function PullUpMax(a: seq<Elem>, i: nat): (r: seq<Elem>)
    requires OnMaxSide(|a|, i)
    ensures |r| == |a|
    ensures MaxUpReady(a, i) ==> Valid(r)
    decreases i
  {
    if 1 < i then
      var up := MaxParent(i);
      var (b, swapped) := LessSwap(a, up, i);
      if swapped then
        MaxUpStep(a, i);
        PullUpMax(b, up)
      else
        MaxUpStop(a, i);
        a
    else
      MaxUpStop(a, i);
      a
  }

  /** `c` is the slot `pushDownMin(j)` picks: the lesser of `j`'s min-heap children, the left one on a tie. */
  ghost predicate MinChildOf(a: seq<Elem>, j: nat, c: nat) {
    && (c == 2 * j + 2 || c == 2 * j + 4) && c < |a|
    && Le(a[c], a[2 * j + 2])
    && (2 * j + 4 < |a| ==> Le(a[c], a[2 * j + 4]))
  }

  /** `c` is the slot `pushDownMax(j)` picks: the greater of `j`'s odd children, the left one on a tie. */
  ghost predicate MaxChildOf(a: seq<Elem>, j: nat, c: nat) {
    && (c == 2 * j + 1 || c == 2 * j + 3) && c < |a|
    && Le(a[2 * j + 1], a[c])
    && (2 * j + 3 < |a| ==> Le(a[2 * j + 3], a[c]))
  }

  /** A min-heap child of the even slot `j` is not greater than `j`'s partner. */
  lemma ChildBelowPartner(a: seq<Elem>, j: nat, c: nat)
    requires j % 2 == 0 && (c == 2 * j + 2 || c == 2 * j + 4) && c < |a|
    requires MaxOrderedExcept(a, j) && PairOrderedExcept(a, j)
    ensures Le(a[c], a[j + 1])
  {
    MinChildren(j, c);
    ParentsOfInterval(c);
    if c + 1 < |a| {
      assert PairOk(a, c);
      assert Le(a[c + 1], a[MaxParent(c + 1)]);
    } else {
      assert OnMaxSide(|a|, c);
      assert Le(a[c], a[MaxParent(c)]);
    }
  }

  lemma MinDownStepMax(a: seq<Elem>, j: nat, c: nat)
    requires MinDownReady(a, j) && MinChildOf(a, j, c) && Less(a[c], a[j])
    ensures MaxOrderedExcept(Swap(a, c, j), c)
  {
    var b := Swap(a, c, j);
    forall i | 2 <= i && OnMaxSide(|b|, i) && i != c
      ensures Le(b[i], b[MaxParent(i)])
    {
      assert i != j && b[i] == a[i];
      assert b[MaxParent(i)] == a[MaxParent(i)];
    }
  }

  lemma MinDownStepPairs(a: seq<Elem>, j: nat, c: nat)
    requires MinDownReady(a, j) && MinChildOf(a, j, c) && Less(a[c], a[j])
    ensures PairOrderedExcept(Swap(a, c, j), c)
  {
    var b := Swap(a, c, j);
    forall i | 0 <= i && i % 2 == 0 && i != c
      ensures PairOk(b, i)
    {
      if i + 1 < |b| {
        assert b[i + 1] == a[i + 1];
        if i == j {
          ChildBelowPartner(a, j, c);
        } else {
          assert b[i] == a[i];
          assert PairOk(a, i);
        }
      }
    }
  }

  lemma MinDownStepEdge(a: seq<Elem>, j: nat, c: nat, i: nat)
    requires MinDownReady(a, j) && MinChildOf(a, j, c) && Less(a[c], a[j])
    requires 2 <= i < |a| && i % 2 == 0 && MinParent(i) != c
    ensures Le(Swap(a, c, j)[MinParent(i)], Swap(a, c, j)[i])
  {
    var b := Swap(a, c, j);
    ChildSlots(j);
    MinChildren(j, c);
    MinChildren(j, i);
    if i == c {
    } else if i == j {
      assert MinBridge(a, j);
      assert b[MinParent(j)] == a[MinParent(j)];
      assert Le(a[MinParent(j)], a[c]);
    } else if MinParent(i) == j {
      assert b[i] == a[i];
    } else {
      assert b[i] == a[i] && b[MinParent(i)] == a[MinParent(i)];
    }
  }

  lemma MinDownStepMin(a: seq<Elem>, j: nat, c: nat)
    requires MinDownReady(a, j) && MinChildOf(a, j, c) && Less(a[c], a[j])
    ensures MinOrderedBelow(Swap(a, c, j), c)
  {
    forall i | 2 <= i < |a| && i % 2 == 0 && MinParent(i) != c
      ensures Le(Swap(a, c, j)[MinParent(i)], Swap(a, c, j)[i])
    {
      MinDownStepEdge(a, j, c, i);
    }
  }

  lemma MinDownStepBridge(a: seq<Elem>, j: nat, c: nat)
    requires MinDownReady(a, j) && MinChildOf(a, j, c) && Less(a[c], a[j])
    ensures MinBridge(Swap(a, c, j), c)
  {
    var b := Swap(a, c, j);
    assert MinParent(c) == j;
    forall d | 2 <= d < |b| && d % 2 == 0 && MinParent(d) == c
      ensures Le(b[MinParent(c)], b[d])
    {
      assert b[d] == a[d];
    }
    assert PairOk(a, c);
  }

  /** One swap of `pushDownMin` moves the element being pushed one level down. */
  lemma MinDownStep(a: seq<Elem>, j: nat, c: nat)
    requires MinChildOf(a, j, c) && Less(a[c], a[j])
    ensures MinDownReady(a, j) ==> MinDownReady(Swap(a, c, j), c)
  {
    if MinDownReady(a, j) {
      MinDownStepMax(a, j, c);
      MinDownStepPairs(a, j, c);
      MinDownStepMin(a, j, c);
      MinDownStepBridge(a, j, c);
      var b := Swap(a, c, j);
      if 2 <= |b| {
        assert b[MaxParent(|b|)] == a[MaxParent(|a|)];
      }
    }
  }

  /** `pushDownMin` stops at a slot without min-heap children. */
  lemma MinDownLeafMax(a: seq<Elem>, j: nat)
    requires MinDownReady(a, j)
    ensures MaxOrdered(a)
  {
    forall i | 2 <= i && OnMaxSide(|a|, i)
      ensures Le(a[i], a[MaxParent(i)])
    {
      if i == j {
        ParentsOfInterval(j);
        assert MaxParent(|a|) == MaxParent(j);
      }
    }
  }

  lemma MinDownLeaf(a: seq<Elem>, j: nat)
    requires j < |a| && j % 2 == 0 && |a| <= 2 * j + 2
    ensures MinDownReady(a, j) ==> MinDownDone(a, j)
  {
    if MinDownReady(a, j) {
      forall i | 2 <= i < |a| && i % 2 == 0
        ensures Le(a[MinParent(i)], a[i])
      {
        assert MinParent(i) != j;
      }
      MinDownLeafMax(a, j);
      if j + 1 < |a| && 2 * j + 2 == |a| {
        assert MaxParent(|a|) == j + 1;
      }
    }
  }

  /** `pushDownMin` stops when the lesser child is not less than the element pushed. */
  lemma MinDownSettled(a: seq<Elem>, j: nat, c: nat)
    requires MinChildOf(a, j, c) && !Less(a[c], a[j])
    ensures MinDownReady(a, j) ==> MinDownDone(a, j)
  {
    if MinDownReady(a, j) {
      MinChildren(j, c);
      forall i | 2 <= i < |a| && i % 2 == 0
        ensures Le(a[MinParent(i)], a[i])
      {
        MinChildren(j, i);
        if MinParent(i) == j {
          assert Le(a[j], a[c]) && Le(a[c], a[i]);
        }
      }
      ChildBelowPartner(a, j, c);
    }
  }

  /**
   * `pushDownMin(i)`: swap the element at the even slot `i` with the lesser of
   * its min-heap children while that child is less. Returns the final array
   * and the slot where the element came to rest.
   */
  function PushDownMin(a: seq<Elem>, i: nat): (r: (seq<Elem>, nat))
    requires i < |a| && i % 2 == 0
    ensures |r.0| == |a|
    ensures i <= r.1 < |a| && r.1 % 2 == 0
    ensures MinDownReady(a, i) ==> MinDownDone(r.0, r.1)
    decreases |a| - i
  {
    var down := 2 * i + 2;
    ChildSlots(i);
    if |a| <= down then
      MinDownLeaf(a, i);
      (a, i)
    else
      var c := if down + 2 < |a| && Less(a[down + 2], a[down]) then down + 2 else down;
      var (b, swapped) := LessSwap(a, c, i);
      if swapped then
        MinDownStep(a, i, c);
        PushDownMin(b, c)
      else
        MinDownSettled(a, i, c);
        (a, i)
  }

  /** The low end of the interval at the odd slot `j` is not greater than `j`'s odd children. */
  lemma PartnerBelowChild(a: seq<Elem>, j: nat, c: nat)
    requires j % 2 == 1 && (c == 2 * j + 1 || c == 2 * j + 3) && c < |a|
    requires MinOrdered(a) && PairOrderedExcept(a, j - 1)
    ensures Le(a[j - 1], a[c])
  {
    MinChildren(j - 1, c - 1);
    assert Le(a[MinParent(c - 1)], a[c - 1]);
    assert PairOk(a, c - 1);
  }

  lemma MaxDownStepPairs(a: seq<Elem>, j: nat, c: nat)
    requires MaxDownReady(a, j) && MaxChildOf(a, j, c) && Less(a[j], a[c])
    ensures PairOrderedExcept(Swap(a, j, c), c - 1)
  {
    var b := Swap(a, j, c);
    forall i | 0 <= i && i % 2 == 0 && i != c - 1
      ensures PairOk(b, i)
    {
      if i + 1 < |b| {
        assert b[i] == a[i];
        if i == j - 1 {
          PartnerBelowChild(a, j, c);
        } else {
          assert b[i + 1] == a[i + 1];
          assert PairOk(a, i);
        }
      }
    }
  }

  lemma MaxDownStepMax(a: seq<Elem>, j: nat, c: nat)
    requires MaxDownReady(a, j) && MaxChildOf(a, j, c) && Less(a[j], a[c])
    ensures MaxOrderedAbove(Swap(a, j, c), c)
  {
    var b := Swap(a, j, c);
    MaxChildren(j, c);
    forall i | 2 <= i && OnMaxSide(|b|, i) && MaxParent(i) != c
      ensures Le(b[i], b[MaxParent(i)])
    {
      MaxChildren(j, i);
      if i == c {
      } else if i == j {
        assert MaxBridge(a, j);
        assert b[MaxParent(j)] == a[MaxParent(j)];
        assert Le(a[c], a[MaxParent(j)]);
      } else if MaxParent(i) == j {
        assert b[i] == a[i];
        if i % 2 == 0 {
          assert i == |a| - 1;
          assert Le(a[i], a[j]);
        }
      } else {
        assert b[i] == a[i] && b[MaxParent(i)] == a[MaxParent(i)];
      }
    }
  }

  lemma MaxDownStepBridge(a: seq<Elem>, j: nat, c: nat)
    requires MaxDownReady(a, j) && MaxChildOf(a, j, c) && Less(a[j], a[c])
    ensures MaxBridge(Swap(a, j, c), c)
  {
    var b := Swap(a, j, c);
    MaxChildren(j, c);
    forall d | 2 <= d && OnMaxSide(|b|, d) && MaxParent(d) == c
      ensures Le(b[d], b[MaxParent(c)])
    {
      assert b[d] == a[d];
    }
    assert PairOk(a, c - 1);
  }

  /** One swap of `pushDownMax` moves the element being pushed one level down. */
  lemma MaxDownStep(a: seq<Elem>, j: nat, c: nat)
    requires MaxChildOf(a, j, c) && Less(a[j], a[c])
    ensures MaxDownReady(a, j) ==> MaxDownReady(Swap(a, j, c), c)
  {
    if MaxDownReady(a, j) {
      var b := Swap(a, j, c);
      ChildSlots(j);
      assert MinOrdered(b) by {
        forall i | 2 <= i < |b| && i % 2 == 0
          ensures Le(b[MinParent(i)], b[i])
        {
          assert b[i] == a[i] && b[MinParent(i)] == a[MinParent(i)];
        }
      }
      MaxDownStepPairs(a, j, c);
      MaxDownStepMax(a, j, c);
      MaxDownStepBridge(a, j, c);
    }
  }

  /** `pushDownMax` stops at a slot without odd children. */
  lemma MaxDownLeaf(a: seq<Elem>, j: nat)
    requires j < |a| && j % 2 == 1 && |a| <= 2 * j + 1
    ensures MaxDownReady(a, j) ==> MaxDownDone(a, j)
  {
    if MaxDownReady(a, j) {
      forall i | 2 <= i && OnMaxSide(|a|, i)
        ensures Le(a[i], a[MaxParent(i)])
      {
        if MaxParent(i) == j {
          assert i == |a| - 1;
        }
      }
      if 2 * j + 1 == |a| {
        MinChildren(j - 1, 2 * j);
        assert Le(a[MinParent(2 * j)], a[2 * j]);
      }
    }
  }

  /** `pushDownMax` stops when the greater odd child is not greater than the element pushed. */
  lemma MaxDownSettled(a: seq<Elem>, j: nat, c: nat)
    requires MaxChildOf(a, j, c) && !Less(a[j], a[c])
    ensures MaxDownReady(a, j) ==> MaxDownDone(a, j)
  {
    if MaxDownReady(a, j) {
      MaxChildren(j, c);
      forall i | 2 <= i && OnMaxSide(|a|, i)
        ensures Le(a[i], a[MaxParent(i)])
      {
        MaxChildren(j, i);
        if MaxParent(i) == j && i % 2 == 0 {
          assert i == |a| - 1;
        }
      }
      PartnerBelowChild(a, j, c);
    }
  }

  /**
   * `pushDownMax(i)`: swap the element at the odd slot `i` with the greater of
   * its odd children while that child is greater. Returns the final array and
   * the slot where the element came to rest.
   */
  function PushDownMax(a: seq<Elem>, i: nat): (r: (seq<Elem>, nat))
    requires i < |a| && i % 2 == 1
    ensures |r.0| == |a|
    ensures i <= r.1 < |a| && r.1 % 2 == 1
    ensures MaxDownReady(a, i) ==> MaxDownDone(r.0, r.1)
    decreases |a| - i
  {
    var down := 2 * i + 1;
    ChildSlots(i);
    if |a| <= down then
      MaxDownLeaf(a, i);
      (a, i)
    else
      var c := if down + 2 < |a| && Less(a[down], a[down + 2]) then down + 2 else down;
      var (b, swapped) := LessSwap(a, i, c);
      if swapped then
        MaxDownStep(a, i, c);
        PushDownMax(b, c)
      else
        MaxDownSettled(a, i, c);
        (a, i)
  }

  /** `pullUpMin` only exchanges elements. */
  lemma {:induction false} PullUpMinPermutes(a: seq<Elem>, i: nat)
    requires i < |a| && i % 2 == 0
    ensures multiset(PullUpMin(a, i)) == multiset(a)
    decreases i
  {
    if 0 < i && Less(a[i], a[MinParent(i)]) {
      SwapPermutes(a, i, MinParent(i));
      PullUpMinPermutes(Swap(a, i, MinParent(i)), MinParent(i));
    }
  }

  /** `pullUpMax` only exchanges elements. */
  lemma {:induction false} PullUpMaxPermutes(a: seq<Elem>, i: nat)
    requires OnMaxSide(|a|, i)
    ensures multiset(PullUpMax(a, i)) == multiset(a)
    decreases i
  {
    if 1 < i && Less(a[MaxParent(i)], a[i]) {
      SwapPermutes(a, MaxParent(i), i);
      PullUpMaxPermutes(Swap(a, MaxParent(i), i), MaxParent(i));
    }
  }

  /** `pushDownMin` only exchanges elements. */
  lemma {:induction false} PushDownMinPermutes(a: seq<Elem>, i: nat)
    requires i < |a| && i % 2 == 0
    ensures multiset(PushDownMin(a, i).0) == multiset(a)
    decreases |a| - i
  {
    var down := 2 * i + 2;
    ChildSlots(i);
    if down < |a| {
      var c := if down + 2 < |a| && Less(a[down + 2], a[down]) then down + 2 else down;
      if Less(a[c], a[i]) {
        SwapPermutes(a, c, i);
        PushDownMinPermutes(Swap(a, c, i), c);
      }
    }
  }

  /** `pushDownMax` only exchanges elements. */
  lemma {:induction false} PushDownMaxPermutes(a: seq<Elem>, i: nat)
    requires i < |a| && i % 2 == 1
    ensures multiset(PushDownMax(a, i).0) == multiset(a)
    decreases |a| - i
  {
    var down := 2 * i + 1;
    ChildSlots(i);
    if down < |a| {
      var c := if down + 2 < |a| && Less(a[down], a[down + 2]) then down + 2 else down;
      if Less(a[i], a[c]) {
        SwapPermutes(a, i, c);
        PushDownMaxPermutes(Swap(a, i, c), c);
      }
    }
  }

  lemma ValidMinUpReady(a: seq<Elem>, j: nat)
    requires Valid(a) && j < |a| && j % 2 == 0
    ensures MinUpReady(a, j)
  {
    if 2 <= j {
      var p := MinParent(j);
      assert Le(a[p], a[j]);
      forall c | 2 <= c < |a| && c % 2 == 0 && MinParent(c) == j
        ensures Le(a[p], a[c])
      {
        assert Le(a[j], a[c]);
      }
      assert PairOk(a, j);
    }
  }

  lemma ValidMaxUpReady(a: seq<Elem>, j: nat)
    requires Valid(a) && OnMaxSide(|a|, j)
    ensures MaxUpReady(a, j)
  {
    if 2 <= j {
      var p := MaxParent(j);
      assert Le(a[j], a[p]);
      forall c | 2 <= c && OnMaxSide(|a|, c) && MaxParent(c) == j
        ensures Le(a[c], a[p])
      {
        assert Le(a[c], a[j]);
      }
      if j % 2 == 1 {
        assert PairOk(a, j - 1);
      }
    }
  }

  /** Following min-heap parents and partners, every slot is reached from slot 0 without decreasing. */
  lemma {:induction false} MinRootBelow(a: seq<Elem>, k: nat)
    requires MinOrdered(a) && PairOrdered(a) && k < |a|
    ensures Le(a[0], a[k])
    decreases k
  {
    if k % 2 == 1 {
      assert PairOk(a, k - 1);
      MinRootBelow(a, k - 1);
    } else if 2 <= k {
      assert Le(a[MinParent(k)], a[k]);
      MinRootBelow(a, MinParent(k));
    }
  }

  /** Following max-heap parents and partners, slot 1 is reached from every slot without decreasing. */
  lemma {:induction false} MaxRootAbove(a: seq<Elem>, k: nat)
    requires MaxOrdered(a) && PairOrdered(a) && 2 <= |a| && k < |a|
    ensures Le(a[k], a[1])
    decreases k
  {
    if k == 0 {
      assert PairOk(a, 0);
    } else if 2 <= k {
      if OnMaxSide(|a|, k) {
        assert Le(a[k], a[MaxParent(k)]);
        MaxRootAbove(a, MaxParent(k));
      } else {
        assert PairOk(a, k);
        assert Le(a[k + 1], a[MaxParent(k + 1)]);
        MaxRootAbove(a, MaxParent(k + 1));
      }
    }
  }

  /** A valid interval heap keeps its least element at slot 0. */
  lemma LeastAtFront(a: seq<Elem>)
    requires 0 < |a|
    ensures Valid(a) ==> IsLeast(a[0], multiset(a))
  {
    if Valid(a) {
      forall y | y in multiset(a)
        ensures Le(a[0], y)
      {
        var k :| 0 <= k < |a| && a[k] == y;
        MinRootBelow(a, k);
      }
    }
  }

  /** A valid interval heap keeps its greatest element at slot 1, or at slot 0 when it holds one element. */
  lemma GreatestAtBack(a: seq<Elem>)
    requires 0 < |a|
    ensures Valid(a) ==> IsGreatest(if |a| < 2 then a[0] else a[1], multiset(a))
  {
    if Valid(a) {
      forall y | y in multiset(a)
        ensures Le(y, if |a| < 2 then a[0] else a[1])
      {
        var k :| 0 <= k < |a| && a[k] == y;
        if 2 <= |a| {
          MaxRootAbove(a, k);
        }
      }
    }
  }

  /** `peekFirst()`; an empty heap is outside the precondition (the source throws). */
  function PeekFirst(a: seq<Elem>): (r: Elem)
    requires 0 < |a|
    ensures Valid(a) ==> IsLeast(r, multiset(a))
  {
    LeastAtFront(a);
    a[0]
  }

  /** `peekLast()`; an empty heap is outside the precondition (the source throws). */
  function PeekLast(a: seq<Elem>): (r: Elem)
    requires 0 < |a|
    ensures Valid(a) ==> IsGreatest(r, multiset(a))
  {
    GreatestAtBack(a);
    if |a| < 2 then a[0] else a[1]
  }
  /**
   * `offer(e)`: append `e`. In a new lone slot it is pulled up the max-heap
   * and then the min-heap; in a new high end it is first put in order with
   * its partner, then pulled up the min-heap (if it moved to the low end) and
   * the max-heap, and the pair is checked once more.
   */
  function Offer(a: seq<Elem>, e: Elem): (r: seq<Elem>)
    ensures |r| == |a| + 1 && multiset(r) == multiset(a) + multiset{e}
  {
    if |a| % 2 == 0 then
      OfferLonePermutes(a + [e]);
      OfferLone(a + [e])
    else
      OfferPairPermutes(a + [e]);
      OfferPair(a + [e])
  }

  /** `offer` when the new element lands in a lone slot. */
  function OfferLone(b: seq<Elem>): (r: seq<Elem>)
    requires |b| % 2 == 1
    ensures |r| == |b|
  {
    var i := |b| - 1;
    PullUpMin(PullUpMax(b, i), i)
  }

  /** `offer` when the new element completes an interval as its high end. */
  function OfferPair(b: seq<Elem>): (r: seq<Elem>)
    requires |b| % 2 == 0 && 2 <= |b|
    ensures |r| == |b|
  {
    var i := |b| - 1;
    Partner(i);
    var (c, low) := LessSwap(b, i, i - 1);
    var d := PullUpMax(if low then PullUpMin(c, i - 1) else c, i);
    var (f, again) := LessSwap(d, i, i - 1);
    if again then PullUpMax(PullUpMin(f, i - 1), i) else d
  }

  lemma OfferLonePermutes(b: seq<Elem>)
    requires |b| % 2 == 1
    ensures multiset(OfferLone(b)) == multiset(b)
  {
    var i := |b| - 1;
    Partner(|b|);
    PullUpMaxPermutes(b, i);
    PullUpMinPermutes(PullUpMax(b, i), i);
  }

  lemma OfferPairPermutes(b: seq<Elem>)
    requires |b| % 2 == 0 && 2 <= |b|
    ensures multiset(OfferPair(b)) == multiset(b)
  {
    var i := |b| - 1;
    Partner(|b|);
    Partner(i);
    var c := LessSwap(b, i, i - 1).0;
    LessSwapPermutes(b, i, i - 1);
    var x := if LessSwap(b, i, i - 1).1 then PullUpMin(c, i - 1) else c;
    PullUpMinPermutes(c, i - 1);
    assert multiset(x) == multiset(b);
    var d := PullUpMax(x, i);
    PullUpMaxPermutes(x, i);
    var f := LessSwap(d, i, i - 1).0;
    LessSwapPermutes(d, i, i - 1);
    PullUpMinPermutes(f, i - 1);
    PullUpMaxPermutes(PullUpMin(f, i - 1), i);
  }

  /** Appending to a valid heap disturbs only the new slot and, when it completes one, the last interval. */
  lemma AppendFrame(a: seq<Elem>, e: Elem)
    requires Valid(a)
    ensures MinOrderedExcept(a + [e], |a|) && MaxOrderedExcept(a + [e], |a|)
    ensures PairOrderedExcept(a + [e], ClearLow(|a|))
  {
    var b := a + [e];
    forall k | 2 <= k < |b| && k % 2 == 0 && k != |a|
      ensures Le(b[MinParent(k)], b[k])
    {
      assert Le(a[MinParent(k)], a[k]);
    }
    forall k | 2 <= k && OnMaxSide(|b|, k) && k != |a|
      ensures Le(b[k], b[MaxParent(k)])
    {
      assert Le(a[k], a[MaxParent(k)]);
    }
    forall k | 0 <= k && k % 2 == 0 && k != ClearLow(|a|)
      ensures PairOk(b, k)
    {
      if k + 1 < |a| {
        assert PairOk(a, k);
      }
    }
  }

  lemma OfferLoneUp(a: seq<Elem>, e: Elem)
    requires Valid(a) && |a| % 2 == 0 && 2 <= |a| && Less(a[MaxParent(|a|)], e)
    ensures MaxUpReady(a + [e], |a|)
  {
    var b := a + [e];
    var i := |a|;
    AppendFrame(a, e);
    ParentsOfInterval(i);
    assert PairOk(a, MinParent(i));
    assert Le(b[MinParent(i)], b[i]);
    assert ClearLow(i) == i;
  }

  lemma OfferLoneStays(a: seq<Elem>, e: Elem)
    requires Valid(a) && |a| % 2 == 0 && (2 <= |a| ==> !Less(a[MaxParent(|a|)], e))
    ensures MinUpReady(a + [e], |a|)
  {
    var b := a + [e];
    var i := |a|;
    AppendFrame(a, e);
    assert ClearLow(i) == i;
  }

  /** Min side of `OfferBelowLone`: only the new low end may be below its parent. */
  lemma BelowLoneMinSide(a: seq<Elem>, e: Elem)
    requires Valid(a) && |a| % 2 == 1 && Less(e, a[|a| - 1])
    ensures var h := |a| - 1; var b := Swap(a + [e], |a|, h);
      h % 2 == 0 && MinOrderedExcept(b, h) && (2 <= h ==> MinBridge(b, h))
  {
    var i := |a|;
    var h := i - 1;
    Partner(i);
    var b := Swap(a + [e], i, h);
    forall k | 2 <= k < |b| && k % 2 == 0 && k != h
      ensures Le(b[MinParent(k)], b[k])
    {
      assert k < h;
      assert Le(a[MinParent(k)], a[k]);
    }
    if 2 <= h {
      assert Le(a[MinParent(h)], a[h]);
      NoMinChildren(h, |b|);
    }
  }

  /** Max side of `OfferBelowLone`: the old lone element moves up into the new high end. */
  lemma BelowLoneMaxSide(a: seq<Elem>, e: Elem)
    requires Valid(a) && |a| % 2 == 1 && Less(e, a[|a| - 1])
    ensures MaxOrdered(Swap(a + [e], |a|, |a| - 1))
  {
    var i := |a|;
    var h := i - 1;
    Partner(i);
    var b := Swap(a + [e], i, h);
    forall k | 2 <= k && OnMaxSide(|b|, k)
      ensures Le(b[k], b[MaxParent(k)])
    {
      if k == i {
        ParentsOfInterval(h);
        assert OnMaxSide(|a|, h);
        assert Le(a[h], a[MaxParent(h)]);
      } else {
        assert k < h;
        assert Le(a[k], a[MaxParent(k)]);
      }
    }
  }

  /** Pair side of `OfferBelowLone`: the new interval is in order and the others are untouched. */
  lemma BelowLonePairs(a: seq<Elem>, e: Elem)
    requires Valid(a) && |a| % 2 == 1 && Less(e, a[|a| - 1])
    ensures PairOrdered(Swap(a + [e], |a|, |a| - 1))
  {
    var i := |a|;
    var h := i - 1;
    Partner(i);
    var b := Swap(a + [e], i, h);
    forall k | 0 <= k && k % 2 == 0
      ensures PairOk(b, k)
    {
      if k + 1 < |b| && k != h {
        SameParityGap(k, h);
        assert PairOk(a, k);
      }
    }
  }

  lemma OfferBelowLone(a: seq<Elem>, e: Elem)
    requires Valid(a) && |a| % 2 == 1 && Less(e, a[|a| - 1])
    ensures MinUpReady(Swap(a + [e], |a|, |a| - 1), |a| - 1)
  {
    BelowLoneMinSide(a, e);
    BelowLoneMaxSide(a, e);
    BelowLonePairs(a, e);
  }


  lemma OfferAboveLone(a: seq<Elem>, e: Elem)
    requires Valid(a) && |a| % 2 == 1 && !Less(e, a[|a| - 1])
    ensures MaxUpReady(a + [e], |a|)
  {
    var i := |a|;
    var h := i - 1;
    assert h % 2 == 0 && ClearLow(i) == h;
    AppendFrame(a, e);
    if 2 <= h {
      ParentsOfInterval(h);
      assert OnMaxSide(|a|, h);
      assert Le(a[h], a[MaxParent(h)]);
    }
  }

  lemma OfferLoneValid(a: seq<Elem>, e: Elem)
    requires Valid(a) && |a| % 2 == 0
    ensures Valid(Offer(a, e))
  {
    var b := a + [e];
    var i := |a|;
    if 2 <= i && Less(a[MaxParent(i)], e) {
      OfferLoneUp(a, e);
      var x := PullUpMax(b, i);
      ValidMinUpReady(x, i);
      assert Offer(a, e) == PullUpMin(x, i);
    } else {
      OfferLoneStays(a, e);
      assert PullUpMax(b, i) == b;
      assert Offer(a, e) == PullUpMin(b, i);
    }
  }

  /** A new high end less than its partner moves down, then up the min-heap and the max-heap. */
  lemma OfferPairLowValid(a: seq<Elem>, e: Elem)
    requires Valid(a) && |a| % 2 == 1 && Less(e, a[|a| - 1])
    ensures Valid(PullUpMax(PullUpMin(Swap(a + [e], |a|, |a| - 1), |a| - 1), |a|))
  {
    var i := |a|;
    Partner(i);
    OfferBelowLone(a, e);
    var c := Swap(a + [e], i, i - 1);
    ValidMaxUpReady(PullUpMin(c, i - 1), i);
  }

  /** A new high end not less than its partner goes up the max-heap only. */
  lemma OfferPairHighValid(a: seq<Elem>, e: Elem)
    requires Valid(a) && |a| % 2 == 1 && !Less(e, a[|a| - 1])
    ensures Valid(PullUpMax(a + [e], |a|))
  {
    OfferAboveLone(a, e);
  }

  lemma OfferPairValid(a: seq<Elem>, e: Elem)
    requires Valid(a) && |a| % 2 == 1
    ensures Valid(Offer(a, e))
  {
    var b := a + [e];
    var i := |a|;
    Partner(i);
    var (c, low) := LessSwap(b, i, i - 1);
    var x := if low then PullUpMin(c, i - 1) else c;
    if low {
      OfferPairLowValid(a, e);
    } else {
      OfferPairHighValid(a, e);
    }
    var d := PullUpMax(x, i);
    assert PairOk(d, i - 1);
    assert Offer(a, e) == d;
  }

  /** `offer` keeps all three invariants. */
  lemma OfferValid(a: seq<Elem>, e: Elem)
    requires Valid(a)
    ensures Valid(Offer(a, e))
  {
    if |a| % 2 == 0 {
      OfferLoneValid(a, e);
    } else {
      OfferPairValid(a, e);
    }
  }

  /** Moving the last element into slot 0 keeps the max-heap order, including at a lone slot the removal exposes. */
  lemma PollFirstStartMax(a: seq<Elem>)
    requires Valid(a) && 2 <= |a|
    ensures MaxOrderedExcept(Refill(a, 0), 0)
  {
    var m := |a| - 1;
    var b := Refill(a, 0);
    forall k | 2 <= k && OnMaxSide(|b|, k)
      ensures Le(b[k], b[MaxParent(k)])
    {
      if k % 2 == 1 {
        assert Le(a[k], a[MaxParent(k)]);
      } else {
        assert k == m - 1;
        ParentsOfInterval(k);
        assert PairOk(a, k);
        assert Le(a[m], a[MaxParent(m)]);
      }
    }
  }

  /** Moving the last element into slot 0 keeps every interval but the first in order. */
  lemma PollFirstStartPairs(a: seq<Elem>)
    requires Valid(a) && 2 <= |a|
    ensures PairOrderedExcept(Refill(a, 0), 0)
  {
    var b := Refill(a, 0);
    forall k | 0 <= k && k % 2 == 0 && k != 0
      ensures PairOk(b, k)
    {
      if k + 1 < |b| {
        assert PairOk(a, k);
      }
    }
  }

  /** Moving the last element into slot 0 keeps the min-heap order below slot 0. */
  lemma PollFirstStartMin(a: seq<Elem>)
    requires Valid(a) && 2 <= |a|
    ensures MinOrderedBelow(Refill(a, 0), 0)
  {
    var b := Refill(a, 0);
    forall k | 2 <= k < |b| && k % 2 == 0 && MinParent(k) != 0
      ensures Le(b[MinParent(k)], b[k])
    {
      assert Le(a[MinParent(k)], a[k]);
    }
  }

  /** The array `pollFirst` hands to `pushDownMin(0)`: the last element moved into slot 0. */
  lemma PollFirstStart(a: seq<Elem>)
    requires Valid(a) && 2 <= |a|
    ensures MinDownReady(Refill(a, 0), 0)
  {
    var m := |a| - 1;
    PollFirstStartMax(a);
    PollFirstStartPairs(a);
    PollFirstStartMin(a);
    if 2 <= m {
      assert OnMaxSide(|a|, m);
      assert Le(a[m], a[MaxParent(m)]);
    }
  }

  lemma MinDoneRepairMin(c: seq<Elem>, i: nat, k: nat)
    requires MinDownDone(c, i) && i + 1 < |c| && Less(c[i + 1], c[i])
    requires 2 <= k < |c| && k % 2 == 0
    ensures Le(Swap(c, i + 1, i)[MinParent(k)], Swap(c, i + 1, i)[k])
  {
    var b := Swap(c, i + 1, i);
    var p := MinParent(k);
    assert p < i;
    if k == i {
      assert b[p] == c[p];
    } else {
      if k < i { SameParityGap(k, i); } else { SameParityGap(i, k); }
      assert b[k] == c[k] && b[p] == c[p];
    }
  }

  lemma MinDoneRepairPair(c: seq<Elem>, i: nat, k: nat)
    requires MinDownDone(c, i) && i + 1 < |c| && Less(c[i + 1], c[i])
    requires k % 2 == 0
    ensures PairOk(Swap(c, i + 1, i), k)
  {
    if k != i && k + 1 < |c| {
      if k < i { SameParityGap(k, i); } else { SameParityGap(i, k); }
      assert PairOk(c, k);
    }
  }

  lemma MinDoneRepairMax(c: seq<Elem>, i: nat, k: nat)
    requires MinDownDone(c, i) && i + 1 < |c| && Less(c[i + 1], c[i])
    requires 2 <= k && OnMaxSide(|c|, k) && k != i + 1
    ensures Le(Swap(c, i + 1, i)[k], Swap(c, i + 1, i)[MaxParent(k)])
  {
    var b := Swap(c, i + 1, i);
    var p := MaxParent(k);
    assert p <= i;
    assert p != i;
    if k % 2 == 1 {
      if k < i { SameParityGap(k, i + 1); } else { SameParityGap(i + 1, k); }
    }
    assert b[k] == c[k] && b[p] == c[p];
    assert Le(c[k], c[p]);
  }

  /** After the exchange at the resting slot, min order and pair order hold. */
  lemma MinDoneRepairOrders(c: seq<Elem>, i: nat)
    requires MinDownDone(c, i) && i + 1 < |c| && Less(c[i + 1], c[i])
    ensures MinOrdered(Swap(c, i + 1, i)) && PairOrdered(Swap(c, i + 1, i))
  {
    var b := Swap(c, i + 1, i);
    forall k | 2 <= k < |b| && k % 2 == 0
      ensures Le(b[MinParent(k)], b[k])
    {
      MinDoneRepairMin(c, i, k);
    }
    forall k | 0 <= k && k % 2 == 0
      ensures PairOk(b, k)
    {
      MinDoneRepairPair(c, i, k);
    }
  }

  /** After the exchange at the resting slot, max order holds except above the partner. */
  lemma MinDoneRepairMaxOrder(c: seq<Elem>, i: nat)
    requires MinDownDone(c, i) && i + 1 < |c| && Less(c[i + 1], c[i])
    ensures MaxOrderedExcept(Swap(c, i + 1, i), i + 1)
  {
    var b := Swap(c, i + 1, i);
    forall k | 2 <= k && OnMaxSide(|b|, k) && k != i + 1
      ensures Le(b[k], b[MaxParent(k)])
    {
      MinDoneRepairMax(c, i, k);
    }
  }

  /**
   * When `pollFirst` finds the element that came to rest at `i` greater than
   * its partner, `i` has no min-heap children (the assertion in `pollFirst`),
   * and after the exchange the partner is ready for `pullUpMax`.
   */
  lemma MinDoneRepair(c: seq<Elem>, i: nat)
    requires MinDownDone(c, i) && i + 1 < |c| && Less(c[i + 1], c[i])
    ensures 2 * i + 2 > |c|
    ensures MaxUpReady(Swap(c, i + 1, i), i + 1)
  {
    assert (i + 1) % 2 == 1;
    var b := Swap(c, i + 1, i);
    MinDoneRepairOrders(c, i);
    MinDoneRepairMaxOrder(c, i);
    if 2 <= i + 1 {
      var p := MaxParent(i + 1);
      assert Le(c[i + 1], c[p]);
      assert b[p] == c[p];
      NoMaxChildren(i + 1, |b|);
    }
  }

  /** When the pair at the resting slot is in order, `pushDownMin` has restored every invariant. */
  lemma MinDoneSettled(c: seq<Elem>, i: nat)
    requires MinDownDone(c, i) && (i + 1 < |c| ==> !Less(c[i + 1], c[i]))
    ensures Valid(c)
  {
    assert PairOk(c, i);
  }

  /**
   * The end of `pollFirst`, once the moved element has come to rest at the
   * even slot `i`: if its partner is less, exchange the two and pull the
   * partner up the max-heap.
   */
  function RepairFirst(c: seq<Elem>, i: nat): (r: seq<Elem>)
    requires i < |c| && i % 2 == 0
    ensures |r| == |c|
  {
    if i + 1 < |c| then
      Partner(i);
      var (d, swapped) := LessSwap(c, i + 1, i);
      if swapped then PullUpMax(d, i + 1) else c
    else
      c
  }

  lemma RepairFirstPermutes(c: seq<Elem>, i: nat)
    requires i < |c| && i % 2 == 0
    ensures multiset(RepairFirst(c, i)) == multiset(c)
  {
    if i + 1 < |c| && Less(c[i + 1], c[i]) {
      SwapPermutes(c, i + 1, i);
      PullUpMaxPermutes(Swap(c, i + 1, i), i + 1);
    }
  }

  /** Where `pushDownMin` leaves the heap, the repair restores every invariant. */
  lemma RepairFirstValid(c: seq<Elem>, i: nat)
    requires MinDownDone(c, i)
    ensures Valid(RepairFirst(c, i))
  {
    if i + 1 < |c| && Less(c[i + 1], c[i]) {
      MinDoneRepair(c, i);
    } else {
      MinDoneSettled(c, i);
    }
  }

  /**
   * `pollFirst()`: take slot 0, move the last element there and push it down
   * the min-heap; if it comes to rest above its partner, exchange the two and
   * pull the partner up the max-heap. An empty heap is outside the
   * precondition (the source throws).
   */
  function PollFirst(a: seq<Elem>): (r: (seq<Elem>, Elem))
    requires 0 < |a|
    ensures r.1 == PeekFirst(a)
    ensures |r.0| == |a| - 1 && multiset(r.0) == multiset(a) - multiset{r.1}
  {
    var m := |a| - 1;
    if m < 1 then
      assert a == [a[0]];
      ([], a[0])
    else
      var (c, i) := PushDownMin(Refill(a, 0), 0);
      RefillRemoves(a, 0);
      PushDownMinPermutes(Refill(a, 0), 0);
      RepairFirstPermutes(c, i);
      (RepairFirst(c, i), a[0])
  }

  /** The source's assertion in `pollFirst`: a pair found out of order sits at a min-heap leaf. */
  lemma PollFirstLeaf(a: seq<Elem>)
    requires Valid(a) && 2 <= |a|
    ensures var (c, i) := PushDownMin(Refill(a, 0), 0);
      i + 1 < |a| - 1 && Less(c[i + 1], c[i]) ==> 2 * i + 2 > |a| - 1
  {
    PollFirstStart(a);
    var (c, i) := PushDownMin(Refill(a, 0), 0);
    if i + 1 < |c| && Less(c[i + 1], c[i]) {
      MinDoneRepair(c, i);
    }
  }

  /** `pollFirst` returns a least element and keeps all three invariants. */
  lemma PollFirstValid(a: seq<Elem>)
    requires Valid(a) && 0 < |a|
    ensures IsLeast(PollFirst(a).1, multiset(a))
    ensures Valid(PollFirst(a).0)
  {
    LeastAtFront(a);
    if 2 <= |a| {
      PollFirstStart(a);
      var (c, i) := PushDownMin(Refill(a, 0), 0);
      RepairFirstValid(c, i);
    }
  }

  /** Moving the last element into slot 1 keeps the min-heap order: no even slot changes. */
  lemma PollLastStartMin(a: seq<Elem>)
    requires Valid(a) && 3 <= |a|
    ensures MinOrdered(Refill(a, 1))
  {
    var b := Refill(a, 1);
    forall k | 2 <= k < |b| && k % 2 == 0
      ensures Le(b[MinParent(k)], b[k])
    {
      assert Le(a[MinParent(k)], a[k]);
    }
  }

  /** Moving the last element into slot 1 keeps every interval but the first in order. */
  lemma PollLastStartPairs(a: seq<Elem>)
    requires Valid(a) && 3 <= |a|
    ensures PairOrderedExcept(Refill(a, 1), 0)
  {
    var b := Refill(a, 1);
    forall k | 0 <= k && k % 2 == 0 && k != 0
      ensures PairOk(b, k)
    {
      if k + 1 < |b| {
        assert PairOk(a, k);
      }
    }
  }

  /**
   * Moving the last element into slot 1 keeps the max-heap order below slot 1,
   * including the lone slot the removal may expose, which is not greater than
   * the moved element.
   */
  lemma PollLastStartMax(a: seq<Elem>)
    requires Valid(a) && 3 <= |a|
    ensures MaxOrderedAbove(Refill(a, 1), 1)
    ensures |a| % 2 == 0 ==> Le(Refill(a, 1)[|a| - 2], Refill(a, 1)[1])
  {
    var m := |a| - 1;
    var b := Refill(a, 1);
    Partner(m);
    forall k | 2 <= k && OnMaxSide(|b|, k) && MaxParent(k) != 1
      ensures Le(b[k], b[MaxParent(k)])
    {
      if k % 2 == 1 {
        assert Le(a[k], a[MaxParent(k)]);
      } else {
        assert k == m - 1;
        ParentsOfInterval(k);
        assert PairOk(a, k);
        assert Le(a[m], a[MaxParent(m)]);
      }
    }
    if m % 2 == 1 {
      assert PairOk(a, m - 1);
    }
  }

  /** The array `pollLast` hands to `pushDownMax(1)`: the last element moved into slot 1. */
  lemma PollLastStart(a: seq<Elem>)
    requires Valid(a) && 3 <= |a|
    ensures MaxDownReady(Refill(a, 1), 1)
  {
    PollLastStartMin(a);
    PollLastStartPairs(a);
    PollLastStartMax(a);
  }

  lemma MaxDoneRepairMax(c: seq<Elem>, i: nat, k: nat)
    requires MaxDownDone(c, i) && Less(c[i], c[i - 1])
    requires 2 <= k && OnMaxSide(|c|, k)
    ensures Le(Swap(c, i, i - 1)[k], Swap(c, i, i - 1)[MaxParent(k)])
  {
    var b := Swap(c, i, i - 1);
    var p := MaxParent(k);
    assert p < i;
    if k == i {
      assert b[p] == c[p];
    } else {
      if k % 2 == 1 {
        if k < i { SameParityGap(k, i); } else { SameParityGap(i, k); }
      }
      SameParityGap(p, i);
      assert b[k] == c[k] && b[p] == c[p];
    }
  }

  lemma MaxDoneRepairPair(c: seq<Elem>, i: nat, k: nat)
    requires MaxDownDone(c, i) && Less(c[i], c[i - 1])
    requires k % 2 == 0
    ensures PairOk(Swap(c, i, i - 1), k)
  {
    if k != i - 1 && k + 1 < |c| {
      if k < i - 1 { SameParityGap(k, i - 1); } else { SameParityGap(i - 1, k); }
      assert PairOk(c, k);
    }
  }

  lemma MaxDoneRepairMin(c: seq<Elem>, i: nat, k: nat)
    requires MaxDownDone(c, i) && Less(c[i], c[i - 1])
    requires 2 <= k < |c| && k % 2 == 0 && k != i - 1
    ensures Le(Swap(c, i, i - 1)[MinParent(k)], Swap(c, i, i - 1)[k])
  {
    var b := Swap(c, i, i - 1);
    var p := MinParent(k);
    assert p < i - 1;
    if k < i - 1 { SameParityGap(k, i - 1); } else { SameParityGap(i - 1, k); }
    assert b[k] == c[k] && b[p] == c[p];
    assert Le(c[p], c[k]);
  }

  /** After the exchange at the resting slot, max order and pair order hold. */
  lemma MaxDoneRepairOrders(c: seq<Elem>, i: nat)
    requires MaxDownDone(c, i) && Less(c[i], c[i - 1])
    ensures MaxOrdered(Swap(c, i, i - 1)) && PairOrdered(Swap(c, i, i - 1))
  {
    var b := Swap(c, i, i - 1);
    forall k | 2 <= k && OnMaxSide(|b|, k)
      ensures Le(b[k], b[MaxParent(k)])
    {
      MaxDoneRepairMax(c, i, k);
    }
    forall k | 0 <= k && k % 2 == 0
      ensures PairOk(b, k)
    {
      MaxDoneRepairPair(c, i, k);
    }
  }

  /** After the exchange at the resting slot, min order holds except below the partner. */
  lemma MaxDoneRepairMinOrder(c: seq<Elem>, i: nat)
    requires MaxDownDone(c, i) && Less(c[i], c[i - 1])
    ensures MinOrderedExcept(Swap(c, i, i - 1), i - 1)
  {
    var b := Swap(c, i, i - 1);
    forall k | 2 <= k < |b| && k % 2 == 0 && k != i - 1
      ensures Le(b[MinParent(k)], b[k])
    {
      MaxDoneRepairMin(c, i, k);
    }
  }

  /**
   * When `pollLast` finds the element that came to rest at `i` less than its
   * partner, `i` has no max-heap children (the assertion in `pollLast`), and
   * after the exchange the partner is ready for `pullUpMin`.
   */
  lemma MaxDoneRepair(c: seq<Elem>, i: nat)
    requires MaxDownDone(c, i) && Less(c[i], c[i - 1])
    ensures 2 * i + 1 > |c|
    ensures MinUpReady(Swap(c, i, i - 1), i - 1)
  {
    Partner(i);
    var b := Swap(c, i, i - 1);
    MaxDoneRepairOrders(c, i);
    MaxDoneRepairMinOrder(c, i);
    if 2 <= i - 1 {
      var p := MinParent(i - 1);
      assert Le(c[p], c[i - 1]);
      assert b[p] == c[p];
      NoMinChildren(i - 1, |b|);
    }
  }

  /** When the pair at the resting slot is in order, `pushDownMax` has restored every invariant. */
  lemma MaxDoneSettled(c: seq<Elem>, i: nat)
    requires MaxDownDone(c, i) && !Less(c[i], c[i - 1])
    ensures Valid(c)
  {
    assert PairOk(c, i - 1);
  }

  /**
   * The end of `pollLast`, once the moved element has come to rest at the
   * odd slot `i`: if it is less than its partner, exchange the two and pull
   * the partner up the min-heap.
   */
  function RepairLast(c: seq<Elem>, i: nat): (r: seq<Elem>)
    requires i < |c| && i % 2 == 1
    ensures |r| == |c|
  {
    Partner(i);
    var (d, swapped) := LessSwap(c, i, i - 1);
    if swapped then PullUpMin(d, i - 1) else c
  }

  lemma RepairLastPermutes(c: seq<Elem>, i: nat)
    requires i < |c| && i % 2 == 1
    ensures multiset(RepairLast(c, i)) == multiset(c)
  {
    if Less(c[i], c[i - 1]) {
      SwapPermutes(c, i, i - 1);
      PullUpMinPermutes(Swap(c, i, i - 1), i - 1);
    }
  }

  /** Where `pushDownMax` leaves the heap, the repair restores every invariant. */
  lemma RepairLastValid(c: seq<Elem>, i: nat)
    requires MaxDownDone(c, i)
    ensures Valid(RepairLast(c, i))
  {
    if Less(c[i], c[i - 1]) {
      MaxDoneRepair(c, i);
    } else {
      MaxDoneSettled(c, i);
    }
  }

  /**
   * `pollLast()`: take slot 1 (slot 0 when it is the only one), move the last
   * element there and push it down the max-heap; if it comes to rest below
   * its partner, exchange the two and pull the partner up the min-heap. An
   * empty heap is outside the precondition (the source throws).
   */
  function PollLast(a: seq<Elem>): (r: (seq<Elem>, Elem))
    requires 0 < |a|
    ensures r.1 == PeekLast(a)
    ensures |r.0| == |a| - 1 && multiset(r.0) == multiset(a) - multiset{r.1}
  {
    var m := |a| - 1;
    if m < 1 then
      assert a == [a[0]];
      ([], a[0])
    else if m < 2 then
      assert a == [a[0]] + [a[1]];
      ([a[0]], a[1])
    else
      var (c, i) := PushDownMax(Refill(a, 1), 1);
      RefillRemoves(a, 1);
      PushDownMaxPermutes(Refill(a, 1), 1);
      RepairLastPermutes(c, i);
      (RepairLast(c, i), a[1])
  }

  /** The source's assertion in `pollLast`: a pair found out of order sits at a max-heap leaf. */
  lemma PollLastLeaf(a: seq<Elem>)
    requires Valid(a) && 3 <= |a|
    ensures var (c, i) := PushDownMax(Refill(a, 1), 1);
      Less(c[i], c[i - 1]) ==> 2 * i + 1 > |a| - 1
  {
    PollLastStart(a);
    var (c, i) := PushDownMax(Refill(a, 1), 1);
    if Less(c[i], c[i - 1]) {
      MaxDoneRepair(c, i);
    }
  }

  /**
   * The source's assertion in `pushDownMax`, as `pollLast` uses it: when the
   * resting slot's only max-heap child would be the lone last slot, that
   * slot is not greater than the element pushed down.
   */
  lemma PollLastLoneChild(a: seq<Elem>)
    requires Valid(a) && 3 <= |a|
    ensures var (c, i) := PushDownMax(Refill(a, 1), 1);
      2 * i + 1 == |c| ==> !Less(c[i], c[|c| - 1])
  {
    PollLastStart(a);
  }

  /** With at least three elements, `pollLast` keeps all three invariants. */
  lemma PollLastPushed(a: seq<Elem>)
    requires Valid(a) && 3 <= |a|
    ensures Valid(PollLast(a).0)
  {
    PollLastStart(a);
    var (c, i) := PushDownMax(Refill(a, 1), 1);
    RepairLastValid(c, i);
  }

  /** `pollLast` returns a greatest element and keeps all three invariants. */
  lemma PollLastValid(a: seq<Elem>)
    requires Valid(a) && 0 < |a|
    ensures IsGreatest(PollLast(a).1, multiset(a))
    ensures Valid(PollLast(a).0)
  {
    GreatestAtBack(a);
    if |a| == 2 {
      assert PollLast(a).0 == [a[0]];
    } else if 3 <= |a| {
      PollLastPushed(a);
    }
  }

  /** `removeElem(e)`: refused; the heap is left as it was. */
  function RemoveElem(a: seq<Elem>, e: Elem): (r: Result<seq<Elem>>)
    ensures r.Err?
  {
    Err("UnsupportedOperationException")
  }

  /** `size()`: the number of stored elements, counting repeats. */
  function Size(a: seq<Elem>): (n: nat)
    ensures n == |multiset(a)|
    ensures n == 0 <==> IsEmpty(a)
  {
    |a|
  }

  /** `isEmpty()`: nothing is stored. */
  function IsEmpty(a: seq<Elem>): (b: bool)
    ensures b <==> multiset(a) == multiset{}
  {
    |a| == 0
  }

  /** `clear()`: an empty heap, which satisfies the invariants. */
  function Clear(a: seq<Elem>): (r: seq<Elem>)
    ensures Valid(r) && multiset(r) == multiset{}
  {
    []
  }
}
