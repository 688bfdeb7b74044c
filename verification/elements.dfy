/**
 * Elements stored in the queues, and the comparison every queue is built on.
 *
 * An element has an identity (`id`, what a position tracker is keyed by) and
 * a `key`. The caller-supplied comparator `cmp.compare(x, y) < 0` becomes
 * `Less(x, y)`, the total preorder "x.key < y.key": two distinct elements may
 * compare equal, exactly as two distinct Java objects may.
 */
module Elements {

  datatype Elem = Elem(id: nat, key: int)

  /** `cmp.compare(x, y) < 0` */
  predicate Less(x: Elem, y: Elem) {
    x.key < y.key
  }

  /** "x is not greater than y", the negation of `Less(y, x)` */
  predicate Le(x: Elem, y: Elem) {
    !Less(y, x)
  }

  /** Outcome of an operation that may be refused (Java's unchecked exceptions). */
  datatype Result<T> = Ok(value: T) | Err(reason: string)

  /** `x` is not greater than any element of the bag `m`. */
  ghost predicate IsLeast(x: Elem, m: multiset<Elem>) {
    x in m && forall y | y in m :: Le(x, y)
  }

  /** `x` is not less than any element of the bag `m`. */
  ghost predicate IsGreatest(x: Elem, m: multiset<Elem>) {
    x in m && forall y | y in m :: Le(y, x)
  }

  /** Non-decreasing by key. */
  ghost predicate Ascending(s: seq<Elem>) {
    forall i, j | 0 <= i < j < |s| :: Le(s[i], s[j])
  }

  /** Non-increasing by key. */
  ghost predicate Descending(s: seq<Elem>) {
    forall i, j | 0 <= i < j < |s| :: Le(s[j], s[i])
  }

  /** The keys of `s`, in order. */
  function Keys(s: seq<Elem>): (r: seq<int>)
    ensures |r| == |s|
    ensures forall i | 0 <= i < |s| :: r[i] == s[i].key
  {
    if s == [] then [] else [s[0].key] + Keys(s[1..])
  }

  /** No identity occurs at two different slots. */
  ghost predicate DistinctIds(s: seq<Elem>) {
    forall i, j | 0 <= i < |s| && 0 <= j < |s| && i != j :: s[i].id != s[j].id
  }

  /** The contents of slots `i` and `j` exchanged (Java's `Collections.swap`). */
  function Swap(s: seq<Elem>, i: nat, j: nat): (r: seq<Elem>)
    requires i < |s| && j < |s|
    ensures |r| == |s| && r[i] == s[j] && r[j] == s[i]
    ensures forall k | 0 <= k < |s| && k != i && k != j :: r[k] == s[k]
  {
    s[i := s[j]][j := s[i]]
  }

  /** Exchanging two slots keeps the same elements. */
  lemma SwapPermutes(s: seq<Elem>, i: nat, j: nat)
    requires i < |s| && j < |s|
    ensures multiset(Swap(s, i, j)) == multiset(s)
  {
  }

  /** Exchanging two slots keeps the identities distinct. */
  lemma SwapDistinct(s: seq<Elem>, i: nat, j: nat)
    requires i < |s| && j < |s| && DistinctIds(s)
    ensures DistinctIds(Swap(s, i, j))
  {
  }

  /**
   * The store after the last slot is removed and its element written into
   * slot `i` (Java's `queue.set(i, queue.remove(queue.size() - 1))`): exactly
   * the element at `i` leaves.
   */
  function Refill(q: seq<Elem>, i: nat): (a: seq<Elem>)
    requires i < |q| - 1
    ensures |a| == |q| - 1 && a[i] == q[|q| - 1]
    ensures forall k | 0 <= k < |a| && k != i :: a[k] == q[k]
  {
    var n := |q| - 1;
    q[..n][i := q[n]]
  }

  /** `Refill` removes exactly one occurrence of the element at slot `i`. */
  lemma RefillRemoves(q: seq<Elem>, i: nat)
    requires i < |q| - 1
    ensures multiset(Refill(q, i)) == multiset(q) - multiset{q[i]}
  {
    var n := |q| - 1;
    assert q == q[..n] + [q[n]];
    assert multiset(q[..n][i := q[n]]) == multiset(q[..n]) - multiset{q[i]} + multiset{q[n]};
  }

  /** Increasing by key: no two elements compare equal. */
  ghost predicate StrictlyAscending(s: seq<Elem>) {
    forall i, j | 0 <= i < j < |s| :: Less(s[i], s[j])
  }

  /** A least element of a bag whose keys are all different is its first element in key order. */
  lemma LeastOfStrict(rest: seq<Elem>, e: Elem)
    requires StrictlyAscending(rest) && |rest| > 0 && IsLeast(e, multiset(rest))
    ensures e == rest[0] && multiset(rest) - multiset{e} == multiset(rest[1..])
    ensures StrictlyAscending(rest[1..])
  {
    var k :| 0 <= k < |rest| && rest[k] == e;
    assert rest[0] in multiset(rest);
    assert rest == [rest[0]] + rest[1..];
  }

  /** A greatest element of a bag whose keys are all different is its last element in key order. */
  lemma GreatestOfStrict(rest: seq<Elem>, e: Elem)
    requires StrictlyAscending(rest) && |rest| > 0 && IsGreatest(e, multiset(rest))
    ensures e == rest[|rest| - 1] && multiset(rest) - multiset{e} == multiset(rest[..|rest| - 1])
    ensures StrictlyAscending(rest[..|rest| - 1])
  {
    var k :| 0 <= k < |rest| && rest[k] == e;
    assert rest[|rest| - 1] in multiset(rest);
    assert rest == rest[..|rest| - 1] + [rest[|rest| - 1]];
  }
}
