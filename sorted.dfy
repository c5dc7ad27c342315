/**
 * `Sorted`: a container that hands its items back smallest first under a
 * caller-supplied comparison. The binary heap underneath is a library
 * structure; here its contents are a sequence whose order means nothing,
 * and `pop` takes out an item no other item is smaller than.
 */
module SortedQueue {
  import opened Wrappers

  datatype Ordering = Less | Equal | Greater

  function Reverse(o: Ordering): (r: Ordering)
    ensures (o == Less <==> r == Greater) && (o == Equal <==> r == Equal) && (o == Greater <==> r == Less)
  {
    match o
    case Less => Greater
    case Equal => Equal
    case Greater => Less
  }

  /** `a` comes no later than `b`. */
  predicate Le<T>(cmp: (T, T) -> Ordering, a: T, b: T) {
    cmp(a, b) != Greater
  }

  /**
   * What `Ord` asks of a comparison: swapping the operands reverses the
   * answer, and "no later than" is transitive.
   */
  ghost predicate TotalOrder<T(!new)>(cmp: (T, T) -> Ordering) {
    (forall a, b :: cmp(a, b) == Reverse(cmp(b, a)))
    && (forall a, b, c :: Le(cmp, a, b) && Le(cmp, b, c) ==> Le(cmp, a, c))
  }

  /** Every item of `s` comes no earlier than `x`. */
  ghost predicate Lowest<T>(cmp: (T, T) -> Ordering, x: T, s: seq<T>) {
    forall i | 0 <= i < |s| :: Le(cmp, x, s[i])
  }

  /** The items in non-decreasing order under `cmp`. */
  ghost predicate Ascending<T>(cmp: (T, T) -> Ordering, s: seq<T>) {
    forall i, j | 0 <= i < j < |s| :: Le(cmp, s[i], s[j])
  }

  /** The position of an item no other item of `s` is smaller than. */
  function MinIndex<T(!new)>(cmp: (T, T) -> Ordering, s: seq<T>): (m: nat)
    requires TotalOrder(cmp) && s != []
    ensures m < |s| && Lowest(cmp, s[m], s)
    decreases |s|
  {
    if |s| == 1 then 0
    else
      var k := MinIndex(cmp, s[..|s| - 1]);
      assert forall i | 0 <= i < |s| - 1 :: s[..|s| - 1][i] == s[i];
      if cmp(s[k], s[|s| - 1]) == Greater then |s| - 1 else k
  }

  /** `s` without the item at `i`. */
  function RemoveAt<T>(s: seq<T>, i: nat): (r: seq<T>)
    requires i < |s|
    ensures |r| == |s| - 1
    ensures multiset(r) + multiset{s[i]} == multiset(s)
  {
    assert s == s[..i] + [s[i]] + s[i + 1..];
    s[..i] + s[i + 1..]
  }

  class Sorted<T(!new)> {
    const cmp: (T, T) -> Ordering
    /** The items held, in no particular order. */
    var heap: seq<T>

    ghost predicate Valid()
      reads this
    {
      TotalOrder(cmp)
    }

    /** `new`: an empty container for this comparison. */
    constructor(cmp: (T, T) -> Ordering)
      requires TotalOrder(cmp)
      ensures Valid() && this.cmp == cmp && heap == []
    {
      this.cmp := cmp;
      heap := [];
    }

    /** `push`: one more item; `len` grows by one. */
    method Push(item: T)
      requires Valid()
      modifies this
      ensures Valid()
      ensures multiset(heap) == multiset(old(heap)) + multiset{item}
      ensures Len() == old(Len()) + 1
    {
      heap := heap + [item];
    }

    /**
     * `pop`: `None` when empty, otherwise an item no held item is smaller
     * than, taken out of the container (the heap's order is `cmp` reversed,
     * so its maximum is this minimum).
     */
    method Pop() returns (r: Option<T>)
      requires Valid()
      modifies this
      ensures Valid()
      ensures old(heap) == [] ==> r == None && heap == []
      ensures old(heap) != [] ==> r.Some? && Lowest(cmp, r.value, old(heap))
      ensures r.Some? ==> multiset(heap) + multiset{r.value} == multiset(old(heap))
    {
      if heap == [] {
        return None;
      }
      var m := MinIndex(cmp, heap);
      r := Some(heap[m]);
      heap := RemoveAt(heap, m);
    }

    /** `len`. */
    function Len(): (n: nat)
      reads this
      ensures n == |heap|
    {
      |heap|
    }

    /** `is_empty`. */
    function IsEmpty(): (b: bool)
      reads this
      ensures b <==> Len() == 0
    {
      heap == []
    }

    /** `IntoIterSorted::size_hint`: exact, both bounds equal to what is left. */
    function SizeHint(): (h: (nat, Option<nat>))
      reads this
      ensures h.1 == Some(h.0) && h.0 == Len()
    {
      (|heap|, Some(|heap|))
    }

    /**
     * `into_iter().collect()`: popping until `None` yields every item
     * exactly once, in non-decreasing order.
     */
    method Drain() returns (items: seq<T>)
      requires Valid()
      modifies this
      ensures Valid() && heap == []
      ensures multiset(items) == multiset(old(heap))
      ensures Ascending(cmp, items)
    {
      items := [];
      while heap != []
        invariant Valid()
        invariant multiset(items) + multiset(heap) == multiset(old(heap))
        invariant Ascending(cmp, items)
        invariant forall i, j | 0 <= i < |items| && 0 <= j < |heap| :: Le(cmp, items[i], heap[j])
        decreases |heap|
      {
        ghost var before := heap;
        var next := Pop();
        AfterLowest(cmp, items, next.value, before, heap);
        items := items + [next.value];
      }
    }
  }

  /** Taking out the lowest item keeps the drained prefix ascending and below what is left. */
  lemma AfterLowest<T(!new)>(cmp: (T, T) -> Ordering, items: seq<T>, x: T, before: seq<T>, after: seq<T>)
    requires TotalOrder(cmp)
    requires Ascending(cmp, items) && Lowest(cmp, x, before)
    requires forall i, j | 0 <= i < |items| && 0 <= j < |before| :: Le(cmp, items[i], before[j])
    requires multiset(after) + multiset{x} == multiset(before)
    ensures Ascending(cmp, items + [x])
    ensures forall i, j | 0 <= i < |items + [x]| && 0 <= j < |after| :: Le(cmp, (items + [x])[i], after[j])
  {
    assert x in multiset(before);
    assert x in before;
    forall j | 0 <= j < |after|
      ensures after[j] in before
    {
      assert after[j] in multiset(after);
      assert after[j] in multiset(before);
    }
  }
}
