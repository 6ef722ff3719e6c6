/**
 * Content items of a lesson: the count of estimated items (a left fold) and
 * the ordering of content by `orderBy` with a stable sort.
 */
module Content {

  /** One content item embedded in a lesson; `payload` stands for the fields the core ignores. */
  datatype ContentItem = ContentItem(orderBy: int, isEstimated: bool, payload: string)

  // ---------------------------------------------------------------------------
  // Counting estimated items
  // ---------------------------------------------------------------------------

  /** One if the item is estimated, zero otherwise: the reducer's step. */
  function EstimatedStep(x: ContentItem): nat
  {
    if x.isEstimated then 1 else 0
  }

  /**
   * The `reduce` fold from 0 that adds one for every item whose `isEstimated`
   * is true, taken left to right as the fold does.
   */
  function CountEstimated(s: seq<ContentItem>): (n: nat)
    ensures n <= |s|
    ensures n == 0 <== forall i :: 0 <= i < |s| ==> !s[i].isEstimated
    decreases |s|
  {
    if s == [] then 0
    else CountEstimated(s[..|s| - 1]) + EstimatedStep(s[|s| - 1])
  }

  /** Positions of the estimated items: an independent reference for the count. */
  ghost function EstimatedIndices(s: seq<ContentItem>): set<nat>
  {
    set i: nat | i < |s| && s[i].isEstimated
  }

  /** The fold counts exactly the positions holding an estimated item. */
  lemma {:induction false} CountEstimatedIsIndexCount(s: seq<ContentItem>)
    ensures CountEstimated(s) == |EstimatedIndices(s)|
    decreases |s|
  {
    if s != [] {
      var n := |s| - 1;
      var init := s[..n];
      CountEstimatedIsIndexCount(init);
      if s[n].isEstimated {
        assert EstimatedIndices(s) == EstimatedIndices(init) + {n};
      } else {
        assert EstimatedIndices(s) == EstimatedIndices(init);
      }
    }
  }

  // ---------------------------------------------------------------------------
  // Ordering by `orderBy`
  // ---------------------------------------------------------------------------

  /** Non-decreasing by `orderBy`. */
  ghost predicate SortedByOrder(s: seq<ContentItem>)
  {
    forall i, j :: 0 <= i < j < |s| ==> s[i].orderBy <= s[j].orderBy
  }

  /** The items with `orderBy == k`, in the order they appear in `s`. */
  function WithKey(s: seq<ContentItem>, k: int): seq<ContentItem>
    decreases |s|
  {
    if s == [] then []
    else WithKey(s[..|s| - 1], k) + (if s[|s| - 1].orderBy == k then [s[|s| - 1]] else [])
  }

  /**
   * Stability: for every key, the items carrying that key appear in the
   * same relative order in `r` as in `s`.
   */
  ghost predicate SameKeyOrder(r: seq<ContentItem>, s: seq<ContentItem>)
  {
    forall k :: WithKey(r, k) == WithKey(s, k)
  }

  /**
   * Inserts `x`, which comes after every item of `t` in the input, into `t`:
   * `x` goes right after the last item whose `orderBy` is at most its own,
   * which is where a stable sort with the comparator
   * `a.orderBy - b.orderBy` puts it.
   */
  function InsertByOrder(t: seq<ContentItem>, x: ContentItem): (r: seq<ContentItem>)
    ensures |r| == |t| + 1
    decreases |t|
  {
    if t == [] || t[|t| - 1].orderBy <= x.orderBy then t + [x]
    else InsertByOrder(t[..|t| - 1], x) + [t[|t| - 1]]
  }

  /**
   * The content as a stable ascending sort by `orderBy` leaves it. It keeps
   * the length; the lemmas below prove it sorted, a permutation and stable,
   * and the only sequence with those three properties.
   */
  function SortByOrder(s: seq<ContentItem>): (r: seq<ContentItem>)
    ensures |r| == |s|
    decreases |s|
  {
    if s == [] then []
    else InsertByOrder(SortByOrder(s[..|s| - 1]), s[|s| - 1])
  }

  /** Inserting adds exactly the one item. */
  lemma {:induction false} InsertByOrderPermutation(t: seq<ContentItem>, x: ContentItem)
    ensures multiset(InsertByOrder(t, x)) == multiset(t) + multiset{x}
    decreases |t|
  {
    if !(t == [] || t[|t| - 1].orderBy <= x.orderBy) {
      var n := |t| - 1;
      var ins := InsertByOrder(t[..n], x);
      calc {
        multiset(InsertByOrder(t, x));
        multiset(ins + [t[n]]);
        multiset(ins) + multiset{t[n]};
        { InsertByOrderPermutation(t[..n], x); }
        multiset(t[..n]) + multiset{x} + multiset{t[n]};
        { assert t == t[..n] + [t[n]]; }
        multiset(t) + multiset{x};
      }
    }
  }

  /** Inserting keeps every key at most `b` when `t` and `x` already are. */
  lemma {:induction false} InsertByOrderBound(t: seq<ContentItem>, x: ContentItem, b: int)
    requires forall i :: 0 <= i < |t| ==> t[i].orderBy <= b
    requires x.orderBy <= b
    ensures forall i :: 0 <= i < |InsertByOrder(t, x)| ==> InsertByOrder(t, x)[i].orderBy <= b
    decreases |t|
  {
    if !(t == [] || t[|t| - 1].orderBy <= x.orderBy) {
      var n := |t| - 1;
      InsertByOrderBound(t[..n], x, b);
      var ins := InsertByOrder(t[..n], x);
      assert InsertByOrder(t, x) == ins + [t[n]];
    }
  }

  /** Inserting into a sorted sequence keeps it sorted. */
  lemma {:induction false} InsertByOrderSorted(t: seq<ContentItem>, x: ContentItem)
    requires SortedByOrder(t)
    ensures SortedByOrder(InsertByOrder(t, x))
    decreases |t|
  {
    if !(t == [] || t[|t| - 1].orderBy <= x.orderBy) {
      var n := |t| - 1;
      var last := t[n];
      InsertByOrderSorted(t[..n], x);
      InsertByOrderBound(t[..n], x, last.orderBy);
      var ins := InsertByOrder(t[..n], x);
      assert InsertByOrder(t, x) == ins + [last];
    }
  }

  /** Inserting puts `x` after every item of `t` with the same key. */
  lemma {:induction false} InsertByOrderStable(t: seq<ContentItem>, x: ContentItem, k: int)
    ensures WithKey(InsertByOrder(t, x), k) == WithKey(t, k) + (if x.orderBy == k then [x] else [])
    decreases |t|
  {
    if t == [] || t[|t| - 1].orderBy <= x.orderBy {
      assert (t + [x])[..|t|] == t;
      assert WithKey(t + [x], k) == WithKey(t, k) + (if x.orderBy == k then [x] else []);
    } else {
      var n := |t| - 1;
      var init, last := t[..n], t[n];
      var ins := InsertByOrder(init, x);
      assert InsertByOrder(t, x) == ins + [last];
      InsertByOrderStable(init, x, k);
      assert (ins + [last])[..|ins|] == ins;
      assert WithKey(ins + [last], k) == WithKey(ins, k) + (if last.orderBy == k then [last] else []);
      assert WithKey(t, k) == WithKey(init, k) + (if last.orderBy == k then [last] else []);
    }
  }

  /** The stable sort yields a non-decreasing sequence. */
  lemma {:induction false} SortByOrderSorted(s: seq<ContentItem>)
    ensures SortedByOrder(SortByOrder(s))
    decreases |s|
  {
    if s != [] {
      SortByOrderSorted(s[..|s| - 1]);
      InsertByOrderSorted(SortByOrder(s[..|s| - 1]), s[|s| - 1]);
    }
  }

  /** The stable sort is a permutation of its input. */
  lemma {:induction false} SortByOrderPermutation(s: seq<ContentItem>)
    ensures multiset(SortByOrder(s)) == multiset(s)
    decreases |s|
  {
    if s != [] {
      var n := |s| - 1;
      var init, last := s[..n], s[n];
      var sortedInit := SortByOrder(init);
      calc {
        multiset(SortByOrder(s));
        multiset(InsertByOrder(sortedInit, last));
        { InsertByOrderPermutation(sortedInit, last); }
        multiset(sortedInit) + multiset{last};
        { SortByOrderPermutation(init); }
        multiset(init) + multiset{last};
        multiset(init + [last]);
        { assert s == init + [last]; }
        multiset(s);
      }
    }
  }

  /** Items with equal `orderBy` keep their relative order. */
  lemma {:induction false} SortByOrderStable(s: seq<ContentItem>)
    ensures SameKeyOrder(SortByOrder(s), s)
    decreases |s|
  {
    if s != [] {
      var n := |s| - 1;
      SortByOrderStable(s[..n]);
      forall k ensures WithKey(SortByOrder(s), k) == WithKey(s, k) {
        InsertByOrderStable(SortByOrder(s[..n]), s[n], k);
      }
    }
  }

  /** The estimated count does not depend on the order the sort leaves. */
  lemma {:induction false} SortByOrderKeepsEstimatedCount(s: seq<ContentItem>)
    ensures CountEstimated(SortByOrder(s)) == CountEstimated(s)
    decreases |s|
  {
    if s != [] {
      var n := |s| - 1;
      SortByOrderKeepsEstimatedCount(s[..n]);
      InsertKeepsEstimatedCount(SortByOrder(s[..n]), s[n]);
    }
  }

  lemma {:induction false} InsertKeepsEstimatedCount(t: seq<ContentItem>, x: ContentItem)
    ensures CountEstimated(InsertByOrder(t, x)) == CountEstimated(t) + EstimatedStep(x)
    decreases |t|
  {
    if t == [] || t[|t| - 1].orderBy <= x.orderBy {
      assert (t + [x])[..|t|] == t;
    } else {
      var n := |t| - 1;
      InsertKeepsEstimatedCount(t[..n], x);
      var ins := InsertByOrder(t[..n], x);
      assert (ins + [t[n]])[..|ins|] == ins;
    }
  }

  lemma {:induction false} WithKeyMembers(s: seq<ContentItem>, k: int)
    ensures forall y :: y in WithKey(s, k) ==> y in s && y.orderBy == k
    decreases |s|
  {
    if s != [] {
      var n := |s| - 1;
      WithKeyMembers(s[..n], k);
      assert s == s[..n] + [s[n]];
    }
  }

  /** The subsequence of a non-empty sequence for its last key ends with its last item. */
  lemma WithKeyOfLast(s: seq<ContentItem>)
    requires s != []
    ensures WithKey(s, s[|s| - 1].orderBy) == WithKey(s[..|s| - 1], s[|s| - 1].orderBy) + [s[|s| - 1]]
  {
  }

  /** If `r2` holds the last key of `r1`, that key is at most the last key of sorted `r2`. */
  lemma {:induction false} LastKeyBound(r1: seq<ContentItem>, r2: seq<ContentItem>)
    requires r1 != [] && SortedByOrder(r2)
    requires WithKey(r1, r1[|r1| - 1].orderBy) == WithKey(r2, r1[|r1| - 1].orderBy)
    ensures r2 != [] && r1[|r1| - 1].orderBy <= r2[|r2| - 1].orderBy
  {
    var m := r1[|r1| - 1].orderBy;
    WithKeyOfLast(r1);
    WithKeyMembers(r2, m);
    assert r1[|r1| - 1] in WithKey(r2, m);
    var j :| 0 <= j < |r2| && r2[j] == r1[|r1| - 1];
  }

  /** Dropping the last item from both sides keeps every key's subsequence equal. */
  lemma {:induction false} SameKeyOrderInit(r1: seq<ContentItem>, r2: seq<ContentItem>)
    requires r1 != [] && r2 != [] && r1[|r1| - 1] == r2[|r2| - 1]
    requires SameKeyOrder(r1, r2)
    ensures SameKeyOrder(r1[..|r1| - 1], r2[..|r2| - 1])
  {
    var n1, n2 := |r1| - 1, |r2| - 1;
    var x := r1[n1];
    forall k ensures WithKey(r1[..n1], k) == WithKey(r2[..n2], k) {
      assert WithKey(r1, k) == WithKey(r2, k);
      var w1, w2 := WithKey(r1[..n1], k), WithKey(r2[..n2], k);
      assert WithKey(r1, k) == w1 + (if x.orderBy == k then [x] else []);
      assert WithKey(r2, k) == w2 + (if r2[n2].orderBy == k then [r2[n2]] else []);
      if x.orderBy == k {
        assert w1 + [x] == w2 + [x];
        assert w1 == (w1 + [x])[..|w1|];
        assert w2 == (w2 + [x])[..|w2|];
      } else {
        assert w1 + [] == w1 && w2 + [] == w2;
      }
    }
  }

  /** Two sorted sequences that agree on every key's subsequence end with the same item. */
  lemma LastItemsEqual(r1: seq<ContentItem>, r2: seq<ContentItem>)
    requires SortedByOrder(r1) && SortedByOrder(r2) && r1 != []
    requires SameKeyOrder(r1, r2)
    ensures r2 != [] && r1[|r1| - 1] == r2[|r2| - 1]
  {
    var m := r1[|r1| - 1].orderBy;
    assert WithKey(r1, m) == WithKey(r2, m);
    LastKeyBound(r1, r2);
    var m2 := r2[|r2| - 1].orderBy;
    assert WithKey(r2, m2) == WithKey(r1, m2);
    LastKeyBound(r2, r1);
    WithKeyOfLast(r1);
    WithKeyOfLast(r2);
    var w1, w2 := WithKey(r1, m), WithKey(r2, m);
    assert r1[|r1| - 1] == w1[|w1| - 1] && r2[|r2| - 1] == w2[|w2| - 1];
  }

  /** Two sorted sequences that agree on every key's subsequence are equal. */
  lemma {:induction false} SortedSameKeysEqual(r1: seq<ContentItem>, r2: seq<ContentItem>)
    requires SortedByOrder(r1) && SortedByOrder(r2)
    requires SameKeyOrder(r1, r2)
    ensures r1 == r2
    decreases |r1|
  {
    if r1 != [] {
      LastItemsEqual(r1, r2);
      var n1, n2 := |r1| - 1, |r2| - 1;
      SameKeyOrderInit(r1, r2);
      SortedSameKeysEqual(r1[..n1], r2[..n2]);
      assert r1 == r1[..n1] + [r1[n1]];
      assert r2 == r2[..n2] + [r2[n2]];
    } else if r2 != [] {
      var m := r2[|r2| - 1].orderBy;
      assert WithKey(r2, m) == WithKey(r1, m);
      LastKeyBound(r2, r1);
    }
  }

  /**
   * Any sorted rearrangement that keeps equal keys in input order is
   * `SortByOrder(s)`: the model gives exactly the result of every stable
   * ascending sort by `orderBy`, whatever algorithm performs it.
   */
  lemma StableSortIsUnique(s: seq<ContentItem>, r: seq<ContentItem>)
    requires SortedByOrder(r) && SameKeyOrder(r, s)
    ensures r == SortByOrder(s)
  {
    SortByOrderSorted(s);
    SortByOrderStable(s);
    SortedSameKeysEqual(r, SortByOrder(s));
  }

  /**
   * Where `InsertByOrder` puts `x`: right after the items before `j`, when
   * every item from `j` on is strictly larger and the item before `j` is not.
   */
  lemma {:induction false} InsertByOrderAt(t: seq<ContentItem>, x: ContentItem, j: nat)
    requires j <= |t|
    requires forall k :: j <= k < |t| ==> t[k].orderBy > x.orderBy
    requires j == 0 || t[j - 1].orderBy <= x.orderBy
    ensures InsertByOrder(t, x) == t[..j] + [x] + t[j..]
    decreases |t|
  {
    if |t| == j {
      assert t[..j] == t && t[j..] == [];
    } else {
      var n := |t| - 1;
      InsertByOrderAt(t[..n], x, j);
      assert t[..n][..j] == t[..j];
      assert t[j..] == t[..n][j..] + [t[n]];
    }
  }

  /**
   * The inner loop of the insertion sort: shifts the items of the sorted
   * prefix `t == a[..i]` that are strictly larger than `x` one place right
   * and returns the hole `j` where `x` belongs.
   */
  method ShiftLarger(a: array<ContentItem>, i: nat, x: ContentItem, ghost t: seq<ContentItem>) returns (j: nat)
    requires i < a.Length && |t| == i
    requires forall k :: 0 <= k < i ==> a[k] == t[k]
    modifies a
    ensures j <= i
    ensures forall k :: 0 <= k < j ==> a[k] == t[k]
    ensures forall k :: j < k <= i ==> a[k] == t[k - 1]
    ensures forall k :: i < k < a.Length ==> a[k] == old(a[k])
    ensures forall k :: j <= k < i ==> t[k].orderBy > x.orderBy
    ensures j == 0 || t[j - 1].orderBy <= x.orderBy
  {
    j := i;
    while j > 0 && a[j - 1].orderBy > x.orderBy
      invariant 0 <= j <= i
      invariant forall k :: 0 <= k < j ==> a[k] == t[k]
      invariant forall k :: j < k <= i ==> a[k] == t[k - 1]
      invariant forall k :: i < k < a.Length ==> a[k] == old(a[k])
      invariant forall k :: j <= k < i ==> t[k].orderBy > x.orderBy
    {
      a[j] := a[j - 1];
      j := j - 1;
    }
  }

  /**
   * One step of the in-place insertion sort: the sorted prefix `a[..i]`
   * absorbs `a[i]`, shifting the larger items one place to the right.
   */
  method InsertIntoPrefix(a: array<ContentItem>, i: nat)
    requires i < a.Length
    modifies a
    ensures a[..i + 1] == InsertByOrder(old(a[..i]), old(a[i]))
    ensures forall k :: i < k < a.Length ==> a[k] == old(a[k])
  {
    var x := a[i];
    ghost var t := a[..i];
    var j := ShiftLarger(a, i, x, t);
    a[j] := x;
    assert a[..i + 1] == InsertByOrder(t, x) by {
      InsertByOrderAt(t, x, j);
      assert a[..i + 1] == t[..j] + [x] + t[j..];
    }
  }

  /** Sorting one more item of the input inserts it into the sorted prefix. */
  lemma SortByOrderPrefix(s: seq<ContentItem>, i: nat)
    requires i < |s|
    ensures SortByOrder(s[..i + 1]) == InsertByOrder(SortByOrder(s[..i]), s[i])
  {
    assert s[..i + 1][..i] == s[..i];
  }

  /**
   * `content.sort((a, b) => a.orderBy - b.orderBy)`: sorts the array in
   * place, as an insertion sort that moves each item left past every item
   * with a strictly larger `orderBy`.
   */
  method SortContent(a: array<ContentItem>)
    modifies a
    ensures a[..] == SortByOrder(old(a[..]))
  {
    ghost var s := a[..];
    var i := 0;
    while i < a.Length
      invariant 0 <= i <= a.Length
      invariant a[..i] == SortByOrder(s[..i])
      invariant forall k :: i <= k < a.Length ==> a[k] == s[k]
    {
      assert a[i] == s[i];
      InsertIntoPrefix(a, i);
      SortByOrderPrefix(s, i);
      i := i + 1;
    }
    assert a[..] == a[..a.Length];
    assert s == s[..a.Length];
  }
}
