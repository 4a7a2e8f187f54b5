/**
 Lists of scroll depths (percentages) and the two operations the hook applies
 to them on every scroll event: an ascending sort, and a split into the depths
 the current percentage has reached and those it has not.
 */
module Depths {

  /** True iff `s` is in ascending order, the order `sort((a, b) => a - b)` produces. */
  predicate Sorted(s: seq<real>) {
    forall i, j :: 0 <= i < j < |s| ==> s[i] <= s[j]
  }

  /** Inserts `x` into the ascending list `s`, keeping it ascending. */
  function Insert(x: real, s: seq<real>): (r: seq<real>)
    requires Sorted(s)
    ensures Sorted(r)
    ensures multiset(r) == multiset(s) + multiset{x}
  {
    if |s| == 0 then [x]
    else if x <= s[0] then [x] + s
    else
      var tail := Insert(x, s[1..]);
      InsertBehindHead(x, s, tail);
      [s[0]] + tail
  }

  /** Putting the head of `s` back in front of `x` inserted into the rest of `s`. */
  lemma InsertBehindHead(x: real, s: seq<real>, tail: seq<real>)
    requires Sorted(s) && |s| > 0 && s[0] < x
    requires Sorted(tail) && multiset(tail) == multiset(s[1..]) + multiset{x}
    ensures Sorted([s[0]] + tail)
    ensures multiset([s[0]] + tail) == multiset(s) + multiset{x}
  {
    forall k | 0 <= k < |tail|
      ensures s[0] <= tail[k]
    {
      assert tail[k] in multiset(tail);
      if tail[k] != x {
        assert tail[k] in multiset(s[1..]);
        var j :| 0 <= j < |s[1..]| && s[1..][j] == tail[k];
        assert s[j + 1] == tail[k];
      }
    }
    assert s == [s[0]] + s[1..];
  }

  /**
   The ascending sort of a depth list. The result is ascending and a
   permutation of the input; `SortIsOrderIndependent` shows that these two
   facts pin it down completely.
   */
  function Sort(s: seq<real>): (r: seq<real>)
    ensures Sorted(r)
    ensures multiset(r) == multiset(s)
  {
    if |s| == 0 then []
    else
      assert s == [s[0]] + s[1..];
      Insert(s[0], Sort(s[1..]))
  }

  /** The first element of an ascending list is at most each of its elements. */
  lemma HeadIsSmallest(s: seq<real>, x: real)
    requires Sorted(s) && x in multiset(s)
    ensures s[0] <= x
  {
    var j :| 0 <= j < |s| && s[j] == x;
  }

  /** Dropping the first element of a list removes one occurrence of it. */
  lemma DropFirst(s: seq<real>)
    requires |s| > 0
    ensures multiset(s[1..]) == multiset(s) - multiset{s[0]}
  {
    assert s == [s[0]] + s[1..];
  }

  /** Two ascending lists with the same elements start with the same element. */
  lemma SameHead(a: seq<real>, b: seq<real>)
    requires Sorted(a) && Sorted(b) && |a| > 0
    requires multiset(a) == multiset(b)
    ensures |b| > 0 && a[0] == b[0]
  {
    assert a[0] in multiset(a);
    assert |b| > 0;
    HeadIsSmallest(b, a[0]);
    assert b[0] in multiset(b);
    HeadIsSmallest(a, b[0]);
  }

  /** Two ascending lists with the same elements (counted with multiplicity) are equal. */
  lemma {:induction false} SortedPermutationUnique(a: seq<real>, b: seq<real>)
    requires Sorted(a) && Sorted(b)
    requires multiset(a) == multiset(b)
    ensures a == b
  {
    if |a| == 0 {
      assert |b| == |multiset(b)| == 0;
    } else {
      SameHead(a, b);
      DropFirst(a);
      DropFirst(b);
      var a', b' := a[1..], b[1..];
      assert Sorted(a') && Sorted(b');
      SortedPermutationUnique(a', b');
      assert a == [a[0]] + a';
      assert b == [b[0]] + b';
    }
  }

  /** The sort does not depend on the order the depths were given in. */
  lemma SortIsOrderIndependent(a: seq<real>, b: seq<real>)
    requires multiset(a) == multiset(b)
    ensures Sort(a) == Sort(b)
  {
    SortedPermutationUnique(Sort(a), Sort(b));
  }

  /** Sorting an ascending list leaves it as it is. */
  lemma SortOfSortedIsIdentity(s: seq<real>)
    requires Sorted(s)
    ensures Sort(s) == s
  {
    SortedPermutationUnique(Sort(s), s);
  }

  /**
   Putting the first element of an ascending list in front of an ascending
   sub-multiset of the rest keeps it ascending.
   */
  lemma FirstBoundsSubList(s: seq<real>, t: seq<real>)
    requires |s| > 0
    requires multiset(t) <= multiset(s[1..])
    requires Sorted(s) && Sorted(t)
    ensures Sorted([s[0]] + t)
  {
    forall k | 0 <= k < |t|
      ensures s[0] <= t[k]
    {
      assert t[k] in multiset(t);
      assert t[k] in s[1..];
    }
  }

  /**
   The depths `percent` has reached (`percent >= depth`), in their original
   order. With `Remaining` they split `s` exactly (`PartitionIsExact`).
   */
  function Reached(s: seq<real>, percent: real): (r: seq<real>)
    ensures forall i :: 0 <= i < |r| ==> r[i] <= percent
  {
    if |s| == 0 then []
    else
      var tail := Reached(s[1..], percent);
      if s[0] <= percent then [s[0]] + tail else tail
  }

  /** The depths `percent` has not reached (`percent < depth`), in their original order. */
  function Remaining(s: seq<real>, percent: real): (r: seq<real>)
    ensures forall i :: 0 <= i < |r| ==> percent < r[i]
  {
    if |s| == 0 then []
    else
      var tail := Remaining(s[1..], percent);
      if percent < s[0] then [s[0]] + tail else tail
  }

  /** Filtering an ascending list keeps it ascending. */
  lemma {:induction false} FiltersKeepOrder(s: seq<real>, percent: real)
    requires Sorted(s)
    ensures Sorted(Reached(s, percent))
    ensures Sorted(Remaining(s, percent))
  {
    if |s| > 0 {
      FiltersKeepOrder(s[1..], percent);
      FiltersAreSubMultisets(s[1..], percent);
      FirstBoundsSubList(s, Reached(s[1..], percent));
      FirstBoundsSubList(s, Remaining(s[1..], percent));
    }
  }

  /** Every depth is either reached or remaining, never both and never neither. */
  lemma {:induction false} PartitionIsExact(s: seq<real>, percent: real)
    ensures multiset(Reached(s, percent)) + multiset(Remaining(s, percent)) == multiset(s)
  {
    if |s| > 0 {
      assert s == [s[0]] + s[1..];
      PartitionIsExact(s[1..], percent);
    }
  }

  /** Each filter keeps only depths of the input, each at most as often. */
  lemma FiltersAreSubMultisets(s: seq<real>, percent: real)
    ensures multiset(Reached(s, percent)) <= multiset(s)
    ensures multiset(Remaining(s, percent)) <= multiset(s)
  {
    PartitionIsExact(s, percent);
  }

  /** When even the smallest depth of an ascending list lies above `percent`, nothing is reached. */
  lemma NothingReachedBelowFirst(s: seq<real>, percent: real)
    requires Sorted(s) && |s| > 0 && percent < s[0]
    ensures Reached(s, percent) == []
  {
  }

  /**
   On an ascending list the reached depths form a prefix and the remaining
   depths the rest: putting them back together gives the list.
   */
  lemma {:induction false} SortedSplits(s: seq<real>, percent: real)
    requires Sorted(s)
    ensures Reached(s, percent) + Remaining(s, percent) == s
  {
    if |s| > 0 {
      var rest := s[1..];
      assert s == [s[0]] + rest;
      SortedSplits(rest, percent);
      var reached, remaining := Reached(rest, percent), Remaining(rest, percent);
      if percent < s[0] {
        NothingReachedBelowFirst(s, percent);
        assert Reached(s, percent) == reached == [];
        assert Remaining(s, percent) == [s[0]] + remaining;
      } else {
        assert Reached(s, percent) == [s[0]] + reached;
        assert Remaining(s, percent) == remaining;
        assert ([s[0]] + reached) + remaining == [s[0]] + (reached + remaining);
      }
    }
  }

  /** No value above `percent` is reached, and no value at or below it remains. */
  lemma FilterCounts(s: seq<real>, percent: real)
    ensures forall x :: x <= percent ==> multiset(Remaining(s, percent))[x] == 0
    ensures forall x :: percent < x ==> multiset(Reached(s, percent))[x] == 0
  {
  }

  /** Reordering the input does not change which depths are reached or remain. */
  lemma FiltersRespectPermutation(a: seq<real>, b: seq<real>, percent: real)
    requires multiset(a) == multiset(b)
    ensures multiset(Reached(a, percent)) == multiset(Reached(b, percent))
    ensures multiset(Remaining(a, percent)) == multiset(Remaining(b, percent))
  {
    PartitionIsExact(a, percent);
    PartitionIsExact(b, percent);
    FilterCounts(a, percent);
    FilterCounts(b, percent);
    forall x
      ensures multiset(Reached(a, percent))[x] == multiset(Reached(b, percent))[x]
      ensures multiset(Remaining(a, percent))[x] == multiset(Remaining(b, percent))[x]
    {
      assert multiset(a)[x] == multiset(b)[x];
      if x <= percent {
        assert multiset(Remaining(a, percent))[x] == 0 == multiset(Remaining(b, percent))[x];
      } else {
        assert multiset(Reached(a, percent))[x] == 0 == multiset(Reached(b, percent))[x];
      }
    }
  }

  /**
   When the first `k` depths are at most `percent` and the others above it,
   the first `k` are reached and the others remain.
   */
  lemma SplitAtBoundary(s: seq<real>, k: nat, percent: real)
    requires k <= |s|
    requires forall i :: 0 <= i < k ==> s[i] <= percent
    requires forall i :: k <= i < |s| ==> percent < s[i]
    ensures Reached(s, percent) == s[..k]
    ensures Remaining(s, percent) == s[k..]
  {
    ReachedAtBoundary(s, k, percent);
    RemainingAtBoundary(s, k, percent);
  }

  lemma {:induction false} ReachedAtBoundary(s: seq<real>, k: nat, percent: real)
    requires k <= |s|
    requires forall i :: 0 <= i < k ==> s[i] <= percent
    requires forall i :: k <= i < |s| ==> percent < s[i]
    ensures Reached(s, percent) == s[..k]
    decreases |s|
  {
    if |s| > 0 {
      var rest := s[1..];
      if k > 0 {
        ReachedAtBoundary(rest, k - 1, percent);
        assert s[0] <= percent;
        assert Reached(s, percent) == [s[0]] + Reached(rest, percent);
        assert s[..k] == [s[0]] + rest[..k - 1];
      } else {
        ReachedAtBoundary(rest, 0, percent);
        assert percent < s[0];
        assert Reached(s, percent) == Reached(rest, percent);
      }
    }
  }

  lemma {:induction false} RemainingAtBoundary(s: seq<real>, k: nat, percent: real)
    requires k <= |s|
    requires forall i :: 0 <= i < k ==> s[i] <= percent
    requires forall i :: k <= i < |s| ==> percent < s[i]
    ensures Remaining(s, percent) == s[k..]
    decreases |s|
  {
    if |s| > 0 {
      var rest := s[1..];
      if k > 0 {
        RemainingAtBoundary(rest, k - 1, percent);
        assert rest[k - 1..] == s[k..];
      } else {
        RemainingAtBoundary(rest, 0, percent);
        assert s == [s[0]] + rest;
      }
    }
  }

  /** The last element of an ascending list is its largest. */
  lemma LastIsLargest(s: seq<real>)
    requires Sorted(s) && |s| > 0
    ensures forall x :: x in s ==> x <= s[|s| - 1]
  {
  }

  /** Every depth at most `percent` is among the reached ones. */
  lemma {:induction false} ReachedKeepsAllBelow(s: seq<real>, percent: real)
    ensures forall i :: 0 <= i < |s| && s[i] <= percent ==> s[i] in Reached(s, percent)
    decreases |s|
  {
    if |s| > 0 {
      ReachedKeepsAllBelow(s[1..], percent);
      forall i | 0 <= i < |s| && s[i] <= percent
        ensures s[i] in Reached(s, percent)
      {
        if i > 0 {
          assert s[i] == s[1..][i - 1];
        }
      }
    }
  }
}
