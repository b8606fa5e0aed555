/**
  The uniqueness test of the path checker: the path is cloned, the clone is
  sorted and then de-duplicated in place (consecutive equal entries collapse to
  one), and the resulting length is compared with the path's length.
 */
module SortDedup {

  /** Non-decreasing order. */
  predicate Sorted(s: seq<nat>) {
    forall k, l :: 0 <= k < l < |s| ==> s[k] <= s[l]
  }

  /** Strictly increasing order. */
  predicate StrictlyIncreasing(s: seq<nat>) {
    forall k, l :: 0 <= k < l < |s| ==> s[k] < s[l]
  }

  /** No entry occurs twice. */
  predicate Distinct(s: seq<nat>) {
    forall k, l :: 0 <= k < l < |s| ==> s[k] != s[l]
  }

  /** The set of entries of a sequence. */
  ghost function Elements(s: seq<nat>): set<nat> {
    set x | x in s
  }

  /**
    What an in-place dedup leaves behind: every run of equal consecutive
    entries is replaced by a single copy of that entry.
   */
  function DedupSeq(s: seq<nat>): (r: seq<nat>)
    ensures |r| <= |s|
    ensures |s| > 0 ==> |r| > 0 && r[|r| - 1] == s[|s| - 1]
    decreases |s|
  {
    if |s| <= 1 then s
    else if s[|s| - 1] == s[|s| - 2] then DedupSeq(s[..|s| - 1])
    else DedupSeq(s[..|s| - 1]) + [s[|s| - 1]]
  }

  /** Sorts `a` in place (insertion sort): the result is ordered and a permutation. */
  method SortInPlace(a: array<nat>)
    modifies a
    ensures Sorted(a[..])
    ensures multiset(a[..]) == old(multiset(a[..]))
  {
    var i := 0;
    while i < a.Length
      invariant 0 <= i <= a.Length
      invariant forall k, l :: 0 <= k < l < i ==> a[k] <= a[l]
      invariant multiset(a[..]) == old(multiset(a[..]))
    {
      var j := i;
      while j > 0 && a[j - 1] > a[j]
        invariant 0 <= j <= i
        invariant forall k, l :: 0 <= k < l <= i && k != j && l != j ==> a[k] <= a[l]
        invariant forall l :: j < l <= i ==> a[j] < a[l]
        invariant multiset(a[..]) == old(multiset(a[..]))
      {
        a[j - 1], a[j] := a[j], a[j - 1];
        j := j - 1;
      }
      i := i + 1;
    }
  }

  /**
    Removes consecutive repeated entries of `a` in place, keeping the first of
    each run; the kept entries occupy `a[..len]`.
   */
  method Dedup(a: array<nat>) returns (len: nat)
    modifies a
    ensures len <= a.Length
    ensures a[..len] == DedupSeq(old(a[..]))
  {
    ghost var s := a[..];
    if a.Length == 0 {
      return 0;
    }
    var write := 1;
    var read := 1;
    assert s[..1] == a[..1];
    while read < a.Length
      invariant 1 <= write <= read <= a.Length
      invariant a[..write] == DedupSeq(s[..read])
      invariant forall k :: read <= k < a.Length ==> a[k] == s[k]
    {
      ghost var prefix := s[..read + 1];
      assert prefix[..read] == s[..read];
      assert a[read] == s[read];
      if a[read] != a[write - 1] {
        a[write] := a[read];
        write := write + 1;
      }
      read := read + 1;
    }
    assert s[..a.Length] == s;
    return write;
  }

  /** Dedup keeps exactly the entries it was given. */
  lemma {:induction false} DedupElements(s: seq<nat>)
    ensures Elements(DedupSeq(s)) == Elements(s)
    decreases |s|
  {
    if |s| > 1 {
      var init := s[..|s| - 1];
      DedupElements(init);
      var x := s[|s| - 1];
      assert s == init + [x];
      assert Elements(s) == Elements(init) + {x};
      if x == s[|s| - 2] {
        assert x == init[|init| - 1];
      } else {
        assert Elements(DedupSeq(init) + [x]) == Elements(DedupSeq(init)) + {x};
      }
    }
  }

  /** Dedup of a sorted sequence is strictly increasing. */
  lemma {:induction false} DedupSortedIncreasing(s: seq<nat>)
    requires Sorted(s)
    ensures StrictlyIncreasing(DedupSeq(s))
    decreases |s|
  {
    if |s| > 1 {
      var init := s[..|s| - 1];
      assert Sorted(init);
      DedupSortedIncreasing(init);
      var r := DedupSeq(init);
      if s[|s| - 1] != s[|s| - 2] {
        assert r[|r| - 1] < s[|s| - 1];
        var x := s[|s| - 1];
        forall k, l | 0 <= k < l < |r + [x]|
          ensures (r + [x])[k] < (r + [x])[l]
        {
          if l == |r| {
            assert k == |r| - 1 || r[k] < r[|r| - 1];
          }
        }
      }
    }
  }

  /** The entries of a non-empty sequence are its head and the entries of its tail. */
  lemma ElementsCons(s: seq<nat>)
    requires |s| > 0
    ensures Elements(s) == {s[0]} + Elements(s[1..])
  {
    assert s == [s[0]] + s[1..];
  }

  /** A non-empty sequence is distinct exactly when its head is new and its tail distinct. */
  lemma DistinctCons(s: seq<nat>)
    requires |s| > 0
    ensures Distinct(s) <==> s[0] !in s[1..] && Distinct(s[1..])
  {
    var tail := s[1..];
    if s[0] in tail {
      var m :| 0 <= m < |tail| && tail[m] == s[0];
      assert s[0] == s[m + 1];
    } else if Distinct(tail) {
      forall k, l | 0 <= k < l < |s| ensures s[k] != s[l] {
        assert s[l] == tail[l - 1];
        if k > 0 {
          assert s[k] == tail[k - 1];
        }
      }
    } else {
      var k, l :| 0 <= k < l < |tail| && tail[k] == tail[l];
      assert s[k + 1] == s[l + 1];
    }
  }

  /** A sequence has as many distinct entries as positions exactly when no entry repeats. */
  lemma {:induction false} ElementsCardIffDistinct(s: seq<nat>)
    ensures |Elements(s)| <= |s|
    ensures |Elements(s)| == |s| <==> Distinct(s)
    decreases |s|
  {
    if |s| > 0 {
      ElementsCardIffDistinct(s[1..]);
      ElementsCons(s);
      DistinctCons(s);
      assert s[0] in s[1..] <==> s[0] in Elements(s[1..]);
    } else {
      assert Elements(s) == {};
    }
  }

  /** Permuting a sequence does not change its set of entries. */
  lemma PermutationElements(s: seq<nat>, t: seq<nat>)
    requires multiset(s) == multiset(t)
    ensures Elements(s) == Elements(t)
    ensures |s| == |t|
  {
    forall x ensures x in Elements(s) <==> x in Elements(t) {
      assert x in s <==> x in multiset(s);
      assert x in t <==> x in multiset(t);
    }
    assert |multiset(s)| == |s| && |multiset(t)| == |t|;
  }

  /**
    Sorting a copy of `path` and de-duplicating it gives a strictly increasing
    sequence with the same entries as `path`.
   */
  lemma SortDedupIsElementSet(path: seq<nat>, sorted: seq<nat>)
    requires Sorted(sorted) && multiset(sorted) == multiset(path)
    ensures StrictlyIncreasing(DedupSeq(sorted))
    ensures Elements(DedupSeq(sorted)) == Elements(path)
  {
    DedupSortedIncreasing(sorted);
    DedupElements(sorted);
    PermutationElements(sorted, path);
  }

  /**
    The uniqueness test is exact: the de-duplicated sorted copy is as long as
    `path` if and only if the entries of `path` are pairwise distinct.
   */
  lemma UniqueLengthIffDistinct(path: seq<nat>, sorted: seq<nat>)
    requires Sorted(sorted) && multiset(sorted) == multiset(path)
    ensures |DedupSeq(sorted)| <= |path|
    ensures |DedupSeq(sorted)| == |path| <==> Distinct(path)
  {
    var d := DedupSeq(sorted);
    SortDedupIsElementSet(path, sorted);
    PermutationElements(sorted, path);
    ElementsCardIffDistinct(d);
    assert Distinct(d);
    ElementsCardIffDistinct(path);
  }
}
