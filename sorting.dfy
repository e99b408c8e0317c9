/**
 * np.argsort. numpy's default sort is not stable, so the rest of the model is stated for
 * ANY index array satisfying IsArgSort; ArgSort computes one such array (an insertion sort
 * that keeps equal keys in their original order).
 */
module Sorting {
  import opened Arrays

  /** p lists each index below n exactly once. */
  predicate IsPermutation(p: seq<nat>, n: nat) {
    |p| == n && multiset(p) == multiset(Range(n))
  }

  /** Reading keys in the order p gives a non-decreasing sequence. */
  predicate SortedBy(keys: seq<int>, p: seq<nat>)
    requires InBounds(p, |keys|)
  {
    forall a, b :: 0 <= a < b < |p| ==> keys[p[a]] <= keys[p[b]]
  }

  /** What np.argsort(keys) promises. */
  predicate IsArgSort(keys: seq<int>, p: seq<nat>) {
    IsPermutation(p, |keys|) && InBounds(p, |keys|) && SortedBy(keys, p)
  }

  /** Inserts index i into p, after every entry whose key is not larger than keys[i]. */
  function Insert(keys: seq<int>, p: seq<nat>, i: nat): (r: seq<nat>)
    requires InBounds(p, |keys|) && i < |keys|
    ensures |r| == |p| + 1 && InBounds(r, |keys|)
    ensures multiset(r) == multiset(p) + multiset{i}
    ensures SortedBy(keys, p) ==> SortedBy(keys, r)
  {
    if |p| == 0 then [i]
    else
      var n := |p| - 1;
      if keys[p[n]] <= keys[i] then
        AppendAfterLast(keys, p, i);
        p + [i]
      else
        var front := Insert(keys, p[..n], i);
        assert p[..n] + [p[n]] == p;
        InsertKeepsBound(keys, p, i, front);
        AppendAbove(keys, front, p[n]);
        front + [p[n]]
  }

  /** Appending an index whose key is not below the last key keeps the order sorted. */
  lemma AppendAfterLast(keys: seq<int>, p: seq<nat>, i: nat)
    requires InBounds(p, |keys|) && i < |keys| && |p| > 0 && keys[p[|p| - 1]] <= keys[i]
    ensures InBounds(p + [i], |keys|)
    ensures SortedBy(keys, p) ==> SortedBy(keys, p + [i])
  {
    if SortedBy(keys, p) {
      AppendAbove(keys, p, i);
    }
  }

  /** Appending an index whose key bounds every key so far keeps the order sorted. */
  lemma AppendAbove(keys: seq<int>, p: seq<nat>, x: nat)
    requires InBounds(p, |keys|) && x < |keys|
    ensures InBounds(p + [x], |keys|)
    ensures SortedBy(keys, p) && (forall a :: 0 <= a < |p| ==> keys[p[a]] <= keys[x]) ==> SortedBy(keys, p + [x])
  {
    var r := p + [x];
    if SortedBy(keys, p) && (forall a :: 0 <= a < |p| ==> keys[p[a]] <= keys[x]) {
      forall a, b | 0 <= a < b < |r| ensures keys[r[a]] <= keys[r[b]] {
        if b < |p| {
          assert r[a] == p[a] && r[b] == p[b];
        }
      }
    }
  }

  /** Everything in the shorter insertion stays at or below the key of p's last entry. */
  lemma InsertKeepsBound(keys: seq<int>, p: seq<nat>, i: nat, front: seq<nat>)
    requires InBounds(p, |keys|) && i < |keys| && |p| > 0 && InBounds(front, |keys|)
    requires keys[i] < keys[p[|p| - 1]]
    requires multiset(front) == multiset(p[..|p| - 1]) + multiset{i}
    ensures SortedBy(keys, p) ==> forall a :: 0 <= a < |front| ==> keys[front[a]] <= keys[p[|p| - 1]]
  {
    var n := |p| - 1;
    forall a | 0 <= a < |front| && SortedBy(keys, p) ensures keys[front[a]] <= keys[p[n]] {
      assert front[a] in multiset(front);
      if front[a] != i {
        assert front[a] in multiset(p[..n]);
        var b :| 0 <= b < n && p[..n][b] == front[a];
        assert p[b] == front[a];
      }
    }
  }

  function ArgSortPrefix(keys: seq<int>, n: nat): (r: seq<nat>)
    requires n <= |keys|
    ensures |r| == n && InBounds(r, |keys|)
    ensures multiset(r) == multiset(Range(n))
    ensures SortedBy(keys, r)
  {
    if n == 0 then []
    else
      assert Range(n) == Range(n - 1) + [n - 1];
      Insert(keys, ArgSortPrefix(keys, n - 1), n - 1)
  }

  /** One admissible result of np.argsort(keys). */
  function ArgSort(keys: seq<int>): (r: seq<nat>)
    ensures IsArgSort(keys, r)
  {
    ArgSortPrefix(keys, |keys|)
  }

  /** Inserts v into the sorted s after every entry not larger than v. */
  function InsertValue(s: seq<int>, v: int): (r: seq<int>)
    ensures |r| == |s| + 1
    ensures multiset(r) == multiset(s) + multiset{v}
    ensures Sorted(s) ==> Sorted(r)
  {
    if |s| == 0 || s[|s| - 1] <= v then
      SortedSnoc(s, v);
      s + [v]
    else
      var n := |s| - 1;
      var front := InsertValue(s[..n], v);
      assert s[..n] + [s[n]] == s;
      ValueKeepsBound(s, v, front);
      SortedSnoc(front, s[n]);
      front + [s[n]]
  }

  /** The last entry of the shorter insertion stays at or below the last value of s. */
  lemma ValueKeepsBound(s: seq<int>, v: int, front: seq<int>)
    requires |s| > 0 && v < s[|s| - 1] && |front| > 0
    requires multiset(front) == multiset(s[..|s| - 1]) + multiset{v}
    ensures Sorted(s) ==> front[|front| - 1] <= s[|s| - 1]
  {
    var x := front[|front| - 1];
    assert x in multiset(front);
    if x != v {
      assert x in multiset(s[..|s| - 1]);
      assert x in s[..|s| - 1];
    }
  }

  /** Appending a value not below any entry keeps a sorted array sorted. */
  lemma SortedSnoc(s: seq<int>, v: int)
    ensures Sorted(s) && (|s| == 0 || s[|s| - 1] <= v) ==> Sorted(s + [v])
  {
  }

  /** np.sort(s). */
  function Sort(s: seq<int>): (r: seq<int>)
    ensures Sorted(r) && multiset(r) == multiset(s)
  {
    if |s| == 0 then []
    else
      var n := |s| - 1;
      assert s[..n] + [s[n]] == s;
      InsertValue(Sort(s[..n]), s[n])
  }

  // ---------------------------------------------------------------------------
  // Permutations
  // ---------------------------------------------------------------------------

  lemma {:induction false} RangeMultiplicity(n: nat, x: nat)
    ensures multiset(Range(n))[x] == if x < n then 1 else 0
  {
    if n > 0 {
      assert Range(n) == Range(n - 1) + [n - 1];
      RangeMultiplicity(n - 1, x);
    }
  }

  /** A permutation is in range, has no repeats and hits every index. */
  lemma PermutationFacts(p: seq<nat>, n: nat)
    requires IsPermutation(p, n)
    ensures InBounds(p, n) && Distinct(p)
    ensures forall i :: 0 <= i < n ==> i in p
  {
    forall k | 0 <= k < |p| ensures p[k] < n {
      assert p[k] in multiset(p);
      RangeMultiplicity(n, p[k]);
    }
    forall i | 0 <= i < n ensures i in p {
      RangeMultiplicity(n, i);
      assert i in multiset(p);
    }
    forall a, b | 0 <= a < b < |p| ensures p[a] != p[b] {
      if p[a] == p[b] {
        var v := p[a];
        assert p == p[..b] + [v] + p[b + 1..];
        assert v in p[..b];
        assert multiset(p)[v] >= 2;
        RangeMultiplicity(n, v);
        assert false;
      }
    }
  }

  /** Taking the same value off two equal multisets leaves equal multisets. */
  lemma RemoveSame(p: seq<nat>, q: seq<nat>, k: nat)
    requires |p| > 0 && k < |q| && q[k] == p[|p| - 1] && multiset(p) == multiset(q)
    ensures multiset(p[..|p| - 1]) == multiset(q[..k] + q[k + 1..])
  {
    var n := |p| - 1;
    var j := p[n];
    var a, b := multiset(p[..n]), multiset(q[..k] + q[k + 1..]);
    assert p == p[..n] + [j];
    assert q == q[..k] + [j] + q[k + 1..];
    assert multiset(p) == a + multiset{j};
    assert multiset(q) == b + multiset{j};
    forall x ensures a[x] == b[x] {
      assert (a + multiset{j})[x] == (b + multiset{j})[x];
    }
  }

  /** Rearranging the index array rearranges the gathered values the same way. */
  lemma {:induction false} GatherSameMultiset<T>(s: seq<T>, p: seq<nat>, q: seq<nat>)
    requires InBounds(p, |s|) && InBounds(q, |s|) && multiset(p) == multiset(q)
    ensures multiset(Gather(s, p)) == multiset(Gather(s, q))
    decreases |p|
  {
    if |p| > 0 {
      var n := |p| - 1;
      var j := p[n];
      assert j in multiset(q) by {
        assert p == p[..n] + [j];
      }
      var k :| 0 <= k < |q| && q[k] == j;
      var q1 := q[..k] + q[k + 1..];
      var gp, gq := Gather(s, p), Gather(s, q);
      assert multiset(gp) == multiset(Gather(s, p[..n])) + multiset{s[j]} by {
        GatherSplit(s, p[..n], j, p);
      }
      assert multiset(gq) == multiset(Gather(s, q1)) + multiset{s[j]} by {
        assert q == q[..k] + [j] + q[k + 1..];
        GatherSplit3(s, q[..k], j, q[k + 1..], q);
      }
      assert multiset(Gather(s, p[..n])) == multiset(Gather(s, q1)) by {
        RemoveSame(p, q, k);
        GatherSplit(s, p[..n], j, p);
        assert q == q[..k] + [j] + q[k + 1..];
        GatherSplit3(s, q[..k], j, q[k + 1..], q);
        GatherSameMultiset(s, p[..n], q1);
      }
    } else {
      assert multiset(q) == multiset{};
    }
  }

  lemma GatherSplit<T>(s: seq<T>, a: seq<nat>, j: nat, p: seq<nat>)
    requires p == a + [j] && InBounds(p, |s|)
    ensures InBounds(a, |s|) && j < |s|
    ensures multiset(Gather(s, p)) == multiset(Gather(s, a)) + multiset{s[j]}
  {
    assert p[|a|] == j;
    assert forall k :: 0 <= k < |a| ==> a[k] == p[k];
    assert Gather(s, p) == Gather(s, a) + [s[j]];
  }

  lemma GatherSplit3<T>(s: seq<T>, a: seq<nat>, j: nat, b: seq<nat>, q: seq<nat>)
    requires q == a + [j] + b && InBounds(q, |s|)
    ensures InBounds(a, |s|) && InBounds(b, |s|) && InBounds(a + b, |s|) && j < |s|
    ensures multiset(Gather(s, q)) == multiset(Gather(s, a + b)) + multiset{s[j]}
  {
    assert InBounds(a, |s|) && InBounds(b, |s|) && j < |s| by {
      assert q[|a|] == j;
      assert forall k :: 0 <= k < |a| ==> a[k] == q[k];
      assert forall k :: 0 <= k < |b| ==> b[k] == q[|a| + 1 + k];
    }
    var ga, gb := Gather(s, a), Gather(s, b);
    assert Gather(s, q) == ga + [s[j]] + gb by {
      GatherAppend(s, a + [j], b);
      GatherAppend(s, a, [j]);
      assert Gather(s, [j]) == [s[j]];
    }
    assert Gather(s, a + b) == ga + gb by {
      GatherAppend(s, a, b);
    }
    assert multiset(ga + [s[j]] + gb) == multiset(ga + gb) + multiset{s[j]};
  }

  /** Gathering through a concatenation concatenates the gathers. */
  lemma GatherAppend<T>(s: seq<T>, a: seq<nat>, b: seq<nat>)
    requires InBounds(a, |s|) && InBounds(b, |s|)
    ensures InBounds(a + b, |s|) && Gather(s, a + b) == Gather(s, a) + Gather(s, b)
  {
    assert forall k :: 0 <= k < |b| ==> (a + b)[|a| + k] == b[k];
  }


  /** Reading s through a permutation keeps its multiset of values. */
  lemma PermutationPreservesMultiset<T>(s: seq<T>, p: seq<nat>)
    requires IsPermutation(p, |s|)
    ensures InBounds(p, |s|)
    ensures multiset(Gather(s, p)) == multiset(s)
  {
    PermutationFacts(p, |s|);
    GatherSameMultiset(s, p, Range(|s|));
    assert Gather(s, Range(|s|)) == s;
  }
}
