/**
 * The whole-array numpy operations the galsampler core is written in, as functions on
 * sequences, each with the facts about it that the rest of the model relies on.
 *
 *   np.arange            Range          a[idx] (integer index)   Gather
 *   a[mask] (bool mask)  Compress       np.repeat                Repeat
 *   a[idx] = vals        Scatter        np.count_nonzero(a == v) Count
 *   np.unique(sorted, return_counts)    RunLength
 *   np.searchsorted(sorted, v)          SearchSorted
 *   np.unique(.., return_index) entry   FirstIndexOf
 */
module Arrays {

  // ---------------------------------------------------------------------------
  // Basic predicates and reductions
  // ---------------------------------------------------------------------------

  predicate InBounds(idx: seq<nat>, n: nat) {
    forall k :: 0 <= k < |idx| ==> idx[k] < n
  }

  predicate Distinct<T(==)>(s: seq<T>) {
    forall i, j :: 0 <= i < j < |s| ==> s[i] != s[j]
  }

  /** Non-decreasing. */
  predicate Sorted(s: seq<int>) {
    forall i, j :: 0 <= i < j < |s| ==> s[i] <= s[j]
  }

  predicate StrictlySorted(s: seq<int>) {
    forall i, j :: 0 <= i < j < |s| ==> s[i] < s[j]
  }

  function Range(n: nat): (r: seq<nat>)
    ensures |r| == n
    ensures forall i :: 0 <= i < n ==> r[i] == i
  {
    seq(n, i => i)
  }

  function Count<T(==)>(s: seq<T>, v: T): (r: nat)
    ensures r <= |s|
    ensures r > 0 <==> v in s
  {
    if |s| == 0 then 0 else (if s[0] == v then 1 else 0) + Count(s[1..], v)
  }

  function Sum(s: seq<nat>): nat {
    if |s| == 0 then 0 else s[0] + Sum(s[1..])
  }

  function Pos(x: int): nat { if x > 0 then x else 0 }

  /** Sum of the positive entries: what a loop that skips non-positive counts adds up. */
  function SumPositive(s: seq<int>): nat {
    if |s| == 0 then 0 else Pos(s[0]) + SumPositive(s[1..])
  }

  // ---------------------------------------------------------------------------
  // Gathering, masking, repeating, scattering
  // ---------------------------------------------------------------------------

  /** a[idx] for an integer index array. */
  function Gather<T>(s: seq<T>, idx: seq<nat>): (r: seq<T>)
    requires InBounds(idx, |s|)
    ensures |r| == |idx|
    ensures forall k :: 0 <= k < |idx| ==> r[k] == s[idx[k]]
  {
    seq(|idx|, k requires 0 <= k < |idx| => s[idx[k]])
  }

  function MapSeq<A, B>(s: seq<A>, f: A -> B): (r: seq<B>)
    ensures |r| == |s|
    ensures forall k :: 0 <= k < |s| ==> r[k] == f(s[k])
  {
    seq(|s|, k requires 0 <= k < |s| => f(s[k]))
  }

  /** a[mask] for a boolean mask: the entries whose mask is true, in order. */
  function Compress<T>(s: seq<T>, m: seq<bool>): (r: seq<T>)
    requires |s| == |m|
    ensures |r| == TrueCount(m)
  {
    if |s| == 0 then []
    else Compress(s[..|s| - 1], m[..|m| - 1]) + (if m[|m| - 1] then [s[|s| - 1]] else [])
  }

  /** np.count_nonzero(mask). */
  function TrueCount(m: seq<bool>): (r: nat)
    ensures r <= |m|
  {
    if |m| == 0 then 0 else TrueCount(m[..|m| - 1]) + (if m[|m| - 1] then 1 else 0)
  }

  /** np.flatnonzero(mask): the positions whose mask is true, in increasing order. */
  function Positions(m: seq<bool>): (r: seq<nat>)
    ensures InBounds(r, |m|)
  {
    if |m| == 0 then []
    else Positions(m[..|m| - 1]) + (if m[|m| - 1] then [|m| - 1] else [])
  }

  /** np.repeat(v, c): v[0] c[0] times, then v[1] c[1] times, ... */
  function Repeat<T>(v: seq<T>, c: seq<nat>): (r: seq<T>)
    requires |v| == |c|
    ensures |r| == Sum(c)
  {
    if |v| == 0 then [] else Fill(c[0], v[0]) + Repeat(v[1..], c[1..])
  }

  /** n copies of x (np.full). */
  function Fill<T>(n: nat, x: T): (r: seq<T>)
    ensures |r| == n && forall i :: 0 <= i < n ==> r[i] == x
  {
    seq(n, _ => x)
  }

  /** One more copy goes at the front. */
  lemma FillCons<T>(n: nat, x: T)
    ensures Fill(n + 1, x) == [x] + Fill(n, x)
  {
  }

  /** base[idx] = vals, assigning left to right. */
  function Scatter<T>(base: seq<T>, idx: seq<nat>, vals: seq<T>): (r: seq<T>)
    requires |idx| == |vals| && InBounds(idx, |base|)
    ensures |r| == |base|
    decreases |idx|
  {
    if |idx| == 0 then base else Scatter(base[idx[0] := vals[0]], idx[1..], vals[1..])
  }

  // ---------------------------------------------------------------------------
  // Sorted-array primitives
  // ---------------------------------------------------------------------------

  /** np.searchsorted(s, v) with side='left': the number of entries below v. */
  function SearchSorted(s: seq<int>, v: int): (r: nat)
    ensures r <= |s|
  {
    if |s| == 0 then 0 else (if s[0] < v then 1 else 0) + SearchSorted(s[1..], v)
  }

  /** np.unique(s, return_counts=True) for a sorted s: the runs of equal values. */
  function RunLength(s: seq<int>): (r: (seq<int>, seq<nat>))
    ensures |r.0| == |r.1|
    ensures |s| > 0 ==> |r.0| > 0 && r.0[0] == s[0]
    ensures forall i :: 0 <= i < |r.1| ==> r.1[i] > 0
  {
    if |s| == 0 then ([], [])
    else
      var rest := RunLength(s[1..]);
      if |rest.0| > 0 && rest.0[0] == s[0] then ([s[0]] + rest.0[1..], [rest.1[0] + 1] + rest.1[1..])
      else ([s[0]] + rest.0, [1] + rest.1)
  }

  /** The index of the first occurrence of v in s. */
  function FirstIndexOf<T(==)>(s: seq<T>, v: T): (r: nat)
    requires v in s
    ensures r < |s| && s[r] == v
    ensures forall j :: 0 <= j < r ==> s[j] != v
  {
    if s[0] == v then 0 else 1 + FirstIndexOf(s[1..], v)
  }

  // ---------------------------------------------------------------------------
  // Lemmas: counting and sums
  // ---------------------------------------------------------------------------

  lemma {:induction false} CountIsMultiplicity<T>(s: seq<T>, v: T)
    ensures Count(s, v) == multiset(s)[v]
  {
    if |s| > 0 {
      CountIsMultiplicity(s[1..], v);
      assert s == [s[0]] + s[1..];
    }
  }

  lemma {:induction false} CountAppend<T>(a: seq<T>, b: seq<T>, v: T)
    ensures Count(a + b, v) == Count(a, v) + Count(b, v)
  {
    CountIsMultiplicity(a + b, v);
    CountIsMultiplicity(a, v);
    CountIsMultiplicity(b, v);
  }

  lemma {:induction false} SumAppend(a: seq<nat>, b: seq<nat>)
    ensures Sum(a + b) == Sum(a) + Sum(b)
  {
    if |a| > 0 {
      assert (a + b)[1..] == a[1..] + b;
      SumAppend(a[1..], b);
    } else {
      assert a + b == b;
    }
  }

  lemma {:induction false} SumPositiveAppend(a: seq<int>, b: seq<int>)
    ensures SumPositive(a + b) == SumPositive(a) + SumPositive(b)
  {
    if |a| > 0 {
      assert (a + b)[1..] == a[1..] + b;
      SumPositiveAppend(a[1..], b);
    } else {
      assert a + b == b;
    }
  }

  /** The running sum grows by the positive part of each entry. */
  lemma SumPositiveSnoc(s: seq<int>, i: nat)
    requires i < |s|
    ensures SumPositive(s[..i + 1]) == SumPositive(s[..i]) + Pos(s[i])
  {
    assert s[..i + 1] == s[..i] + [s[i]];
    SumPositiveAppend(s[..i], [s[i]]);
  }

  lemma SumSnoc(s: seq<nat>, i: nat)
    requires i < |s|
    ensures Sum(s[..i + 1]) == Sum(s[..i]) + s[i]
  {
    assert s[..i + 1] == s[..i] + [s[i]];
    SumAppend(s[..i], [s[i]]);
  }

  /** For counts that are never negative, the two sums agree. */
  lemma {:induction false} SumPositiveOfNat(s: seq<nat>)
    ensures SumPositive(s) == Sum(s)
  {
    if |s| > 0 {
      SumPositiveOfNat(s[1..]);
    }
  }

  lemma {:induction false} SumPositivePrefixBound(s: seq<int>, i: nat)
    requires i <= |s|
    ensures SumPositive(s[..i]) <= SumPositive(s)
  {
    assert s == s[..i] + s[i..];
    SumPositiveAppend(s[..i], s[i..]);
  }

  // ---------------------------------------------------------------------------
  // Lemmas: Compress and Positions
  // ---------------------------------------------------------------------------

  lemma {:induction false} CompressAppend<T>(a: seq<T>, ma: seq<bool>, b: seq<T>, mb: seq<bool>)
    requires |a| == |ma| && |b| == |mb|
    ensures Compress(a + b, ma + mb) == Compress(a, ma) + Compress(b, mb)
    decreases |b|
  {
    if |b| > 0 {
      var n := |b| - 1;
      assert (a + b)[..|a + b| - 1] == a + b[..n];
      assert (ma + mb)[..|ma + mb| - 1] == ma + mb[..n];
      CompressAppend(a, ma, b[..n], mb[..n]);
    } else {
      assert a + b == a && ma + mb == ma;
    }
  }

  lemma {:induction false} CompressConst<T>(s: seq<T>, b: bool)
    ensures Compress(s, Fill(|s|, b)) == if b then s else []
  {
    if |s| > 0 {
      var n := |s| - 1;
      var m := Fill(|s|, b);
      assert m[..n] == Fill(n, b);
      CompressConst(s[..n], b);
      assert Compress(s, m) == Compress(s[..n], m[..n]) + (if b then [s[n]] else []);
      assert s[..n] + [s[n]] == s;
    }
  }

  lemma {:induction false} CompressCons<T>(x: T, s: seq<T>, b: bool, m: seq<bool>)
    requires |s| == |m|
    ensures Compress([x] + s, [b] + m) == (if b then [x] else []) + Compress(s, m)
  {
    CompressAppend([x], [b], s, m);
    assert Compress([x], [b]) == Compress([x][..0], [b][..0]) + (if b then [x] else []);
  }

  lemma {:induction false} PositionsProps(m: seq<bool>)
    ensures StrictlySorted(Positions(m))
    ensures forall k :: 0 <= k < |Positions(m)| ==> m[Positions(m)[k]]
    ensures forall j :: 0 <= j < |m| && m[j] ==> j in Positions(m)
  {
    if |m| > 0 {
      var n := |m| - 1;
      var p := Positions(m[..n]);
      PositionsProps(m[..n]);
      var q := Positions(m);
      if m[n] {
        assert q == p + [n];
        forall a, b | 0 <= a < b < |q| ensures q[a] < q[b] {
          if b == |p| {
            assert q[a] == p[a] < n;
          }
        }
      } else {
        assert q == p;
      }
      forall k | 0 <= k < |q| ensures m[q[k]] {
        if k < |p| {
          assert q[k] == p[k] && m[..n][p[k]];
        }
      }
      forall j | 0 <= j < |m| && m[j] ensures j in q {
        if j < n {
          assert m[..n][j];
          assert j in p;
        }
      }
    }
  }

  lemma {:induction false} CompressIsGather<T>(s: seq<T>, m: seq<bool>)
    requires |s| == |m|
    ensures Compress(s, m) == Gather(s, Positions(m))
  {
    if |s| > 0 {
      var n := |s| - 1;
      CompressIsGather(s[..n], m[..n]);
    }
  }

  /** In an array without repeats, an entry survives the mask exactly when its mask bit is set. */
  lemma CompressContains<T>(s: seq<T>, m: seq<bool>, a: nat)
    requires |s| == |m| && Distinct(s) && a < |s|
    ensures s[a] in Compress(s, m) <==> m[a]
  {
    CompressIsGather(s, m);
    PositionsProps(m);
    var P := Positions(m);
    if m[a] {
      var k :| 0 <= k < |P| && P[k] == a;
      assert Compress(s, m)[k] == s[a];
    }
    if s[a] in Compress(s, m) {
      var k :| 0 <= k < |P| && Compress(s, m)[k] == s[a];
      assert s[P[k]] == s[a];
      assert P[k] == a;
    }
  }

  lemma {:induction false} CompressMap<A, B>(s: seq<A>, m: seq<bool>, f: A -> B)
    requires |s| == |m|
    ensures MapSeq(Compress(s, m), f) == Compress(MapSeq(s, f), m)
  {
    if |s| > 0 {
      var n := |s| - 1;
      CompressMap(s[..n], m[..n], f);
      assert MapSeq(s, f)[..n] == MapSeq(s[..n], f);
    }
  }

  // ---------------------------------------------------------------------------
  // Lemmas: Repeat
  // ---------------------------------------------------------------------------

  lemma {:induction false} RepeatElements<T>(v: seq<T>, c: seq<nat>)
    requires |v| == |c|
    ensures forall k :: 0 <= k < |Repeat(v, c)| ==> Repeat(v, c)[k] in v
  {
    if |v| > 0 {
      RepeatElements(v[1..], c[1..]);
      forall k | 0 <= k < |Repeat(v, c)| ensures Repeat(v, c)[k] in v {
        if k >= c[0] {
          var x := Repeat(v[1..], c[1..])[k - c[0]];
          assert Repeat(v, c)[k] == x;
          var j :| 0 <= j < |v| - 1 && v[1..][j] == x;
          assert v[j + 1] == x;
        }
      }
    }
  }

  lemma {:induction false} RepeatMap<A, B>(v: seq<A>, c: seq<nat>, f: A -> B)
    requires |v| == |c|
    ensures Repeat(MapSeq(v, f), c) == MapSeq(Repeat(v, c), f)
  {
    if |v| > 0 {
      RepeatMap(v[1..], c[1..], f);
      assert MapSeq(v, f)[1..] == MapSeq(v[1..], f);
    }
  }

  lemma {:induction false} RepeatCompress<T>(v: seq<T>, c: seq<nat>, m: seq<bool>)
    requires |v| == |c| == |m|
    ensures Repeat(Compress(v, m), Compress(c, m)) == Compress(Repeat(v, c), Repeat(m, c))
  {
    if |v| > 0 {
      var v', c', m' := v[1..], c[1..], m[1..];
      RepeatCompress(v', c', m');
      var bv, bm := Fill(c[0], v[0]), Fill(c[0], m[0]);
      var cv, cc := Compress(v', m'), Compress(c', m');
      assert v == [v[0]] + v' && c == [c[0]] + c' && m == [m[0]] + m';
      assert Compress(Repeat(v, c), Repeat(m, c)) == (if m[0] then bv else []) + Repeat(cv, cc) by {
        RepeatCons(v[0], c[0], v', c');
        RepeatCons(m[0], c[0], m', c');
        CompressAppend(bv, bm, Repeat(v', c'), Repeat(m', c'));
        CompressConst(bv, m[0]);
      }
      assert Repeat(Compress(v, m), Compress(c, m)) == (if m[0] then bv else []) + Repeat(cv, cc) by {
        CompressCons(v[0], v', m[0], m');
        CompressCons(c[0], c', m[0], m');
        assert Compress(v, m) == (if m[0] then [v[0]] else []) + cv;
        assert Compress(c, m) == (if m[0] then [c[0]] else []) + cc;
        if m[0] {
          RepeatCons(v[0], c[0], cv, cc);
        } else {
          assert [] + cv == cv && [] + cc == cc;
          assert [] + Repeat(cv, cc) == Repeat(cv, cc);
        }
      }
    }
  }

  /** Repeating every entry once gives the array back. */
  lemma {:induction false} RepeatOnes<T>(v: seq<T>, c: seq<nat>)
    requires |v| == |c| && forall i :: 0 <= i < |c| ==> c[i] == 1
    ensures Repeat(v, c) == v
  {
    if |v| > 0 {
      RepeatOnes(v[1..], c[1..]);
      assert Fill(c[0], v[0]) == [v[0]];
    }
  }

  /** In an array without duplicates every entry occurs exactly once. */
  lemma {:induction false} CountDistinct<T>(s: seq<T>, j: nat)
    requires Distinct(s) && j < |s|
    ensures Count(s, s[j]) == 1
  {
    if j == 0 {
      assert s[0] !in s[1..];
    } else {
      assert s[1..][j - 1] == s[j];
      CountDistinct(s[1..], j - 1);
    }
  }

  /** Entry k of np.repeat(v, c) is v[i] whenever k falls in the i-th block. */
  lemma {:induction false} RepeatBlock<T>(v: seq<T>, c: seq<nat>, i: nat, off: nat)
    requires |v| == |c| && i < |v| && off < c[i]
    ensures Sum(c[..i]) + off < Sum(c)
    ensures Repeat(v, c)[Sum(c[..i]) + off] == v[i]
  {
    assert c == c[..i] + c[i..];
    SumAppend(c[..i], c[i..]);
    if i > 0 {
      RepeatBlock(v[1..], c[1..], i - 1, off);
      assert c[1..][..i - 1] == c[..i][1..];
    }
  }

  /** Block i of the repetition holds v[i] throughout. */
  lemma RepeatBlockAll<T>(v: seq<T>, c: seq<nat>, i: nat)
    requires |v| == |c| && i < |v|
    ensures Sum(c[..i]) + c[i] <= Sum(c)
    ensures forall k :: Sum(c[..i]) <= k < Sum(c[..i]) + c[i] ==> Repeat(v, c)[k] == v[i]
  {
    var start := Sum(c[..i]);
    assert c == c[..i] + c[i..] && c[i..] == [c[i]] + c[i + 1..];
    SumAppend(c[..i], c[i..]);
    SumAppend([c[i]], c[i + 1..]);
    forall k | start <= k < start + c[i] ensures Repeat(v, c)[k] == v[i] {
      RepeatBlock(v, c, i, k - start);
    }
  }

  /** Two arrays repeated with the same counts line up block by block. */
  lemma {:induction false} RepeatSameBlock<A, B>(v: seq<A>, w: seq<B>, c: seq<nat>, a: nat)
    requires |v| == |w| == |c| && a < Sum(c)
    ensures exists i :: 0 <= i < |v| && Repeat(v, c)[a] == v[i] && Repeat(w, c)[a] == w[i]
  {
    if a >= c[0] {
      RepeatSameBlock(v[1..], w[1..], c[1..], a - c[0]);
      var i :| 0 <= i < |v| - 1 && Repeat(v[1..], c[1..])[a - c[0]] == v[1..][i]
        && Repeat(w[1..], c[1..])[a - c[0]] == w[1..][i];
      assert Repeat(v, c)[a] == v[i + 1] && Repeat(w, c)[a] == w[i + 1];
    } else {
      assert Repeat(v, c)[a] == v[0] && Repeat(w, c)[a] == w[0];
    }
  }

  /** Repeating indices that are in range gives indices in range. */
  lemma RepeatInBounds(v: seq<nat>, c: seq<nat>, n: nat)
    requires |v| == |c| && InBounds(v, n)
    ensures InBounds(Repeat(v, c), n)
  {
    RepeatElements(v, c);
  }

  // ---------------------------------------------------------------------------
  // Lemmas: Scatter
  // ---------------------------------------------------------------------------

  /** With distinct targets, every target receives its value and every other slot keeps its own. */
  lemma {:induction false} ScatterDistinct<T>(base: seq<T>, idx: seq<nat>, vals: seq<T>)
    requires |idx| == |vals| && InBounds(idx, |base|) && Distinct(idx)
    ensures forall k :: 0 <= k < |idx| ==> Scatter(base, idx, vals)[idx[k]] == vals[k]
    ensures forall j :: 0 <= j < |base| && j !in idx ==> Scatter(base, idx, vals)[j] == base[j]
    decreases |idx|
  {
    if |idx| > 0 {
      var b := base[idx[0] := vals[0]];
      ScatterDistinct(b, idx[1..], vals[1..]);
      assert idx[0] !in idx[1..];
      forall k | 0 <= k < |idx| ensures Scatter(base, idx, vals)[idx[k]] == vals[k] {
        if k > 0 {
          assert idx[k] == idx[1..][k - 1];
        }
      }
      forall j | 0 <= j < |base| && j !in idx ensures Scatter(base, idx, vals)[j] == base[j] {
        assert j !in idx[1..];
      }
    }
  }

  /** Every slot of a scatter holds its old value or one of the scattered values. */
  lemma {:induction false} ScatterValues<T>(base: seq<T>, idx: seq<nat>, vals: seq<T>)
    requires |idx| == |vals| && InBounds(idx, |base|)
    ensures forall j :: 0 <= j < |base| ==> Scatter(base, idx, vals)[j] == base[j] || Scatter(base, idx, vals)[j] in vals
    decreases |idx|
  {
    if |idx| > 0 {
      var b := base[idx[0] := vals[0]];
      ScatterValues(b, idx[1..], vals[1..]);
      forall x | x in vals[1..] ensures x in vals {
        var j :| 0 <= j < |vals| - 1 && vals[1..][j] == x;
        assert vals[j + 1] == x;
      }
    }
  }

  // ---------------------------------------------------------------------------
  // Lemmas: sorted arrays
  // ---------------------------------------------------------------------------

  lemma {:induction false} SearchSortedFinds(s: seq<int>, v: int)
    requires Sorted(s) && v in s
    ensures SearchSorted(s, v) < |s| && s[SearchSorted(s, v)] == v
  {
    if s[0] < v {
      SearchSortedFinds(s[1..], v);
    } else {
      assert s[0] == v by { var j :| 0 <= j < |s| && s[j] == v; }
      NothingBelow(s, v);
    }
  }

  /** A value that is present has fewer entries below it than the array has entries. */
  lemma {:induction false} SearchSortedBelow(s: seq<int>, v: int)
    requires v in s
    ensures SearchSorted(s, v) < |s|
  {
    if s[0] != v {
      SearchSortedBelow(s[1..], v);
    }
  }

  lemma {:induction false} NothingBelow(s: seq<int>, v: int)
    requires Sorted(s) && |s| > 0 && s[0] >= v
    ensures SearchSorted(s, v) == 0
  {
    if |s| > 1 {
      NothingBelow(s[1..], v);
    }
  }

  /** In a sorted array the copies of v form one block that starts at its first occurrence. */
  lemma {:induction false} SortedRun(s: seq<int>, v: int)
    requires Sorted(s) && v in s
    ensures FirstIndexOf(s, v) + Count(s, v) <= |s|
    ensures forall j :: FirstIndexOf(s, v) <= j < FirstIndexOf(s, v) + Count(s, v) ==> s[j] == v
    ensures forall j :: 0 <= j < |s| && s[j] == v ==> FirstIndexOf(s, v) <= j < FirstIndexOf(s, v) + Count(s, v)
  {
    var r := s[1..];
    if s[0] == v {
      if v in r {
        SortedRun(r, v);
        assert r[0] == v by { var j :| 0 <= j < |r| && r[j] == v; }
        assert FirstIndexOf(r, v) == 0;
      }
      forall j | 0 <= j < |s| && s[j] == v ensures j < Count(s, v) {
        if j > 0 {
          assert r[j - 1] == v;
        }
      }
      forall j | 0 < j < Count(s, v) ensures s[j] == v {
        assert r[j - 1] == v;
      }
    } else {
      SortedRun(r, v);
      forall j | 0 <= j < |s| && s[j] == v ensures FirstIndexOf(s, v) <= j < FirstIndexOf(s, v) + Count(s, v) {
        assert r[j - 1] == v;
      }
      forall j | FirstIndexOf(s, v) <= j < FirstIndexOf(s, v) + Count(s, v) ensures s[j] == v {
        assert s[j] == r[j - 1];
      }
    }
  }

  lemma {:induction false} CountAbsentWhenAbove(s: seq<int>, v: int)
    requires forall k :: 0 <= k < |s| ==> s[k] > v
    ensures Count(s, v) == 0
  {
    if |s| > 0 {
      CountAbsentWhenAbove(s[1..], v);
    }
  }

  // ---------------------------------------------------------------------------
  // Lemmas: RunLength (np.unique with counts)
  // ---------------------------------------------------------------------------

  /** np.repeat(unique, counts) rebuilds the array the runs were taken from. */
  lemma {:induction false} RunLengthRoundTrip(s: seq<int>)
    ensures Repeat(RunLength(s).0, RunLength(s).1) == s
  {
    if |s| > 0 {
      var rest := RunLength(s[1..]);
      var u, c := rest.0, rest.1;
      RunLengthRoundTrip(s[1..]);
      assert s == [s[0]] + s[1..];
      if |u| > 0 && u[0] == s[0] {
        assert u == [u[0]] + u[1..] && c == [c[0]] + c[1..];
        RepeatGrowHead(u[0], c[0], u[1..], c[1..]);
      } else {
        RepeatConsHead(s[0], u, c);
      }
    }
  }

  /** One more copy of the first value: the repetition gains one entry at the front. */
  lemma RepeatGrowHead<T>(x: T, n: nat, v: seq<T>, c: seq<nat>)
    requires |v| == |c|
    ensures Repeat([x] + v, [n + 1] + c) == [x] + Repeat([x] + v, [n] + c)
  {
    var f, rest := Fill(n, x), Repeat(v, c);
    RepeatCons(x, n + 1, v, c);
    RepeatCons(x, n, v, c);
    FillCons(n, x);
    assert ([x] + f) + rest == [x] + (f + rest);
  }

  /** The repetition of a value put in front: its block, then the rest. */
  lemma RepeatCons<T>(x: T, n: nat, v: seq<T>, c: seq<nat>)
    requires |v| == |c|
    ensures Repeat([x] + v, [n] + c) == Fill(n, x) + Repeat(v, c)
  {
    assert ([x] + v)[1..] == v && ([n] + c)[1..] == c;
  }

  /** A new first value repeated once. */
  lemma RepeatConsHead<T>(a: T, u: seq<T>, c: seq<nat>)
    requires |u| == |c|
    ensures Repeat([a] + u, [1] + c) == [a] + Repeat(u, c)
  {
    assert ([a] + u)[1..] == u && ([1] + c)[1..] == c;
    assert Fill(1, a) == [a];
  }


  lemma {:induction false} RunLengthValues(s: seq<int>)
    ensures forall v :: v in RunLength(s).0 <==> v in s
  {
    if |s| > 0 {
      RunLengthValues(s[1..]);
      var rest := RunLength(s[1..]);
      var u := rest.0;
      var u1 := RunLength(s).0;
      if |u| > 0 && u[0] == s[0] {
        assert u1 == [s[0]] + u[1..];
        assert u == [u[0]] + u[1..];
      } else {
        assert u1 == [s[0]] + u;
      }
      assert s == [s[0]] + s[1..];
    }
  }

  /** In a sorted array whose second entry differs from the first, everything after the first is above it. */
  lemma SortedTailAbove(s: seq<int>)
    requires Sorted(s) && |s| > 1 && s[1] != s[0]
    ensures forall k :: 0 <= k < |s| - 1 ==> s[1..][k] > s[0]
  {
    forall k | 0 <= k < |s| - 1 ensures s[1..][k] > s[0] {
      assert s[0] <= s[1] <= s[k + 1];
    }
  }

  /** On a sorted array the run values are strictly increasing, hence distinct. */
  lemma {:induction false} RunLengthStrict(s: seq<int>)
    requires Sorted(s)
    ensures StrictlySorted(RunLength(s).0)
  {
    if |s| > 0 {
      var r := s[1..];
      RunLengthStrict(r);
      RunLengthValues(r);
      var u := RunLength(r).0;
      var a := s[0];
      var u1 := RunLength(s).0;
      if |u| > 0 && u[0] == a {
        assert u1 == [a] + u[1..];
        forall i, j | 0 <= i < j < |u1| ensures u1[i] < u1[j] {
          assert u1[j] == u[j];
          if i > 0 {
            assert u1[i] == u[i];
          }
        }
      } else {
        assert u1 == [a] + u;
        if |r| > 0 {
          SortedTailAbove(s);
        }
        forall i | 0 <= i < |u| ensures u[i] > a {
          assert u[i] in r;
        }
        forall i, j | 0 <= i < j < |u1| ensures u1[i] < u1[j] {
          assert u1[j] == u[j - 1];
          if i > 0 {
            assert u1[i] == u[i - 1];
          }
        }
      }
    }
  }

  /** On a sorted array each run's count is the full number of copies of its value. */
  lemma {:induction false} RunLengthCounts(s: seq<int>)
    requires Sorted(s)
    ensures forall i :: 0 <= i < |RunLength(s).0| ==> RunLength(s).1[i] == Count(s, RunLength(s).0[i])
  {
    if |s| > 0 {
      var r := s[1..];
      RunLengthCounts(r);
      RunLengthStrict(r);
      RunLengthValues(r);
      var u, c := RunLength(r).0, RunLength(r).1;
      var a := s[0];
      assert s == [a] + r;
      if |u| > 0 && u[0] == a {
        CountsGrowHead(a, r, u, c);
      } else {
        if |r| > 0 {
          SortedTailAbove(s);
        }
        CountAbsentWhenAbove(r, a);
        forall i | 0 <= i < |u| ensures u[i] != a {
          assert u[i] in r;
        }
        CountsConsHead(a, r, u, c);
      }
    }
  }

  /** Counting in [a] + r when the runs of r already start with a. */
  lemma CountsGrowHead(a: int, r: seq<int>, u: seq<int>, c: seq<nat>)
    requires |u| == |c| > 0 && u[0] == a && StrictlySorted(u)
    requires forall i :: 0 <= i < |u| ==> c[i] == Count(r, u[i])
    ensures forall i :: 0 <= i < |u| ==> ([c[0] + 1] + c[1..])[i] == Count([a] + r, ([a] + u[1..])[i])
  {
    assert ([a] + r)[1..] == r;
    forall i | 0 <= i < |u| ensures ([c[0] + 1] + c[1..])[i] == Count([a] + r, ([a] + u[1..])[i]) {
      if i > 0 {
        assert ([a] + u[1..])[i] == u[i] && u[i] > u[0];
      }
    }
  }

  /** Counting in [a] + r when a does not occur in r. */
  lemma CountsConsHead(a: int, r: seq<int>, u: seq<int>, c: seq<nat>)
    requires |u| == |c| && Count(r, a) == 0 && forall i :: 0 <= i < |u| ==> u[i] != a
    requires forall i :: 0 <= i < |u| ==> c[i] == Count(r, u[i])
    ensures forall i :: 0 <= i < |u| + 1 ==> ([1] + c)[i] == Count([a] + r, ([a] + u)[i])
  {
    assert ([a] + r)[1..] == r;
    forall i | 0 <= i < |u| + 1 ensures ([1] + c)[i] == Count([a] + r, ([a] + u)[i]) {
      if i > 0 {
        assert ([a] + u)[i] == u[i - 1];
      }
    }
  }


  // ---------------------------------------------------------------------------
  // Lemmas: masks and ranks
  // ---------------------------------------------------------------------------

  /** np.count_nonzero(mask) > 0 exactly when some entry is set. */
  lemma {:induction false} TrueCountPositive(m: seq<bool>)
    ensures TrueCount(m) > 0 <==> exists j :: 0 <= j < |m| && m[j]
  {
    if |m| > 0 {
      var n := |m| - 1;
      TrueCountPositive(m[..n]);
      if exists j :: 0 <= j < n && m[..n][j] {
        var j :| 0 <= j < n && m[..n][j];
        assert m[j];
      }
      if exists j :: 0 <= j < |m| && m[j] {
        var j :| 0 <= j < |m| && m[j];
        if j < n {
          assert m[..n][j];
        }
      }
    }
  }

  /** The number of copies of v in s[..i + 1], counted from s[..i]. */
  lemma CountSnoc<T>(s: seq<T>, i: nat, v: T)
    requires i < |s|
    ensures Count(s[..i + 1], v) == Count(s[..i], v) + (if s[i] == v then 1 else 0)
  {
    assert s[..i + 1] == s[..i] + [s[i]];
    CountAppend(s[..i], [s[i]], v);
  }

  /** A prefix holds no more copies of v than the whole array. */
  lemma CountPrefix<T>(s: seq<T>, i: nat, v: T)
    requires i <= |s|
    ensures Count(s[..i], v) <= Count(s, v)
  {
    assert s == s[..i] + s[i..];
    CountAppend(s[..i], s[i..], v);
  }

  /** The number of copies of s[i] before position i is below the total number of copies. */
  lemma RankBelowCount<T>(s: seq<T>, i: nat)
    requires i < |s|
    ensures Count(s[..i], s[i]) < Count(s, s[i])
  {
    CountSnoc(s, i, s[i]);
    CountPrefix(s, i + 1, s[i]);
  }

  /** The positions of a mask and its set entries are equally many. */
  lemma PositionsCount(m: seq<bool>)
    ensures |Positions(m)| == TrueCount(m)
  {
    var s := seq(|m|, k => k);
    CompressIsGather(s, m);
  }

  /** The number of copies of s[i] before position i: where entry i lands among its equals. */
  function Rank<T(==)>(s: seq<T>, i: nat): (r: nat)
    requires i < |s|
    ensures r < Count(s, s[i])
  {
    RankBelowCount(s, i);
    Count(s[..i], s[i])
  }
}
