/**
 * crossmatch and compute_richness (galsampler/crossmatch.py): where the entries of one
 * integer array appear in another, and how many times each halo ID hosts a galaxy.
 */
module Crossmatch {
  import opened Wrappers
  import opened Arrays
  import opened Sorting

  /** np.in1d(vals, ys): which entries of vals occur somewhere in ys. */
  function InMask(vals: seq<int>, ys: seq<int>): (r: seq<bool>)
    ensures |r| == |vals|
    ensures forall k :: 0 <= k < |vals| ==> (r[k] <==> vals[k] in ys)
  {
    seq(|vals|, k requires 0 <= k < |vals| => vals[k] in ys)
  }

  /** np.searchsorted(ys, vals) for every entry of vals. */
  function SearchSortedAll(ys: seq<int>, vals: seq<int>): (r: seq<nat>)
    ensures |r| == |vals|
    ensures forall k :: 0 <= k < |vals| ==> r[k] == SearchSorted(ys, vals[k])
  {
    seq(|vals|, k requires 0 <= k < |vals| => SearchSorted(ys, vals[k]))
  }

  /**
   * What crossmatch returns: paired index arrays with x[ix[k]] == y[iy[k]], every index of x
   * whose value occurs in y listed exactly once, in order of increasing x value.
   */
  predicate IsCrossmatch(x: seq<int>, y: seq<int>, ix: seq<nat>, iy: seq<nat>) {
    && |ix| == |iy|
    && InBounds(ix, |x|) && InBounds(iy, |y|)
    && (forall k :: 0 <= k < |ix| ==> x[ix[k]] == y[iy[k]])
    && Distinct(ix)
    && (forall i :: 0 <= i < |x| ==> (i in ix <==> x[i] in y))
    && (forall a, b :: 0 <= a < b < |ix| ==> x[ix[a]] <= x[ix[b]])
  }

  /**
   * np.repeat(np.in1d(unique_xvals, ys), counts): over the sorted x, which entries have a
   * match in ys.
   */
  function MatchMask(xs: seq<int>, ys: seq<int>): (r: seq<bool>)
    ensures |r| == |xs|
  {
    var runs := RunLength(xs);
    RunLengthRoundTrip(xs);
    Repeat(InMask(runs.0, ys), runs.1)
  }

  /**
   * np.repeat(np.searchsorted(ys, matched values), matched counts): for every matched entry
   * of the sorted x, the position of its value in ys.
   */
  function MatchPositions(xs: seq<int>, ys: seq<int>): (r: seq<nat>)
    ensures InBounds(r, |ys|)
  {
    var runs := RunLength(xs);
    var hasMatch := InMask(runs.0, ys);
    var whereY := SearchSortedAll(ys, Compress(runs.0, hasMatch));
    MatchesFound(runs.0, ys, hasMatch);
    RepeatInBounds(whereY, Compress(runs.1, hasMatch), |ys|);
    Repeat(whereY, Compress(runs.1, hasMatch))
  }

  /**
   * The body of crossmatch after its checks, for the argsorts px of x and py of y that
   * np.argsort happened to return: a crossmatch of x against y whichever argsorts they are.
   */
  function CrossmatchSorted(x: seq<int>, y: seq<int>, px: seq<nat>, py: seq<nat>): (r: (seq<nat>, seq<nat>))
    requires IsArgSort(x, px) && IsArgSort(y, py)
    ensures IsCrossmatch(x, y, r.0, r.1)
  {
    var xs := Gather(x, px);
    var ys := Gather(y, py);
    SortedMatchCorrect(x, y, px, py);
    (Compress(px, MatchMask(xs, ys)), Gather(py, MatchPositions(xs, ys)))
  }

  /** Each matched value is found inside ys. */
  lemma MatchesFound(u: seq<int>, ys: seq<int>, hasMatch: seq<bool>)
    requires hasMatch == InMask(u, ys)
    ensures forall k :: 0 <= k < |Compress(u, hasMatch)| ==> Compress(u, hasMatch)[k] in ys
    ensures InBounds(SearchSortedAll(ys, Compress(u, hasMatch)), |ys|)
  {
    CompressIsGather(u, hasMatch);
    PositionsProps(hasMatch);
    forall k | 0 <= k < |Compress(u, hasMatch)| ensures Compress(u, hasMatch)[k] in ys {
      assert hasMatch[Positions(hasMatch)[k]];
    }
    forall k | 0 <= k < |Compress(u, hasMatch)|
      ensures SearchSortedAll(ys, Compress(u, hasMatch))[k] < |ys|
    {
      SearchSortedBelow(ys, Compress(u, hasMatch)[k]);
    }
  }

  lemma ArgSortGivesSorted(keys: seq<int>, p: seq<nat>)
    requires IsArgSort(keys, p)
    ensures Sorted(Gather(keys, p))
    ensures multiset(Gather(keys, p)) == multiset(keys)
  {
    PermutationPreservesMultiset(keys, p);
  }

  /** The mask over the sorted x marks exactly the entries whose value occurs in ys. */
  lemma MatchMaskCorrect(xs: seq<int>, ys: seq<int>)
    ensures forall a :: 0 <= a < |xs| ==> (MatchMask(xs, ys)[a] <==> xs[a] in ys)
  {
    var runs := RunLength(xs);
    RunLengthRoundTrip(xs);
    var hasMatch := InMask(runs.0, ys);
    forall a | 0 <= a < |xs| ensures MatchMask(xs, ys)[a] <==> xs[a] in ys {
      RepeatSameBlock(hasMatch, runs.0, runs.1, a);
    }
  }

  /** Read through the sorted ys, the match positions give the matched entries of the sorted x. */
  lemma MatchPositionsCorrect(xs: seq<int>, ys: seq<int>)
    requires Sorted(ys)
    ensures |MatchPositions(xs, ys)| == |Compress(xs, MatchMask(xs, ys))|
    ensures forall k :: 0 <= k < |MatchPositions(xs, ys)| ==>
      ys[MatchPositions(xs, ys)[k]] == Compress(xs, MatchMask(xs, ys))[k]
  {
    var runs := RunLength(xs);
    var u, c := runs.0, runs.1;
    RunLengthRoundTrip(xs);
    var hasMatch := InMask(u, ys);
    var matched := Compress(u, hasMatch);
    var cm := Compress(c, hasMatch);
    var whereY := SearchSortedAll(ys, matched);
    MatchesFound(u, ys, hasMatch);
    RepeatCompress(u, c, hasMatch);
    var mx := Repeat(matched, cm);
    assert mx == Compress(xs, MatchMask(xs, ys));
    var idxY := MatchPositions(xs, ys);
    assert idxY == Repeat(whereY, cm);
    forall k | 0 <= k < |idxY| ensures ys[idxY[k]] == mx[k] {
      RepeatSameBlock(whereY, matched, cm, k);
      var i :| 0 <= i < |whereY| && idxY[k] == whereY[i] && mx[k] == matched[i];
      SearchSortedFinds(ys, matched[i]);
    }
  }

  /** Masking the argsort of x and mapping the match positions through the argsort of y give a crossmatch. */
  lemma SortedMatchCorrect(x: seq<int>, y: seq<int>, px: seq<nat>, py: seq<nat>)
    requires IsArgSort(x, px) && IsArgSort(y, py)
    ensures var xs, ys := Gather(x, px), Gather(y, py);
      IsCrossmatch(x, y, Compress(px, MatchMask(xs, ys)), Gather(py, MatchPositions(xs, ys)))
  {
    var xs := Gather(x, px);
    var ys := Gather(y, py);
    ArgSortGivesSorted(x, px);
    ArgSortGivesSorted(y, py);
    var maskX := MatchMask(xs, ys);
    var idxY := MatchPositions(xs, ys);
    MatchMaskCorrect(xs, ys);
    MatchPositionsCorrect(xs, ys);
    var ix, iy := Compress(px, maskX), Gather(py, idxY);
    var P := Positions(maskX);
    PositionsProps(maskX);
    CompressIsGather(px, maskX);
    CompressIsGather(xs, maskX);
    forall k | 0 <= k < |ix| ensures x[ix[k]] == y[iy[k]] {
      assert x[ix[k]] == xs[P[k]];
    }
    CrossmatchOrder(x, px, maskX);
    CrossmatchCovers(x, y, px, py, maskX);
  }

  /** The gathered indices are distinct and come in order of non-decreasing x value. */
  lemma CrossmatchOrder(x: seq<int>, px: seq<nat>, mask: seq<bool>)
    requires IsArgSort(x, px) && |mask| == |px|
    ensures Distinct(Compress(px, mask))
    ensures InBounds(Compress(px, mask), |x|)
    ensures forall a, b :: 0 <= a < b < |Compress(px, mask)| ==> x[Compress(px, mask)[a]] <= x[Compress(px, mask)[b]]
  {
    PermutationFacts(px, |x|);
    var P := Positions(mask);
    PositionsProps(mask);
    CompressIsGather(px, mask);
    var ix := Compress(px, mask);
    forall a, b | 0 <= a < b < |ix| ensures ix[a] != ix[b] && x[ix[a]] <= x[ix[b]] {
      assert P[a] < P[b];
    }
  }

  /** Every index of x whose value occurs in y is gathered, and no other. */
  lemma CrossmatchCovers(x: seq<int>, y: seq<int>, px: seq<nat>, py: seq<nat>, mask: seq<bool>)
    requires IsArgSort(x, px) && IsArgSort(y, py) && |mask| == |px|
    requires forall a :: 0 <= a < |px| ==> (mask[a] <==> Gather(x, px)[a] in Gather(y, py))
    ensures forall i :: 0 <= i < |x| ==> (i in Compress(px, mask) <==> x[i] in y)
  {
    PermutationFacts(px, |x|);
    ArgSortGivesSorted(y, py);
    forall i | 0 <= i < |x| ensures i in Compress(px, mask) <==> x[i] in y {
      assert i in px;
      var a :| 0 <= a < |px| && px[a] == i;
      CompressContains(px, mask, a);
      SameMembership(Gather(y, py), y, x[i]);
    }
  }

  lemma SameMembership(a: seq<int>, b: seq<int>, v: int)
    requires multiset(a) == multiset(b)
    ensures v in a <==> v in b
  {
    assert v in a <==> v in multiset(a);
    assert v in b <==> v in multiset(b);
  }

  /**
   * crossmatch(x, y, skip_bounds_checking): a ValueError when y has a repeated value unless
   * the check is skipped; otherwise the matching index arrays.
   */
  function Crossmatch(x: seq<int>, y: seq<int>, skipBoundsChecking: bool): (r: Result<(seq<nat>, seq<nat>), Error>)
    ensures r.Err? <==> !skipBoundsChecking && !Distinct(y)
    ensures r.Err? ==> r.error == NonUniqueY
    ensures r.Ok? ==> IsCrossmatch(x, y, r.value.0, r.value.1)
  {
    if !skipBoundsChecking && !Distinct(y) then Err(NonUniqueY)
    else Ok(CrossmatchSorted(x, y, ArgSort(x), ArgSort(y)))
  }

  /** When x has no repeated value, no index of y is reported twice. */
  lemma CrossmatchDistinctY(x: seq<int>, y: seq<int>, ix: seq<nat>, iy: seq<nat>)
    requires IsCrossmatch(x, y, ix, iy) && Distinct(x)
    ensures Distinct(iy)
  {
    forall a, b | 0 <= a < b < |iy| ensures iy[a] != iy[b] {
      assert x[ix[a]] == y[iy[a]] && x[ix[b]] == y[iy[b]];
    }
  }

  /** When y has no repeated value, iy[k] is the only index of y holding x[ix[k]]. */
  lemma CrossmatchUniqueY(x: seq<int>, y: seq<int>, ix: seq<nat>, iy: seq<nat>, k: nat, j: nat)
    requires IsCrossmatch(x, y, ix, iy) && Distinct(y)
    requires k < |ix| && j < |y| && y[j] == x[ix[k]]
    ensures iy[k] == j
  {
  }

  // ---------------------------------------------------------------------------
  // compute_richness
  // ---------------------------------------------------------------------------

  /**
   * compute_richness(ids, hosts): for every halo ID, the number of galaxies whose host is
   * that ID. crossmatch is called with the unique host IDs as x and ids as y, so a
   * repeated ID is a ValueError.
   */
  function ComputeRichness(ids: seq<int>, hosts: seq<int>): (r: Result<seq<nat>, Error>)
    ensures r.Ok? <==> Distinct(ids)
    ensures r.Err? ==> r.error == NonUniqueY
    ensures r.Ok? ==> |r.value| == |ids|
  {
    var runs := RunLength(Sort(hosts));
    RichnessOfRuns(ids, runs.0, runs.1)
  }

  /** The part of compute_richness after np.unique: join the unique host IDs against ids. */
  function RichnessOfRuns(ids: seq<int>, vals: seq<int>, counts: seq<nat>): (r: Result<seq<nat>, Error>)
    requires |vals| == |counts|
  {
    var m :- Crossmatch(vals, ids, false);
    Ok(RichnessFromMatch(counts, m.0, m.1, |ids|))
  }

  /** richness_result[idxB] = counts[idxA] over an array of n zeros. */
  function RichnessFromMatch(counts: seq<nat>, idxA: seq<nat>, idxB: seq<nat>, n: nat): (r: seq<nat>)
    requires |idxA| == |idxB| && InBounds(idxA, |counts|) && InBounds(idxB, n)
    ensures |r| == n
  {
    Scatter(seq(n, _ => 0), idxB, Gather(counts, idxA))
  }

  /** The richness of each halo is the number of galaxies it hosts; it fails exactly on repeated IDs. */
  lemma ComputeRichnessCorrect(ids: seq<int>, hosts: seq<int>)
    ensures ComputeRichness(ids, hosts).Ok? <==> Distinct(ids)
    ensures ComputeRichness(ids, hosts).Ok? ==> |ComputeRichness(ids, hosts).value| == |ids|
    ensures ComputeRichness(ids, hosts).Ok? ==>
      forall j :: 0 <= j < |ids| ==> ComputeRichness(ids, hosts).value[j] == Count(hosts, ids[j])
  {
    var runs := RunLength(Sort(hosts));
    assert ComputeRichness(ids, hosts) == RichnessOfRuns(ids, runs.0, runs.1);
    UniqueCorrect(hosts);
    RichnessOfRunsCorrect(ids, hosts, runs.0, runs.1);
  }

  /** The number of galaxies whose host ID is one of ids. */
  function HostedCount(hosts: seq<int>, ids: seq<int>): (r: nat)
    ensures r <= |hosts|
    ensures |ids| == 0 ==> r == 0
  {
    if |hosts| == 0 then 0 else (if hosts[0] in ids then 1 else 0) + HostedCount(hosts[1..], ids)
  }

  /** A new ID, not yet among ids, adds exactly its own galaxies. */
  lemma {:induction false} HostedCountCons(hosts: seq<int>, x: int, ids: seq<int>)
    requires x !in ids
    ensures HostedCount(hosts, [x] + ids) == Count(hosts, x) + HostedCount(hosts, ids)
  {
    if |hosts| > 0 {
      HostedCountCons(hosts[1..], x, ids);
    }
  }

  /** Per-ID galaxy counts over distinct IDs add up to the galaxies hosted by any of them. */
  lemma {:induction false} RichnessSum(ids: seq<int>, hosts: seq<int>, counts: seq<nat>)
    requires Distinct(ids) && |counts| == |ids|
    requires forall j :: 0 <= j < |ids| ==> counts[j] == Count(hosts, ids[j])
    ensures Sum(counts) == HostedCount(hosts, ids)
  {
    if |ids| > 0 {
      RichnessSum(ids[1..], hosts, counts[1..]);
      assert ids[0] !in ids[1..];
      HostedCountCons(hosts, ids[0], ids[1..]);
      assert [ids[0]] + ids[1..] == ids;
    }
  }

  /**
   * With unique halo IDs, the richness adds up to the number of galaxies whose host is one of
   * the halos: every such galaxy is counted once, and no other.
   */
  lemma ComputeRichnessTotal(ids: seq<int>, hosts: seq<int>)
    requires Distinct(ids)
    ensures ComputeRichness(ids, hosts).Ok?
    ensures Sum(ComputeRichness(ids, hosts).value) == HostedCount(hosts, ids)
  {
    ComputeRichnessCorrect(ids, hosts);
    RichnessSum(ids, hosts, ComputeRichness(ids, hosts).value);
  }

  /** np.unique(hosts, return_counts=True): increasing distinct values, each with its count. */
  lemma UniqueCorrect(hosts: seq<int>)
    ensures StrictlySorted(RunLength(Sort(hosts)).0)
    ensures forall i :: 0 <= i < |RunLength(Sort(hosts)).0| ==>
      RunLength(Sort(hosts)).1[i] == Count(hosts, RunLength(Sort(hosts)).0[i])
    ensures forall v :: v in RunLength(Sort(hosts)).0 <==> v in hosts
  {
    var sorted := Sort(hosts);
    var runs := RunLength(sorted);
    RunLengthStrict(sorted);
    RunLengthCounts(sorted);
    RunLengthValues(sorted);
    forall i | 0 <= i < |runs.0| ensures runs.1[i] == Count(hosts, runs.0[i]) {
      CountIsMultiplicity(sorted, runs.0[i]);
      CountIsMultiplicity(hosts, runs.0[i]);
    }
    forall v ensures v in runs.0 <==> v in hosts {
      SameMembership(sorted, hosts, v);
    }
  }

  /** Scattering counts to distinct targets puts each count in its slot and 0 everywhere else. */
  lemma RichnessFromMatchAt(counts: seq<nat>, idxA: seq<nat>, idxB: seq<nat>, n: nat)
    requires |idxA| == |idxB| && InBounds(idxA, |counts|) && InBounds(idxB, n) && Distinct(idxB)
    ensures forall k :: 0 <= k < |idxB| ==> RichnessFromMatch(counts, idxA, idxB, n)[idxB[k]] == counts[idxA[k]]
    ensures forall j :: 0 <= j < n && j !in idxB ==> RichnessFromMatch(counts, idxA, idxB, n)[j] == 0
  {
    ScatterDistinct(seq(n, _ => 0), idxB, Gather(counts, idxA));
  }

  /** Joining the runs of the host IDs against ids counts each ID's galaxies. */
  lemma RichnessOfRunsCorrect(ids: seq<int>, hosts: seq<int>, vals: seq<int>, counts: seq<nat>)
    requires |vals| == |counts| && StrictlySorted(vals)
    requires forall i :: 0 <= i < |vals| ==> counts[i] == Count(hosts, vals[i])
    requires forall v :: v in vals <==> v in hosts
    ensures RichnessOfRuns(ids, vals, counts).Ok? <==> Distinct(ids)
    ensures RichnessOfRuns(ids, vals, counts).Ok? ==> |RichnessOfRuns(ids, vals, counts).value| == |ids|
    ensures RichnessOfRuns(ids, vals, counts).Ok? ==>
      forall j :: 0 <= j < |ids| ==> RichnessOfRuns(ids, vals, counts).value[j] == Count(hosts, ids[j])
  {
    var cm := Crossmatch(vals, ids, false);
    if cm.Ok? {
      RichnessFromCrossmatch(ids, hosts, vals, counts, cm.value.0, cm.value.1);
    }
  }

  lemma RichnessFromCrossmatch(ids: seq<int>, hosts: seq<int>, vals: seq<int>, counts: seq<nat>, ix: seq<nat>, iy: seq<nat>)
    requires |vals| == |counts| && StrictlySorted(vals) && Distinct(ids)
    requires forall i :: 0 <= i < |vals| ==> counts[i] == Count(hosts, vals[i])
    requires forall v :: v in vals <==> v in hosts
    requires IsCrossmatch(vals, ids, ix, iy)
    ensures forall j :: 0 <= j < |ids| ==> RichnessFromMatch(counts, ix, iy, |ids|)[j] == Count(hosts, ids[j])
  {
    CrossmatchDistinctY(vals, ids, ix, iy);
    RichnessFromMatchAt(counts, ix, iy, |ids|);
    var r := RichnessFromMatch(counts, ix, iy, |ids|);
    forall j | 0 <= j < |ids| ensures r[j] == Count(hosts, ids[j]) {
      if ids[j] in vals {
        var i :| 0 <= i < |vals| && vals[i] == ids[j];
        assert i in ix;
        var k :| 0 <= k < |ix| && ix[k] == i;
        CrossmatchUniqueY(vals, ids, ix, iy, k, j);
        assert r[j] == counts[ix[k]];
      } else {
        assert j !in iy;
      }
    }
  }
}
