/**
 * source_halo_selection.py: every target halo is given a source halo drawn at random from the
 * source halos of its own cell of the binning, or, when that cell holds fewer than nhalo_min
 * source halos, from the nearest cell (in taxicab distance between cell coordinates) that does.
 */
module SourceHaloSelection {
  import opened Wrappers
  import opened Arrays
  import opened MultiIndex

  /** The seed used when the caller gives none. */
  const FixedSeed: int := 43

  /**
   * The random source: rng(seed, poolSize, n, k) is the k-th of the n raw draws that
   * np.random.RandomState(seed).choice makes from a pool of poolSize entries.
   */
  type Rng = (int, nat, nat, nat) -> nat

  function Abs(x: int): nat {
    if x < 0 then -x else x
  }

  // ---------------------------------------------------------------------------
  // Distances between cells
  // ---------------------------------------------------------------------------

  /**
   * taxicab_metric: the sum of |b[k] - a[k]| over the pairs that zip(a, b) forms, so zero exactly
   * when every such pair agrees.
   */
  function Taxicab(a: seq<int>, b: seq<int>): (r: nat)
    ensures r == 0 <==> forall k :: 0 <= k < |a| && k < |b| ==> a[k] == b[k]
  {
    if |a| == 0 || |b| == 0 then 0 else Abs(b[0] - a[0]) + Taxicab(a[1..], b[1..])
  }

  lemma {:induction false} TaxicabSymmetric(a: seq<int>, b: seq<int>)
    ensures Taxicab(a, b) == Taxicab(b, a)
  {
    if |a| > 0 && |b| > 0 {
      TaxicabSymmetric(a[1..], b[1..]);
    }
  }

  /** Two coordinate tuples of the same length are at distance zero exactly when they are equal. */
  lemma {:induction false} TaxicabZero(a: seq<int>, b: seq<int>)
    requires |a| == |b|
    ensures Taxicab(a, b) == 0 <==> a == b
  {
    if |a| > 0 {
      TaxicabZero(a[1..], b[1..]);
      assert a == [a[0]] + a[1..] && b == [b[0]] + b[1..];
    }
  }

  /** The taxicab distance between the coordinates of cells b and c. */
  function CellDistance(shape: seq<nat>, b: nat, c: nat): nat
    requires b < Prod(shape) && c < Prod(shape)
  {
    Taxicab(Unravel(b, shape), Unravel(c, shape))
  }

  /** A cell is at distance zero from itself and from no other cell. */
  lemma CellDistanceZero(shape: seq<nat>, b: nat, c: nat)
    requires b < Prod(shape) && c < Prod(shape)
    ensures CellDistance(shape, b, c) == 0 <==> b == c
  {
    TaxicabZero(Unravel(b, shape), Unravel(c, shape));
    if Unravel(b, shape) == Unravel(c, shape) {
      UnravelInjective(b, c, shape);
    }
  }

  // ---------------------------------------------------------------------------
  // get_source_bin_from_target_bin
  // ---------------------------------------------------------------------------

  /** The list built over range(n): (c, distance from bin to c) for every c with at least nmin source halos. */
  function Candidates(counts: seq<nat>, bin: nat, nmin: int, shape: seq<nat>, n: nat): (r: seq<(nat, nat)>)
    requires |counts| == Prod(shape) && bin < |counts| && n <= |counts|
    ensures forall k :: 0 <= k < |r| ==> r[k].0 < n && counts[r[k].0] >= nmin
    ensures forall j, k :: 0 <= j < k < |r| ==> r[j].0 < r[k].0
  {
    if n == 0 then []
    else
      Candidates(counts, bin, nmin, shape, n - 1)
        + (if counts[n - 1] >= nmin then [(n - 1, CellDistance(shape, bin, n - 1))] else [])
  }

  /** Every entry on the list carries the distance from bin to its cell. */
  lemma {:induction false} CandidatesDistance(counts: seq<nat>, bin: nat, nmin: int, shape: seq<nat>, n: nat, k: nat)
    requires |counts| == Prod(shape) && bin < |counts| && n <= |counts|
    requires k < |Candidates(counts, bin, nmin, shape, n)|
    ensures var e := Candidates(counts, bin, nmin, shape, n)[k]; e.1 == CellDistance(shape, bin, e.0)
  {
    var front := Candidates(counts, bin, nmin, shape, n - 1);
    if k < |front| {
      CandidatesDistance(counts, bin, nmin, shape, n - 1, k);
    }
  }

  /** Every well-sampled cell below n is on the list, at position k. */
  lemma {:induction false} CandidatesComplete(counts: seq<nat>, bin: nat, nmin: int, shape: seq<nat>, n: nat, c: nat) returns (k: nat)
    requires |counts| == Prod(shape) && bin < |counts| && n <= |counts|
    requires c < n && counts[c] >= nmin
    ensures k < |Candidates(counts, bin, nmin, shape, n)| && Candidates(counts, bin, nmin, shape, n)[k].0 == c
  {
    var front := Candidates(counts, bin, nmin, shape, n - 1);
    var tail: seq<(nat, nat)> := if counts[n - 1] >= nmin then [(n - 1, CellDistance(shape, bin, n - 1))] else [];
    assert Candidates(counts, bin, nmin, shape, n) == front + tail;
    if c < n - 1 {
      k := CandidatesComplete(counts, bin, nmin, shape, n - 1, c);
      assert (front + tail)[k] == front[k];
    } else {
      k := |front|;
      assert (front + tail)[k] == tail[0];
    }
  }

  /**
   * The position of the first entry with the smallest distance. Python's sort is stable, so this
   * entry is the head of the list sorted by distance.
   */
  function FirstNearest(ps: seq<(nat, nat)>): (r: nat)
    requires |ps| > 0
    ensures r < |ps|
    ensures forall k :: 0 <= k < |ps| ==> ps[r].1 <= ps[k].1
    ensures forall k :: 0 <= k < r ==> ps[k].1 > ps[r].1
  {
    if |ps| == 1 then 0
    else
      var j := 1 + FirstNearest(ps[1..]);
      if ps[0].1 <= ps[j].1 then 0 else j
  }

  /** get_source_bin_from_target_bin; None where Python indexes an empty list. */
  function GetSourceBinFromTargetBin(counts: seq<nat>, bin: nat, nmin: int, shape: seq<nat>): (r: Option<nat>)
    requires |counts| == Prod(shape) && bin < |counts|
    ensures r.Some? ==> r.value < |counts| && counts[r.value] >= nmin
  {
    if counts[bin] >= nmin then Some(bin)
    else
      var ps := Candidates(counts, bin, nmin, shape, |counts|);
      if |ps| == 0 then None else Some(ps[FirstNearest(ps)].0)
  }

  /**
   * The cell chosen is the well-sampled cell nearest to bin, the lowest-numbered one among
   * equally near cells; there is one exactly when some cell is well sampled.
   */
  lemma GetSourceBinNearest(counts: seq<nat>, bin: nat, nmin: int, shape: seq<nat>)
    requires |counts| == Prod(shape) && bin < |counts|
    ensures GetSourceBinFromTargetBin(counts, bin, nmin, shape).Some?
      <==> exists c :: 0 <= c < |counts| && counts[c] >= nmin
    ensures counts[bin] >= nmin ==> GetSourceBinFromTargetBin(counts, bin, nmin, shape) == Some(bin)
    ensures GetSourceBinFromTargetBin(counts, bin, nmin, shape).Some? ==>
      var s := GetSourceBinFromTargetBin(counts, bin, nmin, shape).value;
      (forall c :: 0 <= c < |counts| && counts[c] >= nmin ==> CellDistance(shape, bin, s) <= CellDistance(shape, bin, c))
      && (forall c :: 0 <= c < s && counts[c] >= nmin ==> CellDistance(shape, bin, c) > CellDistance(shape, bin, s))
  {
    if counts[bin] >= nmin {
      CellDistanceZero(shape, bin, bin);
      forall c | 0 <= c < bin && counts[c] >= nmin ensures CellDistance(shape, bin, c) > 0 {
        CellDistanceZero(shape, bin, c);
      }
    } else {
      var ps := Candidates(counts, bin, nmin, shape, |counts|);
      CandidatesEmpty(counts, bin, nmin, shape);
      if |ps| > 0 {
        forall c | 0 <= c < |counts| && counts[c] >= nmin
          ensures CellDistance(shape, bin, ps[FirstNearest(ps)].0) <= CellDistance(shape, bin, c)
        {
          CandidatesNearest(ps, counts, bin, nmin, shape, c);
        }
        forall c | 0 <= c < ps[FirstNearest(ps)].0 && counts[c] >= nmin
          ensures CellDistance(shape, bin, c) > CellDistance(shape, bin, ps[FirstNearest(ps)].0)
        {
          CandidatesLowest(ps, counts, bin, nmin, shape, c);
        }
      }
    }
  }

  /** The list is empty exactly when no cell is well sampled. */
  lemma CandidatesEmpty(counts: seq<nat>, bin: nat, nmin: int, shape: seq<nat>)
    requires |counts| == Prod(shape) && bin < |counts|
    ensures |Candidates(counts, bin, nmin, shape, |counts|)| > 0 <==> exists c :: 0 <= c < |counts| && counts[c] >= nmin
  {
    var ps := Candidates(counts, bin, nmin, shape, |counts|);
    if |ps| > 0 {
      assert ps[0].0 < |counts| && counts[ps[0].0] >= nmin;
    }
    if c :| 0 <= c < |counts| && counts[c] >= nmin {
      var k := CandidatesComplete(counts, bin, nmin, shape, |counts|, c);
    }
  }

  /** The head of the sorted list is no farther than any well-sampled cell ... */
  lemma CandidatesNearest(ps: seq<(nat, nat)>, counts: seq<nat>, bin: nat, nmin: int, shape: seq<nat>, c: nat)
    requires |counts| == Prod(shape) && bin < |counts| && ps == Candidates(counts, bin, nmin, shape, |counts|)
    requires |ps| > 0 && c < |counts| && counts[c] >= nmin
    ensures CellDistance(shape, bin, ps[FirstNearest(ps)].0) <= CellDistance(shape, bin, c)
  {
    var k := CandidatesComplete(counts, bin, nmin, shape, |counts|, c);
    CandidatesDistance(counts, bin, nmin, shape, |counts|, k);
    CandidatesDistance(counts, bin, nmin, shape, |counts|, FirstNearest(ps));
    assert ps[FirstNearest(ps)].1 <= ps[k].1;
  }

  /** ... and strictly nearer than every well-sampled cell numbered below it. */
  lemma CandidatesLowest(ps: seq<(nat, nat)>, counts: seq<nat>, bin: nat, nmin: int, shape: seq<nat>, c: nat)
    requires |counts| == Prod(shape) && bin < |counts| && ps == Candidates(counts, bin, nmin, shape, |counts|)
    requires |ps| > 0 && c < ps[FirstNearest(ps)].0 && counts[c] >= nmin
    ensures CellDistance(shape, bin, c) > CellDistance(shape, bin, ps[FirstNearest(ps)].0)
  {
    var i := FirstNearest(ps);
    var k := CandidatesComplete(counts, bin, nmin, shape, |counts|, c);
    assert k < i;
    CandidatesDistance(counts, bin, nmin, shape, |counts|, k);
    CandidatesDistance(counts, bin, nmin, shape, |counts|, i);
    assert ps[k].1 > ps[i].1;
  }

  // ---------------------------------------------------------------------------
  // _check_source_binning
  // ---------------------------------------------------------------------------

  /** counts >= nmin, cell by cell. */
  function QualifyingMask(counts: seq<nat>, nmin: int): seq<bool> {
    seq(|counts|, c requires 0 <= c < |counts| => counts[c] >= nmin)
  }

  /**
   * _check_source_binning: fails when there are no cells at all (the fraction divides by the
   * number of cells) and when no cell holds nmin source halos. The required fraction only
   * feeds the error message, so it is not a parameter here.
   */
  function CheckSourceBinning(counts: seq<nat>, nmin: int): (r: Outcome<Error>)
    ensures r == Pass <==> exists c :: 0 <= c < |counts| && counts[c] >= nmin
    ensures r == Fail(NoCells) <==> |counts| == 0
    ensures r.Fail? ==> r.error == NoCells || r.error == InsufficientCoverage
  {
    if |counts| == 0 then Fail(NoCells)
    else
      var good := TrueCount(QualifyingMask(counts, nmin));
      TrueCountPositive(QualifyingMask(counts, nmin));
      assert forall c :: 0 <= c < |counts| ==> QualifyingMask(counts, nmin)[c] == (counts[c] >= nmin);
      if good == 0 then Fail(InsufficientCoverage) else Pass
  }

  // ---------------------------------------------------------------------------
  // source_halo_index_selection
  // ---------------------------------------------------------------------------

  /** The number of cells along each axis: one fewer than the number of bin edges. */
  function BinShapes(bins: seq<seq<real>>): (r: seq<nat>)
    requires forall a :: 0 <= a < |bins| ==> |bins[a]| >= 1
    ensures |r| == |bins|
  {
    seq(|bins|, a requires 0 <= a < |bins| => |bins[a]| - 1)
  }

  /**
   * np.histogram of the bin numbers over the edges -0.5, 0.5, ..., total - 0.5: one bin per
   * cell, holding the number of source halos with that bin number.
   */
  function SourceBinCounts(sourceBins: seq<int>, total: nat): (r: seq<nat>)
    ensures |r| == total
    ensures forall c :: 0 <= c < total ==> r[c] == Count(sourceBins, c)
  {
    seq(total, c => Count(sourceBins, c))
  }

  function BinMask(s: seq<int>, b: int): seq<bool> {
    seq(|s|, i requires 0 <= i < |s| => s[i] == b)
  }

  /** np.arange(len(sourceBins))[sourceBins == b]: the source halos of cell b. */
  function Pool(sourceBins: seq<int>, b: int): seq<nat> {
    Compress(Range(|sourceBins|), BinMask(sourceBins, b))
  }

  lemma {:induction false} BinMaskCount(s: seq<int>, b: int)
    ensures TrueCount(BinMask(s, b)) == Count(s, b)
  {
    if |s| > 0 {
      var n := |s| - 1;
      assert BinMask(s, b)[..n] == BinMask(s[..n], b);
      BinMaskCount(s[..n], b);
      CountSnoc(s, n, b);
      assert s[..n + 1] == s;
    }
  }

  /** The pool of cell b lists source halos of cell b, as many as the cell holds. */
  lemma PoolFacts(sourceBins: seq<int>, b: int)
    ensures |Pool(sourceBins, b)| == Count(sourceBins, b)
    ensures forall k :: 0 <= k < |Pool(sourceBins, b)| ==>
      Pool(sourceBins, b)[k] < |sourceBins| && sourceBins[Pool(sourceBins, b)[k]] == b
  {
    var m := BinMask(sourceBins, b);
    BinMaskCount(sourceBins, b);
    CompressIsGather(Range(|sourceBins|), m);
    PositionsProps(m);
  }

  /** randomly_select_source_halos_within_bin: n draws with replacement from the pool. */
  function RandomlySelect(pool: seq<nat>, n: nat, seed: int, rng: Rng): (r: seq<nat>)
    requires |pool| > 0
    ensures |r| == n && forall k :: 0 <= k < n ==> r[k] in pool
  {
    seq(n, k requires 0 <= k < n => pool[rng(seed, |pool|, n, k) % |pool|])
  }

  function SeedOrDefault(seed: Option<int>): int {
    if seed.Some? then seed.value else FixedSeed
  }

  /** Some cell below total holds at least nmin of the source halos. */
  predicate WellSampled(sourceBins: seq<int>, nmin: int, total: nat) {
    exists c :: 0 <= c < total && Count(sourceBins, c) >= nmin
  }

  /** Some cell holds at least nmin source halos. */
  predicate Covered(counts: seq<nat>, nmin: int) {
    exists c :: 0 <= c < |counts| && counts[c] >= nmin
  }

  /** The cell the target halos of cell t draw from. */
  function SourceBinFor(counts: seq<nat>, t: nat, nmin: int, shape: seq<nat>): (r: nat)
    requires |counts| == Prod(shape) && t < |counts| && Covered(counts, nmin)
    ensures r < |counts| && counts[r] >= nmin
  {
    GetSourceBinNearest(counts, t, nmin, shape);
    GetSourceBinFromTargetBin(counts, t, nmin, shape).value
  }

  /** get_source_bin_from_target_bin answers exactly when some cell is well sampled, and then names SourceBinFor. */
  lemma SourceBinLookup(counts: seq<nat>, t: nat, nmin: int, shape: seq<nat>)
    requires |counts| == Prod(shape) && t < |counts|
    ensures GetSourceBinFromTargetBin(counts, t, nmin, shape).Some? <==> Covered(counts, nmin)
    ensures Covered(counts, nmin) ==> GetSourceBinFromTargetBin(counts, t, nmin, shape) == Some(SourceBinFor(counts, t, nmin, shape))
  {
    GetSourceBinNearest(counts, t, nmin, shape);
  }

  /** Cell t holds target halos but the cell it draws from holds no source halo. */
  predicate DrawFails(sourceBins: seq<int>, targetBins: seq<int>, counts: seq<nat>, nmin: int, shape: seq<nat>, t: nat)
    requires |counts| == Prod(shape) && t < |counts| && Covered(counts, nmin)
  {
    Count(targetBins, t) > 0 && |Pool(sourceBins, SourceBinFor(counts, t, nmin, shape))| == 0
  }

  /** The draws made for the target halos of cell t. */
  function DrawsFor(sourceBins: seq<int>, targetBins: seq<int>, counts: seq<nat>, nmin: int, shape: seq<nat>,
                    seed: int, rng: Rng, t: nat): (r: seq<nat>)
    requires |counts| == Prod(shape) && t < |counts| && Covered(counts, nmin)
    requires Count(targetBins, t) > 0 && !DrawFails(sourceBins, targetBins, counts, nmin, shape, t)
    ensures |r| == Count(targetBins, t)
  {
    RandomlySelect(Pool(sourceBins, SourceBinFor(counts, t, nmin, shape)), Count(targetBins, t), seed, rng)
  }

  /** The source halo selected for target halo i: its turn among its cell's draws; 0 outside the binning. */
  function SelectedFor(sourceBins: seq<int>, targetBins: seq<int>, counts: seq<nat>, nmin: int, shape: seq<nat>,
                       seed: int, rng: Rng, i: nat): int
    requires |counts| == Prod(shape) && Covered(counts, nmin) && i < |targetBins|
    requires 0 <= targetBins[i] < |counts| ==> !DrawFails(sourceBins, targetBins, counts, nmin, shape, targetBins[i])
  {
    var t := targetBins[i];
    if 0 <= t < |counts| then DrawsFor(sourceBins, targetBins, counts, nmin, shape, seed, rng, t)[Rank(targetBins, i)]
    else 0
  }

  /** The id matched to target halo i: its own id inside the binning, 0 outside it. */
  function MatchedId(targetBins: seq<int>, targetIds: seq<int>, total: nat, i: nat): int
    requires |targetIds| == |targetBins| && i < |targetBins|
  {
    if 0 <= targetBins[i] < total then targetIds[i] else 0
  }

  /**
   * What source_halo_index_selection returns, target halo by target halo: two arrays as long as
   * the target catalogue, zero in both for a target halo outside the binning and its own id in
   * the second inside it. The coverage check runs first; range(np.product(())) then fails when
   * no binned property is given.
   */
  function HaloSelection(sourceBins: seq<int>, targetBins: seq<int>, targetIds: seq<int>, nmin: int,
                         shape: seq<nat>, seed: int, rng: Rng): (r: Result<(seq<int>, seq<int>), Error>)
    requires |targetIds| == |targetBins|
    ensures r.Ok? ==> |shape| >= 1 && |r.value.0| == |r.value.1| == |targetBins|
    ensures r.Ok? ==> forall i :: 0 <= i < |targetBins| ==>
      if 0 <= targetBins[i] < Prod(shape) then r.value.1[i] == targetIds[i]
      else r.value.0[i] == 0 && r.value.1[i] == 0
  {
    var counts := SourceBinCounts(sourceBins, Prod(shape));
    match CheckSourceBinning(counts, nmin)
    case Fail(e) => Err(e)
    case Pass =>
      if |shape| == 0 then Err(NoBins)
      else if exists t :: 0 <= t < |counts| && DrawFails(sourceBins, targetBins, counts, nmin, shape, t) then
        Err(EmptySourceBin)
      else
        Ok((Selections(sourceBins, targetBins, counts, nmin, shape, seed, rng), MatchedIds(targetBins, targetIds, |counts|)))
  }

  /** The selected source halo of every target halo. */
  function Selections(sourceBins: seq<int>, targetBins: seq<int>, counts: seq<nat>, nmin: int, shape: seq<nat>,
                      seed: int, rng: Rng): (r: seq<int>)
    requires |counts| == Prod(shape) && Covered(counts, nmin)
    requires forall t :: 0 <= t < |counts| ==> !DrawFails(sourceBins, targetBins, counts, nmin, shape, t)
    ensures |r| == |targetBins|
    ensures forall i :: 0 <= i < |targetBins| ==> r[i] == SelectedFor(sourceBins, targetBins, counts, nmin, shape, seed, rng, i)
  {
    seq(|targetBins|, i requires 0 <= i < |targetBins| => SelectedFor(sourceBins, targetBins, counts, nmin, shape, seed, rng, i))
  }

  /** The matched id of every target halo. */
  function MatchedIds(targetBins: seq<int>, targetIds: seq<int>, total: nat): (r: seq<int>)
    requires |targetIds| == |targetBins|
    ensures |r| == |targetBins|
    ensures forall i :: 0 <= i < |targetBins| ==> r[i] == MatchedId(targetBins, targetIds, total, i)
  {
    seq(|targetBins|, i requires 0 <= i < |targetBins| => MatchedId(targetBins, targetIds, total, i))
  }

  /** Target halo i of cell t takes the draw of its turn among the target halos of t. */
  lemma SelectedForAt(sourceBins: seq<int>, targetBins: seq<int>, counts: seq<nat>, nmin: int, shape: seq<nat>,
                      seed: int, rng: Rng, i: nat)
    requires |counts| == Prod(shape) && Covered(counts, nmin) && i < |targetBins|
    requires 0 <= targetBins[i] < |counts| && !DrawFails(sourceBins, targetBins, counts, nmin, shape, targetBins[i])
    ensures SelectedFor(sourceBins, targetBins, counts, nmin, shape, seed, rng, i)
      == DrawsFor(sourceBins, targetBins, counts, nmin, shape, seed, rng, targetBins[i])[Rank(targetBins, i)]
  {
  }

  /** When the coverage check passes and every draw succeeds, the selection is the per-halo one. */
  lemma HaloSelectionOk(sourceBins: seq<int>, targetBins: seq<int>, targetIds: seq<int>, nmin: int,
                        shape: seq<nat>, seed: int, rng: Rng)
    requires |targetIds| == |targetBins| && |shape| >= 1
    requires CheckSourceBinning(SourceBinCounts(sourceBins, Prod(shape)), nmin) == Pass
    requires forall t :: 0 <= t < Prod(shape) ==>
      !DrawFails(sourceBins, targetBins, SourceBinCounts(sourceBins, Prod(shape)), nmin, shape, t)
    ensures HaloSelection(sourceBins, targetBins, targetIds, nmin, shape, seed, rng)
      == Ok((Selections(sourceBins, targetBins, SourceBinCounts(sourceBins, Prod(shape)), nmin, shape, seed, rng),
             MatchedIds(targetBins, targetIds, Prod(shape))))
  {
  }

  /** result[mask] = draws for the mask targetBins == t: the k-th masked entry takes the k-th draw. */
  method AssignDraws(result: array<int>, targetBins: seq<int>, t: int, draws: seq<nat>)
    requires result.Length == |targetBins| && |draws| == Count(targetBins, t)
    modifies result
    ensures forall i :: 0 <= i < |targetBins| ==>
      result[i] == if targetBins[i] == t then draws[Rank(targetBins, i)] else old(result[i])
  {
    ghost var before := result[..];
    var cur := 0;
    for i := 0 to |targetBins|
      invariant cur == Count(targetBins[..i], t)
      invariant forall j :: 0 <= j < i ==>
        result[j] == if targetBins[j] == t then draws[Rank(targetBins, j)] else before[j]
      invariant forall j :: i <= j < |targetBins| ==> result[j] == before[j]
    {
      RankStep(targetBins, i, t);
      if targetBins[i] == t {
        result[i] := draws[cur];
        cur := cur + 1;
      }
    }
  }

  /** Entry i of s counts the copies of t before it; an entry equal to t is the Rank-th copy. */
  lemma RankStep(s: seq<int>, i: nat, t: int)
    requires i < |s|
    ensures Count(s[..i + 1], t) == Count(s[..i], t) + (if s[i] == t then 1 else 0)
    ensures s[i] == t ==> Count(s[..i], t) == Rank(s, i) < Count(s, t)
  {
    CountSnoc(s, i, t);
  }

  /** matching[mask] = ids[mask] for the mask targetBins == t. */
  method AssignIds(matching: array<int>, targetBins: seq<int>, targetIds: seq<int>, t: int)
    requires matching.Length == |targetBins| == |targetIds|
    modifies matching
    ensures forall i :: 0 <= i < |targetBins| ==>
      matching[i] == if targetBins[i] == t then targetIds[i] else old(matching[i])
  {
    ghost var before := matching[..];
    for i := 0 to |targetBins|
      invariant forall j :: 0 <= j < i ==>
        matching[j] == if targetBins[j] == t then targetIds[j] else before[j]
      invariant forall j :: i <= j < |targetBins| ==> matching[j] == before[j]
    {
      if targetBins[i] == t {
        matching[i] := targetIds[i];
      }
    }
  }


  /**
   * One turn of the loop over cells: the target halos of cell t receive their draws and their own
   * ids; false where the draw would be made from an empty pool.
   */
  method SelectForCell(result: array<int>, matching: array<int>, sourceBins: seq<int>, targetBins: seq<int>,
                       targetIds: seq<int>, counts: seq<nat>, nmin: int, shape: seq<nat>, s: int, rng: Rng, t: nat)
    returns (ok: bool)
    requires result.Length == matching.Length == |targetBins| == |targetIds| && result != matching
    requires |counts| == Prod(shape) && Covered(counts, nmin) && t < |counts|
    requires forall u :: 0 <= u < t ==> !DrawFails(sourceBins, targetBins, counts, nmin, shape, u)
    requires forall i :: 0 <= i < |targetBins| ==>
      result[i] == if 0 <= targetBins[i] < t then SelectedFor(sourceBins, targetBins, counts, nmin, shape, s, rng, i) else 0
    requires forall i :: 0 <= i < |targetBins| ==>
      matching[i] == if 0 <= targetBins[i] < t then targetIds[i] else 0
    modifies result, matching
    ensures ok == !DrawFails(sourceBins, targetBins, counts, nmin, shape, t)
    ensures ok ==> forall i :: 0 <= i < |targetBins| ==>
      result[i] == if 0 <= targetBins[i] < t + 1 then SelectedFor(sourceBins, targetBins, counts, nmin, shape, s, rng, i) else 0
    ensures ok ==> forall i :: 0 <= i < |targetBins| ==>
      matching[i] == if 0 <= targetBins[i] < t + 1 then targetIds[i] else 0
  {
    var n := |targetBins|;
    var inBin := Count(targetBins, t);
    if inBin > 0 {
      var sourceBin := SourceBinFor(counts, t, nmin, shape);
      var pool := Pool(sourceBins, sourceBin);
      if |pool| == 0 {
        return false;
      }
      var draws := RandomlySelect(pool, inBin, s, rng);
      assert draws == DrawsFor(sourceBins, targetBins, counts, nmin, shape, s, rng, t);
      ghost var before, beforeIds := result[..], matching[..];
      AssignDraws(result, targetBins, t, draws);
      AssignIds(matching, targetBins, targetIds, t);
      forall i | 0 <= i < n
        ensures result[i] == if 0 <= targetBins[i] < t + 1
          then SelectedFor(sourceBins, targetBins, counts, nmin, shape, s, rng, i) else 0
      {
        if targetBins[i] == t {
          SelectedForAt(sourceBins, targetBins, counts, nmin, shape, s, rng, i);
        } else {
          assert result[i] == before[i];
        }
      }
      forall i | 0 <= i < n
        ensures matching[i] == if 0 <= targetBins[i] < t + 1 then targetIds[i] else 0
      {
        if targetBins[i] != t {
          assert matching[i] == beforeIds[i];
        }
      }
    } else {
      forall i | 0 <= i < n ensures targetBins[i] != t {
        assert targetBins[i] in targetBins;
      }
    }
    return true;
  }

  /**
   * The loop over all cells of source_halo_index_selection, on zeroed output arrays; false at the
   * first cell whose draw would be made from an empty pool.
   */
  method SelectAllCells(result: array<int>, matching: array<int>, sourceBins: seq<int>, targetBins: seq<int>,
                        targetIds: seq<int>, counts: seq<nat>, nmin: int, shape: seq<nat>, s: int, rng: Rng)
    returns (ok: bool)
    requires result.Length == matching.Length == |targetBins| == |targetIds| && result != matching
    requires |counts| == Prod(shape) && Covered(counts, nmin)
    requires forall i :: 0 <= i < |targetBins| ==> result[i] == 0 && matching[i] == 0
    modifies result, matching
    ensures ok <==> forall t :: 0 <= t < |counts| ==> !DrawFails(sourceBins, targetBins, counts, nmin, shape, t)
    ensures ok ==> result[..] == Selections(sourceBins, targetBins, counts, nmin, shape, s, rng)
    ensures ok ==> matching[..] == MatchedIds(targetBins, targetIds, |counts|)
  {
    var n := |targetBins|;
    for t := 0 to |counts|
      invariant forall u :: 0 <= u < t ==> !DrawFails(sourceBins, targetBins, counts, nmin, shape, u)
      invariant forall i :: 0 <= i < n ==>
        result[i] == if 0 <= targetBins[i] < t then SelectedFor(sourceBins, targetBins, counts, nmin, shape, s, rng, i) else 0
      invariant forall i :: 0 <= i < n ==>
        matching[i] == if 0 <= targetBins[i] < t then targetIds[i] else 0
    {
      ok := SelectForCell(result, matching, sourceBins, targetBins, targetIds, counts, nmin, shape, s, rng, t);
      if !ok {
        return;
      }
    }
    assert result[..] == Selections(sourceBins, targetBins, counts, nmin, shape, s, rng);
    assert matching[..] == MatchedIds(targetBins, targetIds, |counts|);
    return true;
  }

  /** source_halo_index_selection, with bins standing for the edge arrays and seed for the optional keyword. */
  method SourceHaloIndexSelection(sourceBins: seq<int>, targetBins: seq<int>, targetIds: seq<int>, nmin: int,
                                  bins: seq<seq<real>>, seed: Option<int>, rng: Rng)
    returns (r: Result<(seq<int>, seq<int>), Error>)
    requires |targetIds| == |targetBins|
    requires forall a :: 0 <= a < |bins| ==> |bins[a]| >= 1
    ensures r == HaloSelection(sourceBins, targetBins, targetIds, nmin, BinShapes(bins), SeedOrDefault(seed), rng)
  {
    var s := SeedOrDefault(seed);
    var shape := BinShapes(bins);
    var total := Prod(shape);
    var counts := SourceBinCounts(sourceBins, total);
    var check := CheckSourceBinning(counts, nmin);
    if check.Fail? {
      return Err(check.error);
    }
    if |shape| == 0 {
      return Err(NoBins);
    }
    assert Covered(counts, nmin);
    var n := |targetBins|;
    var result := new int[n](_ => 0);
    var matching := new int[n](_ => 0);
    var ok := SelectAllCells(result, matching, sourceBins, targetBins, targetIds, counts, nmin, shape, s, rng);
    if !ok {
      return Err(EmptySourceBin);
    }
    HaloSelectionOk(sourceBins, targetBins, targetIds, nmin, shape, s, rng);
    return Ok((result[..], matching[..]));
  }

  // ---------------------------------------------------------------------------
  // What the selection promises
  // ---------------------------------------------------------------------------

  /** The source halo selected for a target halo inside the binning lies in the cell its cell draws from. */
  lemma SelectedForInCell(sourceBins: seq<int>, targetBins: seq<int>, counts: seq<nat>, nmin: int, shape: seq<nat>,
                          seed: int, rng: Rng, i: nat)
    requires |counts| == Prod(shape) && Covered(counts, nmin) && i < |targetBins| && 0 <= targetBins[i] < |counts|
    requires !DrawFails(sourceBins, targetBins, counts, nmin, shape, targetBins[i])
    ensures var h := SelectedFor(sourceBins, targetBins, counts, nmin, shape, seed, rng, i);
      0 <= h < |sourceBins| && sourceBins[h] == SourceBinFor(counts, targetBins[i], nmin, shape)
  {
    var t := targetBins[i];
    var sb := SourceBinFor(counts, t, nmin, shape);
    var draws := DrawsFor(sourceBins, targetBins, counts, nmin, shape, seed, rng, t);
    var h := draws[Rank(targetBins, i)];
    assert h in Pool(sourceBins, sb);
    PoolFacts(sourceBins, sb);
  }

  /**
   * A successful selection has one entry per target halo. A target halo inside the binning gets
   * a source halo from the cell get_source_bin_from_target_bin names for its cell, and its own id;
   * a target halo outside the binning keeps zero in both outputs.
   */
  lemma HaloSelectionCells(sourceBins: seq<int>, targetBins: seq<int>, targetIds: seq<int>, nmin: int,
                           shape: seq<nat>, seed: int, rng: Rng)
    requires |targetIds| == |targetBins|
    ensures var r := HaloSelection(sourceBins, targetBins, targetIds, nmin, shape, seed, rng);
      r.Ok? ==>
        |r.value.0| == |targetBins| && |r.value.1| == |targetBins|
        && forall i :: 0 <= i < |targetBins| ==>
          if 0 <= targetBins[i] < Prod(shape) then
            0 <= r.value.0[i] < |sourceBins| && r.value.1[i] == targetIds[i]
            && GetSourceBinFromTargetBin(SourceBinCounts(sourceBins, Prod(shape)), targetBins[i], nmin, shape)
               == Some(sourceBins[r.value.0[i]])
          else r.value.0[i] == 0 && r.value.1[i] == 0
  {
    var r := HaloSelection(sourceBins, targetBins, targetIds, nmin, shape, seed, rng);
    var counts := SourceBinCounts(sourceBins, Prod(shape));
    if r.Ok? {
      assert CheckSourceBinning(counts, nmin) == Pass;
      assert Covered(counts, nmin);
      assert forall t :: 0 <= t < |counts| ==> !DrawFails(sourceBins, targetBins, counts, nmin, shape, t);
      HaloSelectionOk(sourceBins, targetBins, targetIds, nmin, shape, seed, rng);
      forall i | 0 <= i < |targetBins| && 0 <= targetBins[i] < Prod(shape)
        ensures 0 <= r.value.0[i] < |sourceBins|
        ensures GetSourceBinFromTargetBin(counts, targetBins[i], nmin, shape) == Some(sourceBins[r.value.0[i]])
      {
        SelectedForInCell(sourceBins, targetBins, counts, nmin, shape, seed, rng, i);
        GetSourceBinNearest(counts, targetBins[i], nmin, shape);
        assert r.value.0[i] == SelectedFor(sourceBins, targetBins, counts, nmin, shape, seed, rng, i);
      }
    }
  }

  /**
   * A target halo whose own cell holds at least nmin source halos gets a source halo from that
   * same cell.
   */
  lemma HaloSelectionOwnCell(sourceBins: seq<int>, targetBins: seq<int>, targetIds: seq<int>, nmin: int,
                             shape: seq<nat>, seed: int, rng: Rng, i: nat)
    requires |targetIds| == |targetBins| && i < |targetBins|
    requires 0 <= targetBins[i] < Prod(shape) && Count(sourceBins, targetBins[i]) >= nmin
    requires HaloSelection(sourceBins, targetBins, targetIds, nmin, shape, seed, rng).Ok?
    ensures var sel := HaloSelection(sourceBins, targetBins, targetIds, nmin, shape, seed, rng).value.0;
      |sel| == |targetBins| && 0 <= sel[i] < |sourceBins| && sourceBins[sel[i]] == targetBins[i]
  {
    HaloSelectionCells(sourceBins, targetBins, targetIds, nmin, shape, seed, rng);
    var counts := SourceBinCounts(sourceBins, Prod(shape));
    GetSourceBinNearest(counts, targetBins[i], nmin, shape);
  }

  /**
   * How the selection fails: NoCells exactly when the binning has no cells, InsufficientCoverage
   * exactly when it has cells but none holds nmin source halos, NoBins exactly when coverage holds
   * but no binned property is given, and an empty pool only when nmin is below one; so with nmin
   * of at least one the selection succeeds exactly when there is a binned property and some cell
   * is well sampled.
   */
  lemma HaloSelectionOutcome(sourceBins: seq<int>, targetBins: seq<int>, targetIds: seq<int>, nmin: int,
                             shape: seq<nat>, seed: int, rng: Rng)
    requires |targetIds| == |targetBins|
    ensures var r := HaloSelection(sourceBins, targetBins, targetIds, nmin, shape, seed, rng);
      var wellSampled := WellSampled(sourceBins, nmin, Prod(shape));
      (r == Err(NoCells) <==> Prod(shape) == 0)
      && (r == Err(InsufficientCoverage) <==> Prod(shape) > 0 && !wellSampled)
      && (r == Err(NoBins) <==> |shape| == 0 && wellSampled)
      && (r == Err(EmptySourceBin) ==> nmin <= 0)
      && (nmin >= 1 ==> (r.Ok? <==> |shape| >= 1 && wellSampled))
  {
    var counts := SourceBinCounts(sourceBins, Prod(shape));
    var check := CheckSourceBinning(counts, nmin);
    var r := HaloSelection(sourceBins, targetBins, targetIds, nmin, shape, seed, rng);
    var wellSampled := WellSampled(sourceBins, nmin, Prod(shape));
    assert Covered(counts, nmin) <==> wellSampled by {
      if wellSampled {
        var c :| 0 <= c < Prod(shape) && Count(sourceBins, c) >= nmin;
        assert counts[c] >= nmin;
      }
    }
    if |counts| == 0 {
      assert check == Fail(NoCells);
      assert r == Err(NoCells);
    } else if !Covered(counts, nmin) {
      assert check == Fail(InsufficientCoverage);
      assert r == Err(InsufficientCoverage);
    } else if |shape| == 0 {
      assert check == Pass;
      assert r == Err(NoBins);
    } else {
      assert check == Pass;
      assert r.Ok? || r == Err(EmptySourceBin);
      assert wellSampled && Prod(shape) > 0;
      if nmin >= 1 {
        forall t | 0 <= t < |counts| ensures !DrawFails(sourceBins, targetBins, counts, nmin, shape, t) {
          var sb := SourceBinFor(counts, t, nmin, shape);
          PoolFacts(sourceBins, sb);
        }
        assert r.Ok?;
      }
    }
  }
}
