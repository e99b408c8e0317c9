/**
 * The binned galaxy-selection pipeline: every target halo is paired with a source halo drawn
 * from its bin (SourceHaloSelection), and then inherits all the galaxies of that source halo,
 * listed as rows of the source galaxy table (the same assembly as GalMatch.SelectGalaxies).
 */
module SourceGalaxySelection {
  import opened Wrappers
  import opened Arrays
  import opened Sorting
  import opened MultiIndex
  import opened SourceHaloSelection
  import opened GalMatch

  /**
   * The galaxy selection for binned catalogues. The halo draw uses the default seed, since the
   * pipeline passes none. Errors come in the order the steps run: duplicate source halo IDs
   * (counting the residents), then the halo draw's own errors (NoBins when no edge array is
   * given), then a drawn row that lies outside the source halo catalogue. Every selected row is
   * a galaxy hosted by the source halo it is listed with.
   */
  function SourceGalaxySelectionIndices(hosts: seq<int>, sourceBins: seq<int>, sourceIds: seq<int>,
                                        targetBins: seq<int>, targetIds: seq<int>, nmin: int,
                                        bins: seq<seq<real>>, rng: Rng): (r: Result<Correspondence, Error>)
    requires |targetIds| == |targetBins|
    requires forall a :: 0 <= a < |bins| ==> |bins[a]| >= 1
    ensures r.Ok? ==> |r.value.selection| == |r.value.targetHaloIds| == |r.value.sourceHaloIds|
    ensures r.Ok? ==> forall k :: 0 <= k < |r.value.selection| ==>
      r.value.selection[k] < |hosts| && hosts[r.value.selection[k]] == r.value.sourceHaloIds[k]
  {
    if !Distinct(sourceIds) then Err(NonUniqueY)
    else
      var s :- HaloSelection(sourceBins, targetBins, targetIds, nmin, BinShapes(bins), SeedOrDefault(None), rng);
      HaloSelectionCells(sourceBins, targetBins, targetIds, nmin, BinShapes(bins), SeedOrDefault(None), rng);
      if exists i :: 0 <= i < |s.0| && !(0 <= s.0[i] < |sourceIds|) then Err(IndexOutOfBounds)
      else
        SelectGalaxiesShape(hosts, sourceIds, ArgSort(hosts), s.1, AsRows(s.0));
        SelectGalaxiesHosts(hosts, sourceIds, ArgSort(hosts), s.1, AsRows(s.0));
        Ok(SelectGalaxies(hosts, sourceIds, ArgSort(hosts), s.1, AsRows(s.0)))
  }

  /**
   * How the pipeline fails: duplicate source halo IDs first; otherwise exactly the errors of the
   * halo draw; a row outside the source halo catalogue only when the binned catalogue is longer
   * than the ID column (or the ID column is empty). With nmin at least one, the two columns of
   * the same catalogue and at least one edge array, the pipeline succeeds exactly when some cell
   * is well sampled; with no edge array it never succeeds.
   */
  lemma SourceGalaxySelectionErrors(hosts: seq<int>, sourceBins: seq<int>, sourceIds: seq<int>,
                                    targetBins: seq<int>, targetIds: seq<int>, nmin: int,
                                    bins: seq<seq<real>>, rng: Rng)
    requires |targetIds| == |targetBins|
    requires forall a :: 0 <= a < |bins| ==> |bins[a]| >= 1
    ensures var r := SourceGalaxySelectionIndices(hosts, sourceBins, sourceIds, targetBins, targetIds, nmin, bins, rng);
      var h := HaloSelection(sourceBins, targetBins, targetIds, nmin, BinShapes(bins), FixedSeed, rng);
      (!Distinct(sourceIds) ==> r == Err(NonUniqueY))
      && (Distinct(sourceIds) && h.Err? ==> r == Err(h.error))
      && (r == Err(IndexOutOfBounds) ==> |sourceIds| < |sourceBins| || |sourceIds| == 0)
      && (|bins| == 0 ==> r.Err?)
      && (Distinct(sourceIds) && nmin >= 1 && |sourceBins| <= |sourceIds| && |bins| >= 1 ==>
            (r.Ok? <==> WellSampled(sourceBins, nmin, Prod(BinShapes(bins)))))
  {
    var shape := BinShapes(bins);
    var h := HaloSelection(sourceBins, targetBins, targetIds, nmin, shape, FixedSeed, rng);
    HaloSelectionCells(sourceBins, targetBins, targetIds, nmin, shape, FixedSeed, rng);
    HaloSelectionOutcome(sourceBins, targetBins, targetIds, nmin, shape, FixedSeed, rng);
    if Distinct(sourceIds) && h.Ok? && nmin >= 1 && |sourceBins| <= |sourceIds| && |bins| >= 1 {
      var c :| 0 <= c < Prod(shape) && Count(sourceBins, c) >= nmin;
      assert |sourceBins| >= 1;
      forall i | 0 <= i < |h.value.0| ensures 0 <= h.value.0[i] < |sourceIds| {
        if !(0 <= targetBins[i] < Prod(shape)) {
          assert h.value.0[i] == 0;
        }
      }
    }
  }

  /** The drawn rows of the source halo catalogue, as indices. */
  function AsRows(s: seq<int>): (r: seq<nat>)
    requires forall i :: 0 <= i < |s| ==> s[i] >= 0
    ensures |r| == |s| && forall i :: 0 <= i < |s| ==> r[i] == s[i]
  {
    seq(|s|, i requires 0 <= i < |s| => s[i] as nat)
  }

  /** A successful run is the galaxy assembly of the draw: drawn rows and matching target halo IDs. */
  lemma SourceGalaxySelectionOk(hosts: seq<int>, sourceBins: seq<int>, sourceIds: seq<int>,
                                targetBins: seq<int>, targetIds: seq<int>, nmin: int,
                                bins: seq<seq<real>>, rng: Rng)
    requires |targetIds| == |targetBins|
    requires forall a :: 0 <= a < |bins| ==> |bins[a]| >= 1
    ensures var r := SourceGalaxySelectionIndices(hosts, sourceBins, sourceIds, targetBins, targetIds, nmin, bins, rng);
      var h := HaloSelection(sourceBins, targetBins, targetIds, nmin, BinShapes(bins), FixedSeed, rng);
      r.Ok? ==>
        && h.Ok? && Distinct(sourceIds) && |h.value.1| == |h.value.0| == |targetBins|
        && (forall i :: 0 <= i < |h.value.0| ==> 0 <= h.value.0[i] < |sourceIds|)
        && r.value == SelectGalaxies(hosts, sourceIds, ArgSort(hosts), h.value.1, AsRows(h.value.0))
  {
    var r := SourceGalaxySelectionIndices(hosts, sourceBins, sourceIds, targetBins, targetIds, nmin, bins, rng);
    var h := HaloSelection(sourceBins, targetBins, targetIds, nmin, BinShapes(bins), FixedSeed, rng);
    if r.Ok? {
      HaloSelectionCells(sourceBins, targetBins, targetIds, nmin, BinShapes(bins), FixedSeed, rng);
    }
  }

  /**
   * Every galaxy of the result is a row of the source galaxy table hosted by the source halo it
   * is listed with, and the three columns are the drawn pairs repeated by the drawn source halo's
   * richness: the matching target halo IDs of the draw and the IDs of the drawn source halos.
   */
  lemma SourceGalaxySelectionCorrect(hosts: seq<int>, sourceBins: seq<int>, sourceIds: seq<int>,
                                     targetBins: seq<int>, targetIds: seq<int>, nmin: int,
                                     bins: seq<seq<real>>, rng: Rng)
    requires |targetIds| == |targetBins|
    requires forall a :: 0 <= a < |bins| ==> |bins[a]| >= 1
    ensures var r := SourceGalaxySelectionIndices(hosts, sourceBins, sourceIds, targetBins, targetIds, nmin, bins, rng);
      var h := HaloSelection(sourceBins, targetBins, targetIds, nmin, BinShapes(bins), FixedSeed, rng);
      r.Ok? ==>
        && h.Ok? && |h.value.1| == |h.value.0|
        && (forall i :: 0 <= i < |h.value.0| ==> 0 <= h.value.0[i] < |sourceIds|)
        && var drawn := AsRows(h.value.0);
           var counts := TargetRichness(hosts, sourceIds, drawn);
           && |r.value.selection| == Sum(counts)
           && r.value.targetHaloIds == Repeat(h.value.1, counts)
           && r.value.sourceHaloIds == Repeat(Gather(sourceIds, drawn), counts)
           && forall k :: 0 <= k < |r.value.selection| ==>
                r.value.selection[k] < |hosts| && hosts[r.value.selection[k]] == r.value.sourceHaloIds[k]
  {
    var r := SourceGalaxySelectionIndices(hosts, sourceBins, sourceIds, targetBins, targetIds, nmin, bins, rng);
    var h := HaloSelection(sourceBins, targetBins, targetIds, nmin, BinShapes(bins), FixedSeed, rng);
    SourceGalaxySelectionOk(hosts, sourceBins, sourceIds, targetBins, targetIds, nmin, bins, rng);
    if r.Ok? {
      SelectGalaxiesShape(hosts, sourceIds, ArgSort(hosts), h.value.1, AsRows(h.value.0));
      SelectGalaxiesHosts(hosts, sourceIds, ArgSort(hosts), h.value.1, AsRows(h.value.0));
    }
  }

  /**
   * One cell per source halo and nmin of one: the draw pairs each target halo with the source
   * halo sharing its cell, whatever the random numbers.
   */
  lemma OnePerCellDraw(n: nat, targetBins: seq<int>, targetIds: seq<int>, bins: seq<seq<real>>, rng: Rng)
    requires n >= 1 && |targetIds| == |targetBins|
    requires |bins| == 1 && |bins[0]| == n + 1
    requires forall i :: 0 <= i < |targetBins| ==> 0 <= targetBins[i] < n
    ensures HaloSelection(Range(n), targetBins, targetIds, 1, BinShapes(bins), FixedSeed, rng) == Ok((targetBins, targetIds))
  {
    var sourceBins: seq<int> := Range(n);
    var shape := BinShapes(bins);
    var h := HaloSelection(sourceBins, targetBins, targetIds, 1, shape, FixedSeed, rng);
    assert Prod(shape) == n by {
      assert shape == [n];
      assert shape[..0] == [];
    }
    assert WellSampled(sourceBins, 1, Prod(shape)) by {
      assert sourceBins[0] == 0;
      assert Count(sourceBins, 0) >= 1;
    }
    HaloSelectionOutcome(sourceBins, targetBins, targetIds, 1, shape, FixedSeed, rng);
    HaloSelectionCells(sourceBins, targetBins, targetIds, 1, shape, FixedSeed, rng);
    forall i | 0 <= i < |targetBins| ensures h.value.0[i] == targetBins[i] {
      assert sourceBins[targetBins[i]] == targetBins[i];
      HaloSelectionOwnCell(sourceBins, targetBins, targetIds, 1, shape, FixedSeed, rng, i);
    }
    assert h.value.0 == targetBins;
    assert h.value.1 == targetIds;
  }

  /**
   * One galaxy per source halo, listed in the order of the source halos: every target halo
   * receives the single galaxy of its source halo.
   */
  lemma OneGalaxyPerHalo(ids: seq<int>, matched: seq<int>, drawn: seq<nat>)
    requires Distinct(ids) && |matched| == |drawn| && InBounds(drawn, |ids|)
    ensures SelectGalaxies(ids, ids, ArgSort(ids), matched, drawn) == Correspondence(drawn, matched, Gather(ids, drawn))
  {
    var c := SelectGalaxies(ids, ids, ArgSort(ids), matched, drawn);
    var counts := TargetRichness(ids, ids, drawn);
    SelectGalaxiesShape(ids, ids, ArgSort(ids), matched, drawn);
    SelectGalaxiesHosts(ids, ids, ArgSort(ids), matched, drawn);
    forall i | 0 <= i < |counts| ensures counts[i] == 1 {
      CountDistinct(ids, drawn[i]);
    }
    RepeatOnes(matched, counts);
    RepeatOnes(Gather(ids, drawn), counts);
    forall k | 0 <= k < |c.selection| ensures c.selection[k] == drawn[k] {
      assert ids[c.selection[k]] == ids[drawn[k]];
    }
  }

  /**
   * One galaxy per source halo and one cell per source halo, with nmin of one: each target halo
   * receives exactly the galaxy of the source halo sharing its cell. Target cells numbered
   * 0, 1, ... reproduce the galaxy table; each cell listed five times repeats every galaxy five
   * times.
   */
  lemma SourceGalaxySelectionOnePerCell(ids: seq<int>, targetBins: seq<int>, targetIds: seq<int>,
                                        bins: seq<seq<real>>, rng: Rng)
    requires Distinct(ids) && |ids| >= 1 && |targetIds| == |targetBins|
    requires |bins| == 1 && |bins[0]| == |ids| + 1
    requires forall i :: 0 <= i < |targetBins| ==> 0 <= targetBins[i] < |ids|
    ensures SourceGalaxySelectionIndices(ids, Range(|ids|), ids, targetBins, targetIds, 1, bins, rng)
         == Ok(Correspondence(AsRows(targetBins), targetIds, Gather(ids, AsRows(targetBins))))
  {
    var r := SourceGalaxySelectionIndices(ids, Range(|ids|), ids, targetBins, targetIds, 1, bins, rng);
    OnePerCellDraw(|ids|, targetBins, targetIds, bins, rng);
    assert r.Ok? by {
      SourceGalaxySelectionErrors(ids, Range(|ids|), ids, targetBins, targetIds, 1, bins, rng);
    }
    SourceGalaxySelectionOk(ids, Range(|ids|), ids, targetBins, targetIds, 1, bins, rng);
    OneGalaxyPerHalo(ids, targetIds, AsRows(targetBins));
  }
}
