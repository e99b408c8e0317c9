/**
 * host_halo_binning.py: the cell number of every halo in a multi-dimensional binning of halo
 * properties, and the table that maps every cell to the nearest cell holding enough objects.
 */
module HostHaloBinning {
  import opened Wrappers
  import opened Arrays
  import opened MultiIndex
  import opened Sorting
  import opened SourceHaloSelection
  import opened Crossmatch

  /** One binned property: its value for every halo and the edges of its bins. */
  datatype Axis = Axis(values: seq<real>, edges: seq<real>)

  /** Non-decreasing bin edges. */
  predicate Ascending(edges: seq<real>) {
    forall i, j :: 0 <= i < j < |edges| ==> edges[i] <= edges[j]
  }

  /** np.digitize(v, edges) for ascending edges: the number of edges at or below v. */
  function Digitize(edges: seq<real>, v: real): (r: nat)
    ensures r <= |edges|
  {
    if |edges| == 0 then 0 else (if edges[0] <= v then 1 else 0) + Digitize(edges[1..], v)
  }

  /** With ascending edges, exactly the first Digitize(edges, v) edges lie at or below v. */
  lemma {:induction false} DigitizeAscending(edges: seq<real>, v: real)
    requires Ascending(edges)
    ensures forall i :: 0 <= i < |edges| ==> (edges[i] <= v <==> i < Digitize(edges, v))
  {
    if |edges| > 0 {
      var rest := edges[1..];
      DigitizeAscending(rest, v);
      forall i | 0 <= i < |edges| ensures edges[i] <= v <==> i < Digitize(edges, v) {
        if i > 0 {
          assert edges[i] == rest[i - 1];
        }
        if edges[0] > v && |rest| > 0 {
          assert rest[0] > v;
        }
      }
    }
  }

  /**
   * The bin of v along one axis: max(1, min(digitize(v, edges), len(edges) - 1)) - 1, so values
   * below the first edge fall in the first bin and values from the last edge on in the last bin.
   */
  function AxisBin(v: real, edges: seq<real>): (r: nat)
    requires |edges| >= 2
    ensures r < |edges| - 1
  {
    var d := Digitize(edges, v);
    var clipped := if d < |edges| - 1 then d else |edges| - 1;
    (if clipped > 1 then clipped else 1) - 1
  }

  /**
   * v lies in bin k exactly when it is not below edge k (or k is the first bin) and below
   * edge k + 1 (or k is the last bin).
   */
  lemma AxisBinIff(v: real, edges: seq<real>, k: nat)
    requires |edges| >= 2 && Ascending(edges) && k < |edges| - 1
    ensures AxisBin(v, edges) == k <==>
      (k == 0 || edges[k] <= v) && (k == |edges| - 2 || v < edges[k + 1])
  {
    DigitizeAscending(edges, v);
  }

  /** Every axis has at least two edges in ascending order and one value per halo. */
  predicate WellFormed(axes: seq<Axis>) {
    |axes| >= 1
    && forall a :: 0 <= a < |axes| ==>
      |axes[a].edges| >= 2 && Ascending(axes[a].edges) && |axes[a].values| == |axes[0].values|
  }

  /** The number of bins along each axis. */
  function Shape(axes: seq<Axis>): (r: seq<nat>)
    requires WellFormed(axes)
    ensures |r| == |axes|
  {
    seq(|axes|, a requires 0 <= a < |axes| => |axes[a].edges| - 1)
  }

  /** The bin of halo h along every axis. */
  function CellCoordinates(axes: seq<Axis>, h: nat): (r: seq<nat>)
    requires WellFormed(axes) && h < |axes[0].values|
    ensures InShape(r, Shape(axes))
  {
    seq(|axes|, a requires 0 <= a < |axes| => AxisBin(axes[a].values[h], axes[a].edges))
  }

  /** halo_bin_indices: the row-major cell number of every halo. */
  function HaloBinIndices(axes: seq<Axis>): (r: seq<nat>)
    requires WellFormed(axes)
    ensures |r| == |axes[0].values|
    ensures forall h :: 0 <= h < |r| ==> r[h] < Prod(Shape(axes))
  {
    seq(|axes[0].values|, h requires 0 <= h < |axes[0].values| => Ravel(CellCoordinates(axes, h), Shape(axes)))
  }

  /**
   * The cell number of halo h decodes, axis by axis, to the bin whose edges enclose the halo's
   * value (the first and last bins also taking the values beyond the outer edges).
   */
  lemma HaloBinIndicesCells(axes: seq<Axis>, h: nat)
    requires WellFormed(axes) && h < |axes[0].values|
    ensures var coords := Unravel(HaloBinIndices(axes)[h], Shape(axes));
      |coords| == |axes|
      && forall a :: 0 <= a < |axes| ==>
        var e, v, k := axes[a].edges, axes[a].values[h], coords[a];
        k < |e| - 1 && (k == 0 || e[k] <= v) && (k == |e| - 2 || v < e[k + 1])
  {
    var coords := CellCoordinates(axes, h);
    assert Unravel(HaloBinIndices(axes)[h], Shape(axes)) == coords by {
      UnravelRavel(coords, Shape(axes));
    }
    CellCoordinatesBins(axes, h);
  }

  /** Along every axis, the halo's coordinate is the bin whose edges enclose its value. */
  lemma CellCoordinatesBins(axes: seq<Axis>, h: nat)
    requires WellFormed(axes) && h < |axes[0].values|
    ensures var coords := CellCoordinates(axes, h);
      forall a :: 0 <= a < |axes| ==>
        var e, v, k := axes[a].edges, axes[a].values[h], coords[a];
        k < |e| - 1 && (k == 0 || e[k] <= v) && (k == |e| - 2 || v < e[k + 1])
  {
    var coords := CellCoordinates(axes, h);
    forall a | 0 <= a < |axes| {
      AxisBinIff(axes[a].values[h], axes[a].edges, coords[a]);
    }
  }

  /** Two halos share a cell number exactly when they share a bin along every axis. */
  lemma HaloBinIndicesSameCell(axes: seq<Axis>, h: nat, g: nat)
    requires WellFormed(axes) && h < |axes[0].values| && g < |axes[0].values|
    ensures HaloBinIndices(axes)[h] == HaloBinIndices(axes)[g] <==> CellCoordinates(axes, h) == CellCoordinates(axes, g)
  {
    UnravelRavel(CellCoordinates(axes, h), Shape(axes));
    UnravelRavel(CellCoordinates(axes, g), Shape(axes));
  }

  // ---------------------------------------------------------------------------
  // matching_bin_dictionary
  // ---------------------------------------------------------------------------

  /**
   * The cell-to-cell table matching_bin_dictionary builds: a key for every cell, bound to a cell
   * holding at least nmin objects. An empty shape is the TypeError of range(np.product(())); no
   * qualifying cell is the IndexError of get_source_bin_from_target_bin.
   */
  function MatchingBins(binNumbers: seq<int>, nmin: int, shape: seq<nat>): (r: Result<map<nat, nat>, Error>)
    ensures r.Ok? ==> forall b: nat :: b in r.value <==> b < Prod(shape)
    ensures r.Ok? ==> forall b :: b in r.value ==> r.value[b] < Prod(shape) && Count(binNumbers, r.value[b]) >= nmin
  {
    var counts := SourceBinCounts(binNumbers, Prod(shape));
    if |shape| == 0 then Err(NoBins)
    else if Prod(shape) > 0 && !Covered(counts, nmin) then Err(NoQualifyingCell)
    else Ok(MatchTable(counts, nmin, shape, Prod(shape)))
  }

  /** The entries of the table for the cells below n. */
  function MatchTable(counts: seq<nat>, nmin: int, shape: seq<nat>, n: nat): map<nat, nat>
    requires |counts| == Prod(shape) && n <= |counts| && (n == 0 || Covered(counts, nmin))
  {
    map b: nat | b < n :: SourceBinFor(counts, b, nmin, shape)
  }

  lemma MatchTableSnoc(counts: seq<nat>, nmin: int, shape: seq<nat>, n: nat)
    requires |counts| == Prod(shape) && n < |counts| && Covered(counts, nmin)
    ensures MatchTable(counts, nmin, shape, n + 1)
      == MatchTable(counts, nmin, shape, n)[n := SourceBinFor(counts, n, nmin, shape)]
  {
    var m, m' := MatchTable(counts, nmin, shape, n), MatchTable(counts, nmin, shape, n + 1);
    var grown := m[n := SourceBinFor(counts, n, nmin, shape)];
    forall b: nat ensures (b in m' <==> b in grown) && (b in m' ==> m'[b] == grown[b]) {
      if b < n {
        assert b in m && m[b] == SourceBinFor(counts, b, nmin, shape);
        assert b in m' && m'[b] == SourceBinFor(counts, b, nmin, shape);
      } else if b == n {
        assert b in m' && m'[b] == SourceBinFor(counts, b, nmin, shape);
      } else {
        assert b !in m && b !in m';
      }
    }
    assert m' == grown;
  }

  /**
   * The first loop of matching_bin_dictionary: the number of objects in every cell below total,
   * read off np.unique(binNumbers, return_counts=True). The source keeps this table in a dict
   * keyed by 0 .. total - 1; here it is a sequence.
   */
  method CellCounts(binNumbers: seq<int>, total: nat) returns (d: seq<nat>)
    ensures d == SourceBinCounts(binNumbers, total)
  {
    var sorted := Sort(binNumbers);
    var runs := RunLength(sorted);
    var uniqueBins, counts := runs.0, runs.1;
    d := [];
    for b := 0 to total
      invariant d == SourceBinCounts(binNumbers, b)
    {
      UniqueCount(binNumbers, b);
      if b in uniqueBins {
        d := d + [counts[FirstIndexOf(uniqueBins, b)]];
      } else {
        d := d + [0];
      }
      SourceBinCountsSnoc(binNumbers, b);
    }
  }

  lemma SourceBinCountsSnoc(s: seq<int>, b: nat)
    ensures SourceBinCounts(s, b + 1) == SourceBinCounts(s, b) + [Count(s, b)]
  {
  }

  /** The count np.unique reports for b is the number of copies of b; a value it does not list has none. */
  lemma UniqueCount(s: seq<int>, b: int)
    ensures var runs := RunLength(Sort(s));
      |runs.0| == |runs.1|
      && (b in runs.0 ==> runs.1[FirstIndexOf(runs.0, b)] == Count(s, b))
      && (b !in runs.0 ==> Count(s, b) == 0)
  {
    UniqueCorrect(s);
  }

  /** matching_bin_dictionary: every cell's source cell, from the table of cell counts. */
  method MatchingBinDictionary(binNumbers: seq<int>, nmin: int, shape: seq<nat>) returns (r: Result<map<nat, nat>, Error>)
    ensures r == MatchingBins(binNumbers, nmin, shape)
  {
    if |shape| == 0 {
      return Err(NoBins);
    }
    var total := Prod(shape);
    var d := CellCounts(binNumbers, total);
    var result: map<nat, nat> := map[];
    for i := 0 to total
      invariant i > 0 ==> Covered(d, nmin)
      invariant result == MatchTable(d, nmin, shape, i)
    {
      var source := GetSourceBinFromTargetBin(d, i, nmin, shape);
      SourceBinLookup(d, i, nmin, shape);
      if source.None? {
        return Err(NoQualifyingCell);
      }
      MatchTableSnoc(d, nmin, shape, i);
      result := result[i := source.value];
    }
    return Ok(result);
  }

  /**
   * Given at least one binned property, a table is produced exactly when the binning has no cells
   * or some cell holds nmin objects.
   */
  lemma MatchingBinsOutcome(binNumbers: seq<int>, nmin: int, shape: seq<nat>)
    ensures MatchingBins(binNumbers, nmin, shape) == Err(NoBins) <==> |shape| == 0
    ensures MatchingBins(binNumbers, nmin, shape).Ok? <==>
      |shape| >= 1 && (Prod(shape) == 0 || WellSampled(binNumbers, nmin, Prod(shape)))
  {
    var total := Prod(shape);
    var counts := SourceBinCounts(binNumbers, total);
    assert Covered(counts, nmin) <==> WellSampled(binNumbers, nmin, total) by {
      if WellSampled(binNumbers, nmin, total) {
        var c :| 0 <= c < total && Count(binNumbers, c) >= nmin;
        assert counts[c] >= nmin;
      }
    }
  }

  /**
   * The table maps cell b to the nearest cell holding at least nmin objects, the lowest-numbered
   * of equally near ones; so a cell holding enough maps to itself.
   */
  lemma MatchingBinsNearest(binNumbers: seq<int>, nmin: int, shape: seq<nat>, b: nat)
    requires MatchingBins(binNumbers, nmin, shape).Ok? && b < Prod(shape)
    ensures b in MatchingBins(binNumbers, nmin, shape).value
    ensures var s := MatchingBins(binNumbers, nmin, shape).value[b];
      s < Prod(shape) && Count(binNumbers, s) >= nmin
      && (Count(binNumbers, b) >= nmin ==> s == b)
      && (forall c :: 0 <= c < Prod(shape) && Count(binNumbers, c) >= nmin ==>
            CellDistance(shape, b, s) <= CellDistance(shape, b, c))
      && (forall c :: 0 <= c < s && Count(binNumbers, c) >= nmin ==>
            CellDistance(shape, b, c) > CellDistance(shape, b, s))
  {
    var counts := SourceBinCounts(binNumbers, Prod(shape));
    assert Covered(counts, nmin);
    assert MatchingBins(binNumbers, nmin, shape).value[b] == SourceBinFor(counts, b, nmin, shape);
    SourceBinForNearest(binNumbers, nmin, shape, b);
  }

  /** The cell SourceBinFor names for b, stated in terms of the objects' cell numbers. */
  lemma SourceBinForNearest(binNumbers: seq<int>, nmin: int, shape: seq<nat>, b: nat)
    requires b < Prod(shape) && Covered(SourceBinCounts(binNumbers, Prod(shape)), nmin)
    ensures var s := SourceBinFor(SourceBinCounts(binNumbers, Prod(shape)), b, nmin, shape);
      s < Prod(shape) && Count(binNumbers, s) >= nmin
      && (Count(binNumbers, b) >= nmin ==> s == b)
      && (forall c :: 0 <= c < Prod(shape) && Count(binNumbers, c) >= nmin ==>
            CellDistance(shape, b, s) <= CellDistance(shape, b, c))
      && (forall c :: 0 <= c < s && Count(binNumbers, c) >= nmin ==>
            CellDistance(shape, b, c) > CellDistance(shape, b, s))
  {
    var counts := SourceBinCounts(binNumbers, Prod(shape));
    GetSourceBinNearest(counts, b, nmin, shape);
    assert forall c :: 0 <= c < |counts| ==> counts[c] == Count(binNumbers, c);
  }


  // ---------------------------------------------------------------------------
  // A one-axis binning
  // ---------------------------------------------------------------------------

  /** Along a single axis a cell's coordinate is its own number. */
  lemma OneAxisUnravel(n: nat, c: nat)
    requires c < n
    ensures Prod([n]) == n && Unravel(c, [n]) == [c]
  {
    assert [n][..0] == [];
    DivModOf(0, n, c);
  }

  /** Along a single axis the distance between two cells is the difference of their numbers. */
  lemma OneAxisDistance(n: nat, b: nat, c: nat)
    requires b < n && c < n
    ensures Prod([n]) == n && CellDistance([n], b, c) == Abs(c - b)
  {
    OneAxisUnravel(n, b);
    OneAxisUnravel(n, c);
    assert [b][1..] == [] && [c][1..] == [];
    assert Taxicab([b], [c]) == Abs(c - b) + Taxicab([], []);
  }

  /** In the example below exactly cells 2, 3 and 5 hold two objects or more. */
  lemma ExampleCounts(xs: seq<int>)
    requires xs == [3, 2, 2, 2, 3, 5, 2, 5, 5, 2, 2]
    ensures forall c :: Count(xs, c) >= 2 <==> c == 2 || c == 3 || c == 5
  {
    forall c ensures Count(xs, c) >= 2 <==> c == 2 || c == 3 || c == 5 {
      ExampleCount(xs, c);
    }
  }

  lemma ExampleCount(xs: seq<int>, c: int)
    requires xs == [3, 2, 2, 2, 3, 5, 2, 5, 5, 2, 2]
    ensures Count(xs, c) == if c == 2 then 6 else if c == 3 then 2 else if c == 5 then 3 else 0
  {
    ExampleMultiset(xs);
    CountIsMultiplicity(xs, c);
  }

  lemma ExampleMultiset(xs: seq<int>)
    requires xs == [3, 2, 2, 2, 3, 5, 2, 5, 5, 2, 2]
    ensures multiset(xs) == multiset{2, 2, 2, 2, 2, 2, 3, 3, 5, 5, 5}
  {
  }

  /**
   * Ten cells along one axis, objects in cells 2 (six), 3 (two) and 5 (three), nmin = 2: cells
   * 0 to 2 map to 2, cells 3 and 4 to 3 (cell 4 is as near to 5, but 3 comes first), cells 5 to
   * 9 to 5.
   */
  lemma MatchingBinsExample(xs: seq<int>, b: nat)
    requires xs == [3, 2, 2, 2, 3, 5, 2, 5, 5, 2, 2] && b < 10
    ensures MatchingBins(xs, 2, [10]).Ok? && b in MatchingBins(xs, 2, [10]).value
    ensures MatchingBins(xs, 2, [10]).value[b] == if b <= 2 then 2 else if b <= 4 then 3 else 5
  {
    ExampleCounts(xs);
    ExampleTable(xs, b);
  }

  /** The example's table follows from which cells hold two objects or more. */
  lemma ExampleTable(xs: seq<int>, b: nat)
    requires Count(xs, 2) >= 2 && Count(xs, 3) >= 2 && Count(xs, 5) >= 2
    requires forall c :: Count(xs, c) >= 2 ==> c == 2 || c == 3 || c == 5
    requires b < 10
    ensures MatchingBins(xs, 2, [10]).Ok? && b in MatchingBins(xs, 2, [10]).value
    ensures MatchingBins(xs, 2, [10]).value[b] == if b <= 2 then 2 else if b <= 4 then 3 else 5
  {
    OneAxisUnravel(10, 0);
    MatchingBinsOutcome(xs, 2, [10]);
    MatchingBinsNearest(xs, 2, [10], b);
    var s := MatchingBins(xs, 2, [10]).value[b];
    assert s == 2 || s == 3 || s == 5;
    ExampleNearest(b, s);
  }

  /** Along ten cells, the nearest of cells 2, 3 and 5 to b, the lowest of equally near ones. */
  lemma ExampleNearest(b: nat, s: nat)
    requires b < 10 && (s == 2 || s == 3 || s == 5) && Prod([10]) == 10
    requires CellDistance([10], b, s) <= CellDistance([10], b, 2)
    requires CellDistance([10], b, s) <= CellDistance([10], b, 3)
    requires CellDistance([10], b, s) <= CellDistance([10], b, 5)
    requires 2 < s ==> CellDistance([10], b, 2) > CellDistance([10], b, s)
    requires 3 < s ==> CellDistance([10], b, 3) > CellDistance([10], b, s)
    ensures s == (if b <= 2 then 2 else if b <= 4 then 3 else 5)
  {
    OneAxisDistance(10, b, s);
    OneAxisDistance(10, b, 2);
    OneAxisDistance(10, b, 3);
    OneAxisDistance(10, b, 5);
    ExamplePick(b, s, Abs(s - b), Abs(2 - b), Abs(3 - b), Abs(5 - b));
  }

  lemma ExamplePick(b: nat, s: nat, ds: nat, d2: nat, d3: nat, d5: nat)
    requires b < 10 && (s == 2 || s == 3 || s == 5)
    requires ds == Abs(s - b) && d2 == Abs(2 - b) && d3 == Abs(3 - b) && d5 == Abs(5 - b)
    requires ds <= d2 && ds <= d3 && ds <= d5
    requires 2 < s ==> d2 > ds
    requires 3 < s ==> d3 > ds
    ensures s == (if b <= 2 then 2 else if b <= 4 then 3 else 5)
  {
  }
}
