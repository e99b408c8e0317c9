/**
 * galsampler/galmatch.py: expanding each target halo into the source galaxies of the source
 * halo it is matched to, and resolving host-halo IDs.
 */
module GalMatch {
  import opened Wrappers
  import opened Arrays
  import opened Sorting
  import opened Crossmatch

  // ---------------------------------------------------------------------------
  // galaxy_selection_kernel
  // ---------------------------------------------------------------------------

  /** first, first + 1, ..., first + n - 1; nothing when n is not positive. */
  function Block(first: int, n: int): (r: seq<int>)
    ensures |r| == Pos(n)
    ensures forall j :: 0 <= j < |r| ==> r[j] == first + j
  {
    seq(Pos(n), j => first + j)
  }

  /**
   * What galaxy_selection_kernel writes: for each target halo in order, the run of
   * richness[i] galaxy indices starting at firsts[i]; halos with richness <= 0 write nothing.
   */
  function Expand(firsts: seq<int>, richness: seq<int>): (r: seq<int>)
    requires |firsts| == |richness|
    ensures |r| == SumPositive(richness)
    decreases |firsts|
  {
    if |firsts| == 0 then []
    else
      var n := |firsts| - 1;
      SumPositiveSnoc(richness, n);
      assert richness[..n + 1] == richness;
      Expand(firsts[..n], richness[..n]) + Block(firsts[n], richness[n])
  }

  /** The target halo whose block holds position k of the expansion. */
  function BlockOf(richness: seq<int>, k: nat): (i: nat)
    requires k < SumPositive(richness)
    ensures i < |richness|
    ensures SumPositive(richness[..i]) <= k < SumPositive(richness[..i]) + Pos(richness[i])
  {
    if k < Pos(richness[0]) then
      assert richness[..0] == [];
      0
    else
      var i := BlockOf(richness[1..], k - Pos(richness[0]));
      assert richness[..i + 1] == [richness[0]] + richness[1..][..i];
      assert ([richness[0]] + richness[1..][..i])[1..] == richness[1..][..i];
      i + 1
  }

  /**
   * Halo i's block starts after the blocks of every earlier halo: entry off of it sits at
   * SumPositive(richness[..i]) + off and holds firsts[i] + off.
   */
  lemma {:induction false} ExpandBlock(firsts: seq<int>, richness: seq<int>, i: nat, off: nat)
    requires |firsts| == |richness| && i < |firsts| && off < Pos(richness[i])
    ensures SumPositive(richness[..i]) + off < |Expand(firsts, richness)|
    ensures Expand(firsts, richness)[SumPositive(richness[..i]) + off] == firsts[i] + off
    decreases |firsts|
  {
    var n := |firsts| - 1;
    var e, pre := Expand(firsts, richness), Expand(firsts[..n], richness[..n]);
    var p := SumPositive(richness[..i]) + off;
    assert richness[..n + 1] == richness;
    assert e == pre + Block(firsts[n], richness[n]);
    if i < n {
      ExpandBlock(firsts[..n], richness[..n], i, off);
      assert richness[..n][..i] == richness[..i];
      assert p < |pre| && pre[p] == firsts[i] + off;
      assert e[p] == pre[p];
    } else {
      assert |pre| == SumPositive(richness[..i]);
      assert e[p] == Block(firsts[n], richness[n])[off];
    }
  }
  /** Block i of the expansion, at the sum of the positive richness before i, counts up from firsts[i]. */
  lemma ExpandRun(firsts: seq<int>, richness: seq<int>, i: nat)
    requires |firsts| == |richness| && i < |firsts|
    ensures SumPositive(richness[..i]) + Pos(richness[i]) <= |Expand(firsts, richness)|
    ensures forall k :: SumPositive(richness[..i]) <= k < SumPositive(richness[..i]) + Pos(richness[i]) ==>
      Expand(firsts, richness)[k] == firsts[i] + (k - SumPositive(richness[..i]))
  {
    var start := SumPositive(richness[..i]);
    if richness[i] > 0 {
      ExpandBlock(firsts, richness, i, Pos(richness[i]) - 1);
    } else {
      SumPositivePrefixBound(richness, i);
    }
    forall k | start <= k < start + Pos(richness[i]) ensures Expand(firsts, richness)[k] == firsts[i] + (k - start) {
      ExpandBlock(firsts, richness, i, k - start);
    }
  }


  /** Every position of the expansion belongs to exactly the block BlockOf names. */
  lemma ExpandAt(firsts: seq<int>, richness: seq<int>, k: nat)
    requires |firsts| == |richness| && k < SumPositive(richness)
    ensures Expand(firsts, richness)[k] ==
      firsts[BlockOf(richness, k)] + (k - SumPositive(richness[..BlockOf(richness, k)]))
  {
    var i := BlockOf(richness, k);
    ExpandBlock(firsts, richness, i, k - SumPositive(richness[..i]));
  }

  /** Blocks come in halo order: every entry written for halo i precedes every entry for a later halo. */
  lemma ExpandOrdered(richness: seq<int>, i: nat, j: nat, a: nat, b: nat)
    requires i < j < |richness| && a < Pos(richness[i]) && b < Pos(richness[j])
    ensures SumPositive(richness[..i]) + a < SumPositive(richness[..j]) + b
  {
    SumPositiveSnoc(richness, i);
    assert richness[..j] == richness[..i + 1] + richness[i + 1..j];
    SumPositiveAppend(richness[..i + 1], richness[i + 1..j]);
  }

  /** Writes first, first + 1, ..., first + n - 1 into result from position start on. */
  method WriteBlock(result: array<int>, start: nat, first: int, n: int)
    requires start + Pos(n) <= result.Length
    modifies result
    ensures result[..start] == old(result[..start])
    ensures result[start..start + Pos(n)] == Block(first, n)
    ensures result[start + Pos(n)..] == old(result[start + Pos(n)..])
  {
    if n > 0 {
      var cur := start;
      for j := first to first + n
        invariant cur == start + (j - first)
        invariant result[..start] == old(result[..start])
        invariant result[start..cur] == Block(first, j - first)
        invariant result[cur..] == old(result[cur..])
      {
        result[cur] := j;
        cur := cur + 1;
      }
    }
  }

  /**
   * galaxy_selection_kernel(firsts, richness, nTargetHalo, result): fills the front of result
   * with the expansion of the first nTargetHalo halos and leaves the rest of result alone.
   */
  method GalaxySelectionKernel(firsts: seq<int>, richness: seq<int>, nTargetHalo: nat, result: array<int>)
    requires nTargetHalo <= |firsts| && nTargetHalo <= |richness|
    requires SumPositive(richness[..nTargetHalo]) <= result.Length
    modifies result
    ensures result[..SumPositive(richness[..nTargetHalo])] == Expand(firsts[..nTargetHalo], richness[..nTargetHalo])
    ensures result[SumPositive(richness[..nTargetHalo])..] == old(result[..])[SumPositive(richness[..nTargetHalo])..]
  {
    var cur := 0;
    for i := 0 to nTargetHalo
      invariant cur == SumPositive(richness[..i]) && cur <= result.Length
      invariant result[..cur] == Expand(firsts[..i], richness[..i])
      invariant result[cur..] == old(result[..])[cur..]
    {
      SumPositiveSnoc(richness, i);
      SumPositivePrefixBound(richness[..nTargetHalo], i + 1);
      assert richness[..nTargetHalo][..i + 1] == richness[..i + 1];
      var n := richness[i];
      WriteBlock(result, cur, firsts[i], n);
      assert firsts[..i + 1][..i] == firsts[..i] && richness[..i + 1][..i] == richness[..i];
      assert result[..cur + Pos(n)] == result[..cur] + result[cur..cur + Pos(n)];
      cur := cur + Pos(n);
    }
  }

  // ---------------------------------------------------------------------------
  // _galaxy_table_indices
  // ---------------------------------------------------------------------------

  /**
   * _galaxy_table_indices(ids, hosts): np.unique(hosts, return_index=True) gives the distinct
   * host IDs with the row of their first galaxy; crossmatch joins ids against them and the
   * rows are scattered over an array of -1. The unique values never repeat, so the crossmatch
   * cannot fail.
   */
  function GalaxyTableIndices(ids: seq<int>, hosts: seq<int>): (r: seq<int>)
    ensures |r| == |ids|
  {
    var uval := RunLength(Sort(hosts)).0;
    UniqueCorrect(hosts);
    assert Distinct(uval);
    var m := Crossmatch.Crossmatch(ids, uval, false).value;
    Scatter(seq(|ids|, _ => -1), m.0, Gather(FirstRows(hosts, uval), m.1))
  }

  /** The return_index half of np.unique: for each distinct host ID, the row of its first galaxy. */
  function FirstRows(hosts: seq<int>, uval: seq<int>): (r: seq<int>)
    requires forall i :: 0 <= i < |uval| ==> uval[i] in hosts
    ensures |r| == |uval|
  {
    seq(|uval|, i requires 0 <= i < |uval| => FirstIndexOf(hosts, uval[i]) as int)
  }

  /** Each halo gets the row of the first galaxy it hosts, or -1 when it hosts none. */
  lemma GalaxyTableIndicesCorrect(ids: seq<int>, hosts: seq<int>)
    ensures forall i :: 0 <= i < |ids| ==>
      GalaxyTableIndices(ids, hosts)[i] == if ids[i] in hosts then FirstIndexOf(hosts, ids[i]) else -1
  {
    var uval := RunLength(Sort(hosts)).0;
    UniqueCorrect(hosts);
    assert Distinct(uval);
    assert forall j :: 0 <= j < |uval| ==> uval[j] in hosts;
    forall i | 0 <= i < |ids| ensures ids[i] in uval <==> ids[i] in hosts {
      UniqueMembership(hosts, ids[i]);
    }
    var m := Crossmatch.Crossmatch(ids, uval, false).value;
    TableFromCrossmatch(ids, hosts, uval, m.0, m.1);
  }

  /** Every entry lies in [-1, |hosts|). */
  lemma GalaxyTableIndicesRange(ids: seq<int>, hosts: seq<int>)
    ensures forall i :: 0 <= i < |ids| ==> -1 <= GalaxyTableIndices(ids, hosts)[i] < |hosts|
  {
    GalaxyTableIndicesCorrect(ids, hosts);
  }

  lemma UniqueMembership(hosts: seq<int>, v: int)
    ensures v in RunLength(Sort(hosts)).0 <==> v in hosts
  {
    UniqueCorrect(hosts);
  }

  lemma TableFromCrossmatch(ids: seq<int>, hosts: seq<int>, uval: seq<int>, ix: seq<nat>, iy: seq<nat>)
    requires forall i :: 0 <= i < |ids| ==> (ids[i] in uval <==> ids[i] in hosts)
    requires forall j :: 0 <= j < |uval| ==> uval[j] in hosts
    requires IsCrossmatch(ids, uval, ix, iy)
    ensures forall i :: 0 <= i < |ids| ==>
      Scatter(seq(|ids|, _ => -1), ix, Gather(FirstRows(hosts, uval), iy))[i]
        == if ids[i] in hosts then FirstIndexOf(hosts, ids[i]) else -1
  {
    var rows := FirstRows(hosts, uval);
    ScatterDistinct(seq(|ids|, _ => -1), ix, Gather(rows, iy));
    var r := Scatter(seq(|ids|, _ => -1), ix, Gather(rows, iy));
    forall i | 0 <= i < |ids|
      ensures r[i] == if ids[i] in hosts then FirstIndexOf(hosts, ids[i]) else -1
    {
      if i in ix {
        var k :| 0 <= k < |ix| && ix[k] == i;
        assert r[i] == rows[iy[k]];
        assert ids[i] == uval[iy[k]];
        assert rows[iy[k]] == FirstIndexOf(hosts, uval[iy[k]]);
        assert ids[i] in hosts;
      } else {
        assert ids[i] !in uval;
        assert r[i] == -1;
      }
    }
  }

  // ---------------------------------------------------------------------------
  // Expanding into the sorted galaxy table
  // ---------------------------------------------------------------------------

  /**
   * In a galaxy table sorted by host, expanding each matched halo from the first row of its
   * host over as many rows as it hosts galaxies reads exactly rows hosted by that halo: entry k
   * of the expansion is a row of the table whose host is entry k of the halo IDs repeated by
   * richness.
   */
  lemma ExpandWithinRuns(sortedHosts: seq<int>, ids: seq<int>, richness: seq<nat>, firsts: seq<int>, sel: seq<nat>)
    requires Sorted(sortedHosts) && |richness| == |firsts| == |ids| && InBounds(sel, |ids|)
    requires forall j :: 0 <= j < |ids| ==> richness[j] == Count(sortedHosts, ids[j])
    requires forall j :: 0 <= j < |ids| ==>
      firsts[j] == if ids[j] in sortedHosts then FirstIndexOf(sortedHosts, ids[j]) else -1
    ensures var e := Expand(Gather(firsts, sel), Gather(richness, sel));
      var perTarget := Repeat(Gather(ids, sel), Gather(richness, sel));
      |e| == |perTarget|
      && forall k :: 0 <= k < |e| ==> 0 <= e[k] < |sortedHosts| && sortedHosts[e[k]] == perTarget[k]
  {
    var tr := Gather(richness, sel);
    var fs := Gather(firsts, sel);
    var pv := Gather(ids, sel);
    var e := Expand(fs, tr);
    SumPositiveOfNat(tr);
    assert TargetRuns(sortedHosts, pv, tr, fs);
    forall k | 0 <= k < |e| ensures 0 <= e[k] < |sortedHosts| && sortedHosts[e[k]] == Repeat(pv, tr)[k] {
      ExpandWithinRunsAt(sortedHosts, pv, tr, fs, k);
    }
  }

  /**
   * Per target halo: its richness is the length of its source halo's run in the sorted table and
   * its first row is where that run starts.
   */
  predicate TargetRuns(sortedHosts: seq<int>, pv: seq<int>, tr: seq<nat>, fs: seq<int>) {
    |pv| == |tr| == |fs|
    && forall i :: 0 <= i < |pv| ==>
         tr[i] == Count(sortedHosts, pv[i]) && fs[i] == if pv[i] in sortedHosts then FirstIndexOf(sortedHosts, pv[i]) else -1
  }

  /** One entry of ExpandWithinRuns: the k-th expanded row lies in the run of its target's source halo. */
  lemma ExpandWithinRunsAt(sortedHosts: seq<int>, pv: seq<int>, tr: seq<nat>, fs: seq<int>, k: nat)
    requires Sorted(sortedHosts) && TargetRuns(sortedHosts, pv, tr, fs) && k < Sum(tr)
    ensures var e := Expand(fs, tr);
      k < |e| && 0 <= e[k] < |sortedHosts| && sortedHosts[e[k]] == Repeat(pv, tr)[k]
  {
    SumPositiveOfNat(tr);
    var i := BlockOf(tr, k);
    var off := k - SumPositive(tr[..i]);
    RepeatAt(pv, tr, k);
    ExpandAt(fs, tr, k);
    RunEntry(sortedHosts, pv[i], off);
  }

  /** Entry k of np.repeat(v, c) is v at the block k falls in. */
  lemma RepeatAt<T>(v: seq<T>, c: seq<nat>, k: nat)
    requires |v| == |c| && k < Sum(c)
    ensures SumPositive(c) == Sum(c) && Repeat(v, c)[k] == v[BlockOf(c, k)]
  {
    SumPositiveOfNat(c);
    var i := BlockOf(c, k);
    SumPositiveOfNat(c[..i]);
    RepeatBlock(v, c, i, k - Sum(c[..i]));
  }

  /** Within the run of a value in a sorted array, every offset below its count holds that value. */
  lemma RunEntry(sorted: seq<int>, id: int, off: nat)
    requires Sorted(sorted) && off < Count(sorted, id)
    ensures id in sorted && FirstIndexOf(sorted, id) + off < |sorted| && sorted[FirstIndexOf(sorted, id) + off] == id
  {
    SortedRun(sorted, id);
  }


  // ---------------------------------------------------------------------------
  // Assembling the selected galaxies (compute_source_galaxy_selection_indices and
  // source_galaxy_selection_indices share these steps)
  // ---------------------------------------------------------------------------

  /**
   * GalsamplerCorrespondence: for every selected galaxy, its row in the source galaxy table,
   * the ID of the target halo it goes to and the ID of the source halo it comes from.
   */
  datatype Correspondence = Correspondence(selection: seq<nat>, targetHaloIds: seq<int>, sourceHaloIds: seq<int>)

  /** Sorting the galaxies by host does not change how many galaxies a host has. */
  lemma CountSortedHosts(hosts: seq<int>, order: seq<nat>, v: int)
    requires IsArgSort(hosts, order)
    ensures Count(Gather(hosts, order), v) == Count(hosts, v)
  {
    PermutationPreservesMultiset(hosts, order);
    CountIsMultiplicity(hosts, v);
    CountIsMultiplicity(Gather(hosts, order), v);
  }

  /**
   * compute_richness(source_halo_ids, sorted hosts) once it has succeeded: the number of
   * galaxies each source halo hosts.
   */
  function SourceRichness(hosts: seq<int>, sourceIds: seq<int>, order: seq<nat>): (r: seq<nat>)
    requires IsArgSort(hosts, order) && Distinct(sourceIds)
    ensures |r| == |sourceIds|
    ensures forall j :: 0 <= j < |sourceIds| ==> r[j] == Count(hosts, sourceIds[j])
  {
    var sortedHosts := Gather(hosts, order);
    ComputeRichnessCorrect(sourceIds, sortedHosts);
    forall j | 0 <= j < |sourceIds| ensures Count(sortedHosts, sourceIds[j]) == Count(hosts, sourceIds[j]) {
      CountSortedHosts(hosts, order, sourceIds[j]);
    }
    ComputeRichness(sourceIds, sortedHosts).value
  }

  /** For each target halo, the number of galaxies hosted by the source halo sel picks for it. */
  function TargetRichness(hosts: seq<int>, sourceIds: seq<int>, sel: seq<nat>): (r: seq<nat>)
    requires InBounds(sel, |sourceIds|)
    ensures |r| == |sel| && forall i :: 0 <= i < |sel| ==> r[i] == Count(hosts, sourceIds[sel[i]])
  {
    seq(|sel|, i requires 0 <= i < |sel| => Count(hosts, sourceIds[sel[i]]))
  }

  /**
   * The kernel's output: the selected rows of the galaxy table sorted by host, each in
   * [0, |hosts|).
   */
  function SortedSelection(hosts: seq<int>, sourceIds: seq<int>, order: seq<nat>, sel: seq<nat>): (r: seq<int>)
    requires IsArgSort(hosts, order) && Distinct(sourceIds) && InBounds(sel, |sourceIds|)
    ensures |r| == Sum(TargetRichness(hosts, sourceIds, sel))
    ensures forall k :: 0 <= k < |r| ==> 0 <= r[k] < |hosts|
  {
    var sortedHosts := Gather(hosts, order);
    var richness := SourceRichness(hosts, sourceIds, order);
    var firsts := GalaxyTableIndices(sourceIds, sortedHosts);
    assert Gather(richness, sel) == TargetRichness(hosts, sourceIds, sel);
    SortedFirsts(hosts, sourceIds, order);
    ArgSortGivesSorted(hosts, order);
    ExpandWithinRuns(sortedHosts, sourceIds, richness, firsts, sel);
    Expand(Gather(firsts, sel), Gather(richness, sel))
  }

  /** Each row of the sorted selection is hosted by the source halo of the target halo it is listed for. */
  lemma SortedSelectionHosts(hosts: seq<int>, sourceIds: seq<int>, order: seq<nat>, sel: seq<nat>)
    requires IsArgSort(hosts, order) && Distinct(sourceIds) && InBounds(sel, |sourceIds|)
    ensures var r := SortedSelection(hosts, sourceIds, order, sel);
      |r| == Sum(TargetRichness(hosts, sourceIds, sel))
      && forall k :: 0 <= k < |r| ==>
           (0 <= r[k] < |hosts| && Gather(hosts, order)[r[k]] == Repeat(Gather(sourceIds, sel), TargetRichness(hosts, sourceIds, sel))[k])
  {
    var sortedHosts := Gather(hosts, order);
    var richness := SourceRichness(hosts, sourceIds, order);
    var firsts := GalaxyTableIndices(sourceIds, sortedHosts);
    assert Gather(richness, sel) == TargetRichness(hosts, sourceIds, sel);
    assert SortedSelection(hosts, sourceIds, order, sel) == Expand(Gather(firsts, sel), Gather(richness, sel));
    SortedFirsts(hosts, sourceIds, order);
    ArgSortGivesSorted(hosts, order);
    ExpandWithinRuns(sortedHosts, sourceIds, richness, firsts, sel);
  }

  lemma SortedFirsts(hosts: seq<int>, sourceIds: seq<int>, order: seq<nat>)
    requires IsArgSort(hosts, order) && Distinct(sourceIds)
    ensures forall j :: 0 <= j < |sourceIds| ==>
      SourceRichness(hosts, sourceIds, order)[j] == Count(Gather(hosts, order), sourceIds[j])
    ensures forall j :: 0 <= j < |sourceIds| ==>
      GalaxyTableIndices(sourceIds, Gather(hosts, order))[j]
        == if sourceIds[j] in Gather(hosts, order) then FirstIndexOf(Gather(hosts, order), sourceIds[j]) else -1
  {
    GalaxyTableIndicesCorrect(sourceIds, Gather(hosts, order));
    forall j | 0 <= j < |sourceIds|
      ensures SourceRichness(hosts, sourceIds, order)[j] == Count(Gather(hosts, order), sourceIds[j])
    {
      CountSortedHosts(hosts, order, sourceIds[j]);
    }
  }

  /**
   * The steps after the source halo of every target halo is known: gather richness, first rows
   * and source IDs per target halo, expand through the kernel, repeat the IDs by richness and
   * map the sorted rows back to the original order of the galaxy table. order is the
   * np.argsort of the host IDs.
   */
  function SelectGalaxies(hosts: seq<int>, sourceIds: seq<int>, order: seq<nat>, targetIds: seq<int>, sel: seq<nat>): (c: Correspondence)
    requires IsArgSort(hosts, order) && Distinct(sourceIds)
    requires |sel| == |targetIds| && InBounds(sel, |sourceIds|)
    ensures var total := Sum(TargetRichness(hosts, sourceIds, sel));
      |c.selection| == total && |c.targetHaloIds| == total && |c.sourceHaloIds| == total
    ensures forall k :: 0 <= k < |c.selection| ==> c.selection[k] < |hosts|
  {
    PermutationFacts(order, |hosts|);
    var unsort := Gather(Range(|hosts|), order);
    var sorted := SortedSelection(hosts, sourceIds, order, sel);
    var richness := TargetRichness(hosts, sourceIds, sel);
    Correspondence(GatherAt(unsort, sorted), Repeat(targetIds, richness), Repeat(Gather(sourceIds, sel), richness))
  }

  /** a[idx] for an index array whose entries are known to lie in range. */
  function GatherAt(s: seq<nat>, idx: seq<int>): (r: seq<nat>)
    requires forall k :: 0 <= k < |idx| ==> 0 <= idx[k] < |s|
    ensures |r| == |idx|
    ensures forall k :: 0 <= k < |idx| ==> r[k] == s[idx[k]]
  {
    seq(|idx|, k requires 0 <= k < |idx| => s[idx[k]])
  }

  /**
   * All three outputs have one entry per selected galaxy, as many as the chosen source halos
   * host in total; target and source IDs are those of the target halos and of their source
   * halos, each repeated by the number of galaxies the source halo hosts.
   */
  lemma SelectGalaxiesShape(hosts: seq<int>, sourceIds: seq<int>, order: seq<nat>, targetIds: seq<int>, sel: seq<nat>)
    requires IsArgSort(hosts, order) && Distinct(sourceIds)
    requires |sel| == |targetIds| && InBounds(sel, |sourceIds|)
    ensures var c := SelectGalaxies(hosts, sourceIds, order, targetIds, sel);
      var richness := TargetRichness(hosts, sourceIds, sel);
      |c.selection| == Sum(richness) && |c.targetHaloIds| == Sum(richness) && |c.sourceHaloIds| == Sum(richness)
      && c.targetHaloIds == Repeat(targetIds, richness)
      && c.sourceHaloIds == Repeat(Gather(sourceIds, sel), richness)
  {
  }

  /** Every selected row is a galaxy of the table whose host is the source halo it is listed with. */
  lemma SelectGalaxiesHosts(hosts: seq<int>, sourceIds: seq<int>, order: seq<nat>, targetIds: seq<int>, sel: seq<nat>)
    requires IsArgSort(hosts, order) && Distinct(sourceIds)
    requires |sel| == |targetIds| && InBounds(sel, |sourceIds|)
    ensures var c := SelectGalaxies(hosts, sourceIds, order, targetIds, sel);
      |c.selection| == |c.sourceHaloIds|
      && forall k :: 0 <= k < |c.selection| ==> c.selection[k] < |hosts| && hosts[c.selection[k]] == c.sourceHaloIds[k]
  {
    var c := SelectGalaxies(hosts, sourceIds, order, targetIds, sel);
    var sorted := SortedSelection(hosts, sourceIds, order, sel);
    SortedSelectionHosts(hosts, sourceIds, order, sel);
    PermutationFacts(order, |hosts|);
    forall k | 0 <= k < |c.selection| ensures c.selection[k] < |hosts| && hosts[c.selection[k]] == c.sourceHaloIds[k] {
      assert c.selection[k] == order[sorted[k]];
    }
  }

  /**
   * Target halo i's block of the expansion e: cnt consecutive rows from f on, where f and cnt
   * are the first row and the richness of its source halo; tr is the richness of every target halo.
   */
  lemma ExpandRunOf(firsts: seq<int>, richness: seq<nat>, sel: seq<nat>, i: nat, e: seq<int>, tr: seq<nat>, f: int, cnt: nat)
    requires |richness| == |firsts| && InBounds(sel, |firsts|) && i < |sel|
    requires firsts[sel[i]] == f && richness[sel[i]] == cnt
    requires tr == Gather(richness, sel) && e == Expand(Gather(firsts, sel), tr)
    ensures Sum(tr[..i]) + cnt <= |e|
    ensures forall k :: Sum(tr[..i]) <= k < Sum(tr[..i]) + cnt ==> e[k] == f + (k - Sum(tr[..i]))
  {
    assert Gather(firsts, sel)[i] == f && tr[i] == cnt;
    ExpandRun(Gather(firsts, sel), tr, i);
    SumPositiveOfNat(tr[..i]);
  }

  /** Target halo i's block of the sorted selection is the run of rows of its source halo in the sorted table. */
  lemma SortedSelectionRun(hosts: seq<int>, sourceIds: seq<int>, order: seq<nat>, sel: seq<nat>, i: nat)
    requires IsArgSort(hosts, order) && Distinct(sourceIds) && InBounds(sel, |sourceIds|)
    requires i < |sel| && sourceIds[sel[i]] in hosts
    ensures sourceIds[sel[i]] in Gather(hosts, order)
    ensures var r := SortedSelection(hosts, sourceIds, order, sel);
      var start := Sum(TargetRichness(hosts, sourceIds, sel)[..i]);
      var f := FirstIndexOf(Gather(hosts, order), sourceIds[sel[i]]);
      start + Count(hosts, sourceIds[sel[i]]) <= |r|
      && forall k :: start <= k < start + Count(hosts, sourceIds[sel[i]]) ==> r[k] == f + (k - start)
  {
    var sortedHosts := Gather(hosts, order);
    var richness := SourceRichness(hosts, sourceIds, order);
    var firsts := GalaxyTableIndices(sourceIds, sortedHosts);
    var id := sourceIds[sel[i]];
    SortedSelectionExpands(hosts, sourceIds, order, sel);
    SortedRowsOf(hosts, sourceIds, order, sel[i]);
    ExpandRunOf(firsts, richness, sel, i, SortedSelection(hosts, sourceIds, order, sel), TargetRichness(hosts, sourceIds, sel),
      FirstIndexOf(sortedHosts, id), Count(hosts, id));
  }


  /** Source halo j hosting some galaxy has its richness and first row in the sorted table. */
  lemma SortedRowsOf(hosts: seq<int>, sourceIds: seq<int>, order: seq<nat>, j: nat)
    requires IsArgSort(hosts, order) && Distinct(sourceIds) && j < |sourceIds| && sourceIds[j] in hosts
    ensures var sortedHosts := Gather(hosts, order);
      sourceIds[j] in sortedHosts
      && SourceRichness(hosts, sourceIds, order)[j] == Count(hosts, sourceIds[j])
      && GalaxyTableIndices(sourceIds, sortedHosts)[j] == FirstIndexOf(sortedHosts, sourceIds[j])
  {
    SortedFirsts(hosts, sourceIds, order);
    CountSortedHosts(hosts, order, sourceIds[j]);
  }

  /** The sorted selection expands the first rows and the richness of the chosen source halos. */
  lemma SortedSelectionExpands(hosts: seq<int>, sourceIds: seq<int>, order: seq<nat>, sel: seq<nat>)
    requires IsArgSort(hosts, order) && Distinct(sourceIds) && InBounds(sel, |sourceIds|)
    ensures var richness := SourceRichness(hosts, sourceIds, order);
      var firsts := GalaxyTableIndices(sourceIds, Gather(hosts, order));
      Gather(richness, sel) == TargetRichness(hosts, sourceIds, sel)
      && SortedSelection(hosts, sourceIds, order, sel) == Expand(Gather(firsts, sel), Gather(richness, sel))
  {
    assert Gather(SourceRichness(hosts, sourceIds, order), sel) == TargetRichness(hosts, sourceIds, sel);
  }

  /** Mapping back through the sort permutation: selected row k is the original row of sorted row sorted[k]. */
  lemma SelectionUnsorts(hosts: seq<int>, sourceIds: seq<int>, order: seq<nat>, targetIds: seq<int>, sel: seq<nat>)
    requires IsArgSort(hosts, order) && Distinct(sourceIds)
    requires |sel| == |targetIds| && InBounds(sel, |sourceIds|)
    ensures var c := SelectGalaxies(hosts, sourceIds, order, targetIds, sel);
      var sorted := SortedSelection(hosts, sourceIds, order, sel);
      |c.selection| == |sorted|
      && forall k :: 0 <= k < |sorted| ==> 0 <= sorted[k] < |order| && c.selection[k] == order[sorted[k]]
  {
    var c := SelectGalaxies(hosts, sourceIds, order, targetIds, sel);
    var sorted := SortedSelection(hosts, sourceIds, order, sel);
    var unsort := Gather(Range(|hosts|), order);
    PermutationFacts(order, |hosts|);
    assert c.selection == GatherAt(unsort, sorted);
    forall k | 0 <= k < |sorted| ensures c.selection[k] == order[sorted[k]] {
      assert unsort[sorted[k]] == Range(|hosts|)[order[sorted[k]]];
    }
  }

  /**
   * A stretch of the selection that reads, through the sort permutation, the whole run of rows
   * of host id in the sorted table lists every galaxy of that host once.
   */
  lemma BlockFromSorted(hosts: seq<int>, order: seq<nat>, sorted: seq<int>, selection: seq<nat>, start: nat, id: int)
    requires IsArgSort(hosts, order) && id in Gather(hosts, order)
    requires |selection| == |sorted|
    requires forall k :: 0 <= k < |sorted| ==> 0 <= sorted[k] < |order| && selection[k] == order[sorted[k]]
    requires start + Count(hosts, id) <= |sorted|
    requires forall k :: start <= k < start + Count(hosts, id) ==> sorted[k] == FirstIndexOf(Gather(hosts, order), id) + (k - start)
    ensures forall a, b :: start <= a < b < start + Count(hosts, id) ==> selection[a] != selection[b]
    ensures forall g :: 0 <= g < |hosts| && hosts[g] == id ==>
      exists k :: start <= k < start + Count(hosts, id) && selection[k] == g
  {
    var f := FirstIndexOf(Gather(hosts, order), id);
    var cnt := Count(hosts, id);
    PermutationFacts(order, |hosts|);
    forall a, b | start <= a < b < start + cnt ensures selection[a] != selection[b] {
      assert sorted[a] < sorted[b];
    }
    forall g | 0 <= g < |hosts| && hosts[g] == id ensures exists k :: start <= k < start + cnt && selection[k] == g {
      RunOfOrder(hosts, order, id, g);
      var j :| f <= j < f + cnt && j < |order| && order[j] == g;
      var k := start + (j - f);
      assert sorted[k] == j;
    }
  }

  /** Block i of counts ends where block i + 1 starts, inside the whole. */
  lemma BlockBounds(counts: seq<nat>, i: nat)
    requires i < |counts|
    ensures Sum(counts[..i + 1]) == Sum(counts[..i]) + counts[i] <= Sum(counts)
  {
    SumSnoc(counts, i);
    SumPositiveOfNat(counts[..i + 1]);
    SumPositiveOfNat(counts);
    SumPositivePrefixBound(counts, i + 1);
  }

  /**
   * Every galaxy of host id sits, in the table sorted by host, inside the run of rows of id.
   */
  lemma RunOfOrder(hosts: seq<int>, order: seq<nat>, id: int, g: nat)
    requires IsArgSort(hosts, order) && g < |hosts| && hosts[g] == id
    ensures id in Gather(hosts, order)
    ensures exists j :: (&& FirstIndexOf(Gather(hosts, order), id) <= j < FirstIndexOf(Gather(hosts, order), id) + Count(hosts, id)
                         && j < |order| && order[j] == g)
  {
    var j := PositionOf(order, |hosts|, g);
    RowInRun(hosts, order, j);
  }

  /** Row j of the table sorted by host lies in the run of rows of its host. */
  lemma RowInRun(hosts: seq<int>, order: seq<nat>, j: nat)
    requires IsArgSort(hosts, order) && j < |order|
    ensures var sortedHosts := Gather(hosts, order);
      var id := hosts[order[j]];
      id in sortedHosts && FirstIndexOf(sortedHosts, id) <= j < FirstIndexOf(sortedHosts, id) + Count(hosts, id)
  {
    var sortedHosts := Gather(hosts, order);
    var id := hosts[order[j]];
    assert sortedHosts[j] == id;
    CountSortedHosts(hosts, order, id);
    ArgSortGivesSorted(hosts, order);
    SortedRun(sortedHosts, id);
  }

  /** Where index g sits in the permutation p of 0 .. n - 1. */
  lemma PositionOf(p: seq<nat>, n: nat, g: nat) returns (j: nat)
    requires IsPermutation(p, n) && g < n
    ensures j < |p| && p[j] == g
  {
    PermutationFacts(p, n);
    assert g in p;
    j :| 0 <= j < |p| && p[j] == g;
  }

  /** The block of target halo i holds Count(hosts, sourceIds[sel[i]]) galaxies, each hosted by that source halo. */
  lemma SelectGalaxiesBlock(hosts: seq<int>, sourceIds: seq<int>, order: seq<nat>, targetIds: seq<int>, sel: seq<nat>, i: nat)
    requires IsArgSort(hosts, order) && Distinct(sourceIds)
    requires |sel| == |targetIds| && InBounds(sel, |sourceIds|) && i < |sel|
    ensures var c := SelectGalaxies(hosts, sourceIds, order, targetIds, sel);
      var counts := TargetRichness(hosts, sourceIds, sel);
      var start, end := Sum(counts[..i]), Sum(counts[..i + 1]);
      start + Count(hosts, sourceIds[sel[i]]) == end <= |c.selection|
      && (forall k :: start <= k < end ==> c.selection[k] < |hosts| && hosts[c.selection[k]] == sourceIds[sel[i]])
  {
    var c := SelectGalaxies(hosts, sourceIds, order, targetIds, sel);
    var counts := TargetRichness(hosts, sourceIds, sel);
    var start, end := Sum(counts[..i]), Sum(counts[..i + 1]);
    BlockBounds(counts, i);
    SelectGalaxiesShape(hosts, sourceIds, order, targetIds, sel);
    SelectGalaxiesHosts(hosts, sourceIds, order, targetIds, sel);
    RepeatBlockAll(Gather(sourceIds, sel), counts, i);
  }

  /**
   * Target halo i receives every galaxy of its source halo exactly once: its block lists each
   * galaxy hosted by sourceIds[sel[i]], and no galaxy twice.
   */
  lemma SelectGalaxiesBlockComplete(hosts: seq<int>, sourceIds: seq<int>, order: seq<nat>, targetIds: seq<int>, sel: seq<nat>, i: nat)
    requires IsArgSort(hosts, order) && Distinct(sourceIds)
    requires |sel| == |targetIds| && InBounds(sel, |sourceIds|) && i < |sel|
    ensures var c := SelectGalaxies(hosts, sourceIds, order, targetIds, sel);
      var counts := TargetRichness(hosts, sourceIds, sel);
      var start, end := Sum(counts[..i]), Sum(counts[..i + 1]);
      end <= |c.selection|
      && (forall a, b :: start <= a < b < end ==> c.selection[a] != c.selection[b])
      && (forall g :: 0 <= g < |hosts| && hosts[g] == sourceIds[sel[i]] ==>
            exists k :: start <= k < end && c.selection[k] == g)
  {
    var id := sourceIds[sel[i]];
    SelectGalaxiesBlock(hosts, sourceIds, order, targetIds, sel, i);
    if id in hosts {
      SelectionUnsorts(hosts, sourceIds, order, targetIds, sel);
      SortedSelectionRun(hosts, sourceIds, order, sel, i);
      BlockFromSorted(hosts, order, SortedSelection(hosts, sourceIds, order, sel),
        SelectGalaxies(hosts, sourceIds, order, targetIds, sel).selection, Sum(TargetRichness(hosts, sourceIds, sel)[..i]), id);
    }
  }


  // ---------------------------------------------------------------------------
  // compute_source_galaxy_selection_indices
  // ---------------------------------------------------------------------------

  /**
   * The whole galaxy-level pipeline. knn is the index of the source halo the nearest-neighbour
   * search picks for each target halo. compute_richness fails exactly when the source halo IDs
   * repeat (ComputeRichnessCorrect); _galaxy_table_indices crossmatches against unique values
   * and cannot fail.
   */
  function ComputeSourceGalaxySelectionIndices(hosts: seq<int>, sourceIds: seq<int>, targetIds: seq<int>, knn: seq<nat>)
    : (r: Result<Correspondence, Error>)
    requires |knn| == |targetIds| && InBounds(knn, |sourceIds|)
    ensures r.Err? <==> !Distinct(sourceIds)
    ensures r.Err? ==> r.error == NonUniqueY
  {
    if !Distinct(sourceIds) then Err(NonUniqueY)
    else Ok(SelectGalaxies(hosts, sourceIds, ArgSort(hosts), targetIds, knn))
  }

  /**
   * On success every output has one entry per selected galaxy; each selected row lies in the
   * galaxy table and is hosted by the source halo listed beside it; the target halo IDs are
   * target_halo_ids repeated by the richness of their source halos.
   */
  lemma ComputeSourceGalaxySelectionIndicesCorrect(hosts: seq<int>, sourceIds: seq<int>, targetIds: seq<int>, knn: seq<nat>)
    requires |knn| == |targetIds| && InBounds(knn, |sourceIds|)
    ensures var r := ComputeSourceGalaxySelectionIndices(hosts, sourceIds, targetIds, knn);
      var counts := TargetRichness(hosts, sourceIds, knn);
      r.Ok? ==>
        && |r.value.selection| == Sum(counts)
        && r.value.targetHaloIds == Repeat(targetIds, counts)
        && r.value.sourceHaloIds == Repeat(Gather(sourceIds, knn), counts)
        && forall k :: 0 <= k < |r.value.selection| ==>
             r.value.selection[k] < |hosts| && hosts[r.value.selection[k]] == r.value.sourceHaloIds[k]
  {
    if Distinct(sourceIds) {
      SelectGalaxiesShape(hosts, sourceIds, ArgSort(hosts), targetIds, knn);
      SelectGalaxiesHosts(hosts, sourceIds, ArgSort(hosts), targetIds, knn);
    }
  }

  // ---------------------------------------------------------------------------
  // compute_hostid
  // ---------------------------------------------------------------------------

  /** What compute_hostid returns: host IDs, the crossmatch of host IDs against halo IDs, and the matched mask. */
  datatype HostIds = HostIds(hostid: seq<int>, idxA: seq<nat>, idxB: seq<nat>, hasMatch: seq<bool>)

  /** A halo is treated as its own host when it is a central, names itself, or names a halo not in the catalogue. */
  predicate IsCentral(upid: seq<int>, haloid: seq<int>, i: nat)
    requires i < |upid| == |haloid|
  {
    upid[i] == -1 || upid[i] !in haloid || upid[i] == haloid[i]
  }

  /** hostid before the fallback: a central names itself, any other halo names its upid. */
  function ProvisionalHostId(upid: seq<int>, haloid: seq<int>): (r: seq<int>)
    requires |upid| == |haloid|
    ensures |r| == |haloid|
  {
    seq(|haloid|, i requires 0 <= i < |haloid| => if upid[i] == -1 then haloid[i] else upid[i])
  }

  function ComputeHostId(upid: seq<int>, haloid: seq<int>): (r: Result<HostIds, Error>)
    ensures r.Err? <==> |upid| != |haloid| || !Distinct(haloid)
    ensures r.Ok? ==>
      && |r.value.hostid| == |haloid| && |r.value.hasMatch| == |haloid|
      && |r.value.idxA| == |r.value.idxB|
      && InBounds(r.value.idxA, |haloid|) && InBounds(r.value.idxB, |haloid|)
  {
    if |upid| != |haloid| then Err(ShapeMismatch)
    else
      var provisional := ProvisionalHostId(upid, haloid);
      var m :- Crossmatch.Crossmatch(provisional, haloid, false);
      var hasMatch := Scatter(seq(|haloid|, _ => false), m.0, seq(|m.0|, _ => true));
      Ok(HostIds(seq(|haloid|, i requires 0 <= i < |haloid| => if hasMatch[i] then provisional[i] else haloid[i]),
                 m.0, m.1, hasMatch))
  }

  /**
   * compute_hostid matches exactly the centrals and the halos whose upid is a catalogued halo;
   * those take their upid as host, every other halo keeps its own ID; so every host ID is a
   * catalogued halo ID, and the returned pairs join each matched halo to the row of its host.
   */
  lemma ComputeHostIdCorrect(upid: seq<int>, haloid: seq<int>)
    requires |upid| == |haloid| && Distinct(haloid)
    ensures var r := ComputeHostId(upid, haloid);
      r.Ok?
      && (forall i :: 0 <= i < |haloid| ==> (r.value.hasMatch[i] <==> upid[i] == -1 || upid[i] in haloid))
      && (forall i :: 0 <= i < |haloid| ==>
            r.value.hostid[i] == if upid[i] != -1 && upid[i] in haloid then upid[i] else haloid[i])
      && (forall i :: 0 <= i < |haloid| ==> (i in r.value.idxA <==> r.value.hasMatch[i]))
      && (forall k :: 0 <= k < |r.value.idxA| ==> r.value.hostid[r.value.idxA[k]] == haloid[r.value.idxB[k]])
      && Distinct(r.value.idxA)
  {
    var provisional := ProvisionalHostId(upid, haloid);
    var m := Crossmatch.Crossmatch(provisional, haloid, false).value;
    var falses: seq<bool> := seq(|haloid|, _ => false);
    var trues: seq<bool> := seq(|m.0|, _ => true);
    ScatterDistinct(falses, m.0, trues);
    var h := ComputeHostId(upid, haloid).value;
    assert h.hasMatch == Scatter(falses, m.0, trues);
    forall i | 0 <= i < |haloid| ensures h.hasMatch[i] <==> i in m.0 {
      if i in m.0 {
        var k :| 0 <= k < |m.0| && m.0[k] == i;
        assert h.hasMatch[m.0[k]] == trues[k];
      }
    }
    forall i | 0 <= i < |haloid| ensures i in m.0 <==> upid[i] == -1 || upid[i] in haloid {
      assert provisional[i] in haloid <==> upid[i] == -1 || upid[i] in haloid;
    }
  }

  /** Every host ID is the ID of a halo in the catalogue. */
  predicate Catalogued(haloid: seq<int>, hostid: seq<int>) {
    |hostid| == |haloid| && forall i :: 0 <= i < |haloid| ==> hostid[i] in haloid
  }

  /** compute_hostid's output as the propagation loop of compute_uber_host_indx relies on it. */
  predicate Resolved(haloid: seq<int>, h: HostIds) {
    && Distinct(haloid) && Catalogued(haloid, h.hostid)
    && |h.idxA| == |h.idxB|
    && InBounds(h.idxA, |haloid|) && InBounds(h.idxB, |haloid|) && Distinct(h.idxA)
    && (forall k :: 0 <= k < |h.idxA| ==> h.hostid[h.idxA[k]] == haloid[h.idxB[k]])
    && (forall i :: 0 <= i < |haloid| && i !in h.idxA ==> h.hostid[i] == haloid[i])
  }

  lemma ComputeHostIdResolved(upid: seq<int>, haloid: seq<int>)
    requires |upid| == |haloid| && Distinct(haloid)
    ensures ComputeHostId(upid, haloid).Ok? && Resolved(haloid, ComputeHostId(upid, haloid).value)
  {
    ComputeHostIdCorrect(upid, haloid);
  }

  // ---------------------------------------------------------------------------
  // compute_uber_host_indx
  // ---------------------------------------------------------------------------

  /** For each halo, the row of its host in the catalogue. */
  function HostRows(haloid: seq<int>, hostid: seq<int>): (rows: seq<nat>)
    requires Catalogued(haloid, hostid)
    ensures RowsOf(haloid, hostid, rows)
  {
    seq(|haloid|, i requires 0 <= i < |haloid| => FirstIndexOf(haloid, hostid[i]))
  }

  /** rows[i] is a row of the catalogue holding the ID hostid[i]. */
  predicate RowsOf(haloid: seq<int>, hostid: seq<int>, rows: seq<nat>) {
    && |rows| == |haloid| == |hostid| && InBounds(rows, |haloid|)
    && forall i :: 0 <= i < |haloid| ==> haloid[rows[i]] == hostid[i]
  }

  /** Row reached from row i by following host rows k times. */
  function LinkPow(rows: seq<nat>, i: nat, k: nat): (j: nat)
    requires InBounds(rows, |rows|) && i < |rows|
    ensures j < |rows|
    decreases k
  {
    if k == 0 then i else LinkPow(rows, rows[i], k - 1)
  }

  /** Before the loop: every halo that is its own host holds its own row, every other halo fill. */
  function InitialUber(hostid: seq<int>, haloid: seq<int>, fill: int): (r: seq<int>)
    requires |hostid| == |haloid|
    ensures |r| == |haloid|
  {
    seq(|haloid|, i requires 0 <= i < |haloid| => if hostid[i] == haloid[i] then i else fill)
  }

  /** One round of the loop: uber_host_indx[idxA] = uber_host_indx[idxB]. */
  function UberStep(uber: seq<int>, idxA: seq<nat>, idxB: seq<nat>): (r: seq<int>)
    requires |idxA| == |idxB| && InBounds(idxA, |uber|) && InBounds(idxB, |uber|)
    ensures |r| == |uber|
  {
    Scatter(uber, idxA, Gather(uber, idxB))
  }

  /** k rounds of the loop, regardless of the stopping test. */
  function UberSteps(uber: seq<int>, idxA: seq<nat>, idxB: seq<nat>, k: nat): (r: seq<int>)
    requires |idxA| == |idxB| && InBounds(idxA, |uber|) && InBounds(idxB, |uber|)
    ensures |r| == |uber|
    decreases k
  {
    if k == 0 then uber else UberSteps(UberStep(uber, idxA, idxB), idxA, idxB, k - 1)
  }

  /** The loop: rounds while some entry still holds fill and fewer than budget rounds remain. */
  function Propagate(uber: seq<int>, idxA: seq<nat>, idxB: seq<nat>, fill: int, budget: nat): (r: seq<int>)
    requires |idxA| == |idxB| && InBounds(idxA, |uber|) && InBounds(idxB, |uber|)
    ensures |r| == |uber|
    decreases budget
  {
    if Count(uber, fill) > 0 && budget > 0 then Propagate(UberStep(uber, idxA, idxB), idxA, idxB, fill, budget - 1)
    else uber
  }

  /** compute_uber_host_indx(upid, haloid, max_order, fill_val). */
  function UberHostIndx(upid: seq<int>, haloid: seq<int>, maxOrder: int, fill: int): (r: Result<seq<int>, Error>)
    ensures r.Err? <==> |upid| != |haloid| || !Distinct(haloid)
    ensures r.Ok? ==> |r.value| == |haloid|
  {
    var h :- ComputeHostId(upid, haloid);
    Ok(Propagate(InitialUber(h.hostid, haloid, fill), h.idxA, h.idxB, fill, Pos(maxOrder)))
  }

  /** compute_uber_host_indx as the source writes it: a counted while loop over a working array. */
  method ComputeUberHostIndx(upid: seq<int>, haloid: seq<int>, maxOrder: int, fill: int) returns (r: Result<seq<int>, Error>)
    ensures r == UberHostIndx(upid, haloid, maxOrder, fill)
  {
    var h :- ComputeHostId(upid, haloid);
    var idxA, idxB := h.idxA, h.idxB;
    var uber := InitialUber(h.hostid, haloid, fill);
    ghost var goal := Propagate(uber, idxA, idxB, fill, Pos(maxOrder));
    var nUnmatched := Count(uber, fill);
    var counter := 0;
    while nUnmatched > 0 && counter < maxOrder
      invariant 0 <= counter <= Pos(maxOrder)
      invariant |uber| == |haloid|
      invariant nUnmatched == Count(uber, fill)
      invariant Propagate(uber, idxA, idxB, fill, Pos(maxOrder) - counter) == goal
      decreases maxOrder - counter
    {
      PropagateStep(uber, idxA, idxB, fill, Pos(maxOrder) - counter);
      uber := UberStep(uber, idxA, idxB);
      nUnmatched := Count(uber, fill);
      counter := counter + 1;
    }
    return Ok(uber);
  }

  /** A round of the loop runs while some entry holds fill and the budget is not spent. */
  lemma PropagateStep(uber: seq<int>, idxA: seq<nat>, idxB: seq<nat>, fill: int, budget: nat)
    requires |idxA| == |idxB| && InBounds(idxA, |uber|) && InBounds(idxB, |uber|)
    requires Count(uber, fill) > 0 && budget > 0
    ensures Propagate(uber, idxA, idxB, fill, budget) == Propagate(UberStep(uber, idxA, idxB), idxA, idxB, fill, budget - 1)
  {
  }

  /**
   * The pairs (idxA, idxB) send each halo to its host row: halo idxA[k] has its host at row
   * idxB[k], and a halo outside idxA is its own host.
   */
  predicate Follows(idxA: seq<nat>, idxB: seq<nat>, rows: seq<nat>) {
    && |idxA| == |idxB| && InBounds(idxA, |rows|) && InBounds(idxB, |rows|) && InBounds(rows, |rows|)
    && Distinct(idxA)
    && (forall k :: 0 <= k < |idxA| ==> rows[idxA[k]] == idxB[k])
    && (forall j :: 0 <= j < |rows| && j !in idxA ==> rows[j] == j)
  }

  lemma HostRowsFollow(haloid: seq<int>, h: HostIds)
    requires Resolved(haloid, h)
    ensures Follows(h.idxA, h.idxB, HostRows(haloid, h.hostid))
  {
    var rows := HostRows(haloid, h.hostid);
    forall k | 0 <= k < |h.idxA| ensures rows[h.idxA[k]] == h.idxB[k] {
      assert haloid[rows[h.idxA[k]]] == haloid[h.idxB[k]];
    }
    forall j | 0 <= j < |rows| && j !in h.idxA ensures rows[j] == j {
      assert haloid[rows[j]] == haloid[j];
    }
  }

  /** One round copies into each halo the entry of its host row. */
  lemma UberStepLink(idxA: seq<nat>, idxB: seq<nat>, rows: seq<nat>, uber: seq<int>, i: nat)
    requires Follows(idxA, idxB, rows) && |uber| == |rows| && i < |rows|
    ensures UberStep(uber, idxA, idxB)[i] == uber[rows[i]]
  {
    ScatterDistinct(uber, idxA, Gather(uber, idxB));
    if i in idxA {
      var k :| 0 <= k < |idxA| && idxA[k] == i;
      assert rows[i] == idxB[k];
    }
  }

  /** k rounds leave in each entry the initial entry k host rows further along. */
  lemma {:induction false} UberStepsFollow(idxA: seq<nat>, idxB: seq<nat>, rows: seq<nat>, uber: seq<int>, k: nat, i: nat)
    requires Follows(idxA, idxB, rows) && |uber| == |rows| && i < |rows|
    ensures UberSteps(uber, idxA, idxB, k)[i] == uber[LinkPow(rows, i, k)]
    decreases k
  {
    if k > 0 {
      var next := UberStep(uber, idxA, idxB);
      var j := LinkPow(rows, i, k - 1);
      UberStepsFollow(idxA, idxB, rows, next, k - 1, i);
      UberStepLink(idxA, idxB, rows, uber, j);
      LinkPowLast(rows, i, k - 1);
      assert UberSteps(uber, idxA, idxB, k) == UberSteps(next, idxA, idxB, k - 1);
    } else {
      assert UberSteps(uber, idxA, idxB, 0) == uber;
    }
  }

  lemma {:induction false} LinkPowLast(rows: seq<nat>, i: nat, k: nat)
    requires InBounds(rows, |rows|) && i < |rows|
    ensures LinkPow(rows, i, k + 1) == rows[LinkPow(rows, i, k)]
    decreases k
  {
    if k > 0 {
      LinkPowLast(rows, rows[i], k - 1);
    }
  }




  /**
   * The loop runs some number of rounds j, at most budget, and stops before the budget only
   * once no entry holds fill.
   */
  lemma {:induction false} PropagateRounds(uber: seq<int>, idxA: seq<nat>, idxB: seq<nat>, fill: int, budget: nat)
    requires |idxA| == |idxB| && InBounds(idxA, |uber|) && InBounds(idxB, |uber|)
    ensures exists j: nat ::
      (&& j <= budget
       && Propagate(uber, idxA, idxB, fill, budget) == UberSteps(uber, idxA, idxB, j)
       && (j < budget ==> Count(UberSteps(uber, idxA, idxB, j), fill) == 0))
    decreases budget
  {
    if Count(uber, fill) > 0 && budget > 0 {
      var next := UberStep(uber, idxA, idxB);
      PropagateRounds(next, idxA, idxB, fill, budget - 1);
      var j: nat :| j <= budget - 1
        && Propagate(next, idxA, idxB, fill, budget - 1) == UberSteps(next, idxA, idxB, j)
        && (j < budget - 1 ==> Count(UberSteps(next, idxA, idxB, j), fill) == 0);
      assert UberSteps(uber, idxA, idxB, j + 1) == UberSteps(next, idxA, idxB, j);
    } else {
      assert UberSteps(uber, idxA, idxB, 0) == uber;
    }
  }

  /** A halo that is its own host stays put however often hosts are followed. */
  lemma {:induction false} LinkPowFixed(rows: seq<nat>, i: nat, k: nat)
    requires InBounds(rows, |rows|) && i < |rows| && rows[i] == i
    ensures LinkPow(rows, i, k) == i
    decreases k
  {
    if k > 0 {
      LinkPowFixed(rows, i, k - 1);
    }
  }

  /**
   * Started from own rows at the halos that are their own host and fill elsewhere, the loop
   * keeps those rows and leaves every other entry at fill or at such a row.
   */
  lemma PropagateRoots(idxA: seq<nat>, idxB: seq<nat>, rows: seq<nat>, init: seq<int>, fill: int, budget: nat)
    requires Follows(idxA, idxB, rows) && |init| == |rows|
    requires forall x :: 0 <= x < |rows| ==> init[x] == if rows[x] == x then x else fill
    ensures var r := Propagate(init, idxA, idxB, fill, budget);
      && (forall i :: 0 <= i < |rows| && rows[i] == i ==> r[i] == i)
      && (forall i :: 0 <= i < |rows| ==> r[i] == fill || (0 <= r[i] < |rows| && rows[r[i]] == r[i]))
  {
    var r := Propagate(init, idxA, idxB, fill, budget);
    PropagateRounds(init, idxA, idxB, fill, budget);
    var j: nat :| j <= budget && r == UberSteps(init, idxA, idxB, j);
    forall i | 0 <= i < |rows|
      ensures rows[i] == i ==> r[i] == i
      ensures r[i] == fill || (0 <= r[i] < |rows| && rows[r[i]] == r[i])
    {
      UberStepsFollow(idxA, idxB, rows, init, j, i);
      if rows[i] == i {
        LinkPowFixed(rows, i, j);
      }
    }
  }



  /** The initial entries are own rows at the halos that are their own host row, fill elsewhere. */
  lemma InitialRows(haloid: seq<int>, hostid: seq<int>, rows: seq<nat>, fill: int)
    requires Distinct(haloid) && RowsOf(haloid, hostid, rows)
    ensures forall x :: 0 <= x < |haloid| ==>
      InitialUber(hostid, haloid, fill)[x] == if rows[x] == x then x else fill
  {
    forall x | 0 <= x < |haloid|
      ensures InitialUber(hostid, haloid, fill)[x] == if rows[x] == x then x else fill
    {
      assert haloid[rows[x]] == hostid[x];
      if rows[x] != x {
        assert haloid[rows[x]] != haloid[x];
      }
    }
  }


  /** The loop, run on compute_hostid's output, in terms of the central mask hostid == haloid. */
  lemma PropagateCentrals(haloid: seq<int>, h: HostIds, budget: nat, fill: int)
    requires Resolved(haloid, h)
    ensures var r := Propagate(InitialUber(h.hostid, haloid, fill), h.idxA, h.idxB, fill, budget);
      && (forall i :: 0 <= i < |haloid| && h.hostid[i] == haloid[i] ==> r[i] == i)
      && (forall i :: 0 <= i < |haloid| ==> r[i] == fill || (0 <= r[i] < |haloid| && h.hostid[r[i]] == haloid[r[i]]))
  {
    var rows := HostRows(haloid, h.hostid);
    HostRowsFollow(haloid, h);
    InitialRows(haloid, h.hostid, rows, fill);
    PropagateRoots(h.idxA, h.idxB, rows, InitialUber(h.hostid, haloid, fill), fill, budget);
    forall x | 0 <= x < |haloid| ensures rows[x] == x <==> h.hostid[x] == haloid[x] {
      if rows[x] != x {
        assert haloid[rows[x]] != haloid[x];
      }
    }
  }

  /**
   * compute_uber_host_indx gives every central (hostid == haloid) its own row, and every other
   * halo either fill_val or the row of a central.
   */
  lemma UberHostIndxCorrect(upid: seq<int>, haloid: seq<int>, maxOrder: int, fill: int)
    requires |upid| == |haloid| && Distinct(haloid)
    ensures var r := UberHostIndx(upid, haloid, maxOrder, fill);
      var h := ComputeHostId(upid, haloid);
      && r.Ok? && h.Ok? && |r.value| == |haloid| == |h.value.hostid|
      && (forall i :: 0 <= i < |haloid| && h.value.hostid[i] == haloid[i] ==> r.value[i] == i)
      && (forall i :: 0 <= i < |haloid| ==>
            r.value[i] == fill || (0 <= r.value[i] < |haloid| && h.value.hostid[r.value[i]] == haloid[r.value[i]]))
  {
    ComputeHostIdResolved(upid, haloid);
    var h := ComputeHostId(upid, haloid).value;
    assert UberHostIndx(upid, haloid, maxOrder, fill).value
        == Propagate(InitialUber(h.hostid, haloid, fill), h.idxA, h.idxB, fill, Pos(maxOrder));
    PropagateCentrals(haloid, h, Pos(maxOrder), fill);
  }

  /** compute_hostid's central mask hostid == haloid holds exactly at the halos IsCentral names. */
  lemma ComputeHostIdCentral(upid: seq<int>, haloid: seq<int>)
    requires |upid| == |haloid| && Distinct(haloid)
    ensures var h := ComputeHostId(upid, haloid);
      h.Ok? && forall i :: 0 <= i < |haloid| ==> (h.value.hostid[i] == haloid[i] <==> IsCentral(upid, haloid, i))
  {
    ComputeHostIdCorrect(upid, haloid);
  }


}
