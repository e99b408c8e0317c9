# galsampler core in Dafny

galsampler transplants galaxies from a *source* halo catalogue, whose halos are populated, onto
a *target* halo catalogue, whose halos are not. Every target halo is paired with one source halo.
Galaxies then travel with the halos: the target halo inherits every galaxy of its source halo.
The result is three aligned arrays, one entry per selected galaxy:

- the row of that galaxy in the source galaxy table;
- the ID of the target halo it now occupies;
- the ID of the source halo it came from.

This project models the index bookkeeping that produces those arrays and proves what it
promises:

- `Crossmatch` (crossmatch.py):
  - `crossmatch` joins two integer ID arrays on equal values.
  - `compute_richness` counts the galaxies of each halo.
- `HostHaloBinning` (host_halo_binning.py):
  - `halo_bin_indices` gives every halo the row-major number of its cell in a multi-property
    binning.
  - `matching_bin_dictionary` maps every cell to the nearest cell that holds at least `nmin`
    objects.
- `SourceHaloSelection` (source_halo_selection.py): `source_halo_index_selection` draws, for
  every target halo, a source halo from the cell that its own cell resolves to. The fallback to
  the nearest well-sampled cell is `get_source_bin_from_target_bin` with `taxicab_metric`.
  `_check_source_binning` is the coverage check.
- `GalMatch` (galmatch.py):
  - the galaxy selection kernel;
  - `_galaxy_table_indices`;
  - the nearest-neighbour pipeline `compute_source_galaxy_selection_indices`;
  - `compute_hostid` and `compute_uber_host_indx`, which resolve sub-halos to their hosts.
- `SourceGalaxySelection` (source_galaxy_selection.py): the binned pipeline
  `source_galaxy_selection_indices`.

Supporting modules:

- `Arrays` gives the numpy primitives the source leans on, each by its documented behaviour:
  - gathering, boolean masking, `np.repeat`, scatter assignment;
  - `np.unique` with counts, as run-length encoding of a sorted array;
  - `np.searchsorted`, first occurrence, and counting.
- `Sorting` defines what an argsort is, and gives one.
- `MultiIndex` is `np.ravel_multi_index` / `np.unravel_index`.
- `Wrappers` holds `Option`, `Result` and the error kinds, one per raising site.

The source's loops are methods proved against the functions that specify them:

- the kernel writing into its output array;
- the per-cell assignment loop of `source_halo_index_selection` over its two output arrays;
- the count and table loops of `matching_bin_dictionary`;
- the `while` loop of `compute_uber_host_indx`.

External inputs are parameters:

- The random draw of `np.random.RandomState(seed).choice` is an oracle `rng`. It maps
  (seed, pool size, number of draws, draw number) to a raw draw, which is reduced modulo the
  pool size.
- The k-d-tree query of the nearest-neighbour pipeline is an index array `knn`.

Points where the code's behaviour is easy to misread:

- The galaxies are sorted by `np.argsort`, whose default is not stable. The join is proved for
  every argsort of its inputs (`CrossmatchSorted`). The pipelines fix one argsort, and
  their lemmas do not depend on which one.
- `matching_bin_dictionary` takes bin numbers and counts them itself. It does not take counts.
- The generator is re-created from the same seed for every cell. The model's draws therefore
  depend on (seed, pool size, count); they are not independent across cells.
- With no qualifying cell at all, `matching_bin_dictionary` fails by indexing an empty list
  (`NoQualifyingCell`), not with a dedicated coverage error.
- Ties in the fallback go to the lowest cell number, because Python's `sorted` is stable.
  `GetSourceBinNearest` proves this.
- A target halo whose bin number lies outside `[0, total cells)` keeps the zeros the output
  arrays start with. That is source halo 0 and matched ID 0.
- With no binned property at all, `np.product(())` is the float 1.0 and `range` rejects it
  (`NoBins`). `source_halo_index_selection` runs the coverage check first, so its errors come
  before this one; `matching_bin_dictionary` fails with it straight away.

## Model

| member | source | states |
|---|---|---|
| Crossmatch.Crossmatch | galsampler/crossmatch.py:9-93 | fails (ValueError) exactly when y repeats a value and the check is not skipped; otherwise a crossmatch: x[ix[k]] == y[iy[k]], ix lists each index of x whose value occurs in y exactly once and no other, pairs ordered by x value |
| Crossmatch.CrossmatchSorted | galsampler/crossmatch.py:68-93 | the sort / unique / in1d / searchsorted / repeat / unsort pipeline yields a crossmatch for any argsorts of x and y |
| Crossmatch.MatchMaskCorrect | galsampler/crossmatch.py:76-82 | the repeated in1d mask over the sorted x is true exactly at values present in y |
| Crossmatch.MatchPositionsCorrect | galsampler/crossmatch.py:84-90 | each repeated searchsorted position points at the value of the matched x entry in the sorted y |
| Crossmatch.CrossmatchOrder | galsampler/crossmatch.py:82-93 | masking the argsort of x gives distinct, in-range indices in non-decreasing order of x |
| Crossmatch.CrossmatchCovers | galsampler/crossmatch.py:79-93 | an index of x is kept exactly when its value occurs in y |
| Crossmatch.CrossmatchDistinctY | galsampler/crossmatch.py:126-127 | when x has no repeats, no index of y is reported twice |
| Crossmatch.CrossmatchUniqueY | galsampler/crossmatch.py:51-60 | with unique y, iy[k] is the only index of y holding x[ix[k]] |
| Crossmatch.ComputeRichness | galsampler/crossmatch.py:96-128 | fails (crossmatch's ValueError) exactly when the halo IDs repeat; otherwise one richness per halo ID |
| Crossmatch.ComputeRichnessTotal | galsampler/crossmatch.py:123-127 | with unique halo IDs, the richness adds up to the number of galaxies whose host ID is one of them |
| Crossmatch.ComputeRichnessCorrect | galsampler/crossmatch.py:96-128 | succeeds exactly when the halo IDs are unique; then one entry per halo, equal to the number of galaxies with that host ID (0 for none) |
| Crossmatch.UniqueCorrect | galsampler/crossmatch.py:125 | np.unique with counts: strictly increasing values, exactly the values present, each with its multiplicity |
| Crossmatch.RichnessOfRunsCorrect | galsampler/crossmatch.py:125-128 | joining the unique hosts with their counts against the IDs gives each ID's galaxy count, failing exactly on repeated IDs |
| Crossmatch.RichnessFromMatchAt | galsampler/crossmatch.py:123-127 | the scatter writes counts[idxA[k]] at idxB[k] and leaves 0 elsewhere |
| Crossmatch.RichnessFromCrossmatch | galsampler/crossmatch.py:126-127 | scattering counts through a crossmatch of unique hosts against unique IDs gives each ID's galaxy count |
| Arrays.RunLength | galsampler/crossmatch.py:76 | np.unique with counts: one count per value, every count positive, the first value being the array's first entry; the lemmas below give the rest |
| Arrays.RunLengthRoundTrip | galsampler/crossmatch.py:76-82 | repeating the unique values by their counts gives back the sorted array |
| Arrays.RunLengthCounts | galsampler/crossmatch.py:76 | each count of np.unique is the multiplicity of its value |
| Arrays.RunLengthStrict | galsampler/crossmatch.py:76 | np.unique of a sorted array is strictly increasing |
| Arrays.RunLengthValues | galsampler/crossmatch.py:76 | np.unique lists exactly the values present |
| Arrays.SearchSorted | galsampler/crossmatch.py:85-87 | np.searchsorted (side left) is an insertion point in [0, len(s)]; SearchSortedFinds gives where a present value lands |
| Arrays.SearchSortedFinds | galsampler/crossmatch.py:85-87 | np.searchsorted finds a value present in a sorted array |
| Arrays.Repeat | galsampler/crossmatch.py:90 | np.repeat's output is as long as the sum of the counts; RepeatBlock gives each block's place and contents |
| Arrays.RepeatBlock | galsampler/crossmatch.py:90 | np.repeat places v[i] at offsets Sum(c[..i]) to Sum(c[..i]) + c[i] - 1 |
| Arrays.RepeatBlockAll | galsampler/source_galaxy_selection.py:112-113 | the whole block of v[i] in np.repeat lies inside the result and holds v[i] |
| Arrays.RepeatElements | galsampler/crossmatch.py:90 | every element of np.repeat comes from the repeated array |
| Arrays.RepeatCompress | galsampler/crossmatch.py:82-90 | masking before repeating equals repeating the mask and masking after |
| Arrays.RepeatOnes | galsampler/source_galaxy_selection.py:112-113 | repeating by ones is the identity |
| Arrays.Scatter | galsampler/crossmatch.py:127 | fancy-index assignment keeps the array's length; ScatterDistinct and ScatterValues give its contents |
| Arrays.ScatterDistinct | galsampler/crossmatch.py:127 | fancy-index assignment through distinct indices writes each value at its index and keeps the rest |
| Arrays.ScatterValues | galsampler/galmatch.py:212-213 | after assignment every entry is the base value or an assigned value |
| Arrays.SortedRun | galsampler/galmatch.py:120-124 | in a sorted array, the copies of v are the Count(v) entries from its first occurrence |
| Arrays.Compress | galsampler/source_halo_selection.py:109 | a[mask] has one entry per true value of the mask; CompressIsGather gives which |
| Arrays.CompressIsGather | galsampler/source_halo_selection.py:109 | boolean masking equals gathering at the true positions |
| Arrays.PositionsProps | galsampler/source_halo_selection.py:109 | the true positions of a mask are increasing and are exactly the true entries |
| Arrays.CountIsMultiplicity | galsampler/crossmatch.py:98 | counting occurrences is the multiset multiplicity |
| Sorting.ArgSort | galsampler/crossmatch.py:69-70 | an argsort: a permutation of the indices ordering the keys non-decreasingly |
| Sorting.Sort | galsampler/crossmatch.py:71 | sorted and a permutation of the input |
| Sorting.PermutationPreservesMultiset | galsampler/galmatch.py:121-124 | reordering by a permutation keeps the multiset of values |
| Sorting.PermutationFacts | galsampler/galmatch.py:128-130 | a permutation is in range, repeat-free and hits every index |
| MultiIndex.Ravel | galsampler/host_halo_binning.py:53-54 | row-major cell number below the number of cells |
| MultiIndex.Unravel | galsampler/source_halo_selection.py:16-19 | np.unravel_index gives coordinates within the shape |
| MultiIndex.UnravelRavel | galsampler/host_halo_binning.py:53-54 | unravelling a ravelled index returns the coordinates |
| MultiIndex.RavelUnravel | galsampler/source_halo_selection.py:16-19 | ravelling unravelled coordinates returns the cell number |
| MultiIndex.UnravelInjective | galsampler/source_halo_selection.py:16-19 | distinct cells have distinct coordinates |
| HostHaloBinning.Digitize | galsampler/host_halo_binning.py:48 | np.digitize lies in [0, len(edges)]; DigitizeAscending gives its value |
| HostHaloBinning.DigitizeAscending | galsampler/host_halo_binning.py:48 | with ascending edges, np.digitize counts exactly the edges at or below the value |
| HostHaloBinning.AxisBin | galsampler/host_halo_binning.py:48 | the clipped bin index lies in [0, nbins) |
| HostHaloBinning.AxisBinIff | galsampler/host_halo_binning.py:48 | bin k iff edges[k] <= v < edges[k+1], except that the first and last bins are open at the outer side |
| HostHaloBinning.HaloBinIndices | galsampler/host_halo_binning.py:11-54 | one cell number per halo, each below the product of the bin counts |
| HostHaloBinning.HaloBinIndicesCells | galsampler/host_halo_binning.py:45-54 | a halo's cell number decodes, axis by axis, to the bin whose edges enclose its value |
| HostHaloBinning.CellCoordinatesBins | galsampler/host_halo_binning.py:46-49 | each per-axis index is the bin enclosing that axis's value |
| HostHaloBinning.HaloBinIndicesSameCell | galsampler/host_halo_binning.py:53-54 | two halos share a cell number iff they share a bin on every axis |
| HostHaloBinning.CellCounts | galsampler/host_halo_binning.py:85-93 | the loop builds, for every cell, the number of objects assigned to it (0 when absent) |
| HostHaloBinning.UniqueCount | galsampler/host_halo_binning.py:86-93 | the count np.unique reports for a cell is its multiplicity; an unlisted cell has none |
| HostHaloBinning.MatchingBins | galsampler/host_halo_binning.py:57-98 | on success a key for every cell number and no other, each bound to a cell holding at least nmin objects |
| HostHaloBinning.MatchingBinDictionary | galsampler/host_halo_binning.py:57-98 | the loop's dictionary equals the table MatchingBins specifies, failing exactly where it does |
| HostHaloBinning.MatchingBinsOutcome | galsampler/host_halo_binning.py:85-98 | an empty shape is the TypeError of range(1.0); otherwise a table is produced iff there are no cells or some cell holds nmin objects |
| HostHaloBinning.MatchingBinsNearest | galsampler/host_halo_binning.py:95-97 | every cell maps to a cell holding nmin objects: itself if it qualifies, else one at least as near as any qualifying cell, the lowest-numbered among equally near |
| HostHaloBinning.MatchTableSnoc | galsampler/host_halo_binning.py:96-97 | adding cell n to the table adds exactly the entry n -> its source cell |
| HostHaloBinning.MatchingBinsExample | galsampler/tests/test_halo_binning.py:114-132 | bin numbers [3,2,2,2,3,5,2,5,5,2,2], nmin 2, shape (10,): cells 0-2 map to 2, 3-4 to 3, 5-9 to 5 |
| SourceHaloSelection.Taxicab | galsampler/source_halo_selection.py:25-26 | the zipped distance is 0 exactly when every zipped pair of coordinates agrees |
| SourceHaloSelection.TaxicabSymmetric | galsampler/source_halo_selection.py:25-26 | the taxicab distance is symmetric |
| SourceHaloSelection.TaxicabZero | galsampler/source_halo_selection.py:25-26 | the distance between equally long coordinates is 0 iff they are equal |
| SourceHaloSelection.CellDistanceZero | galsampler/source_halo_selection.py:16-19 | the distance between two cells is 0 iff they are the same cell |
| SourceHaloSelection.Candidates | galsampler/source_halo_selection.py:19-20 | the candidate list holds qualifying cells only, in increasing cell order |
| SourceHaloSelection.CandidatesDistance | galsampler/source_halo_selection.py:19 | each candidate carries its taxicab distance to the target cell |
| SourceHaloSelection.CandidatesComplete | galsampler/source_halo_selection.py:19-20 | every qualifying cell is among the candidates |
| SourceHaloSelection.FirstNearest | galsampler/source_halo_selection.py:21-22 | the first element after a stable sort by distance: minimal distance, and every earlier entry is strictly farther |
| SourceHaloSelection.GetSourceBinFromTargetBin | galsampler/source_halo_selection.py:10-22 | any answer is a qualifying cell |
| SourceHaloSelection.GetSourceBinNearest | galsampler/source_halo_selection.py:10-22 | answers iff some cell qualifies; a qualifying cell answers itself; otherwise nearest, lowest cell among ties |
| SourceHaloSelection.CandidatesEmpty | galsampler/source_halo_selection.py:19-22 | the candidate list is empty exactly when no cell qualifies (the IndexError) |
| SourceHaloSelection.CheckSourceBinning | galsampler/source_halo_selection.py:29-36 | passes iff some cell holds nmin halos; fails with a zero division exactly when there are no cells |
| SourceHaloSelection.BinShapes | galsampler/source_halo_selection.py:91 | one bin count per edge array |
| SourceHaloSelection.SourceBinCounts | galsampler/source_halo_selection.py:94-95 | the unit-width histogram centred on 0 .. total - 1 has one bin per cell, holding the number of source halos with that bin number |
| SourceHaloSelection.PoolFacts | galsampler/source_halo_selection.py:108-109 | the pool of a cell lists indices of source halos in that cell, as many as the cell holds |
| SourceHaloSelection.RandomlySelect | galsampler/source_halo_selection.py:118-122 | n draws, each an entry of the pool |
| SourceHaloSelection.SourceBinFor | galsampler/source_halo_selection.py:106-107 | the cell a target cell draws from holds nmin source halos |
| SourceHaloSelection.SourceBinLookup | galsampler/source_halo_selection.py:106-107 | the fallback answers exactly when coverage holds, and then names SourceBinFor |
| SourceHaloSelection.AssignDraws | galsampler/source_halo_selection.py:111-112 | the masked assignment writes the cell's draws, in order, at the cell's target halos and leaves other entries as they were |
| SourceHaloSelection.RankStep | galsampler/source_halo_selection.py:111 | a halo's rank in its cell is the number of earlier halos in the cell |
| SourceHaloSelection.AssignIds | galsampler/source_halo_selection.py:113 | the masked copy writes each in-cell target halo's own ID and keeps the rest |
| SourceHaloSelection.SelectForCell | galsampler/source_halo_selection.py:101-113 | one pass of the cell loop: fails exactly when the cell's pool is empty, else extends both arrays by that cell |
| SourceHaloSelection.SelectAllCells | galsampler/source_halo_selection.py:98-113 | the cell loop succeeds iff no cell's pool is empty, and then fills both arrays as specified |
| SourceHaloSelection.HaloSelection | galsampler/source_halo_selection.py:39-115 | on success there is a binned property and both arrays have one entry per target halo: its own ID inside the binning, 0 and 0 outside it |
| SourceHaloSelection.SourceHaloIndexSelection | galsampler/source_halo_selection.py:39-115 | the method's result equals HaloSelection, with seed 43 by default |
| SourceHaloSelection.SelectedForInCell | galsampler/source_halo_selection.py:106-112 | the source halo drawn for a target halo lies in the resolved cell |
| SourceHaloSelection.HaloSelectionCells | galsampler/source_halo_selection.py:98-115 | on success, each in-range target halo gets a source halo from the cell get_source_bin_from_target_bin names and keeps its own ID; others get 0 and 0 |
| SourceHaloSelection.HaloSelectionOwnCell | galsampler/tests/test_source_halo_index_selection.py:21-43 | a target halo whose cell holds nmin source halos gets a source halo of its own cell |
| SourceHaloSelection.HaloSelectionOutcome | galsampler/source_halo_selection.py:29-122 | no cells gives a zero division; poor coverage gives the ValueError; with coverage but no binned property, the TypeError of range(1.0); an empty pool only with nmin <= 0; with nmin >= 1 success iff there is a binned property and some cell is well sampled |
| GalMatch.Block | galsampler/galmatch.py:44-48 | a halo's run is first, first + 1, ..., with nothing for richness <= 0 |
| GalMatch.Expand | galsampler/galmatch.py:40-48 | the kernel output has one entry per positive richness unit |
| GalMatch.BlockOf | galsampler/galmatch.py:41-48 | each output position lies in exactly one target halo's run |
| GalMatch.ExpandBlock | galsampler/galmatch.py:40-48 | entry off of halo i's run sits after all earlier runs and holds firsts[i] + off |
| GalMatch.ExpandRun | galsampler/galmatch.py:44-48 | halo i's whole run is firsts[i], firsts[i] + 1, ... at its offset |
| GalMatch.ExpandAt | galsampler/galmatch.py:40-48 | any output entry is its halo's first index plus its offset in the run |
| GalMatch.ExpandOrdered | galsampler/galmatch.py:41-48 | all galaxies of an earlier target halo precede those of a later one |
| GalMatch.WriteBlock | galsampler/galmatch.py:46-48 | the inner loop writes one run at the cursor and nothing else |
| GalMatch.GalaxySelectionKernel | galsampler/galmatch.py:22-48 | the output array's first sum-of-richness entries are the expansion; the rest is untouched |
| GalMatch.GalaxyTableIndices | galsampler/galmatch.py:190-214 | one entry per source halo; GalaxyTableIndicesCorrect gives its value |
| GalMatch.GalaxyTableIndicesCorrect | galsampler/galmatch.py:190-214 | each halo gets the first row of a galaxy it hosts, or -1 if it hosts none |
| GalMatch.GalaxyTableIndicesRange | galsampler/galmatch.py:206-207 | all values lie in [-1, number of galaxies) |
| GalMatch.TableFromCrossmatch | galsampler/galmatch.py:209-214 | the scatter through the crossmatch against np.unique's first rows gives first row or -1 |
| GalMatch.UniqueMembership | galsampler/galmatch.py:209 | np.unique lists exactly the host IDs present |
| GalMatch.CountSortedHosts | galsampler/galmatch.py:121-135 | sorting the galaxies by host keeps each host's galaxy count |
| GalMatch.SourceRichness | galsampler/galmatch.py:132-135 | each source halo's richness is its number of galaxies |
| GalMatch.SortedFirsts | galsampler/galmatch.py:132-140 | over the sorted table: richness is the count, and the first index is the first row or -1 |
| GalMatch.ExpandWithinRuns | galsampler/galmatch.py:155-169 | each kernel output row of the sorted table is hosted by the source halo of the target halo it belongs to |
| GalMatch.ExpandWithinRunsAt | galsampler/galmatch.py:155-169 | the same, position by position |
| GalMatch.RunEntry | galsampler/galmatch.py:155-157 | offset off within a host's run of the sorted table is still that host |
| GalMatch.SortedSelection | galsampler/galmatch.py:159-169 | the kernel output has one entry per inherited galaxy, each a row of the table |
| GalMatch.SortedSelectionHosts | galsampler/galmatch.py:155-169 | each sorted row is hosted by the source halo listed at its position |
| GalMatch.SortedSelectionRun | galsampler/galmatch.py:155-169 | target halo i's run in the kernel output is the consecutive sorted rows of its source halo |
| GalMatch.SortedRowsOf | galsampler/galmatch.py:132-140 | for a hosting source halo: present in the sorted table, richness = count, first index = first row |
| GalMatch.SelectionUnsorts | galsampler/galmatch.py:177-181 | each selected row is the original row of the sorted row the kernel produced |
| GalMatch.SelectGalaxies | galsampler/galmatch.py:147-181 | three outputs, each as long as the total richness of the chosen source halos; every selected index is a row of the galaxy table |
| GalMatch.SelectGalaxiesHosts | galsampler/galmatch.py:120-181 | every selected row is a galaxy hosted by the source halo listed beside it |
| GalMatch.BlockFromSorted | galsampler/galmatch.py:177-181 | a run of consecutive sorted rows maps back to distinct original rows covering all galaxies of that host |
| GalMatch.RunOfOrder | galsampler/galmatch.py:121-124 | every galaxy of a host appears in that host's run of the sorted table |
| GalMatch.RowInRun | galsampler/galmatch.py:121-124 | each sorted row lies inside its host's run |
| GalMatch.SelectGalaxiesBlock | galsampler/galmatch.py:147-181 | target halo i's block is Count(host) long and lists galaxies of its source halo |
| GalMatch.SelectGalaxiesBlockComplete | galsampler/galmatch.py:147-181 | target halo i's block lists every galaxy of its source halo exactly once |
| GalMatch.ComputeSourceGalaxySelectionIndices | galsampler/galmatch.py:84-187 | fails (compute_richness's ValueError) exactly when source halo IDs repeat |
| GalMatch.ComputeSourceGalaxySelectionIndicesCorrect | galsampler/galmatch.py:84-187 | on success: total-richness length, IDs repeated by richness, each row hosted by its listed source halo |
| GalMatch.ProvisionalHostId | galsampler/galmatch.py:218-220 | one host ID per halo |
| GalMatch.ComputeHostId | galsampler/galmatch.py:217-226 | fails exactly on unequal lengths or repeated halo IDs; otherwise aligned arrays and in-range index pairs |
| GalMatch.ComputeHostIdCorrect | galsampler/galmatch.py:217-226 | matched iff central or upid catalogued; host = upid then, else own ID; idxA is exactly the matched halos; pairs join each to its host's row |
| GalMatch.ComputeHostIdResolved | galsampler/galmatch.py:217-226 | every host ID is catalogued, and unmatched halos are their own hosts |
| GalMatch.ComputeHostIdCentral | galsampler/galmatch.py:232-233 | hostid == haloid exactly for centrals, self-references and orphans |
| GalMatch.HostRows | galsampler/galmatch.py:221 | each halo's host row holds its host ID |
| GalMatch.HostRowsFollow | galsampler/galmatch.py:221-246 | idxA/idxB send each matched halo to its host's row, and unmatched halos are roots |
| GalMatch.InitialUber | galsampler/galmatch.py:239-241 | one entry per halo |
| GalMatch.InitialRows | galsampler/galmatch.py:239-241 | before the loop, roots hold their own row and all others fill_val |
| GalMatch.UberStepLink | galsampler/galmatch.py:246 | one round gives each halo the value at its host's row |
| GalMatch.UberStepsFollow | galsampler/galmatch.py:245-248 | k rounds give each halo the value k host links up |
| GalMatch.LinkPowLast | galsampler/galmatch.py:245-248 | k + 1 links are k links then one more |
| GalMatch.LinkPowFixed | galsampler/galmatch.py:241-246 | a root's host chain stays at the root |
| GalMatch.PropagateRounds | galsampler/galmatch.py:243-248 | the loop performs j <= max_order rounds, stopping early only when no fill_val remains |
| GalMatch.PropagateRoots | galsampler/galmatch.py:243-248 | roots keep their own index; every entry is fill_val or the index of a root |
| GalMatch.PropagateCentrals | galsampler/galmatch.py:239-248 | each central holds its own index; every entry is fill_val or a central's index |
| GalMatch.UberHostIndx | galsampler/galmatch.py:229-253 | fails exactly on unequal lengths or repeated halo IDs; else one entry per halo |
| GalMatch.ComputeUberHostIndx | galsampler/galmatch.py:229-253 | the while loop over the working array returns UberHostIndx |
| GalMatch.UberHostIndxCorrect | galsampler/galmatch.py:229-253 | with unique IDs: each central holds its own index, and every entry is fill_val or the index of a central |
| SourceGalaxySelection.SourceGalaxySelectionIndices | galsampler/source_galaxy_selection.py:12-119 | on success the three outputs have equal length, and every selected row is a galaxy hosted by the source halo listed beside it |
| SourceGalaxySelection.SourceGalaxySelectionErrors | galsampler/source_galaxy_selection.py:83-99 | repeated source IDs fail first; then the halo draw's errors; an out-of-range row only if the bin column is longer than the ID column or the IDs are empty; no edge array never succeeds; with nmin >= 1, matching columns and an edge array, success iff some cell is well sampled |
| SourceGalaxySelection.SourceGalaxySelectionCorrect | galsampler/source_galaxy_selection.py:12-119 | on success: total-richness length, target/source IDs repeated by richness, each row hosted by its listed source halo |
| SourceGalaxySelection.OnePerCellDraw | galsampler/tests/test_source_galaxy_selection.py:11-60 | one source halo per cell and nmin 1: each target halo draws the source halo of its cell, whatever the random numbers |
| SourceGalaxySelection.OneGalaxyPerHalo | galsampler/tests/test_source_galaxy_selection.py:11-55 | one galaxy per unique halo: each target halo receives exactly its source halo's galaxy |
| SourceGalaxySelection.SourceGalaxySelectionOnePerCell | galsampler/tests/test_source_galaxy_selection.py:63-113 | one galaxy and one cell per source halo: the output is the galaxy of each target's cell, so identity bins reproduce the table and five targets per cell repeat it five times |

## Left out

- Input validation that cannot fail on integer sequences is not modelled. This covers
  crossmatch's integrality and one-dimensionality checks and `np.atleast_1d`. Only the
  uniqueness check of `y` remains.
- dtype casts are not modelled: `astype(int)`, `'i8'` and the `'i4'` richness cast. Integers
  are unbounded, so a richness above 2^31 - 1 does not wrap as it would in `'i4'`.
- `np.argsort` is not pinned to numpy's algorithm. `Sorting.ArgSort` is one admissible argsort
  (stable insertion). The join's correctness is proved for every argsort.
- The random generator is an oracle. Which halo `RandomState(seed).choice` draws, and the
  distribution of draws, are not modelled. Only that each draw comes from the right pool, and
  that re-seeding makes equal inputs give equal draws.
- The nearest-neighbour search is not modelled: `calculate_halo_correspondence`,
  `calculate_indx_correspondence` and `_get_data_block` (k-d tree, floating-point distances,
  threads). The pipeline takes the chosen source index of every target halo as an input `knn`.
- The warning of `compute_uber_host_indx` about unmatched `upid` values has no effect on the
  result and is not modelled. `return_internals` is not modelled either: the index pairs are
  what `ComputeHostId` returns.
- The compiled kernel that source_galaxy_selection.py imports is not part of this model. Like
  the numba kernel in galmatch.py, it is modelled by `GalMatch.Expand`.
- The `halotools` copies of `crossmatch` and `compute_richness` are taken to be the ones in
  crossmatch.py.
- Error messages, `frac_good_required` (used only in the message) and exception types beyond
  one constructor per raising site are not modelled.
- halo_bin_indices: arrays of different lengths, bin-edge arrays with fewer than two edges or
  unsorted edges, and NaN values are excluded by `WellFormed`. Real-valued properties are
  Dafny `real`, not floating point.
- SourceHaloSelection.SourceHaloIndexSelection: an edge array with no edges at all is excluded.
  Its bin count would be -1, a negative cell total that the model's natural-number shapes cannot
  express.
- SourceGalaxySelection.SourceGalaxySelectionIndices: the same edge array with no edges is
  excluded, for the same reason.
- HostHaloBinning.MatchingBinsExample: only the first matching-dictionary test is proved. The
  other three use two-axis or larger shapes.
- GalMatch.ComputeHostId: arrays of unequal length are reported as `ShapeMismatch`. numpy
  would raise on the first mismatched boolean mask.
