# Photonic setup state builder, modelled in Dafny

The modelled program computes the quantum state that a photonic circuit of
pair sources produces. A source emits one photon in `mode1` into `path1` and
one in `mode2` into `path2`, with an integer relative amplitude. Paths are the
vertices of a graph and sources are its edges. The circuit
post-selects on exactly one photon per path, so every perfect matching of the
graph contributes one term to the state.

- `findPerfectMatchings` searches the perfect matchings by backtracking. It
  always branches on a path of smallest degree.
- `buildState` does the rest:
  - assembles the ket of each perfect matching (one mode label per path) and
    multiplies its amplitudes;
  - adds up the amplitudes of equal kets, which is the interference;
  - drops kets whose amplitudes cancel;
  - sorts the rest by ket and divides by the norm;
  - counts the trailing paths on which all kets agree. These are the
    ancilla photons.

The model is split into these modules:

| file | module | what it holds |
|---|---|---|
| `sources.dfy` | `Sources` | sources, setups as sequences of sources, graphs as sequences of source indices, paths reached, the well-formedness assumed by the builder |
| `matchings.dfy` | `Matchings` | the search: degrees, the branch vertex, incident and reduced graphs, the stored (sorted) form of a matching, the search as a function (`Enumerate`/`Branches`), and as a recursive method appending to a `MatchingStore` object |
| `matching_proofs.dfy` | `MatchingProofs` | soundness, completeness and absence of duplicates of the search |
| `assembly.dfy` | `Assembly` | kets and amplitudes of matchings, the insertion-ordered dictionary, the interference sums |
| `normalizer.dfy` | `Normalizer` | the zero filter, sorting by ket, normalisation |
| `ancilla.dfy` | `Ancilla` | suffixes shared by all kets and the ancilla-counting loop |
| `state_builder.dfy` | `StateBuilder` | the state as a function (`State`) and the method `BuildState` proved against it |
| `ghz.dfy` | `Ghz` | the base setup of the GHZ example as data, with its matchings and state computed by proof |
| `rendering.dfy` | `Rendering` | the ket part of the printed state, as written and corrected (see Findings) |

Modelling choices:

- **Sources and matchings.** A source is a datatype and a setup a sequence of
  them. A graph or matching is a sequence of indices into the setup. The
  program's lists of source records become lists of indices.
- **Dictionaries.** The state dictionary is an insertion-ordered list of
  `(ket, amplitude)` entries. `Get` and `Put` model `dict.get(k, 0)` and
  `d[k] = v`.
- **Kets.** A ket is the sequence of mode labels. Ordering kets
  lexicographically agrees with ordering the joined strings, because every
  label is one digit.
- **The norm.** It is a real parameter whose square is the sum of the squared
  amplitudes.
- **Empty states.** The code raises no error when no matching exists or all
  amplitudes cancel: line 42 then divides nothing, and the state stays empty
  with 0 ancillas. `Normalizer.NormalizeSpec` keeps an empty state empty,
  and `Ancilla.CountAncillas` returns 0 for no kets.

## Model

| member | source | states |
|---|---|---|
| Sources.AllSources | setups.py:26 | the whole setup is the starting graph: every source index once, and nothing else |
| Sources.Ends | setups.py:12 | the flattened endpoint list has two entries per source |
| Sources.VerticesTouched | setups.py:9 | a path is among the distinct endpoints exactly when some source of the graph touches it |
| Sources.DisjointVertexCount | setups.py:9 | vertex-disjoint sources without self-loops reach twice as many paths as there are sources, which is why the counter starts at half the number of paths |
| Sources.FirstApart | setups.py:16 | the paths of the first of vertex-disjoint sources are reached by none of the others |
| Matchings.ScanMinIsMinimal | setups.py:13 | the `min` over the counter returns a counted vertex whose degree is no larger than any other's |
| Matchings.ScanMinFirst | setups.py:13 | when the first counted vertex has least degree, `min` returns it |
| Matchings.ScanMinFirstLeast | setups.py:13 | `min` returns the first counted vertex of least degree: every vertex counted before it has a larger degree, so on ties the vertex counted first wins |
| Matchings.MinDegreeVertexIsMinimal | setups.py:12-13 | the branch vertex is a path of the graph, no path of the graph has a smaller degree, and every endpoint listed before its first occurrence has a larger degree |
| Matchings.Incident | setups.py:14 | the branch sources are sources of the graph |
| Matchings.IncidentMembers | setups.py:14 | the branch sources are exactly the sources that touch the branch vertex, form a subsequence of the graph (so they keep its order), and have no repetition |
| Matchings.Reduce | setups.py:16 | the reduced graph is a graph of the setup, and it is strictly smaller once a source of the graph is chosen, so the search terminates |
| Matchings.ReduceMembers | setups.py:16 | the reduced graph holds exactly the sources that share no path with the chosen one, as a subsequence of the graph (in its order), without repetition |
| Matchings.SortSorted | setups.py:19 | a stored matching is sorted, is a permutation of the selection, and has the same sources |
| Matchings.MatchingStore.constructor | setups.py:24 | the store starts empty |
| Matchings.MatchingStore.Append | setups.py:19 | appending adds the matching at the end and changes nothing else |
| Matchings.FindPerfectMatchings | setups.py:8-21 | the recursive search appends to the store exactly the selections `Enumerate` lists, in order; with no counter given it starts at half the number of distinct paths |
| Matchings.SearchBranches | setups.py:15-17 | the loop over the branch sources appends the results of each branch in turn |
| MatchingProofs.EnumerateSound | setups.py:10-19 | each stored selection extends the current one by `k` vertex-disjoint sources of the remaining graph and is sorted |
| MatchingProofs.EnumerateComplete | setups.py:10-19 | every set of `k` vertex-disjoint sources covering the remaining graph is stored, extending the current selection |
| MatchingProofs.EnumerateDistinct | setups.py:10-19 | the search stores no selection twice |
| MatchingProofs.BranchesDistinct | setups.py:15-17 | branches on different sources at one vertex store different selections |
| MatchingProofs.BranchHolds | setups.py:17 | a selection stored by the branch on `e` contains `e` |
| MatchingProofs.BranchLacks | setups.py:16-17 | a selection stored by the branch on `f` lacks every source that clashes with `f` |
| MatchingProofs.PerfectMatchingsSound | setups.py:8-21 | every stored matching has half as many sources as there are paths, is vertex-disjoint and sorted, and is a perfect matching when no source loops and the path count is even |
| MatchingProofs.PerfectMatchingSize | setups.py:9 | a perfect matching has half as many sources as there are paths, and the path count is even |
| MatchingProofs.PerfectMatchingsComplete | setups.py:8-21 | every perfect matching of the setup is stored, as the sorted list of its sources |
| MatchingProofs.PerfectMatchingsDistinct | setups.py:8-21 | no perfect matching is stored twice |
| Assembly.KetOfLength | setups.py:30 | a ket has one label per path |
| Assembly.AssembleKet | setups.py:30-35 | the loop over a matching's sources yields its ket and the product of its amplitudes |
| Assembly.KetOfPlacesModes | setups.py:33 | each source of a vertex-disjoint matching leaves its two modes at its two paths, and untouched paths keep the initial 0 |
| Assembly.KetOfOrderFree | setups.py:32-33 | the ket depends only on which sources the matching holds, not on their order |
| Assembly.PutGet | setups.py:36 | writing a ket's amplitude changes what is recorded for that ket and for no other |
| Assembly.PutKeys | setups.py:36 | writing adds the ket to the keys and never duplicates a key |
| Assembly.AccumulateSums | setups.py:28-36 | after the loop the dictionary has one entry per ket of the matchings, and each entry holds the sum of the products of that ket's matchings |
| Assembly.KetsOfSnoc | setups.py:29 | the kets of a list of matchings are those of all but the last, plus the last one's |
| Normalizer.LexIrreflexive | setups.py:39 | no ket sorts before itself |
| Normalizer.LexTransitive | setups.py:39 | the ket order is transitive |
| Normalizer.LexTotal | setups.py:39 | two different kets are ordered one way or the other |
| Normalizer.DropZerosSpec | setups.py:38 | the filter keeps exactly the non-zero entries, keeps keys distinct, and records the same amplitude for every ket |
| Normalizer.DropZerosNoZeros | setups.py:38 | a dictionary without zeros passes the filter unchanged |
| Normalizer.InsertByKeyIncreasing | setups.py:39 | inserting a new ket into an increasing dictionary keeps it increasing |
| Normalizer.SortByKeySpec | setups.py:39 | sorting is a permutation of the entries and, when no key repeats, leaves the keys strictly increasing |
| Normalizer.SortByKeyIncreasing | setups.py:39 | sorting an already increasing dictionary changes nothing |
| Normalizer.SortKeepsNoZeros | setups.py:38-39 | sorting brings in no zero amplitude |
| Normalizer.GetPermutation | setups.py:39 | reordering a dictionary without repeated keys changes what it records for no ket |
| Normalizer.SumSquaresPositive | setups.py:41 | the sum of squares is never negative, and it is positive for a non-empty dictionary without zeros |
| Normalizer.ScaleSpec | setups.py:42 | dividing keeps kets and order and divides each amplitude by the norm |
| Normalizer.ScaleSquares | setups.py:41-42 | the squared quotients times the squared norm add up to the squared amplitudes |
| Normalizer.ScaleSigns | setups.py:42 | dividing by a positive norm keeps the sign of every amplitude |
| Normalizer.NormPositive | setups.py:41 | the norm of a non-empty state without zeros is positive, so the division at line 42 is defined |
| Normalizer.UnitNorm | setups.py:41-42 | dividing by the norm leaves squared amplitudes that sum to 1 |
| Normalizer.NormalizeSpec | setups.py:41-42 | normalising keeps kets and order, divides each amplitude by the norm and keeps its sign, and leaves unit total weight; an empty state stays empty |
| Ancilla.Suffix | setups.py:47 | `key[-i:]` has `i` labels, or the whole key when it is shorter |
| Ancilla.SharesSuffixMeans | setups.py:47 | the suffix set has one element exactly when there is a ket and all kets agree on their last `i` labels |
| Ancilla.SharesShorter | setups.py:46-48 | a shared suffix makes every shorter suffix shared, so stopping at the first failure misses nothing |
| Ancilla.CountAncillas | setups.py:45-48 | the count is 0 or below the path count; all suffixes up to it are shared and no longer one below the path count is; no kets give 0 |
| Ancilla.SingleKetShares | setups.py:47 | a state of one ket shares every suffix |
| StateBuilder.MatchingsBelow | setups.py:26-33 | every stored matching names sources whose paths are positions of a ket over all paths |
| StateBuilder.State | setups.py:28-39 | the state before normalisation has no zero amplitude |
| StateBuilder.StateSpec | setups.py:28-39 | the state lists its kets strictly increasing and without repetition; it records for every ket its interference sum over the perfect matchings (0 if absent); it has no zeros; every ket comes from a perfect matching |
| StateBuilder.StateKetLengths | setups.py:30-35 | every ket of the state has one label per path |
| StateBuilder.PathRangeSpec | setups.py:27 | `PathRange(n)` is exactly the `n` numbers below `n` |
| StateBuilder.PathsAreRange | setups.py:27-30 | in a well-formed setup the distinct paths are exactly the ket positions |
| StateBuilder.MatchingCoversPaths | setups.py:26-33 | a stored perfect matching reaches every path |
| StateBuilder.MatchingKetFull | setups.py:30-35 | the ket of a stored matching has one label per path, places each source's modes at its paths, and every label is a digit, so the join never meets a leftover integer |
| StateBuilder.Interfere | setups.py:29-36 | the loop over the perfect matchings builds the accumulated interference dictionary |
| StateBuilder.BuildState | setups.py:23-48 | the result is the normalised `State`; the ancilla count is the largest shared suffix length below the path count, with none longer, and all shorter ones shared |
| Ghz.GhzWellFormed | setups.py:73-78 | the GHZ base setup is well-formed over four paths |
| Ghz.GhzBranchVertex | setups.py:73-78 | every path has degree 3, so the search branches on path 0 |
| Ghz.GhzMatchings | setups.py:73-78 | the search finds exactly the matchings {0,1}, {2,3}, {4,5}, in that order |
| Ghz.GhzState | setups.py:73-78 | the state before normalisation is 0000, 1111, 2222, each with amplitude 1 |
| Ghz.GhzStateOrdered | setups.py:73-78 | that state has no zeros, increasing kets and squared amplitudes summing to 3 |
| Ghz.GhzNoAncilla | setups.py:73-78 | the GHZ kets differ in their last label |
| Ghz.GhzAncillaCount | setups.py:45-48 | for the GHZ kets the ancilla count is 0 |
| Ghz.NormalizedOnes | setups.py:41-42 | normalising a state of unit amplitudes gives every ket amplitude `1/norm > 0`, with total weight 1 |
| Ghz.BuildThreeKets | setups.py:23-48 | building a setup whose state is 0000, 1111, 2222 with unit amplitudes gives those kets with equal positive amplitudes `1/norm`, weight 1 and no ancillas |
| Ghz.GhzBuildState | setups.py:73-78 | building the GHZ base setup gives 0000, 1111, 2222 with amplitude `1/norm` each, total weight 1, and no ancillas |
| Rendering.DropTailAsWrittenMeans | setups.py:55 | `key[:-a]` drops the last `a` labels when `a > 0`, and everything when `a == 0` |
| Rendering.GhzKetsHidden | setups.py:55 | with the GHZ ancilla count (0) the three different kets are all printed as the empty ket |
| Rendering.DropTail | setups.py:55 | the corrected slice keeps all but the last `a` labels |
| Rendering.DropTailSuffix | setups.py:55-56 | what the corrected slice keeps, followed by the ancilla labels, is the ket |
| Rendering.DropTailAgrees | setups.py:55 | with at least one ancilla, the original slice and the corrected one agree |
| Rendering.ShownDistinct | setups.py:53-55 | pairwise different kets that share the ancilla suffix stay pairwise different as the corrected slice prints them |
| Rendering.StateShownDistinct | setups.py:44-55 | with the ancilla count the builder finds, the kets of any well-formed setup's state stay pairwise different as the corrected slice prints them |

## Left out

- `readSetup`, `print` and the returned string (lines 4-6, 50-58) are output only. Only the ket part of line 55 is modelled, in `Rendering`. The three-decimal amplitudes, the `+` signs, the brackets, and the ancilla labels printed by line 56 are not modelled.
- Line 56 prints the ancilla labels from `ket`. That variable is left over from the assembly loop, so it holds the ket of the last perfect matching, which need not be a ket of the state (that ket may have cancelled). This is not modelled.
- The square root at line 41 has no exact counterpart over the reals in Dafny. `BuildState` and `Normalize` take the norm as a parameter `norm >= 0` whose square is the sum of the squared amplitudes. The caller supplies it.
- Floating point is not modelled. Amplitudes are unbounded integers until normalisation and reals after it. `abs(value)**2` is the integer square, which is what it gives for the integer amplitudes of the setups.
- Complex amplitudes are left out. The `abs` at line 41 would accept them, but the model's amplitudes are integers.
- StateBuilder.BuildState: it requires `WellFormed`, which is stricter than the program:
  - the paths must be exactly `0 .. n-1`;
  - no source may send both photons into one path;
  - the number of paths must be even;
  - every mode must be a digit.
  
  Outside these the program either raises an error or prints something else: an `IndexError` at line 33, a `TypeError` when `''.join` meets a leftover integer, or a multi-digit mode that breaks the key order and the ancilla slicing. Those error paths are not modelled.
- Matchings.SortSorted: the program sorts the matched source records, but the model sorts their indices. Both lists hold the same sources, but the order inside a stored matching follows the source indices, not the record order. By `Assembly.KetOfOrderFree` the ket does not depend on that order, and neither does the product, so the state is the same.
- The search's default argument `match=[]` is shared between calls in Python, but it is never mutated (line 17 builds a new list). The model passes the selection by value.
- The GHZ example is modelled for its base setup (lines 73-78). The loop that adds the sources of higher dimensions (lines 79-97) and the rest of the example code, which sets `N` and calls the builder, are not modelled.
- Plotting code is not part of this model.

## Findings

| source | as written | input that shows it | evidently intended | confidence | as-written member | corrected member |
|---|---|---|---|---|---|---|
| setups.py:55 | `key[:-ancilla_photons]`; with no ancilla photons this is `key[:-0]`, i.e. `key[:0]`, the empty string | the GHZ base setup (lines 73-78): its kets 0000, 1111, 2222 differ in the last label, so there are 0 ancillas and every term prints as an empty ket | print the whole ket when there are no ancillas, i.e. `key[:len(key) - ancilla_photons]` | high; not executed | Rendering.GhzKetsHidden | Rendering.StateShownDistinct |
