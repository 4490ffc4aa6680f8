# SDR research scripts: a verified model

This project models, in Dafny, the computational core of a set of research scripts built on
sparse distributed representations (SDRs). An SDR is a long 0/1 vector with few ones. The
model covers four pieces:

- **The hyper-column associative network** of `run_hopfield_network_experiment.py`.
  - The class `hyperColumnNetwork` holds an N x N recurrent weight matrix, where N = H x C is
    H hyper-columns of C neurons.
  - `initializeObjectSDRs` draws object codes.
  - `memorizeObjectSDRs` adds each code's outer product to the weights and clears the diagonal.
  - `runSingleStep` computes `W . state` and keeps, in every hyper-column, the top
    `numActiveBit` cells by `argsort` whose input is positive.
  - `run` iterates the step and records the active cells of every state.
  - The trace helpers turn active-cell lists into a 0/1 history, pick the columns to display,
    and build display rows.
- **The union encoder** of `run_encoder_with_union.py`. It cuts a sequence of active-column
  sets into windows of `unionLength` steps and unions each window; a last partial window is
  kept.
- **The clustering utilities** of `capybara/clustering/utils.py`:
  - `convert_to_sdr(s)`;
  - `get_num_clusters`;
  - `find_cluster_repetitions`, which numbers the consecutive runs of each cluster id and
    groups the SDRs by id;
  - `find_cluster_assignments`, which slices the SDRs by run number for clusters 0, 1 and 2;
  - `cluster_distance_matrix`.
- **The scikit-learn sandbox utilities** of `capybara/sandbox/sklearn/utils.py`:
  - `generate_sdr`;
  - the in-place `corrupt_sparse_vector`;
  - `generate_sdrs`;
  - the cell decoding and column filling of `load_traces`.

Modules:

| file | module | form |
|---|---|---|
| `sdr.dfy` | `Sdr` | NumPy semantics used throughout: index wrap-around, fancy assignment, `np.where`, slices, sums, sorting, permutations, truncation |
| `hopfield_spec.dfy` | `HopfieldSpec` | the network as pure functions and predicates over sequences of rows |
| `hopfield_network.dfy` | `HopfieldNetwork` | the class `HyperColumnNetwork` with an `array2` weight matrix and imperative methods proved against `HopfieldSpec` |
| `trace_display.dfy` | `TraceDisplay` | the trace and display helpers |
| `union_encoder.dfy` | `UnionEncoder` | the windowed union loops, proved against a recursive definition |
| `clustering_utils.dfy` | `ClusteringUtils` | the clustering helpers; the scanning loops are methods proved against functions |
| `sklearn_utils.dfy` | `SklearnUtils` | SDR generation and in-place corruption of an `array` |
| `sklearn_traces.dfy` | `SklearnTraces` | the decoding and row loop of `load_traces` |

NumPy and Python behaviour is written out:

- A negative index wraps around. An index outside `-n <= i < n` raises `IndexError`.
- `np.zeros` of a negative length raises `ValueError`.
- `x[:k]` and `x[-k:]` follow Python slicing, so `x[-0:]` is the whole array.
- `int()` of a float truncates toward zero.
- `int()` of a string accepts surrounding whitespace, an optional sign and decimal digits, and
  raises `ValueError` otherwise.
- Every draw from `np.random.permutation` is an explicit permutation argument. The random
  generator is therefore not part of the model; each draw is an input.

Where the documented behaviour of these scripts and their code disagree, the model follows the code:

- `memorizeObjectSDRs` does not reset the weight matrix first; it adds onto whatever the
  matrix holds. `HopfieldSpec.MemorizeTwiceDoubles` proves that memorizing the same codes twice
  doubles every off-diagonal co-activation count.
- A code length larger than the hyper-column size is not an error. The slice
  `randomCells[:k]` keeps all C cells.
- A non-positive number of objects gives no codes, and a non-positive number of steps gives a
  history holding only the initial state. Neither is an error.
- Memorizing a code checks its indices against the hyper-column size C, not against N.
  - The code's indicator vector has C entries, and negative indices wrap.
  - The C x C outer product is added to the N x N matrix. That works elementwise when C == N,
    broadcasts when C == 1, and raises `ValueError` otherwise.
- Ties in `argsort` are not fixed: `Argsort` promises only some ascending order of the
  positions, and every property of the step is proved for any such order.

## Model

| member | source | states |
|---|---|---|
| HopfieldNetwork.HyperColumnNetwork.constructor | projects/associative_network/run_hopfield_network_experiment.py:37-52 | for natural sizes: the sizes are stored, numNeuronTotal is numHyperColumn * numNeuronPerHyperColumn, and the recurrent weights are the all-zero N x N matrix |
| HopfieldNetwork.HyperColumnNetwork.InitializeObjectSdrs | projects/associative_network/run_hopfield_network_experiment.py:55-63 | one code per object (none for a non-positive count); code i is the first numActiveNeuronPerHyperColumn entries of permutation i, so it has HeadLen(C, k) distinct cells, all in range(C) |
| HopfieldNetwork.HyperColumnNetwork.AddOuterProduct | projects/associative_network/run_hopfield_network_experiment.py:70-73 | every weight grows by the entry of the code's outer product under the shape rule (elementwise or broadcast) |
| HopfieldNetwork.HyperColumnNetwork.ClearDiagonal | projects/associative_network/run_hopfield_network_experiment.py:75-76 | diagonal entries become 0 and all others keep their value |
| HopfieldNetwork.HyperColumnNetwork.AccumulateCodes | projects/associative_network/run_hopfield_network_experiment.py:67-73 | succeeds exactly when every code fits; the weights are then the old weights plus all outer products; on failure they hold the products of the codes before the first bad one, with IndexError for an out-of-range index and ValueError for a shape mismatch |
| HopfieldNetwork.HyperColumnNetwork.MemorizeObjectSdrs | projects/associative_network/run_hopfield_network_experiment.py:66-76 | on success the new weights are Memorized(old weights, codes): accumulated products with a zero diagonal; on failure the same partial state and error as above |
| HopfieldSpec.MemorizedShape | projects/associative_network/run_hopfield_network_experiment.py:66-76 | after memorizing, the diagonal is 0, each off-diagonal entry is the old entry plus the co-activation count, and symmetric weights stay symmetric |
| HopfieldSpec.CoActivationSymmetric | projects/associative_network/run_hopfield_network_experiment.py:73 | the co-activation count of cells i and j equals that of j and i |
| HopfieldSpec.CoActivationCountsCodes | projects/associative_network/run_hopfield_network_experiment.py:69-73 | for C == N, the weight contribution of cells i, j is the number of codes containing both |
| HopfieldSpec.MemorizeTwiceDoubles | projects/associative_network/run_hopfield_network_experiment.py:66-76 | memorizing the same codes twice adds twice the co-activation count to every off-diagonal weight (memorize accumulates, it does not reset) |
| HopfieldNetwork.Argsort | projects/associative_network/run_hopfield_network_experiment.py:107-108 | the result is a permutation of the positions listing the values in ascending order |
| HopfieldNetwork.SelectWinners | projects/associative_network/run_hopfield_network_experiment.py:107-112 | the chosen cells are in range and form a k-winners set: among the top numActiveBit by argsort, exactly those with positive input |
| HopfieldNetwork.TopIsStronger | projects/associative_network/run_hopfield_network_experiment.py:107-110 | every cell in the top slice has input at least that of every cell outside it |
| HopfieldNetwork.StrongerIsTop | projects/associative_network/run_hopfield_network_experiment.py:107-110 | a cell with strictly larger input than a top cell is itself in the top slice |
| HopfieldNetwork.WinnersCount | projects/associative_network/run_hopfield_network_experiment.py:110-114 | the winners are in range, their SDR has one 1 per distinct winner, and there are at most as many as the top slice holds cells |
| HopfieldNetwork.HyperColumnNetwork.RunSingleStep | projects/associative_network/run_hopfield_network_experiment.py:97-115 | fails exactly when the state length is not N; otherwise the new state is a step: 0/1, and in each hyper-column block the k-winners of that block's net input |
| HopfieldSpec.StepCells | projects/associative_network/run_hopfield_network_experiment.py:103-115 | a new state is binary and every active cell has strictly positive net input |
| HopfieldSpec.SingleColumnStep | projects/associative_network/run_hopfield_network_experiment.py:106-114 | with one hyper-column the whole new state is the k-winners set of the net input |
| HopfieldSpec.OneStepRecall | projects/associative_network/run_hopfield_network_experiment.py:66-115 | after memorizing one code of at least two distinct cells into a zero matrix, one step from that code with numActiveBit = its length returns exactly that code |
| HopfieldNetwork.HyperColumnNetwork.Run | projects/associative_network/run_hopfield_network_experiment.py:79-94 | fails exactly when a step is taken from a state of the wrong length; otherwise returns max(numStep, 0) + 1 entries, entry t being the positive cells of state t, where state 0 is the input and each next state is a step of the previous one with the default or given numActiveBit |
| TraceDisplay.ConvertActiveCellsToSdrs | projects/associative_network/run_hopfield_network_experiment.py:119-125 | succeeds exactly when numCells >= 0 and all indices are in range (ValueError / IndexError otherwise); row i is 0/1 with ones exactly at the cells of step i |
| TraceDisplay.HistoryRoundTrip | projects/associative_network/run_hopfield_network_experiment.py:119-125 | for increasing in-range index lists, taking np.where of each history row gives back the list |
| TraceDisplay.ColumnSumCountsSteps | projects/associative_network/run_hopfield_network_experiment.py:135 | a column sum of a 0/1 history is the number of steps in which that cell was active |
| TraceDisplay.KeptUnusedFacts | projects/associative_network/run_hopfield_network_experiment.py:136-141 | the kept unused columns are distinct, never active, and there are int(len(unused) * (1 - removePortion)) of them, computed in exact arithmetic and clamped by the slice |
| TraceDisplay.KeptShare | projects/associative_network/run_hopfield_network_experiment.py:139 | for removePortion in [0, 1] the number kept lies between 0 and the number of unused columns |
| TraceDisplay.UsedFacts | projects/associative_network/run_hopfield_network_experiment.py:137 | the used columns are distinct and are exactly the columns whose sum exceeds 1 |
| TraceDisplay.StripSdrHistoryForDisplay | projects/associative_network/run_hopfield_network_experiment.py:129-145 | the display index is strictly increasing; it contains every column active more than once, no column active exactly once, and its never-active columns are exactly the kept ones (KeptUnused, sized in exact arithmetic) |
| TraceDisplay.GenerateSdrForDisplay | projects/associative_network/run_hopfield_network_experiment.py:149-153 | succeeds exactly when numNeuron >= 0 and all indices are in range; gives 10 identical 0/1 rows whose entry k is 1 exactly when displayed column k is an active bit |
| TraceDisplay.DisplayRowDecodes | projects/associative_network/run_hopfield_network_experiment.py:149-153 | mapping a display row's ones back through displayBitIndex gives exactly the displayed columns that are active bits |
| UnionEncoder.UnionForOneSequence | projects/sequence_classification/run_encoder_with_union.py:47-66 | the trace is UnionTrace: the union of every complete window of unionLength steps, then the union of the partial last window if any |
| UnionEncoder.RunUnionStep | projects/sequence_classification/run_encoder_with_union.py:70-86 | one trace per sequence, trace i being UnionTrace of sequence i |
| UnionEncoder.BatchCount | projects/sequence_classification/run_encoder_with_union.py:53-64 | the number of windows is the ceiling of the sequence length over the window length, and zero only for an empty sequence |
| UnionEncoder.BatchEntry | projects/sequence_classification/run_encoder_with_union.py:53-64 | window j is the union of steps j*L up to min(j*L + L, length) |
| UnionEncoder.TraceCovers | projects/sequence_classification/run_encoder_with_union.py:47-66 | every active column of the sequence appears in some window and no other column does |
| UnionEncoder.UnitWindows | projects/sequence_classification/run_encoder_with_union.py:47-66 | with unionLength 1 the trace is the input sequence |
| Sdr.Indicator | projects/capybara/clustering/utils.py:88-91 | convert_to_sdr (also the identical copy in the scikit-learn sandbox `utils.py`, lines 77-80): succeeds exactly when the width is non-negative and all indices are in range (ValueError / IndexError otherwise); the result is 0/1 of that width with ones exactly at the targeted cells |
| Sdr.WhereScatterRoundTrip | projects/capybara/clustering/utils.py:88-91 | np.where of the SDR built from a strictly increasing in-range index list is that list |
| Sdr.ScatterOfWhere | projects/capybara/clustering/utils.py:88-91 | rebuilding a 0/1 vector from its np.where gives the vector back |
| Sdr.SumOfScatter | projects/capybara/sandbox/sklearn/utils.py:77-80 | the number of ones of a built SDR is the number of distinct targeted cells |
| ClusteringUtils.ConvertToSdrs | projects/capybara/clustering/utils.py:95-102 | convert_to_sdrs (also the identical copy in the scikit-learn sandbox `utils.py`, lines 84-91): succeeds exactly when every pattern converts; then SDR i is the indicator of pattern i; otherwise the error is that of the first pattern that fails |
| ClusteringUtils.GetNumClusters | projects/capybara/clustering/utils.py:122-136 | the number of distinct ids, plus one when noise id 0 is absent |
| ClusteringUtils.FindClusterRepetitions | projects/capybara/clustering/utils.py:140-168 | fails with IndexError exactly when there are fewer SDRs than ids; otherwise the repetitions are Repetitions(ids), the clusters have exactly the ids as keys, each holding its SDRs in order, and their sizes add up to the number of ids |
| ClusteringUtils.ClustersPartition | projects/capybara/clustering/utils.py:165-166 | the assertion of the source holds: the cluster sizes add up to the number of ids |
| ClusteringUtils.RepetitionWithinRun | projects/capybara/clustering/utils.py:159-162 | two consecutive equal ids get the same repetition number |
| ClusteringUtils.NewRunCountsOneMore | projects/capybara/clustering/utils.py:159-162 | a new run of an id gets one more than that id's previous run |
| ClusteringUtils.FirstRunIsZero | projects/capybara/clustering/utils.py:152-162 | the first run of every id is numbered 0 |
| ClusteringUtils.MaxRepetitionIsRuns | projects/capybara/clustering/utils.py:186-188 | the largest repetition of an id is its number of runs minus one |
| ClusteringUtils.MinNumRepsIsFewestRuns | projects/capybara/clustering/utils.py:183-192 | min_num_reps is the fewest runs of any id minus one, attained by some id and never negative |
| ClusteringUtils.MinNumRepsPerCategory | projects/capybara/clustering/utils.py:183-192 | fails with ValueError exactly for empty ids (np.min of nothing); otherwise returns MinNumReps |
| ClusteringUtils.SliceByRepetition | projects/capybara/clustering/utils.py:190-210 | the assignments are the groups repeated per round and the slices are, per round and group, the SDRs of that id and repetition, in order |
| ClusteringUtils.RoundEntry | projects/capybara/clustering/utils.py:193-208 | entry rpt*|groups| + g of the result is group g, and its slice holds the SDRs of id groups[g] in run rpt |
| ClusteringUtils.FindClusterAssignments | projects/capybara/clustering/utils.py:172-210 | IndexError when ids outnumber SDRs, ValueError for empty ids; otherwise min_num_reps + 1 rounds of groups (0, 1, 2, or 1, 2 when noise is ignored) with their slices |
| ClusteringUtils.ClusterDistanceMatrix | projects/capybara/clustering/utils.py:214-232 | a square matrix of the number of clusters with entry i, j the distance of clusters i and j for i <= j, and symmetric |
| SklearnUtils.GenerateSdr | projects/capybara/sandbox/sklearn/utils.py:95-103 | fails with ValueError exactly for negative n; otherwise an SDR of length n |
| SklearnUtils.GeneratedSdrActiveBits | projects/capybara/sandbox/sklearn/utils.py:95-103 | the SDR is 0/1 with ones exactly at the first w drawn positions, so it has min(w, n) ones for w >= 0 |
| SklearnUtils.CorruptSparseVector | projects/capybara/sandbox/sklearn/utils.py:107-126 | the array becomes Corrupted(old array, m) with m = int(noise_level * sum) computed in exact arithmetic: unchanged for a non-positive count, else the drawn active bits set to 0, then the drawn inactive bits set to 1 |
| SklearnUtils.CorruptionFlipsOnly | projects/capybara/sandbox/sklearn/utils.py:107-126 | corruption keeps the length, only turns positive entries to 0 and zero entries to 1, keeps a 0/1 vector 0/1, and is the identity for a non-positive count |
| SklearnUtils.CorruptionCounts | projects/capybara/sandbox/sklearn/utils.py:114-126 | the cleared positions are exactly the turned-off draws, min(m, number of active bits) of them, and the raised ones exactly the turned-on draws, min(m, number of inactive bits) |
| SklearnUtils.CorruptionKeepsActiveCount | projects/capybara/sandbox/sklearn/utils.py:107-126 | when m does not exceed the active or the inactive bits of a 0/1 SDR, exactly m bits turn off, m turn on, and the number of active bits is unchanged |
| SklearnUtils.GenerateSdrs | projects/capybara/sandbox/sklearn/utils.py:130-142 | fails with ValueError exactly when some class is drawn with negative n; otherwise class ids are 0, 1, ... and the SDRs are the noisy copies of each class template, class after class |
| SklearnUtils.GeneratedLayout | projects/capybara/sandbox/sklearn/utils.py:130-142 | there are classes * perClass SDRs and SDR c*perClass + k is the k-th noisy copy of template c |
| SklearnUtils.ClassSampleAt | projects/capybara/sandbox/sklearn/utils.py:137-141 | the k-th copy of a class is the template corrupted with the k-th noise draws |
| SklearnUtils.NoisyCopy | projects/capybara/sandbox/sklearn/utils.py:135-141 | every noisy copy is a 0/1 vector of length n, with as many ones as the template when the noise count fits |
| SklearnTraces.DecodeListCell | projects/capybara/sandbox/sklearn/utils.py:55-59 | '[]' decodes to the empty list; any other cell decodes exactly when int() accepts every comma-separated piece of the text between its first and last character, giving one value per piece, piece k's value at k; the only error is ValueError |
| SklearnTraces.DecodeCell | projects/capybara/sandbox/sklearn/utils.py:49-60 | an empty cell is the empty list; only a non-empty cell of a list column can fail, with ValueError |
| SklearnTraces.ParseIntText | projects/capybara/sandbox/sklearn/utils.py:59 | int() reads back the decimal text of every integer, with or without the leading space that follows a comma |
| SklearnTraces.DecodeRender | projects/capybara/sandbox/sklearn/utils.py:55-59 | a list written as [a, b, c] decodes back to the same list, in every list column |
| SklearnTraces.ParseAllPieces | projects/capybara/sandbox/sklearn/utils.py:59 | map(int, pieces) succeeds exactly when int accepts every piece, and then holds each piece's value |
| SklearnTraces.LoadTraceRows | projects/capybara/sandbox/sklearn/utils.py:44-62 | the traces are LoadedRows: one empty list per header, then each row's cells appended to their columns, stopping at the first error |
| SklearnTraces.AppendRow | projects/capybara/sandbox/sklearn/utils.py:48-61 | one row's cells appended in order, IndexError for a cell beyond the last header |
| SklearnTraces.RowAppendsOne | projects/capybara/sandbox/sklearn/utils.py:48-61 | with distinct headers, a well-formed row adds exactly its own decoded cell to each column and nothing else |
| SklearnTraces.RowTooLong | projects/capybara/sandbox/sklearn/utils.py:48-61 | a row longer than the header raises IndexError once its in-range cells decode |
| SklearnTraces.LoadedValues | projects/capybara/sandbox/sklearn/utils.py:44-62 | with distinct headers and well-formed rows, reading succeeds and column k holds one value per row, row t's being its cell k decoded |

## Left out

- TraceDisplay.KeptUnusedFacts: `len(unused) * (1 - removePortion)` is a double-precision product in the source, and the model computes it exactly over the reals. The exact count can be one larger than the float one. For example, with removePortion 0.9 and 10 unused columns the source keeps int(0.9999999999999998) = 0 columns and the model keeps 1.
- TraceDisplay.StripSdrHistoryForDisplay: its kept never-active columns are sized by the same exact product, so the selection can hold one more never-active column than the source's.
- SklearnUtils.CorruptSparseVector: `noise_level * np.sum(sdr)` is computed exactly over the reals (`NumNoiseBits`), so the noise count can be one larger than the float one. For example, 0.29 * 100 gives 28 in floats and 29 in the model.
- HopfieldNetwork.HyperColumnNetwork.constructor: the sizes are natural numbers. The `ValueError` that `np.zeros` raises for a negative numInputs or a negative numHyperColumn * numNeuronPerHyperColumn is not modelled, nor are negative sizes whose product is non-negative.
- UnionEncoder.UnionForOneSequence: the default `unionLength=1` is not modelled; the caller passes it. `UnionEncoder.UnitWindows` states what that default gives.
- TraceDisplay.StripSdrHistoryForDisplay: the default `removePortion=0.5` is not modelled; the caller passes it.
- File and console I/O are not modelled. This covers opening and parsing the CSV file (the model starts from the header row and the rows of cell texts), plotting, and the experiment drivers that call the core (`runSingleExperiment`, `capacityExperiment`, the union-encoder dataset loop).
- Random number generation is not modelled: every `np.random.permutation` draw is a parameter. `np.random.seed` therefore has no counterpart.
- The feed-forward weights `weightFF` and `numInputs` are stored by the constructor but never read by the core; the weights are not modelled.
- The weight matrix holds floats in the source. Only 0/1 outer products are ever added, so the model keeps it as integers, which is exact.
- `cluster_distance_factory` is not part of this model. The distance between two clusters is a function argument of `ClusteringUtils.ClusterDistanceMatrix`.
- `float(row[i])` in `load_traces` is not modelled. Cells of columns that are not list columns are kept as text (`NumberText`), so a malformed numeric cell is not reported as an error.
- SklearnTraces.ParseInt: Python 2 `int()` also accepts whitespace between the sign and the digits. The model rejects that form, so `DecodeListCell` is stricter there than the source.
- HopfieldNetwork.HyperColumnNetwork.Run: the source wraps every history entry after the first in a one-element list (`append([np.where(...)[0]])`). The model records the index array itself for every entry.
- SklearnUtils.CorruptSparseVector: the source returns the array when no bit is flipped and returns nothing otherwise. The model has no result, since the caller ignores it.
- The Python dict ordering of `find_cluster_repetitions` and the `num_reps_per_category` dict is not modelled. The model uses maps, and results never depend on the order.
