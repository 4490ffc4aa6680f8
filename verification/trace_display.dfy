/**
 * The trace and display helpers of the Hopfield experiment: turning the per-step
 * lists of active cells into a dense 0/1 history, choosing the columns worth
 * plotting, and building the repeated display rows of one code.
 */
module TraceDisplay {
  import opened Sdr

  // ---------------------------------------------------------------------------
  // convertActiveCellsToSDRs

  /** Every row of a dense matrix has width n (a NumPy 2-D array always does). */
  predicate Rectangular(rows: seq<seq<int>>, n: nat) {
    forall i :: 0 <= i < |rows| ==> |rows[i]| == n
  }

  /** `a[i, idx] = 1` on a row of zeros; the other rows are left alone. */
  method SetRow(a: array2<int>, i: nat, idx: seq<int>)
    requires i < a.Length0 && AllInBounds(idx, a.Length1)
    requires forall j :: 0 <= j < a.Length1 ==> a[i, j] == 0
    modifies a
    ensures forall i', j :: 0 <= i' < a.Length0 && i' != i && 0 <= j < a.Length1 ==> a[i', j] == old(a[i', j])
    ensures forall j :: 0 <= j < a.Length1 ==> a[i, j] == Scatter(a.Length1, idx)[j]
  {
    var n := a.Length1;
    for k := 0 to |idx|
      invariant forall i', j :: 0 <= i' < a.Length0 && i' != i && 0 <= j < n ==> a[i', j] == old(a[i', j])
      invariant forall j :: 0 <= j < n ==> a[i, j] == if j in Targets(idx[..k], n) then 1 else 0
    {
      assert Targets(idx[..k + 1], n) == Targets(idx[..k], n) + {Wrap(idx[k], n)} by {
        assert forall q :: 0 <= q < k ==> idx[..k + 1][q] == idx[..k][q];
      }
      a[i, Wrap(idx[k], n)] := 1;
    }
    assert idx[..|idx|] == idx;
  }

  /** The rows of a 2-D array, as a sequence of sequences. */
  function Rows(a: array2<int>): (r: seq<seq<int>>)
    reads a
    ensures |r| == a.Length0 && Rectangular(r, a.Length1)
    ensures forall i, j :: 0 <= i < a.Length0 && 0 <= j < a.Length1 ==> r[i][j] == a[i, j]
  {
    seq(a.Length0, i requires 0 <= i < a.Length0 reads a =>
      seq(a.Length1, j requires 0 <= j < a.Length1 reads a => a[i, j]))
  }

  /**
   * `convertActiveCellsToSDRs`: row i of the result has ones exactly at the cells
   * listed for step i. A negative width is NumPy's ValueError, an index outside
   * the width its IndexError.
   */
  method ConvertActiveCellsToSdrs(history: seq<seq<int>>, numCells: int) returns (r: Result<seq<seq<int>>>)
    ensures r.Ok? <==> numCells >= 0 && forall i :: 0 <= i < |history| ==> AllInBounds(history[i], numCells)
    ensures r.Err? ==> r.error == if numCells < 0 then ValueError else IndexError
    ensures r.Ok? ==> |r.value| == |history| && Rectangular(r.value, numCells)
    ensures r.Ok? ==> forall i :: 0 <= i < |history| ==> IsBinary(r.value[i])
    ensures r.Ok? ==> forall i, j :: 0 <= i < |history| && 0 <= j < numCells ==>
                        (r.value[i][j] == 1 <==> j in Targets(history[i], numCells))
  {
    if numCells < 0 {
      return Err(ValueError);
    }
    var sdrHistory := new int[|history|, numCells]((_, _) => 0);
    for i := 0 to |history|
      invariant forall i' :: 0 <= i' < i ==> AllInBounds(history[i'], numCells)
      invariant forall i', j :: 0 <= i' < i && 0 <= j < numCells ==>
                  sdrHistory[i', j] == Scatter(numCells, history[i'])[j]
      invariant forall i', j :: i <= i' < |history| && 0 <= j < numCells ==> sdrHistory[i', j] == 0
    {
      if !AllInBounds(history[i], numCells) {
        return Err(IndexError);
      }
      SetRow(sdrHistory, i, history[i]);
    }
    r := Ok(Rows(sdrHistory));
  }

  /**
   * The conversion loses nothing on the traces `run` records (each step's
   * `np.where` list is increasing and in range): reading every row back with
   * `np.where` returns the recorded step.
   */
  lemma HistoryRoundTrip(history: seq<seq<int>>, numCells: nat, sdrs: seq<seq<int>>)
    requires forall i :: 0 <= i < |history| ==> StrictlyIncreasing(history[i])
    requires forall i, k :: 0 <= i < |history| && 0 <= k < |history[i]| ==> 0 <= history[i][k] < numCells
    requires |sdrs| == |history| && Rectangular(sdrs, numCells)
    requires forall i :: 0 <= i < |history| ==> AllInBounds(history[i], numCells)
    requires forall i, j :: 0 <= i < |history| && 0 <= j < numCells ==>
               (sdrs[i][j] == 1 <==> j in Targets(history[i], numCells))
    requires forall i :: 0 <= i < |history| ==> IsBinary(sdrs[i])
    ensures forall i :: 0 <= i < |history| ==> Where(sdrs[i]) == history[i]
  {
    forall i | 0 <= i < |history| ensures Where(sdrs[i]) == history[i] {
      var row := Scatter(numCells, history[i]);
      assert sdrs[i] == row by {
        forall j | 0 <= j < numCells ensures sdrs[i][j] == row[j] {
        }
      }
      WhereScatterRoundTrip(numCells, history[i]);
    }
  }

  // ---------------------------------------------------------------------------
  // stripSDRHistoryForDisplay

  /** `np.sum(rows, axis=0)[j]`. */
  function ColumnSum(rows: seq<seq<int>>, j: nat): int
    requires forall i :: 0 <= i < |rows| ==> j < |rows[i]|
  {
    if rows == [] then 0 else ColumnSum(rows[..|rows| - 1], j) + rows[|rows| - 1][j]
  }

  function ColumnSums(rows: seq<seq<int>>, n: nat): (r: seq<int>)
    requires Rectangular(rows, n)
    ensures |r| == n
  {
    seq(n, j requires 0 <= j < n => ColumnSum(rows, j))
  }

  /** The steps in which cell j is active. */
  ghost function ActiveSteps(rows: seq<seq<int>>, j: nat): set<nat>
    requires forall i :: 0 <= i < |rows| ==> j < |rows[i]|
  {
    set i | 0 <= i < |rows| && rows[i][j] == 1
  }

  /** On a 0/1 history a column sum counts the steps in which that cell is active. */
  lemma {:induction false} ColumnSumCountsSteps(rows: seq<seq<int>>, j: nat)
    requires forall i :: 0 <= i < |rows| ==> j < |rows[i]| && IsBinary(rows[i])
    ensures ColumnSum(rows, j) == |ActiveSteps(rows, j)|
  {
    if rows != [] {
      var t := |rows| - 1;
      var front := rows[..t];
      assert forall i :: 0 <= i < t ==> front[i] == rows[i];
      ColumnSumCountsSteps(front, j);
      var before, after := ActiveSteps(front, j), ActiveSteps(rows, j);
      var added: set<nat> := if rows[t][j] == 1 then {t} else {};
      forall i: nat ensures i in after <==> i in before + added {
        if i < t {
          assert front[i] == rows[i];
        }
      }
      assert after == before + added;
      assert t !in before;
    }
  }

  /** The columns that never fire (`np.where(sdrHistorySum == 0)`). */
  function UnusedColumns(rows: seq<seq<int>>, n: nat): seq<nat>
    requires Rectangular(rows, n)
  {
    WhereZero(ColumnSums(rows, n))
  }

  /** The columns that fire in more than one step (`np.where(sdrHistorySum > 1)`). */
  function UsedColumns(rows: seq<seq<int>>, n: nat): seq<nat>
    requires Rectangular(rows, n)
  {
    IndicesWhere(ColumnSums(rows, n), x => x > 1)
  }

  /** `int(len(unusedBitIndices) * (1 - removePortion))`. */
  function NumUnusedKeep(numUnused: nat, removePortion: real): int {
    Trunc(numUnused as real * (1.0 - removePortion))
  }

  /** The unused columns kept: the first numUnusedKeep of their shuffle. */
  function KeptUnused(rows: seq<seq<int>>, n: nat, removePortion: real, perm: seq<int>): seq<nat>
    requires Rectangular(rows, n) && IsPermutation(perm, |UnusedColumns(rows, n)|)
  {
    var unused := UnusedColumns(rows, n);
    Head(Shuffle(unused, perm), NumUnusedKeep(|unused|, removePortion))
  }


  /** The kept unused columns are distinct columns that never fire, as many as the slice allows. */
  lemma KeptUnusedFacts(rows: seq<seq<int>>, n: nat, removePortion: real, perm: seq<int>)
    requires Rectangular(rows, n) && IsPermutation(perm, |UnusedColumns(rows, n)|)
    ensures var kept := KeptUnused(rows, n, removePortion, perm);
            Distinct(kept) &&
            |kept| == HeadLen(|UnusedColumns(rows, n)|, NumUnusedKeep(|UnusedColumns(rows, n)|, removePortion)) &&
            forall c :: c in kept ==> c < n && ColumnSums(rows, n)[c] == 0
  {
    var unused := UnusedColumns(rows, n);
    var shuffled := Shuffle(unused, perm);
    ShuffleDistinct(unused, perm);
    ShuffleElems(unused, perm);
    var kept := KeptUnused(rows, n, removePortion, perm);
    forall c | c in kept ensures c < n && ColumnSums(rows, n)[c] == 0 {
      var k :| 0 <= k < |kept| && kept[k] == c;
      assert shuffled[k] in Elems(shuffled);
    }
  }

  /** With 0 <= removePortion <= 1 the kept share is the truncated fraction of the unused columns. */
  lemma KeptShare(numUnused: nat, removePortion: real)
    requires 0.0 <= removePortion <= 1.0
    ensures 0 <= NumUnusedKeep(numUnused, removePortion) <= numUnused
    ensures HeadLen(numUnused, NumUnusedKeep(numUnused, removePortion)) == NumUnusedKeep(numUnused, removePortion)
  {
    var x := numUnused as real * (1.0 - removePortion);
    Scale(numUnused as real, 1.0 - removePortion);
  }

  lemma Scale(a: real, t: real)
    requires 0.0 <= a && 0.0 <= t <= 1.0
    ensures 0.0 <= a * t <= a
  {
    assert a * t <= a * 1.0;
  }

  /** Sorting two disjoint repetition-free lists gives a strictly increasing list of their elements. */
  lemma SortedUnion(used: seq<int>, kept: seq<int>)
    requires Distinct(used) && Distinct(kept)
    requires forall c :: c in kept ==> c !in used
    ensures var r := SortAscending(used + kept);
            StrictlyIncreasing(r) && forall c :: c in r <==> c in used || c in kept
  {
    var both := used + kept;
    var r := SortAscending(both);
    assert Distinct(both) by {
      forall a, b | 0 <= a < b < |both| ensures both[a] != both[b] {
        if b < |used| {
        } else if a >= |used| {
          assert both[a] == kept[a - |used|] && both[b] == kept[b - |used|];
        } else {
          assert both[b] in kept;
        }
      }
    }
    DistinctMultiset(both);
    SortedDistinct(r);
    forall c ensures c in r <==> c in used || c in kept {
      assert c in r <==> c in multiset(r);
      assert c in both <==> c in multiset(both);
    }
  }

  /** The used columns are the columns firing in more than one step, in increasing order. */
  lemma UsedFacts(rows: seq<seq<int>>, n: nat)
    requires Rectangular(rows, n)
    ensures var used := UsedColumns(rows, n);
            Distinct(used) && forall c :: c in used <==> 0 <= c < n && ColumnSums(rows, n)[c] > 1
  {
    var used := UsedColumns(rows, n);
    forall c | c in used ensures 0 <= c < n && ColumnSums(rows, n)[c] > 1 {
      var k :| 0 <= k < |used| && used[k] == c;
    }
  }

  /**
   * `stripSDRHistoryForDisplay`: the sorted concatenation of the used columns and
   * the kept unused columns; `perm` is the draw of `np.random.permutation`. The
   * result is a strictly increasing list of columns that holds every column firing
   * in more than one step, never a column firing in exactly one step, and
   * otherwise only the kept columns that never fire.
   */
  function StripSdrHistoryForDisplay(rows: seq<seq<int>>, n: nat, removePortion: real, perm: seq<int>): (r: seq<int>)
    requires Rectangular(rows, n) && IsPermutation(perm, |UnusedColumns(rows, n)|)
    ensures var sums := ColumnSums(rows, n);
            && StrictlyIncreasing(r)
            && (forall c :: c in r ==> 0 <= c < n && (sums[c] > 1 || sums[c] == 0))
            && (forall c :: 0 <= c < n && sums[c] > 1 ==> c in r)
            && (forall c :: c in r && sums[c] == 0 <==> c in KeptUnused(rows, n, removePortion, perm))
  {
    var used := UsedColumns(rows, n);
    var kept := KeptUnused(rows, n, removePortion, perm);
    UsedFacts(rows, n);
    KeptUnusedFacts(rows, n, removePortion, perm);
    SortedUnion(used, kept);
    SortAscending(used + kept)
  }

  // ---------------------------------------------------------------------------
  // generateSDRforDisplay

  /** `np.matlib.repmat(..., 10, 1)`: the display repeats the row ten times. */
  const DisplayRepeats: nat := 10

  /**
   * `generateSDRforDisplay`: ten copies of the code's dense row restricted to the
   * display columns. Negative width is ValueError; an active bit or display
   * column out of range is IndexError.
   */
  function GenerateSdrForDisplay(numNeuron: int, activeBits: seq<int>, displayBitIndex: seq<int>): (r: Result<seq<seq<int>>>)
    ensures r.Ok? <==> numNeuron >= 0 && AllInBounds(activeBits, numNeuron) && AllInBounds(displayBitIndex, numNeuron)
    ensures r.Err? ==> r.error == if numNeuron < 0 then ValueError else IndexError
    ensures r.Ok? ==> |r.value| == DisplayRepeats
    ensures r.Ok? ==> forall t :: 0 <= t < |r.value| ==>
                        |r.value[t]| == |displayBitIndex| && IsBinary(r.value[t]) &&
                        forall k :: 0 <= k < |displayBitIndex| ==>
                          (r.value[t][k] == 1 <==> Wrap(displayBitIndex[k], numNeuron) in Targets(activeBits, numNeuron))
  {
    match Indicator(numNeuron, activeBits)
    case Err(e) => Err(e)
    case Ok(sdr) =>
      if !AllInBounds(displayBitIndex, |sdr|) then Err(IndexError)
      else
        var row := Gather(sdr, displayBitIndex);
        Ok(seq(DisplayRepeats, _ => row))
  }

  /**
   * Reading a display row back through its display columns recovers the code's
   * active bits that are on display, and nothing else.
   */
  lemma DisplayRowDecodes(numNeuron: nat, activeBits: seq<int>, displayBitIndex: seq<nat>)
    requires AllInBounds(activeBits, numNeuron)
    requires forall k :: 0 <= k < |displayBitIndex| ==> displayBitIndex[k] < numNeuron
    ensures AllInBounds(displayBitIndex, numNeuron)
    ensures var r := GenerateSdrForDisplay(numNeuron, activeBits, displayBitIndex);
            r.Ok? &&
            forall t :: 0 <= t < |r.value| ==>
              var shown := Gather(displayBitIndex, Where(r.value[t]));
              forall c: nat :: c in shown <==> c in displayBitIndex && c in Targets(activeBits, numNeuron)
  {
    var sdr := Scatter(numNeuron, activeBits);
    var row := Gather(sdr, displayBitIndex);
    assert PositiveOf(sdr, displayBitIndex) == Gather(displayBitIndex, Where(row));
  }
}
