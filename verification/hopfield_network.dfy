/**
 * The hyper-column associative network as the class the scripts use: its recurrent
 * weights are an N x N array updated in place, the step writes winners into a
 * fresh zero vector hyper-column by hyper-column, and `run` records the active
 * cells of every state.
 */
module HopfieldNetwork {
  import opened Sdr
  import opened HopfieldSpec

  /** `order` sorts the first i positions of v by value: a permutation of range(i), ascending in v. */
  ghost predicate SortsPrefix(v: seq<int>, order: seq<nat>, i: nat)
    requires i <= |v|
  {
    && |order| == i
    && (forall a :: 0 <= a < |order| ==> order[a] < i)
    && Distinct(order)
    && (forall c :: 0 <= c < i ==> c in order)
    && (forall a, b :: 0 <= a < b < |order| ==> v[order[a]] <= v[order[b]])
  }

  /** What `np.argsort(v)` promises: a permutation of the positions listing v in ascending order. */
  ghost predicate IsArgsort(v: seq<int>, order: seq<nat>) {
    SortsPrefix(v, order, |v|)
  }

  /** Inserting position i after every cell no stronger than it extends a sorted prefix by one. */
  lemma InsertPosition(v: seq<int>, previous: seq<nat>, p: nat, i: nat)
    requires i < |v| && SortsPrefix(v, previous, i) && p <= i
    requires forall a :: 0 <= a < p ==> v[previous[a]] <= v[i]
    requires forall a :: p <= a < i ==> v[previous[a]] > v[i]
    ensures SortsPrefix(v, previous[..p] + [i] + previous[p..], i + 1)
  {
    var order := previous[..p] + [i] + previous[p..];
    assert forall a :: 0 <= a < p ==> order[a] == previous[a];
    assert forall a :: p <= a < i ==> order[a + 1] == previous[a];
    forall c | 0 <= c < i ensures c in order {
      assert c in previous;
      var a :| 0 <= a < i && previous[a] == c;
      if a < p { assert order[a] == c; } else { assert order[a + 1] == c; }
    }
    assert order[p] == i;
  }

  /**
   * `np.argsort(v)`. NumPy's default sort is not stable, so which of several equal
   * values comes first is unspecified; callers rely on IsArgsort only.
   */
  method Argsort(v: seq<int>) returns (order: seq<nat>)
    ensures IsArgsort(v, order)
  {
    order := [];
    for i := 0 to |v|
      invariant SortsPrefix(v, order, i)
    {
      var p := 0;
      while p < i && v[order[p]] <= v[i]
        invariant 0 <= p <= i
        invariant forall a :: 0 <= a < p ==> v[order[a]] <= v[i]
      {
        p := p + 1;
      }
      assert forall a :: p <= a < i ==> v[order[a]] > v[i] by {
        if p < i {
          assert forall a :: p <= a < i ==> v[order[p]] <= v[order[a]];
        }
      }
      InsertPosition(v, order, p, i);
      order := order[..p] + [i] + order[p..];
    }
  }

  /** Every cell has a position in an argsort. */
  lemma PositionOf(v: seq<int>, order: seq<nat>, c: int) returns (a: nat)
    requires IsArgsort(v, order) && 0 <= c < |v|
    ensures a < |order| && order[a] == c
  {
    assert c in order;
    a :| 0 <= a < |order| && order[a] == c;
  }

  /** The cells in the last numActiveBit positions are exactly those at position at least |order| - keep. */
  lemma TopRank(order: seq<nat>, numActiveBit: int, a: int)
    requires Distinct(order) && 0 <= a < |order|
    ensures order[a] in Tail(order, numActiveBit) <==> a >= |order| - |Tail(order, numActiveBit)|
  {
    var top := Tail(order, numActiveBit);
    var s := |order| - |top|;
    if a >= s {
      assert top[a - s] == order[a];
    } else {
      forall k | 0 <= k < |top| ensures top[k] != order[a] {
        assert top[k] == order[s + k];
      }
    }
  }

  /** A cell strictly stronger than a top cell is itself a top cell. */
  lemma StrongerIsTop(v: seq<int>, order: seq<nat>, numActiveBit: int, c: int, d: int)
    requires IsArgsort(v, order) && 0 <= c < |v| && 0 <= d < |v|
    requires c in Tail(order, numActiveBit) && v[d] > v[c]
    ensures d in Tail(order, numActiveBit)
  {
    var pc := PositionOf(v, order, c);
    var pd := PositionOf(v, order, d);
    TopRank(order, numActiveBit, pc);
    TopRank(order, numActiveBit, pd);
    assert v[order[pd]] > v[order[pc]];
  }

  /** Every top cell is at least as strong as every cell outside the top set. */
  lemma TopIsStronger(v: seq<int>, order: seq<nat>, numActiveBit: int, c: int, d: int)
    requires IsArgsort(v, order) && 0 <= c < |v| && 0 <= d < |v|
    requires c !in Tail(order, numActiveBit) && d in Tail(order, numActiveBit)
    ensures v[d] >= v[c]
  {
    var pc := PositionOf(v, order, c);
    var pd := PositionOf(v, order, d);
    TopRank(order, numActiveBit, pc);
    TopRank(order, numActiveBit, pd);
    assert v[order[pc]] <= v[order[pd]];
  }

  /** The top set of a repetition-free order has as many distinct cells as positions. */
  lemma TopSize(order: seq<nat>, numActiveBit: int)
    requires Distinct(order)
    ensures |Elems(Tail(order, numActiveBit))| == |Tail(order, numActiveBit)|
  {
    TailDistinct(order, numActiveBit);
    ElemsBound(Tail(order, numActiveBit));
  }

  /** Cells chosen from the top set by their positive input. */
  ghost predicate PositiveTop(v: seq<int>, order: seq<nat>, numActiveBit: int, winners: seq<nat>) {
    forall c: nat :: c in winners <==> c in Tail(order, numActiveBit) && c < |v| && v[c] > 0
  }

  /** The winners are in range and are counted once each. */
  lemma WinnersCount(v: seq<int>, order: seq<nat>, numActiveBit: int, winners: seq<nat>)
    requires Distinct(order) && PositiveTop(v, order, numActiveBit, winners)
    ensures AllInBounds(winners, |v|)
    ensures Sum(Scatter(|v|, winners)) == |Elems(winners)| <= |Tail(order, numActiveBit)|
  {
    forall k | 0 <= k < |winners| ensures InBounds(winners[k], |v|) {
      assert winners[k] in winners;
    }
    TargetsOfNatural(winners, |v|);
    assert Targets(winners, |v|) == Elems(winners);
    SumOfScatter(|v|, winners);
    TopSize(order, numActiveBit);
    SubsetSize(Elems(winners), Elems(Tail(order, numActiveBit)));
  }

  /**
   * The last `numActiveBit` cells of an argsort, restricted to those with positive
   * input, form a k-winners outcome.
   */
  lemma ArgsortTailWinners(v: seq<int>, order: seq<nat>, numActiveBit: int, winners: seq<nat>)
    requires IsArgsort(v, order)
    requires PositiveTop(v, order, numActiveBit, winners)
    ensures AllInBounds(winners, |v|)
    ensures KWinners(v, Scatter(|v|, winners), numActiveBit)
  {
    var n := |v|;
    var top := Tail(order, numActiveBit);
    WinnersCount(v, order, numActiveBit, winners);
    var y := Scatter(n, winners);
    assert forall c :: 0 <= c < n ==> (y[c] == 1 <==> c in winners) by {
      TargetsOfNatural(winners, n);
    }
    forall c, d | 0 <= c < n && 0 <= d < n && y[c] == 1 && v[d] > v[c] ensures y[d] == 1 {
      StrongerIsTop(v, order, numActiveBit, c, d);
    }
    forall c | 0 <= c < n && y[c] == 0 && v[c] > 0
      ensures Sum(y) == |top| && forall d :: 0 <= d < n && y[d] == 1 ==> v[d] >= v[c]
    {
      forall d | d in top ensures v[d] >= v[c] && d in winners {
        TopIsStronger(v, order, numActiveBit, c, d);
      }
      assert Elems(winners) == Elems(top);
      TopSize(order, numActiveBit);
    }
  }

  /**
   * One hyper-column of `runSingleStep`: argsort its net inputs, keep the last
   * numActiveBit positions, drop those whose input is not positive.
   */
  method SelectWinners(v: seq<int>, numActiveBit: int) returns (winners: seq<nat>)
    ensures AllInBounds(winners, |v|)
    ensures KWinners(v, Scatter(|v|, winners), numActiveBit)
  {
    var cellIdx := Argsort(v);
    TopWinners(v, cellIdx, numActiveBit);
    var activeCells := Tail(cellIdx, numActiveBit);
    winners := PositiveOf(v, activeCells);
  }

  /** The positive cells among the last numActiveBit positions of an argsort form a k-winners outcome. */
  lemma TopWinners(v: seq<int>, order: seq<nat>, numActiveBit: int)
    requires IsArgsort(v, order)
    ensures forall k :: 0 <= k < |Tail(order, numActiveBit)| ==> Tail(order, numActiveBit)[k] < |v|
    ensures var winners := PositiveOf(v, Tail(order, numActiveBit));
            AllInBounds(winners, |v|) && KWinners(v, Scatter(|v|, winners), numActiveBit)
  {
    TopInRange(v, order, numActiveBit);
    var winners := PositiveOf(v, Tail(order, numActiveBit));
    assert PositiveTop(v, order, numActiveBit, winners);
    ArgsortTailWinners(v, order, numActiveBit, winners);
  }

  lemma TopInRange(v: seq<int>, order: seq<nat>, numActiveBit: int)
    requires IsArgsort(v, order)
    ensures forall k :: 0 <= k < |Tail(order, numActiveBit)| ==> Tail(order, numActiveBit)[k] < |v|
  {
    var top := Tail(order, numActiveBit);
    forall k | 0 <= k < |top| ensures top[k] < |v| {
      assert top[k] == order[|order| - |top| + k];
    }
  }

  /** The first i hyper-columns of y are k-winners outcomes of those of v. */
  ghost predicate ColumnsDone(v: seq<int>, y: seq<int>, C: nat, i: nat, numActiveBit: int) {
    forall h :: 0 <= h < i ==> KWinners(Block(v, h, C), Block(y, h, C), numActiveBit)
  }

  /**
   * Filling hyper-column i of a state keeps the k-winners outcome of the earlier
   * hyper-columns and adds that of column i.
   */
  lemma BlocksKept(v: seq<int>, before: seq<int>, after: seq<int>, i: nat, C: nat, numActiveBit: int)
    requires |before| == |after| && 0 <= i * C && i * C + C <= |after|
    requires after[..i * C] == before[..i * C]
    requires ColumnsDone(v, before, C, i, numActiveBit)
    requires KWinners(Block(v, i, C), after[i * C .. i * C + C], numActiveBit)
    ensures ColumnsDone(v, after, C, i + 1, numActiveBit)
  {
    PrefixBlocks(before, after, i, C);
    assert Block(after, i, C) == after[i * C .. i * C + C];
  }

  /** Two states that agree on the first i hyper-columns have the same blocks there. */
  lemma PrefixBlocks(before: seq<int>, after: seq<int>, i: nat, C: nat)
    requires |before| == |after| && 0 <= i * C <= |after|
    requires after[..i * C] == before[..i * C]
    ensures forall h :: 0 <= h < i ==> Block(after, h, C) == Block(before, h, C)
  {
    forall h | 0 <= h < i ensures Block(after, h, C) == Block(before, h, C) {
      BlockFits(h, i, C);
      assert after[h * C .. h * C + C] == after[..i * C][h * C .. h * C + C];
      assert before[h * C .. h * C + C] == before[..i * C][h * C .. h * C + C];
    }
  }

  /** Each state of the sequence is a step from the one before it. */
  ghost predicate Trajectory(M: seq<seq<int>>, H: nat, C: nat, states: seq<seq<int>>, numActiveBit: int) {
    forall t :: 0 <= t < |states| - 1 ==> IsStep(M, H, C, states[t], states[t + 1], numActiveBit)
  }

  lemma TrajectoryExtend(M: seq<seq<int>>, H: nat, C: nat, states: seq<seq<int>>, next: seq<int>, numActiveBit: int)
    requires states != [] && Trajectory(M, H, C, states, numActiveBit)
    requires IsStep(M, H, C, states[|states| - 1], next, numActiveBit)
    ensures Trajectory(M, H, C, states + [next], numActiveBit)
  {
    var extended := states + [next];
    forall t | 0 <= t < |extended| - 1
      ensures IsStep(M, H, C, extended[t], extended[t + 1], numActiveBit)
    {
      if t < |states| - 1 {
        assert extended[t] == states[t] && extended[t + 1] == states[t + 1];
      }
    }
  }

  lemma MatrixEquality(A: seq<seq<int>>, B: seq<seq<int>>, n: nat)
    requires IsSquare(A, n) && IsSquare(B, n)
    requires forall i, j :: 0 <= i < n && 0 <= j < n ==> A[i][j] == B[i][j]
    ensures A == B
  {
    forall i | 0 <= i < n ensures A[i] == B[i] {
      assert forall j :: 0 <= j < n ==> A[i][j] == B[i][j];
    }
  }

  class HyperColumnNetwork {
    const numHyperColumn: nat
    const numNeuronPerHyperColumn: nat
    const numActiveNeuronPerHyperColumn: int
    const numInputs: nat
    const numNeuronTotal: nat
    var weightRecurrent: array2<int>

    ghost predicate Valid()
      reads this
    {
      && numNeuronTotal == numHyperColumn * numNeuronPerHyperColumn
      && weightRecurrent.Length0 == numNeuronTotal
      && weightRecurrent.Length1 == numNeuronTotal
    }

    /** The recurrent weights, row by row. */
    function Weights(): (M: seq<seq<int>>)
      requires Valid()
      reads this, weightRecurrent
      ensures IsSquare(M, numNeuronTotal)
      ensures forall i, j :: 0 <= i < numNeuronTotal && 0 <= j < numNeuronTotal ==> M[i][j] == weightRecurrent[i, j]
    {
      var W := weightRecurrent;
      seq(W.Length0, i requires 0 <= i < W.Length0 reads W =>
        seq(W.Length1, j requires 0 <= j < W.Length1 reads W => W[i, j]))
    }

    /** `hyperColumnNetwork(...)`: N = H * C neurons and an all-zero N x N weight matrix. */
    constructor (numHyperColumn: nat, numNeuronPerHyperColumn: nat,
                 numActiveNeuronPerHyperColumn: int, numInputs: nat)
      ensures Valid() && fresh(weightRecurrent)
      ensures this.numHyperColumn == numHyperColumn
      ensures this.numNeuronPerHyperColumn == numNeuronPerHyperColumn
      ensures this.numActiveNeuronPerHyperColumn == numActiveNeuronPerHyperColumn
      ensures this.numInputs == numInputs
      ensures numNeuronTotal == numHyperColumn * numNeuronPerHyperColumn
      ensures Weights() == ZeroMatrix(numNeuronTotal)
    {
      this.numHyperColumn := numHyperColumn;
      this.numNeuronPerHyperColumn := numNeuronPerHyperColumn;
      this.numActiveNeuronPerHyperColumn := numActiveNeuronPerHyperColumn;
      this.numInputs := numInputs;
      ProductNonNegative(numHyperColumn, numNeuronPerHyperColumn);
      var total := numHyperColumn * numNeuronPerHyperColumn;
      numNeuronTotal := total;
      weightRecurrent := new int[total, total]((i, j) => 0);
      new;
      MatrixEquality(Weights(), ZeroMatrix(total), total);
    }

    /**
     * `initializeObjectSDRs`: one code per object, the first
     * numActiveNeuronPerHyperColumn entries of that object's permutation of the
     * hyper-column's cells.
     */
    method InitializeObjectSdrs(numObjects: int, perms: seq<seq<int>>) returns (objectSdrActiveBits: seq<seq<int>>)
      requires |perms| == Max0(numObjects)
      requires forall i :: 0 <= i < |perms| ==> IsPermutation(perms[i], numNeuronPerHyperColumn)
      ensures |objectSdrActiveBits| == Max0(numObjects)
      ensures forall i :: 0 <= i < |objectSdrActiveBits| ==>
                objectSdrActiveBits[i] == Head(perms[i], numActiveNeuronPerHyperColumn)
      ensures forall i :: 0 <= i < |objectSdrActiveBits| ==>
                |objectSdrActiveBits[i]| == HeadLen(numNeuronPerHyperColumn, numActiveNeuronPerHyperColumn)
      ensures forall i :: 0 <= i < |objectSdrActiveBits| ==> Distinct(objectSdrActiveBits[i])
      ensures forall i, k :: 0 <= i < |objectSdrActiveBits| && 0 <= k < |objectSdrActiveBits[i]| ==>
                0 <= objectSdrActiveBits[i][k] < numNeuronPerHyperColumn
    {
      objectSdrActiveBits := [];
      for i := 0 to Max0(numObjects)
        invariant |objectSdrActiveBits| == i
        invariant forall t :: 0 <= t < i ==> objectSdrActiveBits[t] == Head(perms[t], numActiveNeuronPerHyperColumn)
      {
        var randomCells := perms[i];
        objectSdrActiveBits := objectSdrActiveBits + [Head(randomCells, numActiveNeuronPerHyperColumn)];
      }
    }

    /** `weightRecurrent += np.dot(objectSDR, objectSDR.T)` for one code already known to fit. */
    method AddOuterProduct(code: seq<int>)
      requires Valid() && AllInBounds(code, numNeuronPerHyperColumn)
      requires ShapeRule(numNeuronPerHyperColumn, numNeuronTotal) != Mismatch
      modifies weightRecurrent
      ensures forall a, b :: 0 <= a < numNeuronTotal && 0 <= b < numNeuronTotal ==>
                weightRecurrent[a, b] == old(weightRecurrent[a, b]) + OuterEntry(code, numNeuronPerHyperColumn, numNeuronTotal, a, b)
    {
      var C, N := numNeuronPerHyperColumn, numNeuronTotal;
      var objectSdr := Scatter(C, code);
      for i := 0 to N
        invariant forall a, b :: 0 <= a < N && 0 <= b < N ==>
                    weightRecurrent[a, b] == old(weightRecurrent[a, b]) + (if a < i then OuterEntry(code, C, N, a, b) else 0)
      {
        for j := 0 to N
          invariant forall a, b :: 0 <= a < N && 0 <= b < N ==>
                      weightRecurrent[a, b] == old(weightRecurrent[a, b])
                                               + (if a < i || (a == i && b < j) then OuterEntry(code, C, N, a, b) else 0)
        {
          var product := if C == N then objectSdr[i] * objectSdr[j] else objectSdr[0] * objectSdr[0];
          assert product == OuterEntry(code, C, N, i, j);
          weightRecurrent[i, j] := weightRecurrent[i, j] + product;
        }
      }
    }

    /** The loop of `memorizeObjectSDRs` that sets every `weightRecurrent[i, i]` to 0. */
    method ClearDiagonal()
      requires Valid()
      modifies weightRecurrent
      ensures forall a, b :: 0 <= a < numNeuronTotal && 0 <= b < numNeuronTotal ==>
                weightRecurrent[a, b] == if a == b then 0 else old(weightRecurrent[a, b])
    {
      for i := 0 to numNeuronTotal
        invariant forall a, b :: 0 <= a < numNeuronTotal && 0 <= b < numNeuronTotal ==>
                    weightRecurrent[a, b] == if a == b && a < i then 0 else old(weightRecurrent[a, b])
      {
        weightRecurrent[i, i] := 0;
      }
    }

    /**
     * The accumulation loop of `memorizeObjectSDRs`: add each code's outer product
     * to the weights, stopping at the first code that raises.
     */
    method AccumulateCodes(codes: seq<seq<int>>) returns (outcome: Result<()>)
      requires Valid()
      modifies weightRecurrent
      ensures Valid()
      ensures outcome.Ok? <==> Memorizable(codes, numNeuronPerHyperColumn, numNeuronTotal)
      ensures outcome.Ok? ==>
                Weights() == Accumulate(old(Weights()), codes, numNeuronPerHyperColumn, numNeuronTotal)
      ensures outcome.Err? ==>
                var stop := MemorizeStop(codes, numNeuronPerHyperColumn, numNeuronTotal);
                && stop < |codes|
                && Weights() == Accumulate(old(Weights()), codes[..stop], numNeuronPerHyperColumn, numNeuronTotal)
                && outcome.error == if AllInBounds(codes[stop], numNeuronPerHyperColumn) then ValueError else IndexError
    {
      var C, N := numNeuronPerHyperColumn, numNeuronTotal;
      ghost var W0 := Weights();
      assert codes[..0] == [];
      for k := 0 to |codes|
        invariant HoldsAccumulated(W0, codes[..k])
      {
        if !AllInBounds(codes[k], C) {
          assert FirstOutOfBounds(codes, C) == k;
          HeldWeights(W0, codes[..k]);
          return Err(IndexError);
        }
        if ShapeRule(C, N) == Mismatch {
          assert k == 0;
          HeldWeights(W0, codes[..k]);
          return Err(ValueError);
        }
        assert codes[..k + 1] == codes[..k] + [codes[k]];
        assert codes[..k + 1][..k] == codes[..k];
        AddOuterProduct(codes[k]);
      }
      assert codes[..|codes|] == codes;
      HeldWeights(W0, codes);
      outcome := Ok(());
    }

    /** The weights are W0 plus the co-activations of the given codes. */
    ghost predicate HoldsAccumulated(W0: seq<seq<int>>, codes: seq<seq<int>>)
      requires Valid() && IsSquare(W0, numNeuronTotal)
      reads this, weightRecurrent
    {
      Memorizable(codes, numNeuronPerHyperColumn, numNeuronTotal) &&
      forall a, b :: 0 <= a < numNeuronTotal && 0 <= b < numNeuronTotal ==>
        weightRecurrent[a, b] == W0[a][b] + CoActivation(codes, numNeuronPerHyperColumn, numNeuronTotal, a, b)
    }

    lemma HeldWeights(W0: seq<seq<int>>, codes: seq<seq<int>>)
      requires Valid() && IsSquare(W0, numNeuronTotal) && HoldsAccumulated(W0, codes)
      ensures Memorizable(codes, numNeuronPerHyperColumn, numNeuronTotal)
      ensures Weights() == Accumulate(W0, codes, numNeuronPerHyperColumn, numNeuronTotal)
    {
      MatrixEquality(Weights(), Accumulate(W0, codes, numNeuronPerHyperColumn, numNeuronTotal), numNeuronTotal);
    }

    /**
     * `memorizeObjectSDRs`: add each code's outer product to the weights, then
     * clear the diagonal. The weights are not reset first. A code index outside
     * the hyper-column raises IndexError and a C x C product that cannot be
     * combined with the N x N weights raises ValueError; the codes added before
     * the failing one stay added and the diagonal is left as it is.
     */
    method MemorizeObjectSdrs(objectSdrActiveBits: seq<seq<int>>) returns (outcome: Result<()>)
      requires Valid()
      modifies weightRecurrent
      ensures Valid()
      ensures outcome.Ok? <==> Memorizable(objectSdrActiveBits, numNeuronPerHyperColumn, numNeuronTotal)
      ensures outcome.Ok? ==>
                Weights() == Memorized(old(Weights()), objectSdrActiveBits, numNeuronPerHyperColumn, numNeuronTotal)
      ensures outcome.Err? ==>
                var stop := MemorizeStop(objectSdrActiveBits, numNeuronPerHyperColumn, numNeuronTotal);
                && stop < |objectSdrActiveBits|
                && Weights() == Accumulate(old(Weights()), objectSdrActiveBits[..stop], numNeuronPerHyperColumn, numNeuronTotal)
                && outcome.error == if AllInBounds(objectSdrActiveBits[stop], numNeuronPerHyperColumn) then ValueError else IndexError
    {
      ghost var W0 := Weights();
      outcome := AccumulateCodes(objectSdrActiveBits);
      if outcome.Ok? {
        ghost var accumulated := Weights();
        ClearDiagonal();
        MatrixEquality(Weights(), ZeroDiagonal(accumulated), numNeuronTotal);
      }
    }

    /** `newState[offset + winners] = 1` on a hyper-column whose cells are still all zero. */
    static method WriteWinners(newState: array<int>, offset: nat, C: nat, winners: seq<nat>)
      requires offset + C <= newState.Length
      requires AllInBounds(winners, C)
      requires forall j :: offset <= j < offset + C ==> newState[j] == 0
      modifies newState
      ensures newState[..offset] == old(newState[..offset])
      ensures forall j :: offset + C <= j < newState.Length ==> newState[j] == old(newState[j])
      ensures newState[offset .. offset + C] == Scatter(C, winners)
    {
      for k := 0 to |winners|
        invariant newState[..offset] == old(newState[..offset])
        invariant forall j :: offset + C <= j < newState.Length ==> newState[j] == old(newState[j])
        invariant AllInBounds(winners[..k], C)
        invariant newState[offset .. offset + C] == Scatter(C, winners[..k])
      {
        assert winners[..k + 1][..k] == winners[..k];
        newState[offset + winners[k]] := 1;
      }
      assert winners[..|winners|] == winners;
    }

    /**
     * One pass of the hyper-column loop of `runSingleStep`: the winners of
     * hyper-column i, at cells offset .. offset + C, are set to one.
     */
    static method FillColumn(newState: array<int>, inputOverlap: seq<int>, i: nat, offset: nat, C: nat, numActiveBit: int)
      requires newState.Length == |inputOverlap| && offset == i * C && offset + C <= |inputOverlap|
      requires forall j :: offset <= j < newState.Length ==> newState[j] == 0
      requires ColumnsDone(inputOverlap, newState[..], C, i, numActiveBit)
      modifies newState
      ensures forall j :: offset + C <= j < newState.Length ==> newState[j] == 0
      ensures ColumnsDone(inputOverlap, newState[..], C, i + 1, numActiveBit)
    {
      var slice := inputOverlap[offset .. offset + C];
      assert slice == Block(inputOverlap, i, C);
      var winners := SelectWinners(slice, numActiveBit);
      ghost var before := newState[..];
      WriteWinners(newState, offset, C, winners);
      BlocksKept(inputOverlap, before, newState[..], i, C, numActiveBit);
    }

    /**
     * `runSingleStep`: net input `W . state`, then per hyper-column the k-winners
     * selection written into a fresh zero vector. A state whose length is not N
     * makes the product fail (ValueError).
     */
    method RunSingleStep(inputState: seq<int>, numActiveBit: int) returns (r: Result<seq<int>>)
      requires Valid()
      ensures r.Ok? <==> |inputState| == numNeuronTotal
      ensures r.Ok? ==> IsStep(Weights(), numHyperColumn, numNeuronPerHyperColumn, inputState, r.value, numActiveBit)
    {
      if |inputState| != numNeuronTotal {
        return Err(ValueError);
      }
      var inputOverlap := NetInput(Weights(), inputState);
      var newState := WinnersPerColumn(inputOverlap, numHyperColumn, numNeuronPerHyperColumn, numActiveBit);
      r := Ok(newState);
    }

    /** The hyper-column loop of `runSingleStep`, from a zero state. */
    static method WinnersPerColumn(inputOverlap: seq<int>, H: nat, C: nat, numActiveBit: int) returns (state: seq<int>)
      requires |inputOverlap| == H * C
      ensures |state| == H * C
      ensures ColumnsDone(inputOverlap, state, C, H, numActiveBit)
    {
      var N := H * C;
      var newState := new int[N](_ => 0);
      var offset := 0;
      for i := 0 to H
        invariant offset == i * C && offset <= N
        invariant forall j :: offset <= j < N ==> newState[j] == 0
        invariant ColumnsDone(inputOverlap, newState[..], C, i, numActiveBit)
      {
        BlockFits(i, H, C);
        FillColumn(newState, inputOverlap, i, offset, C, numActiveBit);
        assert (i + 1) * C == offset + C;
        offset := offset + C;
      }
      state := newState[..];
    }

    /**
     * `run`: apply the step numStep times (no early exit) and record, for the
     * initial state and every later one, the indices of its positive entries.
     * numActiveBit defaults to numActiveNeuronPerHyperColumn. The ghost `states`
     * are the successive states.
     */
    method Run(initialState: seq<int>, numStep: int, numActiveBit: Option<int>)
      returns (r: Result<seq<seq<nat>>>, ghost states: seq<seq<int>>)
      requires Valid()
      ensures r.Ok? <==> (numStep <= 0 || |initialState| == numNeuronTotal)
      ensures r.Ok? ==>
                var activeBits := if numActiveBit.None? then numActiveNeuronPerHyperColumn else numActiveBit.value;
                && |r.value| == Max0(numStep) + 1 && |states| == |r.value|
                && states[0] == initialState
                && (forall t :: 0 <= t < |states| ==> r.value[t] == Where(states[t]))
                && Trajectory(Weights(), numHyperColumn, numNeuronPerHyperColumn, states, activeBits)
    {
      var activeBits := if numActiveBit.None? then numActiveNeuronPerHyperColumn else numActiveBit.value;
      ghost var W := Weights();
      var currentState := initialState;
      var activeStateHistory := [Where(initialState)];
      states := [initialState];
      for i := 0 to Max0(numStep)
        invariant |activeStateHistory| == i + 1 == |states|
        invariant states[0] == initialState && states[i] == currentState
        invariant i > 0 ==> |currentState| == numNeuronTotal && |initialState| == numNeuronTotal
        invariant forall t :: 0 <= t <= i ==> activeStateHistory[t] == Where(states[t])
        invariant Trajectory(W, numHyperColumn, numNeuronPerHyperColumn, states, activeBits)
      {
        var next := RunSingleStep(currentState, activeBits);
        if next.Err? {
          return Err(next.error), states;
        }
        TrajectoryExtend(W, numHyperColumn, numNeuronPerHyperColumn, states, next.value, activeBits);
        currentState := next.value;
        activeStateHistory := activeStateHistory + [Where(currentState)];
        states := states + [currentState];
      }
      r := Ok(activeStateHistory);
    }
  }
}
