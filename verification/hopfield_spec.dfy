/**
 * What the hyper-column associative network computes, as functions and predicates
 * over matrices held as sequences of rows: the Hebbian weight update of
 * `memorizeObjectSDRs`, the net input `W . state`, and the per-hyper-column
 * k-winners-take-all rule of `runSingleStep`.
 */
module HopfieldSpec {
  import opened Sdr

  predicate IsSquare(M: seq<seq<int>>, n: int) {
    |M| == n && forall i :: 0 <= i < |M| ==> |M[i]| == n
  }

  function ZeroMatrix(n: nat): (M: seq<seq<int>>)
    ensures IsSquare(M, n)
    ensures forall i, j :: 0 <= i < n && 0 <= j < n ==> M[i][j] == 0
  {
    seq(n, _ => Zeros(n))
  }

  predicate Symmetric(M: seq<seq<int>>)
    requires IsSquare(M, |M|)
  {
    forall i, j :: 0 <= i < |M| && 0 <= j < |M| ==> M[i][j] == M[j][i]
  }

  // ---------------------------------------------------------------------------
  // memorizeObjectSDRs

  /**
   * How `W += np.dot(s, s.T)` combines the C x C outer product of a code with the
   * N x N weight matrix: entry by entry when C == N, as a broadcast scalar when
   * C == 1, and not at all (ValueError) otherwise.
   */
  datatype Shape = Elementwise | Scalar | Mismatch

  function ShapeRule(C: nat, N: nat): Shape {
    if C == N then Elementwise else if C == 1 then Scalar else Mismatch
  }

  /** The codes can all be added: each index fits a column of length C, and the shapes agree. */
  predicate Memorizable(codes: seq<seq<int>>, C: nat, N: nat) {
    (forall k :: 0 <= k < |codes| ==> AllInBounds(codes[k], C))
    && (codes == [] || ShapeRule(C, N) != Mismatch)
  }

  /** Entry (i, j) of the C x C outer product, as it lands on the N x N matrix. */
  function OuterEntry(code: seq<int>, C: nat, N: nat, i: nat, j: nat): int
    requires AllInBounds(code, C) && ShapeRule(C, N) != Mismatch
    requires i < N && j < N
  {
    var s := Scatter(C, code);
    if C == N then s[i] * s[j] else s[0] * s[0]
  }

  /** The total that all codes add to entry (i, j). */
  function CoActivation(codes: seq<seq<int>>, C: nat, N: nat, i: nat, j: nat): int
    requires Memorizable(codes, C, N) && i < N && j < N
  {
    if codes == [] then 0
    else
      var n := |codes| - 1;
      assert forall k :: 0 <= k < n ==> codes[..n][k] == codes[k];
      CoActivation(codes[..n], C, N, i, j) + OuterEntry(codes[n], C, N, i, j)
  }

  /** The matrix after the accumulation loop, before the diagonal is cleared. */
  function Accumulate(M: seq<seq<int>>, codes: seq<seq<int>>, C: nat, N: nat): (R: seq<seq<int>>)
    requires IsSquare(M, N) && Memorizable(codes, C, N)
    ensures IsSquare(R, N)
  {
    seq(N, i requires 0 <= i < N => seq(N, j requires 0 <= j < N => M[i][j] + CoActivation(codes, C, N, i, j)))
  }

  function ZeroDiagonal(M: seq<seq<int>>): (R: seq<seq<int>>)
    requires IsSquare(M, |M|)
    ensures IsSquare(R, |M|)
  {
    seq(|M|, i requires 0 <= i < |M| => seq(|M|, j requires 0 <= j < |M| => if i == j then 0 else M[i][j]))
  }

  /** The weight matrix after a successful `memorizeObjectSDRs(codes)` on M. */
  function Memorized(M: seq<seq<int>>, codes: seq<seq<int>>, C: nat, N: nat): (R: seq<seq<int>>)
    requires IsSquare(M, N) && Memorizable(codes, C, N)
    ensures IsSquare(R, N)
  {
    ZeroDiagonal(Accumulate(M, codes, C, N))
  }

  /**
   * Where `memorizeObjectSDRs` stops: the first code with an index outside the
   * column (IndexError), code 0 when the shapes cannot be combined (ValueError),
   * or |codes| when all of them are added.
   */
  function FirstOutOfBounds(codes: seq<seq<int>>, C: nat): (k: nat)
    ensures k <= |codes|
    ensures forall m :: 0 <= m < k ==> AllInBounds(codes[m], C)
    ensures k < |codes| ==> !AllInBounds(codes[k], C)
  {
    if codes == [] then 0
    else if !AllInBounds(codes[0], C) then 0
    else 1 + FirstOutOfBounds(codes[1..], C)
  }

  function MemorizeStop(codes: seq<seq<int>>, C: nat, N: nat): (k: nat)
    ensures k <= |codes|
    ensures Memorizable(codes[..k], C, N)
    ensures k == |codes| <==> Memorizable(codes, C, N)
  {
    if codes != [] && ShapeRule(C, N) == Mismatch then 0 else FirstOutOfBounds(codes, C)
  }

  lemma {:induction false} CoActivationSymmetric(codes: seq<seq<int>>, C: nat, N: nat, i: nat, j: nat)
    requires Memorizable(codes, C, N) && i < N && j < N
    ensures CoActivation(codes, C, N, i, j) == CoActivation(codes, C, N, j, i)
  {
    if codes != [] {
      var n := |codes| - 1;
      assert Memorizable(codes[..n], C, N);
      CoActivationSymmetric(codes[..n], C, N, i, j);
    }
  }

  /**
   * Memorizing keeps a symmetric matrix symmetric and always leaves a zero diagonal;
   * off the diagonal it adds the co-activation counts to what was already there.
   */
  lemma MemorizedShape(M: seq<seq<int>>, codes: seq<seq<int>>, C: nat, N: nat)
    requires IsSquare(M, N) && Memorizable(codes, C, N)
    ensures forall i :: 0 <= i < N ==> Memorized(M, codes, C, N)[i][i] == 0
    ensures forall i, j :: 0 <= i < N && 0 <= j < N && i != j ==>
              Memorized(M, codes, C, N)[i][j] == M[i][j] + CoActivation(codes, C, N, i, j)
    ensures Symmetric(M) ==> Symmetric(Memorized(M, codes, C, N))
  {
    var R := Memorized(M, codes, C, N);
    if Symmetric(M) {
      forall i, j | 0 <= i < N && 0 <= j < N ensures R[i][j] == R[j][i] {
        CoActivationSymmetric(codes, C, N, i, j);
      }
    }
  }

  /** The indices of the codes in which both i and j are active. */
  ghost function CodesWithBoth(codes: seq<seq<int>>, C: nat, i: nat, j: nat): set<nat>
    requires forall k :: 0 <= k < |codes| ==> AllInBounds(codes[k], C)
  {
    set k | 0 <= k < |codes| && i in Targets(codes[k], C) && j in Targets(codes[k], C)
  }

  /**
   * With one hyper-column (C == N), what memorizing adds to W[i][j] is the number
   * of codes that contain both i and j.
   */
  /** With C == N, a code adds 1 to W[i][j] when it contains both i and j, and 0 otherwise. */
  lemma OuterEntryIndicator(code: seq<int>, C: nat, i: nat, j: nat)
    requires AllInBounds(code, C) && i < C && j < C
    ensures OuterEntry(code, C, C, i, j) == if i in Targets(code, C) && j in Targets(code, C) then 1 else 0
  {
    var s := Scatter(C, code);
    assert s[i] == 0 || s[i] == 1;
    assert s[j] == 0 || s[j] == 1;
  }

  lemma CodesWithBothSnoc(codes: seq<seq<int>>, C: nat, i: nat, j: nat)
    requires codes != [] && forall k :: 0 <= k < |codes| ==> AllInBounds(codes[k], C)
    ensures var n := |codes| - 1;
            CodesWithBoth(codes, C, i, j)
            == CodesWithBoth(codes[..n], C, i, j)
               + (if i in Targets(codes[n], C) && j in Targets(codes[n], C) then {n} else {})
  {
    var n := |codes| - 1;
    assert forall k :: 0 <= k < n ==> codes[..n][k] == codes[k];
  }

  /**
   * With one hyper-column (C == N), what memorizing adds to W[i][j] is the number
   * of codes that contain both i and j.
   */
  lemma {:induction false} CoActivationCountsCodes(codes: seq<seq<int>>, C: nat, i: nat, j: nat)
    requires Memorizable(codes, C, C) && i < C && j < C
    ensures CoActivation(codes, C, C, i, j) == |CodesWithBoth(codes, C, i, j)|
  {
    if codes != [] {
      var n := |codes| - 1;
      var front := codes[..n];
      assert Memorizable(front, C, C);
      CoActivationCountsCodes(front, C, i, j);
      OuterEntryIndicator(codes[n], C, i, j);
      CodesWithBothSnoc(codes, C, i, j);
      assert n !in CodesWithBoth(front, C, i, j);
    }
  }

  /**
   * `memorizeObjectSDRs` does not reset the matrix: memorizing the same codes twice
   * counts every co-activation twice.
   */
  lemma MemorizeTwiceDoubles(M: seq<seq<int>>, codes: seq<seq<int>>, C: nat, N: nat)
    requires IsSquare(M, N) && Memorizable(codes, C, N)
    ensures forall i, j :: 0 <= i < N && 0 <= j < N && i != j ==>
              Memorized(Memorized(M, codes, C, N), codes, C, N)[i][j]
              == M[i][j] + 2 * CoActivation(codes, C, N, i, j)
  {
    MemorizedShape(M, codes, C, N);
    MemorizedShape(Memorized(M, codes, C, N), codes, C, N);
  }

  // ---------------------------------------------------------------------------
  // runSingleStep

  function Dot(a: seq<int>, x: seq<int>): int
    requires |a| == |x|
  {
    if a == [] then 0 else Dot(a[..|a| - 1], x[..|x| - 1]) + a[|a| - 1] * x[|x| - 1]
  }

  /** `np.dot(W, state)`. */
  function NetInput(M: seq<seq<int>>, x: seq<int>): seq<int>
    requires forall i :: 0 <= i < |M| ==> |M[i]| == |x|
  {
    seq(|M|, i requires 0 <= i < |M| => Dot(M[i], x))
  }

  /** The h-th hyper-column's slice `s[h*C : h*C + C]` (empty when it does not fit). */
  function Block(s: seq<int>, h: int, C: nat): seq<int> {
    if 0 <= h * C && h * C + C <= |s| then s[h * C .. h * C + C] else []
  }

  lemma {:induction false} ProductNonNegative(a: nat, b: nat)
    ensures 0 <= a * b
  {
    if a > 0 {
      ProductNonNegative(a - 1, b);
      assert a * b == (a - 1) * b + b;
    }
  }

  lemma {:induction false} BlockFits(h: nat, H: nat, C: nat)
    requires h < H
    ensures 0 <= h * C && h * C + C <= H * C
  {
    ProductNonNegative(h, C);
    if h + 1 < H {
      BlockFits(h, H - 1, C);
      assert H * C == (H - 1) * C + C;
    } else {
      assert H * C == h * C + C;
    }
  }

  /**
   * y is the outcome of one k-winners-take-all step on one hyper-column whose net
   * inputs are v: some `numActiveBit`-sized top set (the tail of an ascending
   * argsort; ties in any order), restricted to the cells with positive input.
   * The last clause says that a positive cell is left out only when the top set
   * is full of cells at least as strong as it.
   */
  ghost predicate KWinners(v: seq<int>, y: seq<int>, numActiveBit: int) {
    var keep := TailLen(|v|, numActiveBit);
    && |y| == |v| && IsBinary(y)
    && Sum(y) <= keep
    && (forall c :: 0 <= c < |v| && y[c] == 1 ==> v[c] > 0)
    && (forall c, d :: 0 <= c < |v| && 0 <= d < |v| && y[c] == 1 && v[d] > v[c] ==> y[d] == 1)
    && (forall c :: 0 <= c < |v| && y[c] == 0 && v[c] > 0 ==>
          Sum(y) == keep && forall d :: 0 <= d < |v| && y[d] == 1 ==> v[d] >= v[c])
  }

  /** y is a possible result of `runSingleStep(x, numActiveBit)` with weights M. */
  ghost predicate IsStep(M: seq<seq<int>>, H: nat, C: nat, x: seq<int>, y: seq<int>, numActiveBit: int) {
    && IsSquare(M, H * C) && |x| == H * C && |y| == H * C
    && forall h :: 0 <= h < H ==> KWinners(Block(NetInput(M, x), h, C), Block(y, h, C), numActiveBit)
  }

  /** With one hyper-column the whole vector is a single k-winners slice. */
  lemma SingleColumnStep(M: seq<seq<int>>, C: nat, x: seq<int>, y: seq<int>, numActiveBit: int)
    requires IsStep(M, 1, C, x, y, numActiveBit)
    ensures KWinners(NetInput(M, x), y, numActiveBit)
  {
    var v := NetInput(M, x);
    assert KWinners(Block(v, 0, C), Block(y, 0, C), numActiveBit);
    assert Block(v, 0, C) == v;
    assert Block(y, 0, C) == y;
  }

  lemma {:induction false} Coordinates(i: nat, H: nat, C: nat) returns (h: nat, c: nat)
    requires i < H * C
    ensures h < H && c < C && i == h * C + c
  {
    if i < C {
      h, c := 0, i;
    } else {
      assert H * C > 0;
      assert H * C == (H - 1) * C + C;
      var h', c' := Coordinates(i - C, H - 1, C);
      h, c := h' + 1, c';
    }
  }

  /**
   * Cell by cell: a step yields a 0/1 vector, and a cell is active only if its net
   * input is strictly positive.
   */
  lemma StepCells(M: seq<seq<int>>, H: nat, C: nat, x: seq<int>, y: seq<int>, numActiveBit: int)
    requires IsStep(M, H, C, x, y, numActiveBit)
    ensures IsBinary(y)
    ensures forall i :: 0 <= i < |y| && y[i] == 1 ==> NetInput(M, x)[i] > 0
  {
    forall i | 0 <= i < |y|
      ensures (y[i] == 0 || y[i] == 1) && (y[i] == 1 ==> NetInput(M, x)[i] > 0)
    {
      StepCell(M, H, C, x, y, numActiveBit, i);
    }
  }

  lemma StepCell(M: seq<seq<int>>, H: nat, C: nat, x: seq<int>, y: seq<int>, numActiveBit: int, i: nat)
    requires IsStep(M, H, C, x, y, numActiveBit) && i < |y|
    ensures (y[i] == 0 || y[i] == 1) && (y[i] == 1 ==> NetInput(M, x)[i] > 0)
  {
    var v := NetInput(M, x);
    var h, c := Coordinates(i, H, C);
    BlockFits(h, H, C);
    var vb, yb := Block(v, h, C), Block(y, h, C);
    assert KWinners(vb, yb, numActiveBit);
    assert yb[c] == y[i];
    assert vb[c] == v[i];
  }

  // ---------------------------------------------------------------------------
  // One-step recall of a single stored code

  function Products(a: seq<int>, x: seq<int>): (p: seq<int>)
    requires |a| == |x|
    ensures |p| == |a| && forall j :: 0 <= j < |a| ==> p[j] == a[j] * x[j]
  {
    seq(|a|, j requires 0 <= j < |a| => a[j] * x[j])
  }

  lemma {:induction false} DotIsSumOfProducts(a: seq<int>, x: seq<int>)
    requires |a| == |x|
    ensures Dot(a, x) == Sum(Products(a, x))
  {
    if a != [] {
      var n := |a| - 1;
      DotIsSumOfProducts(a[..n], x[..n]);
      assert Products(a, x)[..n] == Products(a[..n], x[..n]);
    }
  }

  lemma SubsetSize<T>(A: set<T>, B: set<T>)
    ensures A <= B ==> |A| <= |B|
  {
    if A <= B {
      assert B == A + (B - A);
    }
  }

  /**
   * After memorizing one code into an all-zero matrix, presenting that code gives
   * every code cell a net input of (code size - 1) and every other cell 0.
   */
  lemma StoredCodeNetInput(C: nat, code: seq<int>)
    requires forall k :: 0 <= k < |code| ==> 0 <= code[k] < C
    ensures Memorizable([code], C, C)
    ensures forall i :: 0 <= i < C ==>
              NetInput(Memorized(ZeroMatrix(C), [code], C, C), Scatter(C, code))[i]
              == if i in Targets(code, C) then |Targets(code, C)| - 1 else 0
  {
    var M := Memorized(ZeroMatrix(C), [code], C, C);
    var x := Scatter(C, code);
    var T := Targets(code, C);
    var v := NetInput(M, x);
    assert [code][..0] == [];
    forall i | 0 <= i < C ensures v[i] == if i in T then |T| - 1 else 0 {
      var ones := if i in T then T - {i} else {};
      var p := Products(M[i], x);
      forall j | 0 <= j < C ensures p[j] == if j in ones then 1 else 0 {
        assert CoActivation([code], C, C, i, j) == x[i] * x[j];
        assert M[i][j] == if i == j then 0 else x[i] * x[j];
      }
      DotIsSumOfProducts(M[i], x);
      SumOfIndicator(p, ones);
    }
  }

  /**
   * When the k cells of T are the only ones with positive input and they all
   * receive the same input, a k-winners step activates exactly T.
   */
  lemma WinnersAreTheStrongSet(v: seq<int>, y: seq<int>, T: set<nat>, k: nat)
    requires 1 <= k <= |v| && |T| == k
    requires forall i :: i in T ==> i < |v|
    requires forall i :: 0 <= i < |v| ==> v[i] == if i in T then k - 1 else 0
    requires k >= 2
    requires KWinners(v, y, k)
    ensures forall c :: 0 <= c < |v| ==> (y[c] == 1 <==> c in T)
  {
    SumOfBinary(y);
    forall c | 0 <= c < |v| ensures y[c] == 1 <==> c in T {
      if c in T {
        SubsetSize(OnesOf(y), T - {c});
        assert y[c] == 0 ==> OnesOf(y) <= T - {c};
      }
    }
  }

  /**
   * A network with one hyper-column of C cells and a single memorized code of k
   * distinct cells (2 <= k <= C) recalls that code exactly in one step from it.
   */
  lemma OneStepRecall(C: nat, code: seq<int>, y: seq<int>)
    requires 2 <= |code| <= C
    requires forall k :: 0 <= k < |code| ==> 0 <= code[k] < C
    requires Distinct(code)
    requires IsStep(Memorized(ZeroMatrix(C), [code], C, C), 1, C, Scatter(C, code), y, |code|)
    ensures y == Scatter(C, code)
  {
    var M := Memorized(ZeroMatrix(C), [code], C, C);
    var x := Scatter(C, code);
    var T := Targets(code, C);
    assert |T| == |code| by {
      TargetsOfNatural(code, C);
      assert T == Elems(code);
      ElemsBound(code);
    }
    StoredCodeNetInput(C, code);
    SingleColumnStep(M, C, x, y, |code|);
    WinnersAreTheStrongSet(NetInput(M, x), y, T, |code|);
  }
}
