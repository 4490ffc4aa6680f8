/**
 * Union batching of encoder traces for sequence classification: the active
 * columns of consecutive time steps are merged, `unionLength` steps at a time.
 */
module UnionEncoder {
  import opened Sdr

  /** The union of a list of sets. */
  function UnionOf(s: seq<set<int>>): set<int> {
    if s == [] then {} else s[0] + UnionOf(s[1..])
  }

  lemma {:induction false} UnionOfAppend(a: seq<set<int>>, b: seq<set<int>>)
    ensures UnionOf(a + b) == UnionOf(a) + UnionOf(b)
  {
    if a == [] {
      assert a + b == b;
    } else {
      assert (a + b)[0] == a[0] && (a + b)[1..] == a[1..] + b;
      UnionOfAppend(a[1..], b);
    }
  }

  /** An element is in the union iff some set of the list holds it. */
  lemma {:induction false} UnionOfMembers(s: seq<set<int>>, x: int)
    ensures x in UnionOf(s) <==> exists t :: 0 <= t < |s| && x in s[t]
  {
    if s != [] {
      UnionOfMembers(s[1..], x);
      if x in UnionOf(s[1..]) {
        var t :| 0 <= t < |s| - 1 && x in s[1..][t];
        assert x in s[t + 1];
      }
      if exists t :: 0 <= t < |s| && x in s[t] {
        var t :| 0 <= t < |s| && x in s[t];
        if t > 0 {
          assert x in s[1..][t - 1];
        }
      }
    }
  }

  /**
   * Reference definition of batching with a window of L >= 1 steps: the union of
   * the first L sets, then the batches of the rest; the last window may be shorter.
   */
  function Batches(cols: seq<set<int>>, L: int): seq<set<int>>
    requires L >= 1
    decreases |cols|
  {
    if cols == [] then []
    else
      var m := Min(L, |cols|);
      [UnionOf(cols[..m])] + Batches(cols[m..], L)
  }

  /**
   * What `unionForOneSequence` returns: with L >= 1 the batches; with L <= 0 the
   * step counter never equals L, so everything falls into one final window.
   */
  function UnionTrace(cols: seq<set<int>>, L: int): seq<set<int>> {
    if L >= 1 then Batches(cols, L)
    else if cols == [] then []
    else [UnionOf(cols)]
  }

  /** A prefix of n steps splits into whole windows of L steps. */
  predicate WholeWindows(n: nat, L: int)
    requires L >= 1
  {
    n == 0 || (n >= L && WholeWindows(n - L, L))
  }

  lemma UnionOfSnoc(s: seq<set<int>>, x: set<int>)
    ensures UnionOf(s + [x]) == UnionOf(s) + x
  {
    UnionOfAppend(s, [x]);
    assert [x][1..] == [];
  }

  /** Closing one more window of 1..L steps after whole windows appends its union. */
  lemma {:induction false} BatchesSnoc(c: seq<set<int>>, w: seq<set<int>>, L: int)
    requires L >= 1 && WholeWindows(|c|, L) && 1 <= |w| <= L
    ensures Batches(c + w, L) == Batches(c, L) + [UnionOf(w)]
    decreases |c|
  {
    if c == [] {
      assert c + w == w;
      assert w[..Min(L, |w|)] == w;
      assert w[Min(L, |w|)..] == [];
    } else {
      assert (c + w)[..L] == c[..L];
      assert (c + w)[L..] == c[L..] + w;
      BatchesSnoc(c[L..], w, L);
    }
  }

  /**
   * The state of `unionForOneSequence` after t steps: the windows closed so far
   * cover the first `done` steps and the open window holds the rest.
   */
  ghost predicate Windowed(cols: seq<set<int>>, L: int, t: nat, done: nat, trace: seq<set<int>>,
                           unionCols: set<int>, stepInBatch: int)
  {
    done <= t <= |cols| && stepInBatch == t - done &&
    (L >= 1 ==> WholeWindows(done, L) && stepInBatch < L && trace == Batches(cols[..done], L)) &&
    (L <= 0 ==> done == 0 && trace == []) &&
    unionCols == UnionOf(cols[done..t])
  }

  /** One step: the set joins the open window, which closes once it holds L steps. */
  lemma WindowStep(cols: seq<set<int>>, L: int, t: nat, done: nat, trace: seq<set<int>>,
                   unionCols: set<int>, stepInBatch: int)
    requires t < |cols| && Windowed(cols, L, t, done, trace, unionCols, stepInBatch)
    ensures stepInBatch + 1 == L ==> Windowed(cols, L, t + 1, t + 1, trace + [unionCols + cols[t]], {}, 0)
    ensures stepInBatch + 1 != L ==> Windowed(cols, L, t + 1, done, trace, unionCols + cols[t], stepInBatch + 1)
  {
    assert cols[done..t + 1] == cols[done..t] + [cols[t]];
    UnionOfSnoc(cols[done..t], cols[t]);
    if stepInBatch + 1 == L {
      WindowClose(cols, L, t, done, trace);
    }
  }

  lemma WindowClose(cols: seq<set<int>>, L: int, t: nat, done: nat, trace: seq<set<int>>)
    requires L >= 1 && done <= t < |cols| && t + 1 - done == L
    requires WholeWindows(done, L) && trace == Batches(cols[..done], L)
    ensures WholeWindows(t + 1, L) && trace + [UnionOf(cols[done..t + 1])] == Batches(cols[..t + 1], L)
  {
    assert cols[..t + 1] == cols[..done] + cols[done..t + 1];
    BatchesSnoc(cols[..done], cols[done..t + 1], L);
  }

  /** After the last step, closing a non-empty open window gives the union trace. */
  lemma WindowsDone(cols: seq<set<int>>, L: int, done: nat, trace: seq<set<int>>, unionCols: set<int>, stepInBatch: int)
    requires Windowed(cols, L, |cols|, done, trace, unionCols, stepInBatch)
    ensures (if stepInBatch > 0 then trace + [unionCols] else trace) == UnionTrace(cols, L)
  {
    assert cols[done..|cols|] == cols[done..];
    if stepInBatch > 0 {
      if L >= 1 {
        assert cols == cols[..done] + cols[done..];
        BatchesSnoc(cols[..done], cols[done..], L);
      } else {
        assert cols[done..] == cols;
      }
    } else {
      assert cols[..done] == cols;
    }
  }

  /**
   * `unionForOneSequence`: the loop with its step counter and batch index, proved
   * to compute UnionTrace.
   */
  method UnionForOneSequence(activeColumns: seq<set<int>>, unionLength: int) returns (activeColumnTrace: seq<set<int>>)
    ensures activeColumnTrace == UnionTrace(activeColumns, unionLength)
  {
    activeColumnTrace := [];
    var unionStepInBatch := 0;
    var unionBatchIdx := 0;
    var unionCols: set<int> := {};
    ghost var done := 0;
    for t := 0 to |activeColumns|
      invariant unionBatchIdx == |activeColumnTrace|
      invariant Windowed(activeColumns, unionLength, t, done, activeColumnTrace, unionCols, unionStepInBatch)
    {
      WindowStep(activeColumns, unionLength, t, done, activeColumnTrace, unionCols, unionStepInBatch);
      unionCols := unionCols + activeColumns[t];
      unionStepInBatch := unionStepInBatch + 1;
      if unionStepInBatch == unionLength {
        activeColumnTrace := activeColumnTrace + [unionCols];
        unionStepInBatch := 0;
        unionBatchIdx := unionBatchIdx + 1;
        unionCols := {};
        done := t + 1;
      }
    }
    WindowsDone(activeColumns, unionLength, done, activeColumnTrace, unionCols, unionStepInBatch);
    if unionStepInBatch > 0 {
      activeColumnTrace := activeColumnTrace + [unionCols];
    }
  }

  /** `runUnionStep`: one union trace per sequence, in order. */
  method RunUnionStep(activeColumns: seq<seq<set<int>>>, unionLength: int) returns (activeColumnUnionTrace: seq<seq<set<int>>>)
    ensures |activeColumnUnionTrace| == |activeColumns|
    ensures forall i :: 0 <= i < |activeColumns| ==>
              activeColumnUnionTrace[i] == UnionTrace(activeColumns[i], unionLength)
  {
    var numSequence := |activeColumns|;
    activeColumnUnionTrace := [];
    for i := 0 to numSequence
      invariant |activeColumnUnionTrace| == i
      invariant forall i' :: 0 <= i' < i ==> activeColumnUnionTrace[i'] == UnionTrace(activeColumns[i'], unionLength)
    {
      var activeColumnTrace := UnionForOneSequence(activeColumns[i], unionLength);
      activeColumnUnionTrace := activeColumnUnionTrace + [activeColumnTrace];
    }
  }

  // ---------------------------------------------------------------------------
  // Properties of the batching

  /** With L >= 1 there are ceil(n / L) batches: (|r| - 1) * L < n <= |r| * L. */
  lemma {:induction false} BatchCount(cols: seq<set<int>>, L: int)
    requires L >= 1
    ensures var r := Batches(cols, L);
            (|r| - 1) * L < |cols| <= |r| * L && (r == [] <==> cols == [])
    decreases |cols|
  {
    if cols != [] {
      var m := Min(L, |cols|);
      BatchCount(cols[m..], L);
      var q := |Batches(cols[m..], L)|;
      assert (q + 1) * L == q * L + L;
    }
  }

  /** Batch j is the union of steps j*L up to min((j+1)*L, n). */
  lemma BatchEntry(cols: seq<set<int>>, L: int, j: nat)
    requires L >= 1 && j < |Batches(cols, L)|
    ensures j * L < |cols|
    ensures Batches(cols, L)[j] == UnionOf(cols[j * L..Min(j * L + L, |cols|)])
  {
    StrideIsProduct(j, L);
    BatchEntryFrom(cols, L, j);
  }

  lemma {:induction false} BatchEntryFrom(cols: seq<set<int>>, L: int, j: nat)
    requires L >= 1 && j < |Batches(cols, L)|
    ensures Stride(j, L) < |cols|
    ensures Batches(cols, L)[j] == UnionOf(cols[Stride(j, L)..Min(Stride(j, L) + L, |cols|)])
    decreases j
  {
    if j > 0 {
      BatchesTail(cols, L, j);
      BatchEntryFrom(cols[L..], L, j - 1);
      ShiftWindow(cols, L, Stride(j - 1, L));
    }
  }

  /** Past the first window, batch j is batch j - 1 of the remaining steps. */
  lemma BatchesTail(cols: seq<set<int>>, L: int, j: nat)
    requires L >= 1 && 0 < j < |Batches(cols, L)|
    ensures |cols| > L && j - 1 < |Batches(cols[L..], L)|
    ensures Batches(cols, L)[j] == Batches(cols[L..], L)[j - 1]
  {
    var m := Min(L, |cols|);
    assert |Batches(cols[m..], L)| == |Batches(cols, L)| - 1 > 0;
    assert cols[m..] != [];
  }

  /** A window of the remaining steps is the window L steps further on in the whole input. */
  lemma ShiftWindow(cols: seq<set<int>>, L: nat, lo: nat)
    requires L <= |cols| && lo < |cols| - L
    ensures cols[L..][lo..Min(lo + L, |cols| - L)] == cols[L + lo..Min(L + lo + L, |cols|)]
  {
  }

  /** Batching loses and invents nothing: the batches together hold exactly the input columns. */
  lemma {:induction false} BatchesCover(cols: seq<set<int>>, L: int)
    requires L >= 1
    ensures UnionOf(Batches(cols, L)) == UnionOf(cols)
    decreases |cols|
  {
    if cols != [] {
      var m := Min(L, |cols|);
      BatchesCover(cols[m..], L);
      assert cols == cols[..m] + cols[m..];
      UnionOfAppend(cols[..m], cols[m..]);
      assert ([UnionOf(cols[..m])] + Batches(cols[m..], L))[1..] == Batches(cols[m..], L);
    }
  }

  /** For every window length, the union trace covers exactly the input columns. */
  lemma TraceCovers(cols: seq<set<int>>, L: int)
    ensures UnionOf(UnionTrace(cols, L)) == UnionOf(cols)
  {
    if L >= 1 {
      BatchesCover(cols, L);
    } else if cols != [] {
      assert [UnionOf(cols)][1..] == [];
    }
  }

  /** With L = 1 the trace is the input, step by step. */
  lemma {:induction false} UnitWindows(cols: seq<set<int>>)
    ensures UnionTrace(cols, 1) == cols
    decreases |cols|
  {
    if cols != [] {
      UnitWindows(cols[1..]);
      assert cols[..1] == [cols[0]];
      assert [cols[0]][1..] == [];
      assert UnionOf([cols[0]]) == cols[0];
      assert Batches(cols, 1) == [UnionOf(cols[..1])] + Batches(cols[1..], 1);
      assert cols == [cols[0]] + cols[1..];
    }
  }
}
