/**
 * Shared vocabulary of the SDR scripts: the Python/NumPy behaviours they rely on
 * (exceptions, negative-index wrap-around, fancy-index assignment, `np.where`,
 * slice clamping, `np.sum`) written out once, with the facts the other modules use.
 */
module Sdr {

  /** The Python exceptions the modelled code can raise. */
  datatype Error = IndexError | ValueError

  datatype Result<T> = Ok(value: T) | Err(error: Error)

  datatype Option<T> = None | Some(value: T)

  function Max0(n: int): nat { if n < 0 then 0 else n }

  function Min(a: int, b: int): int { if a <= b then a else b }

  // ---------------------------------------------------------------------------
  // NumPy integer indices

  /** An integer index is accepted by NumPy on an axis of length n iff -n <= i < n. */
  predicate InBounds(i: int, n: int) { -n <= i < n }

  predicate AllInBounds(idx: seq<int>, n: int) {
    forall k :: 0 <= k < |idx| ==> InBounds(idx[k], n)
  }

  /** The position a (possibly negative) in-bounds index designates. */
  function Wrap(i: int, n: int): (j: nat)
    requires InBounds(i, n)
    ensures j < n
    ensures 0 <= i ==> j == i
  {
    if i < 0 then i + n else i
  }

  /** The set of positions an index array designates. */
  ghost function Targets(idx: seq<int>, n: int): set<nat>
    requires AllInBounds(idx, n)
  {
    set k | 0 <= k < |idx| :: Wrap(idx[k], n)
  }

  /** Elements of a sequence, as a set. */
  ghost function Elems<T>(s: seq<T>): set<T> { set x | x in s }

  lemma TargetsOfNatural(idx: seq<int>, n: int)
    requires AllInBounds(idx, n)
    requires forall k :: 0 <= k < |idx| ==> 0 <= idx[k]
    ensures Targets(idx, n) == set k | 0 <= k < |idx| :: idx[k] as nat
  {
  }

  /**
   * `a[idx] = v`: NumPy fancy-index assignment of a scalar, which writes the
   * positions one after another.
   */
  function Assign(s: seq<int>, idx: seq<int>, v: int): (r: seq<int>)
    requires AllInBounds(idx, |s|)
    ensures |r| == |s|
    decreases |idx|
  {
    if idx == [] then s
    else Assign(s[Wrap(idx[0], |s|) := v], idx[1..], v)
  }

  /** After `a[idx] = v` exactly the designated positions hold v; the others keep their value. */
  lemma {:induction false} AssignAt(s: seq<int>, idx: seq<int>, v: int)
    requires AllInBounds(idx, |s|)
    ensures forall j :: 0 <= j < |s| ==> Assign(s, idx, v)[j] == if j in Targets(idx, |s|) then v else s[j]
    decreases |idx|
  {
    if idx != [] {
      var rest := idx[1..];
      AssignAt(s[Wrap(idx[0], |s|) := v], rest, v);
      assert Targets(idx, |s|) == {Wrap(idx[0], |s|)} + Targets(rest, |s|) by {
        assert forall k :: 0 <= k < |rest| ==> rest[k] == idx[k + 1];
        forall j | j in Targets(idx, |s|) ensures j in {Wrap(idx[0], |s|)} + Targets(rest, |s|) {
          var k :| 0 <= k < |idx| && Wrap(idx[k], |s|) == j;
          if k > 0 { assert rest[k - 1] == idx[k]; }
        }
      }
    }
  }

  /** `a[idx] = v` on an array, in place, one index after another. */
  method AssignAll(a: array<int>, idx: seq<int>, v: int)
    requires AllInBounds(idx, a.Length)
    modifies a
    ensures a[..] == Assign(old(a[..]), idx, v)
  {
    for k := 0 to |idx|
      invariant Assign(a[..], idx[k..], v) == Assign(old(a[..]), idx, v)
    {
      assert idx[k..][1..] == idx[k + 1..];
      a[Wrap(idx[k], a.Length)] := v;
    }
  }

  function Zeros(n: nat): (r: seq<int>)
    ensures |r| == n && forall j :: 0 <= j < n ==> r[j] == 0
  {
    seq(n, _ => 0)
  }

  /** `sdr = np.zeros(n); sdr[idx] = 1`: the dense 0/1 vector with ones at idx. */
  function Scatter(n: nat, idx: seq<int>): (r: seq<int>)
    requires AllInBounds(idx, n)
    ensures |r| == n
    ensures forall j :: 0 <= j < n ==> (r[j] == 1 <==> j in Targets(idx, n))
    ensures forall j :: 0 <= j < n ==> (r[j] == 0 <==> j !in Targets(idx, n))
  {
    AssignAt(Zeros(n), idx, 1);
    Assign(Zeros(n), idx, 1)
  }

  /**
   * `sdr = np.zeros(n); sdr[idx] = 1` with NumPy's errors: a negative length
   * raises ValueError, an index outside -n <= i < n raises IndexError.
   */
  function Indicator(n: int, idx: seq<int>): (r: Result<seq<int>>)
    ensures r.Ok? <==> n >= 0 && AllInBounds(idx, n)
    ensures r.Err? ==> r.error == if n < 0 then ValueError else IndexError
    ensures r.Ok? ==> |r.value| == n && IsBinary(r.value)
    ensures r.Ok? ==> forall j :: 0 <= j < n ==> (r.value[j] == 1 <==> j in Targets(idx, n))
  {
    if n < 0 then Err(ValueError)
    else if !AllInBounds(idx, n) then Err(IndexError)
    else Ok(Scatter(n, idx))
  }

  predicate IsBinary(s: seq<int>) { forall j :: 0 <= j < |s| ==> s[j] == 0 || s[j] == 1 }

  // ---------------------------------------------------------------------------
  // np.where and np.sum

  /** `np.where(cond(s))[0]`: the positions whose value satisfies cond, in increasing order. */
  function IndicesWhere(s: seq<int>, cond: int -> bool): (r: seq<nat>)
    ensures forall k :: 0 <= k < |r| ==> r[k] < |s| && cond(s[r[k]])
    ensures forall j :: 0 <= j < |s| && cond(s[j]) ==> j in r
    ensures StrictlyIncreasing(r)
    ensures |r| <= |s|
  {
    if s == [] then []
    else
      var n := |s| - 1;
      var front := IndicesWhere(s[..n], cond);
      assert forall j :: 0 <= j < n ==> s[..n][j] == s[j];
      front + (if cond(s[n]) then [n] else [])
  }

  function Where(s: seq<int>): seq<nat> { IndicesWhere(s, x => x > 0) }

  /** `s[idx]`: NumPy fancy indexing (reading), negative indices counting from the end. */
  function Gather<T>(s: seq<T>, idx: seq<int>): (r: seq<T>)
    requires AllInBounds(idx, |s|)
    ensures |r| == |idx|
    ensures forall k :: 0 <= k < |r| ==> r[k] == s[Wrap(idx[k], |s|)]
  {
    seq(|idx|, k requires 0 <= k < |idx| => s[Wrap(idx[k], |s|)])
  }

  /** `cells[np.where(v[cells] > 0)[0]]`: exactly the cells whose input is positive. */
  function PositiveOf(v: seq<int>, cells: seq<nat>): (winners: seq<nat>)
    requires forall k :: 0 <= k < |cells| ==> cells[k] < |v|
    ensures forall c: nat :: c in winners <==> c in cells && c < |v| && v[c] > 0
  {
    PositiveCells(v, cells);
    Gather(cells, Where(Gather(v, cells)))
  }

  lemma PositiveCells(v: seq<int>, cells: seq<nat>)
    requires forall k :: 0 <= k < |cells| ==> cells[k] < |v|
    ensures var winners := Gather(cells, Where(Gather(v, cells)));
            forall c: nat :: c in winners <==> c in cells && c < |v| && v[c] > 0
  {
    forall c: nat ensures c in Gather(cells, Where(Gather(v, cells))) <==> c in cells && c < |v| && v[c] > 0 {
      PositiveCell(v, cells, c);
    }
  }

  lemma PositiveCell(v: seq<int>, cells: seq<nat>, c: nat)
    requires forall k :: 0 <= k < |cells| ==> cells[k] < |v|
    ensures c in Gather(cells, Where(Gather(v, cells))) <==> c in cells && c < |v| && v[c] > 0
  {
    var input := Gather(v, cells);
    var winners := Gather(cells, Where(input));
    if c in cells && c < |v| && v[c] > 0 {
      PositiveCellKept(v, cells, input, c);
    }
    if c in winners {
      PositiveCellWon(v, cells, input, c);
    }
  }

  lemma PositiveCellKept(v: seq<int>, cells: seq<nat>, input: seq<int>, c: nat)
    requires forall k :: 0 <= k < |cells| ==> cells[k] < |v|
    requires input == Gather(v, cells)
    requires c in cells && c < |v| && v[c] > 0
    ensures c in Gather(cells, Where(input))
  {
    var positive := Where(input);
    var k :| 0 <= k < |cells| && cells[k] == c;
    assert input[k] > 0;
    assert k in positive;
    var q :| 0 <= q < |positive| && positive[q] == k;
    assert Gather(cells, positive)[q] == c;
  }

  lemma PositiveCellWon(v: seq<int>, cells: seq<nat>, input: seq<int>, c: nat)
    requires forall k :: 0 <= k < |cells| ==> cells[k] < |v|
    requires input == Gather(v, cells)
    requires c in Gather(cells, Where(input))
    ensures c in cells && c < |v| && v[c] > 0
  {
    var positive := Where(input);
    var winners := Gather(cells, positive);
    var q :| 0 <= q < |winners| && winners[q] == c;
    assert input[positive[q]] > 0;
  }

  function WhereZero(s: seq<int>): seq<nat> { IndicesWhere(s, x => x == 0) }

  predicate StrictlyIncreasing(r: seq<int>) {
    forall a, b :: 0 <= a < b < |r| ==> r[a] < r[b]
  }

  predicate Distinct<T(==)>(s: seq<T>) {
    forall a, b :: 0 <= a < b < |s| ==> s[a] != s[b]
  }

  /** `np.sum(s)`. */
  function Sum(s: seq<int>): int {
    if s == [] then 0 else Sum(s[..|s| - 1]) + s[|s| - 1]
  }

  /** On a 0/1 vector the sum is the number of positions holding a one. */
  lemma {:induction false} SumOfIndicator(s: seq<int>, ones: set<nat>)
    requires forall j :: 0 <= j < |s| ==> s[j] == if j in ones then 1 else 0
    requires forall j :: j in ones ==> j < |s|
    ensures Sum(s) == |ones|
  {
    if s != [] {
      var n := |s| - 1;
      var rest := ones - {n};
      SumOfIndicator(s[..n], rest);
      if n in ones {
        assert ones == rest + {n};
      } else {
        assert ones == rest;
      }
    }
  }

  /** The positions of a 0/1 vector that hold a one. */
  ghost function OnesOf(s: seq<int>): set<nat> {
    set j | 0 <= j < |s| && s[j] == 1
  }

  lemma SumOfBinary(s: seq<int>)
    requires IsBinary(s)
    ensures Sum(s) == |OnesOf(s)|
  {
    SumOfIndicator(s, OnesOf(s));
  }

  lemma SumOfScatter(n: nat, idx: seq<int>)
    requires AllInBounds(idx, n)
    ensures Sum(Scatter(n, idx)) == |Targets(idx, n)|
  {
    SumOfIndicator(Scatter(n, idx), Targets(idx, n));
  }

  /** Reading back `np.where(row > 0)` from a scattered row gives the scattered positions. */
  lemma {:induction false} WhereOfScatter(n: nat, idx: seq<int>)
    requires AllInBounds(idx, n)
    ensures Elems(Where(Scatter(n, idx))) == Targets(idx, n)
  {
  }

  lemma ElemsEmpty<T>(s: seq<T>)
    ensures s == [] <==> Elems(s) == {}
  {
    if s != [] { assert s[0] in Elems(s); }
  }

  /** The last element of a strictly increasing sequence is its largest, and dropping it removes just that. */
  lemma IncreasingLast(a: seq<int>)
    requires StrictlyIncreasing(a) && a != []
    ensures forall x :: x in Elems(a) ==> x <= a[|a| - 1]
    ensures Elems(a[..|a| - 1]) == Elems(a) - {a[|a| - 1]}
  {
    var a' := a[..|a| - 1];
    forall x | x in Elems(a) - {a[|a| - 1]} ensures x in Elems(a') {
      var k :| 0 <= k < |a| && a[k] == x;
      assert a'[k] == x;
    }
  }

  /** Two strictly increasing sequences with the same elements are equal. */
  lemma {:induction false} IncreasingUnique(a: seq<int>, b: seq<int>)
    requires StrictlyIncreasing(a) && StrictlyIncreasing(b)
    requires Elems(a) == Elems(b)
    ensures a == b
  {
    ElemsEmpty(a);
    ElemsEmpty(b);
    if a != [] && b != [] {
      IncreasingLast(a);
      IncreasingLast(b);
      var la, lb := a[|a| - 1], b[|b| - 1];
      assert la in Elems(b) && lb in Elems(a);
      var a', b' := a[..|a| - 1], b[..|b| - 1];
      IncreasingUnique(a', b');
      assert a == a' + [la] && b == b' + [lb];
    }
  }

  /**
   * Scattering the output of `np.where(s > 0)` back into a dense vector and reading
   * it again gives exactly the same index list.
   */
  lemma WhereScatterRoundTrip(n: nat, idx: seq<int>)
    requires AllInBounds(idx, n)
    requires forall k :: 0 <= k < |idx| ==> 0 <= idx[k]
    requires StrictlyIncreasing(idx)
    ensures Where(Scatter(n, idx)) == idx
  {
    var w := Where(Scatter(n, idx));
    assert Elems(w) == Elems(idx) by {
      WhereOfScatter(n, idx);
      TargetsOfNatural(idx, n);
    }
    IncreasingUnique(w, idx);
  }

  /** A 0/1 vector is recovered from the positions of its ones. */
  lemma ScatterOfWhere(s: seq<int>)
    requires IsBinary(s)
    ensures AllInBounds(Where(s), |s|)
    ensures Scatter(|s|, Where(s)) == s
  {
    var w := Where(s);
    TargetsOfNatural(w, |s|);
    var r := Scatter(|s|, w);
    forall j | 0 <= j < |s| ensures r[j] == s[j] {
      if s[j] == 1 {
        assert j in w;
        var k :| 0 <= k < |w| && w[k] == j;
      }
    }
  }

  // ---------------------------------------------------------------------------
  // Sequences and their sizes

  lemma {:induction false} ElemsBound<T>(s: seq<T>)
    ensures |Elems(s)| <= |s|
    ensures Distinct(s) ==> |Elems(s)| == |s|
  {
    if s != [] {
      var s' := s[..|s| - 1];
      var x := s[|s| - 1];
      ElemsBound(s');
      assert Elems(s) == Elems(s') + {x} by {
        forall y | y in Elems(s) ensures y in Elems(s') + {x} {
          var k :| 0 <= k < |s| && s[k] == y;
          if k < |s| - 1 { assert s'[k] == y; }
        }
      }
      if Distinct(s) {
        assert forall k :: 0 <= k < |s'| ==> s'[k] == s[k] != s[|s| - 1];
        assert x !in Elems(s');
      }
    }
  }

  // ---------------------------------------------------------------------------
  // np.sort and np.unique

  predicate Sorted(s: seq<int>) {
    forall a, b :: 0 <= a < b < |s| ==> s[a] <= s[b]
  }

  function Insert(x: int, s: seq<int>): (r: seq<int>)
    requires Sorted(s)
    ensures Sorted(r) && multiset(r) == multiset(s) + multiset{x}
  {
    if s == [] || x <= s[0] then [x] + s
    else
      var rest := Insert(x, s[1..]);
      LowerBound(s, x);
      ConsSorted(s[0], rest);
      [s[0]] + rest
  }

  lemma ConsSorted(h: int, rest: seq<int>)
    requires Sorted(rest) && forall y :: y in multiset(rest) ==> h <= y
    ensures Sorted([h] + rest)
  {
    var r := [h] + rest;
    forall a, b | 0 <= a < b < |r| ensures r[a] <= r[b] {
      assert r[b] == rest[b - 1] && rest[b - 1] in multiset(rest);
    }
  }

  /** The head of a sorted sequence bounds everything after it, and x when x > s[0]. */
  lemma LowerBound(s: seq<int>, x: int)
    requires Sorted(s) && s != [] && s[0] < x
    ensures Sorted(s[1..])
    ensures forall y :: y in multiset(s[1..]) + multiset{x} ==> s[0] <= y
    ensures multiset(s) + multiset{x} == multiset{s[0]} + (multiset(s[1..]) + multiset{x})
  {
    assert s == [s[0]] + s[1..];
  }

  /** `np.sort` on integers. */
  function SortAscending(s: seq<int>): (r: seq<int>)
    ensures Sorted(r) && multiset(r) == multiset(s)
  {
    if s == [] then []
    else
      assert s == s[..|s| - 1] + [s[|s| - 1]];
      Insert(s[|s| - 1], SortAscending(s[..|s| - 1]))
  }

  /** A sequence is repetition-free iff no value occurs twice in its multiset. */
  lemma {:induction false} DistinctMultiset(s: seq<int>)
    ensures Distinct(s) <==> forall x :: multiset(s)[x] <= 1
  {
    if s != [] {
      var t := |s| - 1;
      var front := s[..t];
      DistinctMultiset(front);
      assert s == front + [s[t]];
      assert multiset(s) == multiset(front) + multiset{s[t]};
      if Distinct(s) {
        forall a | 0 <= a < t ensures front[a] != s[t] {
          assert front[a] == s[a];
        }
        assert Distinct(front);
      } else {
        var a, b :| 0 <= a < b < |s| && s[a] == s[b];
        if b < t {
          assert front[a] == front[b];
          assert !Distinct(front);
          var x :| multiset(front)[x] > 1;
          assert multiset(s)[x] > 1;
        } else {
          assert s[a] in front;
          assert multiset(s)[s[t]] > 1;
        }
      }
    }
  }

  lemma SortedDistinct(s: seq<int>)
    requires Sorted(s) && forall x :: multiset(s)[x] <= 1
    ensures StrictlyIncreasing(s)
  {
    DistinctMultiset(s);
  }

  lemma SortedElems(s: seq<int>)
    ensures Elems(SortAscending(s)) == Elems(s)
  {
    var r := SortAscending(s);
    forall x ensures x in r <==> x in s {
      assert x in r <==> x in multiset(r);
      assert x in s <==> x in multiset(s);
    }
  }

  /** Dropping adjacent repeats from a sorted list leaves its values, each once, increasing. */
  function Dedup(s: seq<int>): (r: seq<int>)
    requires Sorted(s)
    ensures StrictlyIncreasing(r) && Elems(r) == Elems(s)
  {
    if |s| <= 1 then s
    else
      var front := s[..|s| - 1];
      var d := Dedup(front);
      SortedSnoc(s, front);
      if s[|s| - 1] == s[|s| - 2] then d
      else
        IncreasingSnoc(d, s[|s| - 1]);
        d + [s[|s| - 1]]
  }

  /** The last element of a sorted list bounds the rest. */
  lemma SortedSnoc(s: seq<int>, front: seq<int>)
    requires Sorted(s) && |s| >= 2 && front == s[..|s| - 1]
    ensures Elems(s) == Elems(front) + {s[|s| - 1]}
    ensures s[|s| - 2] <= s[|s| - 1]
    ensures forall x :: x in Elems(front) ==> x <= s[|s| - 2]
  {
    assert s == front + [s[|s| - 1]];
  }

  lemma IncreasingSnoc(d: seq<int>, x: int)
    requires StrictlyIncreasing(d) && forall y :: y in Elems(d) ==> y < x
    ensures StrictlyIncreasing(d + [x]) && Elems(d + [x]) == Elems(d) + {x}
  {
    var r := d + [x];
    forall a, b | 0 <= a < b < |r| ensures r[a] < r[b] {
      if b == |d| {
        assert r[a] == d[a] && d[a] in Elems(d);
      }
    }
  }

  /** `np.unique`: the distinct values, in increasing order. */
  /** The members of Unique(s) are the members of s. */
  lemma UniqueMembers(s: seq<int>, x: int)
    ensures x in Unique(s) <==> x in s
  {
    var r := Unique(s);
    assert x in r <==> x in Elems(r);
    assert x in s <==> x in Elems(s);
  }

  function Unique(s: seq<int>): (r: seq<int>)
    ensures StrictlyIncreasing(r) && Elems(r) == Elems(s) && |r| == |Elems(s)|
  {
    var sorted := SortAscending(s);
    SortedElems(s);
    var r := Dedup(sorted);
    ElemsBound(r);
    r
  }

  // ---------------------------------------------------------------------------
  // Python slices

  /** Length of `s[:k]` for a sequence of length len (negative k counts from the end). */
  function HeadLen(len: nat, k: int): (r: nat)
    ensures r <= len
    ensures 0 <= k ==> r == Min(k, len)
  {
    if k >= 0 then Min(k, len) else Max0(len + k)
  }

  /** `s[:k]`. */
  function Head<T>(s: seq<T>, k: int): (r: seq<T>)
    ensures |r| == HeadLen(|s|, k)
    ensures forall j :: 0 <= j < |r| ==> r[j] == s[j]
  {
    s[..HeadLen(|s|, k)]
  }

  /**
   * Length of `s[-m:]`. Note `-0 == 0`, so `s[-0:]` is the whole sequence, and a
   * negative m drops the first -m elements.
   */
  function TailLen(len: nat, m: int): (r: nat)
    ensures r <= len
    ensures 1 <= m ==> r == Min(m, len)
    ensures m == 0 ==> r == len
  {
    if m > 0 then Min(m, len) else if m == 0 then len else Max0(len + m)
  }

  /** `s[-m:]`. */
  function Tail<T>(s: seq<T>, m: int): (r: seq<T>)
    ensures |r| == TailLen(|s|, m)
    ensures forall j :: 0 <= j < |r| ==> r[j] == s[|s| - |r| + j]
  {
    s[|s| - TailLen(|s|, m)..]
  }

  /** A slice of a repetition-free list is repetition-free. */
  lemma TailDistinct<T>(s: seq<T>, m: int)
    requires Distinct(s)
    ensures Distinct(Tail(s, m))
  {
    var t := Tail(s, m);
    var d := |s| - |t|;
    forall j, k | 0 <= j < k < |t| ensures t[j] != t[k] {
      assert t[j] == s[d + j] && t[k] == s[d + k];
    }
  }

  /** j strides of width w, added up one stride at a time (j * w without multiplying). */
  function Stride(j: nat, w: nat): nat {
    if j == 0 then 0 else Stride(j - 1, w) + w
  }

  lemma {:induction false} StrideIsProduct(j: nat, w: nat)
    ensures Stride(j, w) == j * w
  {
    if j > 0 {
      StrideIsProduct(j - 1, w);
      assert (j - 1) * w + w == j * w;
    }
  }

  /** The blocks of a sequence of sequences, one after another. */
  function Flatten<T>(blocks: seq<seq<T>>): seq<T> {
    if blocks == [] then [] else Flatten(blocks[..|blocks| - 1]) + blocks[|blocks| - 1]
  }

  lemma FlattenSnoc<T>(blocks: seq<seq<T>>, b: seq<T>)
    ensures Flatten(blocks + [b]) == Flatten(blocks) + b
  {
    assert (blocks + [b])[..|blocks|] == blocks;
  }

  /** Blocks of equal size P: entry k of block c sits at c * P + k. */
  lemma FlattenAt<T>(blocks: seq<seq<T>>, P: nat, c: nat, k: nat)
    requires forall i :: 0 <= i < |blocks| ==> |blocks[i]| == P
    requires c < |blocks| && k < P
    ensures |Flatten(blocks)| == |blocks| * P
    ensures c * P + k < |Flatten(blocks)| && Flatten(blocks)[c * P + k] == blocks[c][k]
  {
    StrideIsProduct(c, P);
    StrideIsProduct(|blocks|, P);
    FlattenStride(blocks, P, c, k);
  }

  lemma {:induction false} FlattenStride<T>(blocks: seq<seq<T>>, P: nat, c: nat, k: nat)
    requires forall i :: 0 <= i < |blocks| ==> |blocks[i]| == P
    requires c < |blocks| && k < P
    ensures |Flatten(blocks)| == Stride(|blocks|, P)
    ensures Stride(c, P) + k < |Flatten(blocks)| && Flatten(blocks)[Stride(c, P) + k] == blocks[c][k]
  {
    var front := blocks[..|blocks| - 1];
    FlattenLength(front, P);
    if c < |front| {
      FlattenStride(front, P, c, k);
    }
  }

  lemma {:induction false} FlattenLength<T>(blocks: seq<seq<T>>, P: nat)
    requires forall i :: 0 <= i < |blocks| ==> |blocks[i]| == P
    ensures |Flatten(blocks)| == Stride(|blocks|, P)
  {
    if blocks != [] {
      FlattenLength(blocks[..|blocks| - 1], P);
    }
  }

  /** Python's `int(x)` on a float: truncation toward zero. */
  function Trunc(x: real): (r: int)
    ensures 0.0 <= x ==> 0 <= r && r as real <= x < r as real + 1.0
    ensures x < 0.0 ==> r <= 0 && r as real - 1.0 < x <= r as real
  {
    if x >= 0.0 then x.Floor else -((-x).Floor)
  }

  /** `p` is a permutation of `range(n)`, as `np.random.permutation(n)` returns. */
  predicate IsPermutation(p: seq<int>, n: int) {
    |p| == Max0(n) && (forall k :: 0 <= k < |p| ==> 0 <= p[k] < |p|) && Distinct(p)
  }

  /** `np.random.permutation(s)` for a sequence: s reordered by the permutation p. */
  function Shuffle<T>(s: seq<T>, p: seq<int>): (r: seq<T>)
    requires IsPermutation(p, |s|)
    ensures |r| == |s|
    ensures forall k :: 0 <= k < |r| ==> r[k] == s[p[k]]
  {
    seq(|p|, k requires 0 <= k < |p| => s[p[k]])
  }

  lemma ShuffleDistinct<T>(s: seq<T>, p: seq<int>)
    requires IsPermutation(p, |s|) && Distinct(s)
    ensures Distinct(Shuffle(s, p))
  {
  }

  lemma ShuffleElems<T>(s: seq<T>, p: seq<int>)
    requires IsPermutation(p, |s|)
    ensures Elems(Shuffle(s, p)) <= Elems(s)
  {
  }
}
