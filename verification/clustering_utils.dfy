/**
 * Cluster and SDR bookkeeping of the clustering experiments: dense SDRs from
 * index lists, the number of clusters, repetition counting over runs of equal
 * cluster ids, the per-repetition slices, and the symmetric distance matrix.
 */
module ClusteringUtils {
  import opened Sdr

  // ---------------------------------------------------------------------------
  // convert_to_sdrs

  /**
   * `convert_to_sdrs`: one dense vector per index list, in order; the first list
   * NumPy rejects decides the exception.
   */
  method ConvertToSdrs(patternNZs: seq<seq<int>>, inputWidth: int) returns (r: Result<seq<seq<int>>>)
    ensures r.Ok? <==> forall i :: 0 <= i < |patternNZs| ==> Indicator(inputWidth, patternNZs[i]).Ok?
    ensures r.Ok? ==> |r.value| == |patternNZs| &&
                      forall i :: 0 <= i < |patternNZs| ==> Indicator(inputWidth, patternNZs[i]) == Ok(r.value[i])
    ensures r.Err? ==> exists i :: 0 <= i < |patternNZs| && Indicator(inputWidth, patternNZs[i]) == Err(r.error) &&
                                   forall i' :: 0 <= i' < i ==> Indicator(inputWidth, patternNZs[i']).Ok?
  {
    var sdrs := [];
    for i := 0 to |patternNZs|
      invariant |sdrs| == i
      invariant forall i' :: 0 <= i' < i ==> Indicator(inputWidth, patternNZs[i']) == Ok(sdrs[i'])
    {
      var sdr := Indicator(inputWidth, patternNZs[i]);
      if sdr.Err? {
        return Err(sdr.error);
      }
      sdrs := sdrs + [sdr.value];
    }
    r := Ok(sdrs);
  }

  // ---------------------------------------------------------------------------
  // get_num_clusters

  /**
   * `get_num_clusters`: the distinct ids, plus one for the noise category 0 when
   * no point carries it.
   */
  function GetNumClusters(clusterIds: seq<int>): (r: nat)
    ensures r == |Elems(clusterIds)| + if 0 in clusterIds then 0 else 1
  {
    var uniqueClusters := Unique(clusterIds);
    assert 0 in uniqueClusters <==> 0 in clusterIds by {
      assert 0 in uniqueClusters <==> 0 in Elems(uniqueClusters);
    }
    if 0 !in uniqueClusters then |uniqueClusters| + 1 else |uniqueClusters|
  }

  // ---------------------------------------------------------------------------
  // Runs of equal cluster ids

  /** Point i opens a maximal run of equal ids. */
  predicate RunStart(ids: seq<int>, i: nat)
    requires i < |ids|
  {
    i == 0 || ids[i] != ids[i - 1]
  }

  /** The number of runs of id c that open before position n. */
  function RunsOf(ids: seq<int>, c: int, n: nat): nat
    requires n <= |ids|
  {
    if n == 0 then 0
    else RunsOf(ids, c, n - 1) + if ids[n - 1] == c && RunStart(ids, n - 1) then 1 else 0
  }

  /** The repetition number of every point: the runs of its id up to and including its own, minus one. */
  function Repetitions(ids: seq<int>): (r: seq<int>)
    ensures |r| == |ids|
  {
    seq(|ids|, i requires 0 <= i < |ids| => RunsOf(ids, ids[i], i + 1) - 1)
  }

  /** The points with id c among the first n, in order. */
  function Members<T>(sdrs: seq<T>, ids: seq<int>, c: int, n: nat): seq<T>
    requires n <= |ids| && n <= |sdrs|
  {
    if n == 0 then []
    else Members(sdrs, ids, c, n - 1) + if ids[n - 1] == c then [sdrs[n - 1]] else []
  }

  /** The sizes of the clusters named by keys, added up. */
  function TotalSize<T>(clusters: map<int, seq<T>>, keys: seq<int>): int
    requires forall k :: 0 <= k < |keys| ==> keys[k] in clusters
  {
    if keys == [] then 0
    else TotalSize(clusters, keys[..|keys| - 1]) + |clusters[keys[|keys| - 1]]|
  }

  /** counter holds, for every id, the runs of it among the first i points. */
  ghost predicate Counted(ids: seq<int>, i: nat, counter: map<int, int>)
    requires i <= |ids|
  {
    counter.Keys == Elems(ids) && forall c :: c in counter ==> counter[c] == RunsOf(ids, c, i)
  }

  /** clusters holds, for every id, its points among the first i. */
  ghost predicate Grouped<T>(sdrs: seq<T>, ids: seq<int>, i: nat, clusters: map<int, seq<T>>)
    requires i <= |ids| && i <= |sdrs|
  {
    clusters.Keys == Elems(ids) && forall c :: c in clusters ==> clusters[c] == Members(sdrs, ids, c, i)
  }

  /** The state of the scan in `find_cluster_repetitions` after its first i points. */
  ghost predicate Scanned<T>(sdrs: seq<T>, ids: seq<int>, i: nat, counter: map<int, int>, last: Option<int>,
                             reps: seq<int>, clusters: map<int, seq<T>>)
  {
    i <= |ids| && i <= |sdrs| &&
    Counted(ids, i, counter) &&
    last == (if i == 0 then None else Some(ids[i - 1])) &&
    reps == Repetitions(ids)[..i] &&
    Grouped(sdrs, ids, i, clusters)
  }

  /** Before the scan every id has count 0 and an empty cluster. */
  lemma ScanStart<T>(sdrs: seq<T>, ids: seq<int>)
    ensures Scanned(sdrs, ids, 0, map c | c in ids :: 0, None, [], map c | c in ids :: [])
  {
    assert (map c | c in ids :: 0).Keys == Elems(ids);
    var clusters: map<int, seq<T>> := map c | c in ids :: [];
    assert clusters.Keys == Elems(ids);
  }

  /** Every id met in the scan already has a counter and a cluster. */
  lemma ScanHasKey<T>(sdrs: seq<T>, ids: seq<int>, i: nat, counter: map<int, int>, last: Option<int>,
                      reps: seq<int>, clusters: map<int, seq<T>>)
    requires i < |ids| && Scanned(sdrs, ids, i, counter, last, reps, clusters)
    ensures ids[i] in counter && ids[i] in clusters
  {
    assert ids[i] in Elems(ids);
  }

  /**
   * One step of the scan: the counter of the point's id grows when the id differs
   * from the last one, its repetition number is appended and the point joins its cluster.
   */
  lemma ScanStep<T>(sdrs: seq<T>, ids: seq<int>, i: nat, counter: map<int, int>, last: Option<int>,
                    reps: seq<int>, clusters: map<int, seq<T>>,
                    counter': map<int, int>, reps': seq<int>, clusters': map<int, seq<T>>)
    requires i < |ids| && i < |sdrs| && Scanned(sdrs, ids, i, counter, last, reps, clusters)
    requires ids[i] in counter && ids[i] in clusters
    requires counter' == if Some(ids[i]) != last then counter[ids[i] := counter[ids[i]] + 1] else counter
    requires ids[i] in counter' && reps' == reps + [counter'[ids[i]] - 1]
    requires clusters' == clusters[ids[i] := clusters[ids[i]] + [sdrs[i]]]
    ensures Scanned(sdrs, ids, i + 1, counter', Some(ids[i]), reps', clusters')
  {
    CountStep(ids, i, counter, last, counter');
    assert Repetitions(ids)[..i + 1] == reps';
    GroupStep(sdrs, ids, i, clusters, clusters');
  }

  lemma CountStep(ids: seq<int>, i: nat, counter: map<int, int>, last: Option<int>, counter': map<int, int>)
    requires i < |ids| && Counted(ids, i, counter) && ids[i] in counter
    requires last == (if i == 0 then None else Some(ids[i - 1]))
    requires counter' == if Some(ids[i]) != last then counter[ids[i] := counter[ids[i]] + 1] else counter
    ensures Counted(ids, i + 1, counter')
  {
    assert Some(ids[i]) != last <==> RunStart(ids, i);
  }

  lemma GroupStep<T>(sdrs: seq<T>, ids: seq<int>, i: nat, clusters: map<int, seq<T>>, clusters': map<int, seq<T>>)
    requires i < |ids| && i < |sdrs| && Grouped(sdrs, ids, i, clusters) && ids[i] in clusters
    requires clusters' == clusters[ids[i] := clusters[ids[i]] + [sdrs[i]]]
    ensures Grouped(sdrs, ids, i + 1, clusters')
  {
  }

  /**
   * `find_cluster_repetitions`: every point's repetition number and the points of
   * each id. Fewer SDRs than ids is IndexError.
   */
  method FindClusterRepetitions<T>(sdrs: seq<T>, clusterIds: seq<int>) returns (r: Result<(seq<int>, map<int, seq<T>>)>)
    ensures r.Ok? <==> |clusterIds| <= |sdrs|
    ensures r.Err? ==> r.error == IndexError
    ensures r.Ok? ==> r.value.0 == Repetitions(clusterIds)
    ensures r.Ok? ==> r.value.1.Keys == Elems(clusterIds) &&
                      forall c :: c in r.value.1 ==> r.value.1[c] == Members(sdrs, clusterIds, c, |clusterIds|)
    ensures r.Ok? ==> TotalSize(r.value.1, Unique(clusterIds)) == |clusterIds|
  {
    var repetitionCounter := map c | c in clusterIds :: 0;
    var lastCategory: Option<int> := None;
    var clusterRepetitions := [];
    var sdrClusters: map<int, seq<T>> := map c | c in clusterIds :: [];
    ScanStart(sdrs, clusterIds);
    for i := 0 to |clusterIds|
      invariant Scanned(sdrs, clusterIds, i, repetitionCounter, lastCategory, clusterRepetitions, sdrClusters)
    {
      var category := clusterIds[i];
      if i >= |sdrs| {
        return Err(IndexError);
      }
      var sdr := sdrs[i];
      ScanHasKey(sdrs, clusterIds, i, repetitionCounter, lastCategory, clusterRepetitions, sdrClusters);
      ghost var counter, last, reps, clusters := repetitionCounter, lastCategory, clusterRepetitions, sdrClusters;
      if Some(category) != lastCategory {
        repetitionCounter := repetitionCounter[category := repetitionCounter[category] + 1];
      }
      lastCategory := Some(category);
      clusterRepetitions := clusterRepetitions + [repetitionCounter[category] - 1];
      sdrClusters := sdrClusters[category := sdrClusters[category] + [sdr]];
      ScanStep(sdrs, clusterIds, i, counter, last, reps, clusters, repetitionCounter, clusterRepetitions, sdrClusters);
    }
    ScanDone(sdrs, clusterIds, repetitionCounter, lastCategory, clusterRepetitions, sdrClusters);
    r := Ok((clusterRepetitions, sdrClusters));
  }

  lemma ScanDone<T>(sdrs: seq<T>, ids: seq<int>, counter: map<int, int>, last: Option<int>,
                    reps: seq<int>, clusters: map<int, seq<T>>)
    requires Scanned(sdrs, ids, |ids|, counter, last, reps, clusters)
    ensures reps == Repetitions(ids)
    ensures clusters.Keys == Elems(ids) && forall c :: c in clusters ==> clusters[c] == Members(sdrs, ids, c, |ids|)
    ensures TotalSize(clusters, Unique(ids)) == |ids|
  {
    ClustersPartition(sdrs, ids, clusters);
  }

  /** The clusters, one per distinct id, together hold every point once (the assertion of the source). */
  lemma ClustersPartition<T>(sdrs: seq<T>, ids: seq<int>, clusters: map<int, seq<T>>)
    requires |ids| <= |sdrs| && Grouped(sdrs, ids, |ids|, clusters)
    ensures forall k :: 0 <= k < |Unique(ids)| ==> Unique(ids)[k] in clusters
    ensures TotalSize(clusters, Unique(ids)) == |ids|
  {
    var keys := Unique(ids);
    forall k | 0 <= k < |ids| ensures ids[k] in keys {
      assert ids[k] in Elems(keys);
    }
    forall k | 0 <= k < |keys| ensures keys[k] in clusters {
      assert keys[k] in Elems(keys);
    }
    MembersTotal(sdrs, ids, keys, |ids|);
    TotalSizeOfMembers(clusters, sdrs, ids, keys);
  }

  /** The sizes of the member lists named by keys, added up. */
  function MemberCount<T>(sdrs: seq<T>, ids: seq<int>, keys: seq<int>, n: nat): int
    requires n <= |ids| && n <= |sdrs|
  {
    if keys == [] then 0
    else MemberCount(sdrs, ids, keys[..|keys| - 1], n) + |Members(sdrs, ids, keys[|keys| - 1], n)|
  }

  /** How often x occurs in keys. */
  function Occurrences(keys: seq<int>, x: int): nat {
    if keys == [] then 0
    else Occurrences(keys[..|keys| - 1], x) + if keys[|keys| - 1] == x then 1 else 0
  }

  lemma {:induction false} OccursOnce(keys: seq<int>, x: int)
    requires Distinct(keys) && x in keys
    ensures Occurrences(keys, x) == 1
  {
    var front := keys[..|keys| - 1];
    assert Distinct(front);
    if keys[|keys| - 1] == x {
      OccursNever(front, x);
    } else {
      assert x in front;
      OccursOnce(front, x);
    }
  }

  lemma {:induction false} OccursNever(keys: seq<int>, x: int)
    requires forall k :: 0 <= k < |keys| ==> keys[k] != x
    ensures Occurrences(keys, x) == 0
  {
    if keys != [] {
      OccursNever(keys[..|keys| - 1], x);
    }
  }

  /** Taking one more point into account adds one to the cluster of its id. */
  lemma {:induction false} MemberCountStep<T>(sdrs: seq<T>, ids: seq<int>, keys: seq<int>, n: nat)
    requires 0 < n <= |ids| && n <= |sdrs|
    ensures MemberCount(sdrs, ids, keys, n) == MemberCount(sdrs, ids, keys, n - 1) + Occurrences(keys, ids[n - 1])
  {
    if keys != [] {
      MemberCountStep(sdrs, ids, keys[..|keys| - 1], n);
    }
  }

  /** The clusters of a repetition-free list of all ids partition the points. */
  lemma {:induction false} MembersTotal<T>(sdrs: seq<T>, ids: seq<int>, keys: seq<int>, n: nat)
    requires n <= |ids| && n <= |sdrs|
    requires Distinct(keys) && forall k :: 0 <= k < n ==> ids[k] in keys
    ensures MemberCount(sdrs, ids, keys, n) == n
  {
    if n == 0 {
      MemberCountEmpty(sdrs, ids, keys);
    } else {
      MembersTotal(sdrs, ids, keys, n - 1);
      MemberCountStep(sdrs, ids, keys, n);
      OccursOnce(keys, ids[n - 1]);
    }
  }

  lemma {:induction false} MemberCountEmpty<T>(sdrs: seq<T>, ids: seq<int>, keys: seq<int>)
    ensures MemberCount(sdrs, ids, keys, 0) == 0
  {
    if keys != [] {
      MemberCountEmpty(sdrs, ids, keys[..|keys| - 1]);
    }
  }

  lemma {:induction false} TotalSizeOfMembers<T>(clusters: map<int, seq<T>>, sdrs: seq<T>, ids: seq<int>, keys: seq<int>)
    requires |ids| <= |sdrs|
    requires forall k :: 0 <= k < |keys| ==> keys[k] in clusters
    requires forall c :: c in clusters ==> clusters[c] == Members(sdrs, ids, c, |ids|)
    ensures TotalSize(clusters, keys) == MemberCount(sdrs, ids, keys, |ids|)
  {
    if keys != [] {
      TotalSizeOfMembers(clusters, sdrs, ids, keys[..|keys| - 1]);
    }
  }

  // ---------------------------------------------------------------------------
  // Properties of the repetition numbers

  /** No occurrence of c in [a, b) leaves its run count unchanged. */
  lemma {:induction false} RunsUnchanged(ids: seq<int>, c: int, a: nat, b: nat)
    requires a <= b <= |ids|
    requires forall k :: a <= k < b ==> ids[k] != c
    ensures RunsOf(ids, c, b) == RunsOf(ids, c, a)
    decreases b - a
  {
    if a < b {
      RunsUnchanged(ids, c, a, b - 1);
    }
  }

  lemma {:induction false} RunsMonotone(ids: seq<int>, c: int, a: nat, b: nat)
    requires a <= b <= |ids|
    ensures RunsOf(ids, c, a) <= RunsOf(ids, c, b)
    decreases b - a
  {
    if a < b {
      RunsMonotone(ids, c, a, b - 1);
    }
  }

  /** Every point lies in some run of its id, so repetition numbers are never negative. */
  lemma {:induction false} RepetitionNonNegative(ids: seq<int>, i: nat)
    requires i < |ids|
    ensures RunsOf(ids, ids[i], i + 1) >= 1
  {
    if !RunStart(ids, i) {
      RepetitionNonNegative(ids, i - 1);
    }
  }

  /** Inside a run the repetition number does not change. */
  lemma RepetitionWithinRun(ids: seq<int>, i: nat)
    requires i + 1 < |ids| && ids[i + 1] == ids[i]
    ensures Repetitions(ids)[i + 1] == Repetitions(ids)[i]
  {
    assert !RunStart(ids, i + 1);
  }

  /** A point opening a new run of its id counts one more than the previous point with that id. */
  lemma NewRunCountsOneMore(ids: seq<int>, j: nat, i: nat)
    requires j < i < |ids| && ids[j] == ids[i] && ids[i - 1] != ids[i]
    requires forall k :: j < k < i ==> ids[k] != ids[i]
    ensures Repetitions(ids)[i] == Repetitions(ids)[j] + 1
  {
    RunsUnchanged(ids, ids[i], j + 1, i);
    RepetitionNonNegative(ids, j);
  }

  /** The points of the first run of an id all have repetition number 0. */
  lemma FirstRunIsZero(ids: seq<int>, s: nat, i: nat)
    requires s <= i < |ids|
    requires forall k :: 0 <= k < s ==> ids[k] != ids[i]
    requires forall k :: s <= k <= i ==> ids[k] == ids[i]
    ensures Repetitions(ids)[i] == 0
  {
    var c := ids[i];
    RunsUnchanged(ids, c, 0, s);
    FirstRunCount(ids, c, s, i + 1);
  }

  lemma {:induction false} FirstRunCount(ids: seq<int>, c: int, s: nat, n: nat)
    requires s < n <= |ids| && RunsOf(ids, c, s) == 0
    requires s == 0 || ids[s - 1] != c
    requires forall k :: s <= k < n ==> ids[k] == c
    ensures RunsOf(ids, c, n) == 1
  {
    if n - 1 > s {
      FirstRunCount(ids, c, s, n - 1);
    }
  }

  // ---------------------------------------------------------------------------
  // find_cluster_assignments

  function MaxOf(s: seq<int>): (r: int)
    requires s != []
    ensures r in s && forall k :: 0 <= k < |s| ==> s[k] <= r
  {
    if |s| == 1 then s[0]
    else
      var m := MaxOf(s[..|s| - 1]);
      assert forall k :: 0 <= k < |s| - 1 ==> s[..|s| - 1][k] == s[k];
      if s[|s| - 1] > m then s[|s| - 1] else m
  }

  function MinOf(s: seq<int>): (r: int)
    requires s != []
    ensures r in s && forall k :: 0 <= k < |s| ==> r <= s[k]
  {
    if |s| == 1 then s[0]
    else
      var m := MinOf(s[..|s| - 1]);
      assert forall k :: 0 <= k < |s| - 1 ==> s[..|s| - 1][k] == s[k];
      if s[|s| - 1] < m then s[|s| - 1] else m
  }

  /** `np.max(repetition[np.array(cluster_ids) == category])`. */
  function MaxRepetition(ids: seq<int>, reps: seq<int>, c: int): int
    requires |reps| == |ids| && c in ids
  {
    var idx := IndicesWhere(ids, x => x == c);
    assert idx != [] by {
      var i :| 0 <= i < |ids| && ids[i] == c;
      assert i in idx;
    }
    MaxOf(Gather(reps, idx))
  }

  /** The largest repetition number of an id is its number of runs minus one. */
  lemma MaxRepetitionIsRuns(ids: seq<int>, c: int)
    requires c in ids
    ensures MaxRepetition(ids, Repetitions(ids), c) == RunsOf(ids, c, |ids|) - 1
  {
    var j := LastOccurrence(ids, c);
    RunsUnchanged(ids, c, j + 1, |ids|);
    RepetitionsBounded(ids, c);
    MaxIsAttained(ids, Repetitions(ids), c, j, RunsOf(ids, c, |ids|) - 1);
  }

  /** No point of id c has a repetition number above the runs of c minus one. */
  lemma RepetitionsBounded(ids: seq<int>, c: int)
    ensures forall i :: 0 <= i < |ids| && ids[i] == c ==> Repetitions(ids)[i] <= RunsOf(ids, c, |ids|) - 1
  {
    forall i | 0 <= i < |ids| && ids[i] == c ensures Repetitions(ids)[i] <= RunsOf(ids, c, |ids|) - 1 {
      RunsMonotone(ids, c, i + 1, |ids|);
    }
  }

  /** A bound on the values of id c that one of them reaches is their maximum. */
  lemma MaxIsAttained(ids: seq<int>, reps: seq<int>, c: int, j: nat, top: int)
    requires |reps| == |ids| && j < |ids| && ids[j] == c && reps[j] == top
    requires forall i :: 0 <= i < |ids| && ids[i] == c ==> reps[i] <= top
    ensures MaxRepetition(ids, reps, c) == top
  {
    var idx := IndicesWhere(ids, x => x == c);
    var vals := Gather(reps, idx);
    assert j in idx;
    var q :| 0 <= q < |idx| && idx[q] == j;
    assert vals[q] == top;
  }

  lemma LastOccurrence(ids: seq<int>, c: int) returns (j: nat)
    requires c in ids
    ensures j < |ids| && ids[j] == c && forall k :: j < k < |ids| ==> ids[k] != c
  {
    var t := |ids| - 1;
    while ids[t] != c
      invariant 0 <= t < |ids| && c in ids[..t + 1]
      invariant forall k :: t < k < |ids| ==> ids[k] != c
      decreases t
    {
      assert ids[..t + 1] == ids[..t] + [ids[t]];
      t := t - 1;
    }
    j := t;
  }

  /** The number of runs of each of the given ids, minus one. */
  function RunCounts(ids: seq<int>, categories: seq<int>): (r: seq<int>)
    ensures |r| == |categories|
    ensures forall k :: 0 <= k < |categories| ==> r[k] == RunsOf(ids, categories[k], |ids|) - 1
  {
    seq(|categories|, k requires 0 <= k < |categories| => RunsOf(ids, categories[k], |ids|) - 1)
  }

  /** The fewest runs any id has, minus one (`np.min(num_reps_per_category.values())`). */
  function MinNumReps(ids: seq<int>): int
    requires ids != []
  {
    var categories := Unique(ids);
    assert ids[0] in Elems(categories);
    MinOf(RunCounts(ids, categories))
  }

  /** MinNumReps is the number of runs of the id with fewest runs, minus one. */
  lemma MinNumRepsIsFewestRuns(ids: seq<int>)
    requires ids != []
    ensures exists c :: c in ids && RunsOf(ids, c, |ids|) - 1 == MinNumReps(ids)
    ensures forall c :: c in ids ==> MinNumReps(ids) <= RunsOf(ids, c, |ids|) - 1
    ensures MinNumReps(ids) >= 0
  {
    UniqueNonEmpty(ids);
    FewestOfList(ids, Unique(ids), RunCounts(ids, Unique(ids)));
  }

  lemma UniqueNonEmpty(ids: seq<int>)
    requires ids != []
    ensures Unique(ids) != []
  {
    UniqueMembers(ids, ids[0]);
  }

  /** The minimum over a list of run counts that covers exactly the ids of `ids`. */
  lemma FewestOfList(ids: seq<int>, categories: seq<int>, vals: seq<int>)
    requires |vals| == |categories| && vals != []
    requires forall k :: 0 <= k < |categories| ==> vals[k] == RunsOf(ids, categories[k], |ids|) - 1
    requires Elems(categories) == Elems(ids)
    ensures exists c :: c in ids && RunsOf(ids, c, |ids|) - 1 == MinOf(vals)
    ensures forall c :: c in ids ==> MinOf(vals) <= RunsOf(ids, c, |ids|) - 1
    ensures MinOf(vals) >= 0
  {
    var m := MinOf(vals);
    var k :| 0 <= k < |vals| && vals[k] == m;
    var c := categories[k];
    assert c in Elems(categories);
    assert c in ids;
    forall c' | c' in ids ensures m <= RunsOf(ids, c', |ids|) - 1 {
      assert c' in Elems(ids);
      var q :| 0 <= q < |categories| && categories[q] == c';
      assert vals[q] == RunsOf(ids, c', |ids|) - 1;
    }
    var i :| 0 <= i < |ids| && ids[i] == c;
    RepetitionNonNegative(ids, i);
    RunsMonotone(ids, c, i + 1, |ids|);
  }

  /** The category groups reported per repetition: noise (0) only when it is not ignored. */
  function Groups(ignoreNoise: bool): seq<int> {
    if ignoreNoise then [1, 2] else [0, 1, 2]
  }

  /** p, k times over. */
  function Repeat(p: seq<int>, k: nat): seq<int>
  {
    if k == 0 then [] else Repeat(p, k - 1) + p
  }

  /** The points with id c and repetition number rpt, as the mask and comprehension select them. */
  function SliceIndices(ids: seq<int>, reps: seq<int>, c: int, rpt: int): (r: seq<nat>)
    requires |reps| == |ids|
    ensures StrictlyIncreasing(r)
    ensures forall k :: 0 <= k < |r| ==> r[k] < |ids| && ids[r[k]] == c && reps[r[k]] == rpt
    ensures forall i :: 0 <= i < |ids| && ids[i] == c && reps[i] == rpt ==> i in r
  {
    var mask := seq(|ids|, i requires 0 <= i < |ids| => if ids[i] == c && reps[i] == rpt then 1 else 0);
    Where(mask)
  }

  function Slice<T>(sdrs: seq<T>, ids: seq<int>, reps: seq<int>, c: int, rpt: int): seq<T>
    requires |reps| == |ids| <= |sdrs|
  {
    Gather(sdrs, SliceIndices(ids, reps, c, rpt))
  }

  /** The slices of rounds 0 .. k-1, one per group in each round. */
  function SliceRounds<T>(sdrs: seq<T>, ids: seq<int>, reps: seq<int>, groups: seq<int>, k: nat): seq<seq<T>>
    requires |reps| == |ids| <= |sdrs|
  {
    if k == 0 then []
    else
      SliceRounds(sdrs, ids, reps, groups, k - 1) +
      seq(|groups|, g requires 0 <= g < |groups| => Slice(sdrs, ids, reps, groups[g], k - 1))
  }

  /** k rounds report k * |groups| group ids and as many slices. */
  lemma RoundsCount<T>(sdrs: seq<T>, ids: seq<int>, reps: seq<int>, groups: seq<int>, k: nat)
    requires |reps| == |ids| <= |sdrs|
    ensures |Repeat(groups, k)| == |SliceRounds(sdrs, ids, reps, groups, k)| == k * |groups|
  {
    RoundsLength(sdrs, ids, reps, groups, k);
    StrideIsProduct(k, |groups|);
  }

  lemma {:induction false} RoundsLength<T>(sdrs: seq<T>, ids: seq<int>, reps: seq<int>, groups: seq<int>, k: nat)
    requires |reps| == |ids| <= |sdrs|
    ensures |Repeat(groups, k)| == |SliceRounds(sdrs, ids, reps, groups, k)| == Stride(k, |groups|)
  {
    if k > 0 {
      RoundsLength(sdrs, ids, reps, groups, k - 1);
    }
  }

  /** Position rpt * |groups| + g holds group g of round rpt, and its slice. */
  lemma RoundEntry<T>(sdrs: seq<T>, ids: seq<int>, reps: seq<int>, groups: seq<int>, k: nat, rpt: nat, g: nat)
    requires |reps| == |ids| <= |sdrs|
    requires rpt < k && g < |groups|
    ensures rpt * |groups| + g < k * |groups|
    ensures rpt * |groups| + g < |Repeat(groups, k)| && Repeat(groups, k)[rpt * |groups| + g] == groups[g]
    ensures rpt * |groups| + g < |SliceRounds(sdrs, ids, reps, groups, k)| &&
            SliceRounds(sdrs, ids, reps, groups, k)[rpt * |groups| + g] == Slice(sdrs, ids, reps, groups[g], rpt)
  {
    StrideIsProduct(rpt, |groups|);
    StrideIsProduct(k, |groups|);
    RoundEntryAt(sdrs, ids, reps, groups, k, rpt, g);
  }

  lemma {:induction false} RoundEntryAt<T>(sdrs: seq<T>, ids: seq<int>, reps: seq<int>, groups: seq<int>, k: nat, rpt: nat, g: nat)
    requires |reps| == |ids| <= |sdrs|
    requires rpt < k && g < |groups|
    ensures Stride(rpt, |groups|) + g < Stride(k, |groups|)
    ensures Stride(rpt, |groups|) + g < |Repeat(groups, k)| && Repeat(groups, k)[Stride(rpt, |groups|) + g] == groups[g]
    ensures Stride(rpt, |groups|) + g < |SliceRounds(sdrs, ids, reps, groups, k)| &&
            SliceRounds(sdrs, ids, reps, groups, k)[Stride(rpt, |groups|) + g] == Slice(sdrs, ids, reps, groups[g], rpt)
  {
    RoundsLength(sdrs, ids, reps, groups, k - 1);
    RoundsLength(sdrs, ids, reps, groups, k);
    if rpt < k - 1 {
      RoundEntryAt(sdrs, ids, reps, groups, k - 1, rpt, g);
    }
  }

  /**
   * `find_cluster_assignments`: for every repetition number up to the fewest runs
   * of any id, the groups (0,) 1, 2 and the points with that id and repetition.
   * Fewer SDRs than ids is IndexError; no ids at all is ValueError (np.min of nothing).
   */
  method FindClusterAssignments<T>(sdrs: seq<T>, clusterIds: seq<int>, ignoreNoise: bool)
    returns (r: Result<(seq<int>, seq<seq<T>>)>)
    ensures r.Ok? <==> |clusterIds| <= |sdrs| && clusterIds != []
    ensures r.Err? ==> r.error == if |clusterIds| > |sdrs| then IndexError else ValueError
    ensures r.Ok? ==> var m := MinNumReps(clusterIds);
                      r.value.0 == Repeat(Groups(ignoreNoise), m + 1) &&
                      r.value.1 == SliceRounds(sdrs, clusterIds, Repetitions(clusterIds), Groups(ignoreNoise), m + 1)
  {
    var found := FindClusterRepetitions(sdrs, clusterIds);
    if found.Err? {
      return Err(found.error);
    }
    r := AssignByRepetition(sdrs, clusterIds, found.value.0, ignoreNoise);
  }

  /** `find_cluster_assignments` once the repetition numbers are known. */
  method AssignByRepetition<T>(sdrs: seq<T>, clusterIds: seq<int>, repetition: seq<int>, ignoreNoise: bool)
    returns (r: Result<(seq<int>, seq<seq<T>>)>)
    requires |clusterIds| <= |sdrs| && repetition == Repetitions(clusterIds)
    ensures r.Ok? <==> clusterIds != []
    ensures r.Err? ==> r.error == ValueError
    ensures r.Ok? ==> var m := MinNumReps(clusterIds);
                      r.value.0 == Repeat(Groups(ignoreNoise), m + 1) &&
                      r.value.1 == SliceRounds(sdrs, clusterIds, repetition, Groups(ignoreNoise), m + 1)
  {
    var minNumReps := MinNumRepsPerCategory(clusterIds, repetition);
    if minNumReps.Err? {
      return Err(minNumReps.error);
    }
    var clusterAssignments, sdrSlices := SliceByRepetition(sdrs, clusterIds, repetition, ignoreNoise, minNumReps.value + 1);
    r := Ok((clusterAssignments, sdrSlices));
  }

  /**
   * The part of `find_cluster_assignments` that takes, per category, its largest
   * repetition number and then the smallest of those; `np.min` of no values raises.
   */
  method MinNumRepsPerCategory(clusterIds: seq<int>, repetition: seq<int>) returns (r: Result<int>)
    requires repetition == Repetitions(clusterIds)
    ensures r.Ok? <==> clusterIds != []
    ensures r.Err? ==> r.error == ValueError
    ensures r.Ok? ==> r.value == MinNumReps(clusterIds) >= 0
  {
    var categories := Unique(clusterIds);
    var numRepsPerCategory := NumRepsPerCategory(clusterIds, repetition, categories);
    if |categories| == 0 {
      if clusterIds != [] {
        UniqueNonEmpty(clusterIds);
      }
      return Err(ValueError);
    }
    var minNumReps := MinNumRepsOf(clusterIds, categories, numRepsPerCategory);
    r := Ok(minNumReps);
  }

  /** The loop of `find_cluster_assignments` that records, per category, its largest repetition number. */
  method NumRepsPerCategory(clusterIds: seq<int>, repetition: seq<int>, categories: seq<int>) returns (numRepsPerCategory: map<int, int>)
    requires repetition == Repetitions(clusterIds) && categories == Unique(clusterIds)
    ensures Tallied(clusterIds, categories, |categories|, numRepsPerCategory)
  {
    numRepsPerCategory := map[];
    for k := 0 to |categories|
      invariant Tallied(clusterIds, categories, k, numRepsPerCategory)
    {
      UniqueMembers(clusterIds, categories[k]);
      MaxRepetitionIsRuns(clusterIds, categories[k]);
      TallyStep(clusterIds, categories, k, numRepsPerCategory, MaxRepetition(clusterIds, repetition, categories[k]));
      numRepsPerCategory := numRepsPerCategory[categories[k] := MaxRepetition(clusterIds, repetition, categories[k])];
    }
  }

  /** `np.min` over the tallied values, in category order. */
  method MinNumRepsOf(clusterIds: seq<int>, categories: seq<int>, numRepsPerCategory: map<int, int>) returns (minNumReps: int)
    requires clusterIds != [] && categories == Unique(clusterIds)
    requires Tallied(clusterIds, categories, |categories|, numRepsPerCategory)
    ensures minNumReps == MinNumReps(clusterIds) >= 0
  {
    var values := seq(|categories|, k requires 0 <= k < |categories| => numRepsPerCategory[categories[k]]);
    TallyDone(clusterIds, categories, numRepsPerCategory, values);
    MinOfTally(clusterIds, values);
    minNumReps := MinOf(values);
  }

  /** The loop of `find_cluster_assignments` over repetition numbers 0 .. rounds-1. */
  method SliceByRepetition<T>(sdrs: seq<T>, clusterIds: seq<int>, repetition: seq<int>, ignoreNoise: bool, rounds: nat)
    returns (clusterAssignments: seq<int>, sdrSlices: seq<seq<T>>)
    requires |repetition| == |clusterIds| <= |sdrs|
    ensures clusterAssignments == Repeat(Groups(ignoreNoise), rounds)
    ensures sdrSlices == SliceRounds(sdrs, clusterIds, repetition, Groups(ignoreNoise), rounds)
  {
    sdrSlices := [];
    clusterAssignments := [];
    for rpt := 0 to rounds
      invariant clusterAssignments == Repeat(Groups(ignoreNoise), rpt)
      invariant sdrSlices == SliceRounds(sdrs, clusterIds, repetition, Groups(ignoreNoise), rpt)
    {
      var c0slice := Slice(sdrs, clusterIds, repetition, 0, rpt);
      var c1slice := Slice(sdrs, clusterIds, repetition, 1, rpt);
      var c2slice := Slice(sdrs, clusterIds, repetition, 2, rpt);
      RoundStep(sdrs, clusterIds, repetition, ignoreNoise, rpt);
      if !ignoreNoise {
        sdrSlices := sdrSlices + [c0slice];
        clusterAssignments := clusterAssignments + [0];
      }
      sdrSlices := sdrSlices + [c1slice];
      clusterAssignments := clusterAssignments + [1];
      sdrSlices := sdrSlices + [c2slice];
      clusterAssignments := clusterAssignments + [2];
    }
  }

  /** After k categories, each of them maps to its runs minus one. */
  ghost predicate Tallied(ids: seq<int>, categories: seq<int>, k: nat, numReps: map<int, int>)
  {
    k <= |categories| &&
    forall k' :: 0 <= k' < k ==>
      categories[k'] in numReps && numReps[categories[k']] == RunsOf(ids, categories[k'], |ids|) - 1
  }

  lemma TallyStep(ids: seq<int>, categories: seq<int>, k: nat, numReps: map<int, int>, top: int)
    requires k < |categories| && Tallied(ids, categories, k, numReps)
    requires top == RunsOf(ids, categories[k], |ids|) - 1
    ensures Tallied(ids, categories, k + 1, numReps[categories[k] := top])
  {
  }

  lemma TallyDone(ids: seq<int>, categories: seq<int>, numReps: map<int, int>, values: seq<int>)
    requires Tallied(ids, categories, |categories|, numReps)
    requires |values| == |categories| && forall k :: 0 <= k < |categories| ==> categories[k] in numReps && values[k] == numReps[categories[k]]
    ensures values == RunCounts(ids, categories)
  {
  }

  /** With at least one id, the minimum of the tallied values is MinNumReps, which is never negative. */
  lemma MinOfTally(ids: seq<int>, values: seq<int>)
    requires values == RunCounts(ids, Unique(ids)) && ids != []
    ensures values != [] && MinOf(values) == MinNumReps(ids) >= 0
  {
    UniqueNonEmpty(ids);
    MinNumRepsIsFewestRuns(ids);
  }

  /** One round appends the group ids and the slices of that round. */
  lemma RoundStep<T>(sdrs: seq<T>, ids: seq<int>, reps: seq<int>, ignoreNoise: bool, rpt: nat)
    requires |reps| == |ids| <= |sdrs|
    ensures var c0, c1, c2 := Slice(sdrs, ids, reps, 0, rpt), Slice(sdrs, ids, reps, 1, rpt), Slice(sdrs, ids, reps, 2, rpt);
            var groups := Groups(ignoreNoise);
            Repeat(groups, rpt + 1) == Repeat(groups, rpt) + (if ignoreNoise then [] else [0]) + [1] + [2] &&
            SliceRounds(sdrs, ids, reps, groups, rpt + 1) ==
              SliceRounds(sdrs, ids, reps, groups, rpt) + (if ignoreNoise then [] else [c0]) + [c1] + [c2]
  {
    var groups := Groups(ignoreNoise);
    var round := seq(|groups|, g requires 0 <= g < |groups| => Slice(sdrs, ids, reps, groups[g], rpt));
    var c0, c1, c2 := Slice(sdrs, ids, reps, 0, rpt), Slice(sdrs, ids, reps, 1, rpt), Slice(sdrs, ids, reps, 2, rpt);
    if ignoreNoise {
      assert round == [c1, c2];
    } else {
      assert round == [c0, c1, c2];
    }
  }

  // ---------------------------------------------------------------------------
  // cluster_distance_matrix

  /** The value the fill leaves at [a, b]: the distance computed with the smaller index first. */
  function FilledEntry<T>(clusters: seq<T>, clusterDist: (T, T) -> real, a: nat, b: nat): real
    requires a < |clusters| && b < |clusters|
  {
    if a <= b then clusterDist(clusters[a], clusters[b]) else clusterDist(clusters[b], clusters[a])
  }

  /**
   * `cluster_distance_matrix`: the upper triangle from the cluster distance, the
   * lower triangle mirrored from it. The distance function is a parameter.
   */
  method ClusterDistanceMatrix<T>(sdrClusters: seq<T>, clusterDist: (T, T) -> real) returns (distanceMat: array2<real>)
    ensures fresh(distanceMat)
    ensures distanceMat.Length0 == |sdrClusters| && distanceMat.Length1 == |sdrClusters|
    ensures forall i, j :: 0 <= i <= j < |sdrClusters| ==> distanceMat[i, j] == clusterDist(sdrClusters[i], sdrClusters[j])
    ensures forall i, j :: 0 <= i < |sdrClusters| && 0 <= j < |sdrClusters| ==> distanceMat[i, j] == distanceMat[j, i]
  {
    var numClusters := |sdrClusters|;
    distanceMat := new real[numClusters, numClusters]((_, _) => 0.0);
    for i := 0 to numClusters
      invariant forall a, b :: 0 <= a < numClusters && 0 <= b < numClusters ==>
                  distanceMat[a, b] == if a < i || b < i then FilledEntry(sdrClusters, clusterDist, a, b) else 0.0
    {
      for j := i to numClusters
        invariant forall a, b :: 0 <= a < numClusters && 0 <= b < numClusters ==>
                    distanceMat[a, b] ==
                      if a < i || b < i || (a == i && b < j) || (b == i && a < j)
                      then FilledEntry(sdrClusters, clusterDist, a, b) else 0.0
      {
        distanceMat[i, j] := clusterDist(sdrClusters[i], sdrClusters[j]);
        distanceMat[j, i] := distanceMat[i, j];
      }
    }
  }
}
