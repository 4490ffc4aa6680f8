/**
 * The SDR helpers of the scikit-learn sandbox: random SDRs drawn from a
 * permutation, their in-place corruption by noise, labelled families of noisy
 * copies. Every `np.random.permutation` draw is an input.
 */
module SklearnUtils {
  import opened Sdr

  // ---------------------------------------------------------------------------
  // generate_sdr

  /**
   * `generate_sdr(n, w)`: ones at the first w entries of `perm`, the draw of
   * `np.random.permutation(np.arange(n))`. `np.zeros` of a negative length raises ValueError.
   */
  function GenerateSdr(n: int, w: int, perm: seq<int>): (r: Result<seq<int>>)
    requires IsPermutation(perm, n)
    ensures r.Ok? <==> n >= 0
    ensures r.Err? ==> r.error == ValueError
    ensures r.Ok? ==> |r.value| == n
  {
    if n < 0 then Err(ValueError) else Ok(Scatter(n, Head(perm, w)))
  }

  /**
   * A generated SDR is 0/1 with its ones exactly at the first w entries of the
   * permutation: min(w, n) of them for w >= 0 (`perm[:w]` for negative w).
   */
  lemma GeneratedSdrActiveBits(n: int, w: int, perm: seq<int>)
    requires IsPermutation(perm, n) && n >= 0
    ensures var sdr := GenerateSdr(n, w, perm).value;
            IsBinary(sdr) && (forall j :: 0 <= j < n ==> (sdr[j] == 1 <==> j in Head(perm, w))) &&
            Sum(sdr) == HeadLen(n, w) && (0 <= w ==> Sum(sdr) == Min(w, n))
  {
    var active := Head(perm, w);
    SumOfScatter(n, active);
    TargetsOfNatural(active, n);
    assert Targets(active, n) == Elems(active);
    ElemsBound(active);
  }

  // ---------------------------------------------------------------------------
  // corrupt_sparse_vector

  /** `int(noise_level * np.sum(sdr))`. */
  function NumNoiseBits(noiseLevel: real, s: seq<int>): int {
    Trunc(noiseLevel * Sum(s) as real)
  }

  /** The two permutations drawn when m > 0 fit the active and the inactive positions. */
  predicate NoiseDraw(s: seq<int>, m: int, offPerm: seq<int>, onPerm: seq<int>) {
    m > 0 ==> IsPermutation(offPerm, |Where(s)|) && IsPermutation(onPerm, |WhereZero(s)|)
  }

  /** `np.random.permutation(active_bits)[:m]`. */
  function TurnOff(s: seq<int>, m: int, offPerm: seq<int>): (r: seq<nat>)
    requires IsPermutation(offPerm, |Where(s)|)
    ensures forall k :: 0 <= k < |r| ==> r[k] < |s| && s[r[k]] > 0
  {
    Head(Shuffle(Where(s), offPerm), m)
  }

  /** `np.random.permutation(inactive_bits)[:m]`. */
  function TurnOn(s: seq<int>, m: int, onPerm: seq<int>): (r: seq<nat>)
    requires IsPermutation(onPerm, |WhereZero(s)|)
    ensures forall k :: 0 <= k < |r| ==> r[k] < |s| && s[r[k]] == 0
  {
    Head(Shuffle(WhereZero(s), onPerm), m)
  }

  /** The vector after `sdr[turn_off_bits] = 0; sdr[turn_on_bits] = 1`, untouched when m <= 0. */
  function Corrupted(s: seq<int>, m: int, offPerm: seq<int>, onPerm: seq<int>): seq<int>
    requires NoiseDraw(s, m, offPerm, onPerm)
  {
    if m <= 0 then s
    else Assign(Assign(s, TurnOff(s, m, offPerm), 0), TurnOn(s, m, onPerm), 1)
  }

  /**
   * `corrupt_sparse_vector`: turns off up to m = int(noise_level * sum) active bits
   * and turns on up to m inactive ones, in place; does nothing when m <= 0.
   */
  method CorruptSparseVector(sdr: array<int>, noiseLevel: real, offPerm: seq<int>, onPerm: seq<int>)
    requires NoiseDraw(sdr[..], NumNoiseBits(noiseLevel, sdr[..]), offPerm, onPerm)
    modifies sdr
    ensures sdr[..] == Corrupted(old(sdr[..]), NumNoiseBits(noiseLevel, old(sdr[..])), offPerm, onPerm)
  {
    var numNoiseBits := NumNoiseBits(noiseLevel, sdr[..]);
    if numNoiseBits <= 0 {
      return;
    }
    var activeBits := Where(sdr[..]);
    var inactiveBits := WhereZero(sdr[..]);
    var turnOffBits := Shuffle(activeBits, offPerm);
    var turnOnBits := Shuffle(inactiveBits, onPerm);
    turnOffBits := Head(turnOffBits, numNoiseBits);
    turnOnBits := Head(turnOnBits, numNoiseBits);
    AssignAll(sdr, turnOffBits, 0);
    AssignAll(sdr, turnOnBits, 1);
  }

  /** The positions a corruption switched off. */
  ghost function Cleared(s: seq<int>, r: seq<int>): set<nat>
    requires |r| == |s|
  {
    set j | 0 <= j < |s| && s[j] > 0 && r[j] == 0
  }

  /** The positions a corruption switched on. */
  ghost function Raised(s: seq<int>, r: seq<int>): set<nat>
    requires |r| == |s|
  {
    set j | 0 <= j < |s| && s[j] == 0 && r[j] == 1
  }

  /** Position by position: on where turned on, off where turned off, otherwise unchanged. */
  lemma CorruptedAt(s: seq<int>, m: int, offPerm: seq<int>, onPerm: seq<int>)
    requires m > 0 && NoiseDraw(s, m, offPerm, onPerm)
    ensures |Corrupted(s, m, offPerm, onPerm)| == |s|
    ensures forall j :: 0 <= j < |s| ==>
              Corrupted(s, m, offPerm, onPerm)[j] ==
                if j in Elems(TurnOn(s, m, onPerm)) then 1
                else if j in Elems(TurnOff(s, m, offPerm)) then 0
                else s[j]
  {
    var off, on := TurnOff(s, m, offPerm), TurnOn(s, m, onPerm);
    AssignAt(s, off, 0);
    AssignAt(Assign(s, off, 0), on, 1);
    TargetsOfNatural(off, |s|);
    TargetsOfNatural(on, |s|);
    assert Targets(off, |s|) == Elems(off);
    assert Targets(on, |s|) == Elems(on);
  }

  /**
   * Corruption only clears bits that were active and only sets bits that were
   * inactive; it keeps the length and a 0/1 vector stays 0/1. With m <= 0 it is the identity.
   */
  lemma CorruptionFlipsOnly(s: seq<int>, m: int, offPerm: seq<int>, onPerm: seq<int>)
    requires NoiseDraw(s, m, offPerm, onPerm)
    ensures var r := Corrupted(s, m, offPerm, onPerm);
            |r| == |s| &&
            (forall j :: 0 <= j < |s| && r[j] != s[j] ==> (s[j] > 0 && r[j] == 0) || (s[j] == 0 && r[j] == 1)) &&
            (IsBinary(s) ==> IsBinary(r)) &&
            (m <= 0 ==> r == s)
  {
    if m > 0 {
      CorruptedAt(s, m, offPerm, onPerm);
      var off, on := TurnOff(s, m, offPerm), TurnOn(s, m, onPerm);
      forall j | 0 <= j < |s| && j in Elems(on) ensures s[j] == 0 {
        var k :| 0 <= k < |on| && on[k] == j;
      }
      forall j | 0 <= j < |s| && j in Elems(off) ensures s[j] > 0 {
        var k :| 0 <= k < |off| && off[k] == j;
      }
    }
  }

  /** Turning off positions that held a positive value and turning on positions that held 0. */
  lemma FlipSets(s: seq<int>, r: seq<int>, off: seq<nat>, on: seq<nat>)
    requires |r| == |s|
    requires forall k :: 0 <= k < |off| ==> off[k] < |s| && s[off[k]] > 0
    requires forall k :: 0 <= k < |on| ==> on[k] < |s| && s[on[k]] == 0
    requires forall j :: 0 <= j < |s| ==> r[j] == if j in Elems(on) then 1 else if j in Elems(off) then 0 else s[j]
    ensures Cleared(s, r) == Elems(off) && Raised(s, r) == Elems(on)
  {
    forall j | j in Elems(on) ensures j < |s| && s[j] == 0 {
      var k :| 0 <= k < |on| && on[k] == j;
    }
    forall j | j in Elems(off) ensures j < |s| && s[j] > 0 {
      var k :| 0 <= k < |off| && off[k] == j;
    }
  }

  /** The first m entries of a shuffled repetition-free list are min(m, length) distinct positions. */
  lemma DrawnPositions(s: seq<nat>, p: seq<int>, m: int)
    requires m > 0 && IsPermutation(p, |s|) && StrictlyIncreasing(s)
    ensures |Elems(Head(Shuffle(s, p), m))| == Min(m, |s|)
  {
    ShuffleDistinct(s, p);
    ElemsBound(Head(Shuffle(s, p), m));
  }

  /**
   * With m > 0, corruption switches off exactly min(m, #active) bits and switches
   * on exactly min(m, #inactive) bits.
   */
  lemma CorruptionCounts(s: seq<int>, m: int, offPerm: seq<int>, onPerm: seq<int>)
    requires m > 0 && NoiseDraw(s, m, offPerm, onPerm)
    ensures var r := Corrupted(s, m, offPerm, onPerm);
            |r| == |s| &&
            Cleared(s, r) == Elems(TurnOff(s, m, offPerm)) && |Cleared(s, r)| == Min(m, |Where(s)|) &&
            Raised(s, r) == Elems(TurnOn(s, m, onPerm)) && |Raised(s, r)| == Min(m, |WhereZero(s)|)
  {
    var r := Corrupted(s, m, offPerm, onPerm);
    CorruptedAt(s, m, offPerm, onPerm);
    FlipSets(s, r, TurnOff(s, m, offPerm), TurnOn(s, m, onPerm));
    DrawnPositions(Where(s), offPerm, m);
    DrawnPositions(WhereZero(s), onPerm, m);
  }

  /**
   * When m fits both the active and the inactive positions, exactly m bits flip
   * each way, so a 0/1 vector keeps its number of active bits.
   */
  lemma CorruptionKeepsActiveCount(s: seq<int>, m: int, offPerm: seq<int>, onPerm: seq<int>)
    requires 0 < m <= |Where(s)| && m <= |WhereZero(s)| && NoiseDraw(s, m, offPerm, onPerm)
    requires IsBinary(s)
    ensures var r := Corrupted(s, m, offPerm, onPerm);
            |r| == |s| && |Cleared(s, r)| == m && |Raised(s, r)| == m && Sum(r) == Sum(s)
  {
    var r := Corrupted(s, m, offPerm, onPerm);
    CorruptionCounts(s, m, offPerm, onPerm);
    CorruptionFlipsOnly(s, m, offPerm, onPerm);
    FlipsKeepCount(s, r);
  }

  /** A 0/1 vector that loses as many ones as it gains keeps its sum. */
  lemma FlipsKeepCount(s: seq<int>, r: seq<int>)
    requires |r| == |s| && IsBinary(s) && IsBinary(r)
    requires |Cleared(s, r)| == |Raised(s, r)|
    ensures Sum(r) == Sum(s)
  {
    var ones, cleared, raised := OnesOf(s), Cleared(s, r), Raised(s, r);
    assert OnesOf(r) == (ones - cleared) + raised;
    SwapSize(ones, cleared, raised);
    SumOfBinary(s);
    SumOfBinary(r);
  }

  /** Removing some members of a set and adding as many outsiders keeps its size. */
  lemma SwapSize(ones: set<nat>, cleared: set<nat>, raised: set<nat>)
    requires cleared <= ones && ones * raised == {} && |cleared| == |raised|
    ensures |(ones - cleared) + raised| == |ones|
  {
    assert |ones - cleared| == |ones| - |cleared| by {
      assert ones == (ones - cleared) + cleared;
    }
    assert (ones - cleared) * raised == {};
  }

  // ---------------------------------------------------------------------------
  // generate_sdrs

  /** The noise draws of one class fit the template they corrupt. */
  predicate DrawsFit(template: seq<int>, noiseLevel: real, draws: seq<(seq<int>, seq<int>)>) {
    forall k :: 0 <= k < |draws| ==> NoiseDraw(template, NumNoiseBits(noiseLevel, template), draws[k].0, draws[k].1)
  }

  /** The noisy copies of one class: the template corrupted once per draw, in order. */
  function ClassSamples(template: seq<int>, noiseLevel: real, draws: seq<(seq<int>, seq<int>)>): (r: seq<seq<int>>)
    requires DrawsFit(template, noiseLevel, draws)
    ensures |r| == |draws|
  {
    if draws == [] then []
    else
      var k := |draws| - 1;
      ClassSamples(template, noiseLevel, draws[..k]) +
      [Corrupted(template, NumNoiseBits(noiseLevel, template), draws[k].0, draws[k].1)]
  }

  /** Copy k of a class is the template corrupted with the k-th draw. */
  lemma {:induction false} ClassSampleAt(template: seq<int>, noiseLevel: real, draws: seq<(seq<int>, seq<int>)>, k: nat)
    requires DrawsFit(template, noiseLevel, draws) && k < |draws|
    ensures ClassSamples(template, noiseLevel, draws)[k] ==
            Corrupted(template, NumNoiseBits(noiseLevel, template), draws[k].0, draws[k].1)
  {
    var last := |draws| - 1;
    if k < last {
      var front := draws[..last];
      assert front[k] == draws[k];
      ClassSampleAt(template, noiseLevel, front, k);
    }
  }

  /** One template permutation per class and, per class, the noise draws of its copies. */
  predicate Draws(n: int, w: int, noiseLevel: real, templatePerms: seq<seq<int>>,
                  noisePerms: seq<seq<(seq<int>, seq<int>)>>, classes: nat, perClass: nat)
  {
    classes <= |templatePerms| && classes <= |noisePerms| &&
    forall c :: 0 <= c < classes ==>
      IsPermutation(templatePerms[c], n) && |noisePerms[c]| == perClass &&
      (n >= 0 ==> DrawsFit(GenerateSdr(n, w, templatePerms[c]).value, noiseLevel, noisePerms[c]))
  }

  /** The copies of each of the first `classes` classes, one block per class. */
  function ClassBlocks(n: int, w: int, noiseLevel: real, templatePerms: seq<seq<int>>,
                       noisePerms: seq<seq<(seq<int>, seq<int>)>>, classes: nat, perClass: nat): (r: seq<seq<seq<int>>>)
    requires classes == 0 || n >= 0
    requires Draws(n, w, noiseLevel, templatePerms, noisePerms, classes, perClass)
    ensures |r| == classes
  {
    if classes == 0 then []
    else
      var c := classes - 1;
      ClassBlocks(n, w, noiseLevel, templatePerms, noisePerms, c, perClass) +
      [ClassSamples(GenerateSdr(n, w, templatePerms[c]).value, noiseLevel, noisePerms[c])]
  }

  /** Block c holds the copies of class c. */
  lemma {:induction false} ClassBlockAt(n: int, w: int, noiseLevel: real, templatePerms: seq<seq<int>>,
                                        noisePerms: seq<seq<(seq<int>, seq<int>)>>, classes: nat, perClass: nat, c: nat)
    requires n >= 0 && Draws(n, w, noiseLevel, templatePerms, noisePerms, classes, perClass) && c < classes
    ensures ClassBlocks(n, w, noiseLevel, templatePerms, noisePerms, classes, perClass)[c] ==
            ClassSamples(GenerateSdr(n, w, templatePerms[c]).value, noiseLevel, noisePerms[c])
  {
    if c < classes - 1 {
      ClassBlockAt(n, w, noiseLevel, templatePerms, noisePerms, classes - 1, perClass, c);
    }
  }

  /**
   * `generate_sdrs`: for each class a template from `generate_sdr(n, w)` and
   * `num_sdr_per_class` corrupted copies of it; the class ids are 0, 1, ...
   * A negative n raises ValueError at the first class.
   */
  method GenerateSdrs(numSdrClasses: int, numSdrPerClass: int, n: int, w: int, noiseLevel: real,
                      templatePerms: seq<seq<int>>, noisePerms: seq<seq<(seq<int>, seq<int>)>>)
    returns (r: Result<(seq<seq<int>>, seq<int>)>)
    requires Draws(n, w, noiseLevel, templatePerms, noisePerms, Max0(numSdrClasses), Max0(numSdrPerClass))
    ensures r.Ok? <==> numSdrClasses <= 0 || n >= 0
    ensures r.Err? ==> r.error == ValueError
    ensures r.Ok? ==> |r.value.1| == Max0(numSdrClasses) && forall i :: 0 <= i < |r.value.1| ==> r.value.1[i] == i
    ensures r.Ok? ==> r.value.0 == Flatten(ClassBlocks(n, w, noiseLevel, templatePerms, noisePerms,
                                                       Max0(numSdrClasses), Max0(numSdrPerClass)))
  {
    var sdrs := [];
    var classIds := [];
    for classId := 0 to Max0(numSdrClasses)
      invariant |classIds| == classId && forall i :: 0 <= i < classId ==> classIds[i] == i
      invariant classId > 0 ==> n >= 0
      invariant Draws(n, w, noiseLevel, templatePerms, noisePerms, classId, Max0(numSdrPerClass))
      invariant sdrs == Flatten(ClassBlocks(n, w, noiseLevel, templatePerms, noisePerms, classId, Max0(numSdrPerClass)))
    {
      classIds := classIds + [classId];
      var templateSdr := GenerateSdr(n, w, templatePerms[classId]);
      if templateSdr.Err? {
        return Err(templateSdr.error);
      }
      DrawsPrefix(n, w, noiseLevel, templatePerms, noisePerms, Max0(numSdrClasses), classId + 1, Max0(numSdrPerClass));
      sdrs := AddClass(n, w, noiseLevel, templatePerms, noisePerms, classId, Max0(numSdrPerClass), templateSdr.value, sdrs);
    }
    r := Ok((sdrs, classIds));
  }

  /** One pass of the outer loop of `generate_sdrs` once the template exists: its copies are appended. */
  method AddClass(n: int, w: int, noiseLevel: real, templatePerms: seq<seq<int>>,
                  noisePerms: seq<seq<(seq<int>, seq<int>)>>, classId: nat, perClass: nat,
                  templateSdr: seq<int>, sdrs: seq<seq<int>>)
    returns (sdrs': seq<seq<int>>)
    requires n >= 0 && Draws(n, w, noiseLevel, templatePerms, noisePerms, classId + 1, perClass)
    requires templateSdr == GenerateSdr(n, w, templatePerms[classId]).value
    requires sdrs == Flatten(ClassBlocks(n, w, noiseLevel, templatePerms, noisePerms, classId, perClass))
    ensures sdrs' == Flatten(ClassBlocks(n, w, noiseLevel, templatePerms, noisePerms, classId + 1, perClass))
  {
    var sdrCluster := AddClassSamples(templateSdr, noiseLevel, noisePerms[classId]);
    FlattenSnoc(ClassBlocks(n, w, noiseLevel, templatePerms, noisePerms, classId, perClass), sdrCluster);
    sdrs' := sdrs + sdrCluster;
  }

  lemma DrawsPrefix(n: int, w: int, noiseLevel: real, templatePerms: seq<seq<int>>,
                    noisePerms: seq<seq<(seq<int>, seq<int>)>>, total: nat, classes: nat, perClass: nat)
    requires Draws(n, w, noiseLevel, templatePerms, noisePerms, total, perClass) && classes <= total
    ensures Draws(n, w, noiseLevel, templatePerms, noisePerms, classes, perClass)
  {
  }

  /** The inner loop of `generate_sdrs`: each copy of the template corrupted with its own draws. */
  method AddClassSamples(template: seq<int>, noiseLevel: real, draws: seq<(seq<int>, seq<int>)>)
    returns (sdrCluster: seq<seq<int>>)
    requires DrawsFit(template, noiseLevel, draws)
    ensures sdrCluster == ClassSamples(template, noiseLevel, draws)
  {
    var m := NumNoiseBits(noiseLevel, template);
    sdrCluster := [];
    for k := 0 to |draws|
      invariant DrawsFit(template, noiseLevel, draws[..k])
      invariant sdrCluster == ClassSamples(template, noiseLevel, draws[..k])
    {
      var noisySdr := CopyOf(template);
      CorruptSparseVector(noisySdr, noiseLevel, draws[k].0, draws[k].1);
      assert draws[..k + 1][..k] == draws[..k];
      sdrCluster := sdrCluster + [noisySdr[..]];
    }
    assert draws[..|draws|] == draws;
  }

  /** `copy.copy(template_sdr)`: a fresh array with the template's entries. */
  method CopyOf(s: seq<int>) returns (a: array<int>)
    ensures fresh(a) && a[..] == s
  {
    a := new int[|s|](i requires 0 <= i < |s| => s[i]);
  }

  /**
   * The generated SDRs come class by class: there are classes * perClass of them,
   * and the k-th copy of class c sits at c * perClass + k.
   */
  lemma GeneratedLayout(n: int, w: int, noiseLevel: real, templatePerms: seq<seq<int>>,
                        noisePerms: seq<seq<(seq<int>, seq<int>)>>, classes: nat, perClass: nat, c: nat, k: nat)
    requires n >= 0 && Draws(n, w, noiseLevel, templatePerms, noisePerms, classes, perClass)
    requires c < classes && k < perClass
    ensures var g := Flatten(ClassBlocks(n, w, noiseLevel, templatePerms, noisePerms, classes, perClass));
            |g| == classes * perClass && c * perClass + k < |g| &&
            g[c * perClass + k] == ClassSamples(GenerateSdr(n, w, templatePerms[c]).value, noiseLevel, noisePerms[c])[k]
  {
    var blocks := ClassBlocks(n, w, noiseLevel, templatePerms, noisePerms, classes, perClass);
    forall i | 0 <= i < classes ensures |blocks[i]| == perClass {
      ClassBlockAt(n, w, noiseLevel, templatePerms, noisePerms, classes, perClass, i);
    }
    ClassBlockAt(n, w, noiseLevel, templatePerms, noisePerms, classes, perClass, c);
    FlattenAt(blocks, perClass, c, k);
  }

  /**
   * Every generated SDR has length n and is 0/1; when the noise count m fits both the
   * active and the inactive bits of the template, it keeps the template's min(w, n) active bits.
   */
  lemma NoisyCopy(n: int, w: int, perm: seq<int>, noiseLevel: real, offPerm: seq<int>, onPerm: seq<int>)
    requires n >= 0 && IsPermutation(perm, n)
    requires var template := GenerateSdr(n, w, perm).value;
             NoiseDraw(template, NumNoiseBits(noiseLevel, template), offPerm, onPerm)
    ensures var template := GenerateSdr(n, w, perm).value;
            var m := NumNoiseBits(noiseLevel, template);
            var x := Corrupted(template, m, offPerm, onPerm);
            |x| == n && IsBinary(x) &&
            (m <= |Where(template)| && m <= |WhereZero(template)| ==> Sum(x) == HeadLen(n, w))
  {
    var template := GenerateSdr(n, w, perm).value;
    var m := NumNoiseBits(noiseLevel, template);
    CorruptionFlipsOnly(template, m, offPerm, onPerm);
    GeneratedSdrActiveBits(n, w, perm);
    if 0 < m <= |Where(template)| && m <= |WhereZero(template)| {
      CorruptionKeepsActiveCount(template, m, offPerm, onPerm);
    }
  }
}
