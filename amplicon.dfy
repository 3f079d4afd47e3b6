/**
 * A candidate partition of the alignment into overlapping windows
 * (class AmpliconSet): its consistency tests, the ten statistics computed
 * from the reads that span the windows, their empirical tail probabilities
 * among all candidates, the score ordering, and the two random generators
 * of window layouts.
 */
module Amplicons {
  import opened Common
  import opened Reads

  /** The value the score takes when it is not a finite number (-1E100). */
  const Floor100: real := -1.0e100
  /** The floor a probability is raised to before its logarithm (1E-100). */
  const Tiny: real := 1.0e-100
  /** Above this many read pairs the diversity is estimated by sampling. */
  const SubSample: real := 3333.0

  // ---------------------------------------------------------------------
  // Consistency of a window layout
  // ---------------------------------------------------------------------

  /** checkConsistency's test on two consecutive windows. */
  predicate PairConsistent(start1: real, stop1: real, start2: real, stop2: real)
  {
    start1 < start2 && stop1 < stop2 && start1 < stop1 && start2 < stop2 && start2 < stop1
  }

  /** checkNonMutualOverlapsConsistency's test on three consecutive windows. */
  predicate TripleConsistent(start1: real, stop1: real, start2: real, stop2: real, start3: real, stop3: real)
  {
    stop1 < start3 && start1 < start2 && start2 < start3 && stop1 < stop2 && stop2 < stop3
    && start2 < stop1 && start3 < stop2
  }

  /** checkConsistency: every window overlaps the next and both ends advance. */
  predicate CheckConsistency(starts: seq<real>, stops: seq<real>)
    requires |starts| <= |stops|
  {
    |starts| == 1
    || forall i :: 0 <= i < |starts| - 1 ==> PairConsistent(starts[i], stops[i], starts[i + 1], stops[i + 1])
  }

  /** checkNonMutualOverlapsConsistency: as above, and no window reaches past the next but one. */
  predicate CheckNonMutualOverlapsConsistency(starts: seq<real>, stops: seq<real>)
    requires |starts| <= |stops|
  {
    if |starts| == 1 then true
    else if |starts| == 2 then starts[1] < stops[0] && starts[0] < starts[1] && stops[0] < stops[1]
    else
      forall i :: 0 <= i < |starts| - 2 ==>
        TripleConsistent(starts[i], stops[i], starts[i + 1], stops[i + 1], starts[i + 2], stops[i + 2])
  }

  /** The stronger test implies the weaker one. */
  lemma NonMutualImpliesConsistency(starts: seq<real>, stops: seq<real>)
    requires |starts| <= |stops|
    requires CheckNonMutualOverlapsConsistency(starts, stops)
    ensures CheckConsistency(starts, stops)
  {
    var n := |starts|;
    if n > 2 {
      forall i | 0 <= i < n - 1
        ensures PairConsistent(starts[i], stops[i], starts[i + 1], stops[i + 1])
      {
        if i < n - 2 {
          assert TripleConsistent(starts[i], stops[i], starts[i + 1], stops[i + 1], starts[i + 2], stops[i + 2]);
        } else {
          assert TripleConsistent(starts[i - 1], stops[i - 1], starts[i], stops[i], starts[i + 1], stops[i + 1]);
        }
      }
    }
  }

  /** ... and it is strictly stronger: three windows where the first reaches the third. */
  lemma NonMutualIsStronger()
    ensures CheckConsistency([0.0, 1.0, 2.0], [3.0, 4.0, 5.0])
    ensures !CheckNonMutualOverlapsConsistency([0.0, 1.0, 2.0], [3.0, 4.0, 5.0])
  {
    var starts, stops := [0.0, 1.0, 2.0], [3.0, 4.0, 5.0];
    assert PairConsistent(starts[0], stops[0], starts[1], stops[1]);
    assert PairConsistent(starts[1], stops[1], starts[2], stops[2]);
    assert !TripleConsistent(starts[0], stops[0], starts[1], stops[1], starts[2], stops[2]);
  }

  /**
   * A consistent layout has strictly increasing starts and stops, non-empty
   * windows (once there are two of them; a single window always passes) and
   * a positive overlap between each window and the next.
   */
  lemma {:induction false} ConsistentLayout(starts: seq<real>, stops: seq<real>)
    requires |starts| <= |stops| && CheckConsistency(starts, stops)
    ensures forall i, j :: 0 <= i < j < |starts| ==> starts[i] < starts[j] && stops[i] < stops[j]
    ensures |starts| > 1 ==> forall i :: 0 <= i < |starts| ==> starts[i] < stops[i]
    ensures forall i :: 0 <= i < |starts| - 1 ==> stops[i] - starts[i + 1] > 0.0
  {
    forall i, j | 0 <= i < j < |starts|
      ensures starts[i] < starts[j] && stops[i] < stops[j]
    {
      Advance(starts, stops, i, j);
    }
    forall i | 0 <= i < |starts| && |starts| > 1
      ensures starts[i] < stops[i]
    {
      if i < |starts| - 1 {
        assert PairConsistent(starts[i], stops[i], starts[i + 1], stops[i + 1]);
      } else {
        assert PairConsistent(starts[i - 1], stops[i - 1], starts[i], stops[i]);
      }
    }
  }

  lemma {:induction false} Advance(starts: seq<real>, stops: seq<real>, i: nat, j: nat)
    requires |starts| <= |stops| && CheckConsistency(starts, stops)
    requires i < j < |starts|
    ensures starts[i] < starts[j] && stops[i] < stops[j]
    decreases j - i
  {
    assert PairConsistent(starts[j - 1], stops[j - 1], starts[j], stops[j]);
    if i < j - 1 {
      Advance(starts, stops, i, j - 1);
    }
  }

  // ---------------------------------------------------------------------
  // Statistics of a layout over a read population
  // ---------------------------------------------------------------------

  /** The ten statistics of a layout, in the order of the fields of AmpliconSet. */
  datatype Stats = Stats(
    minReadCoverage: real, overallReadCoverage: real,
    minOverlapDiversity: real, overallOverlapDiversity: real,
    numNonZeroOverlapDiversity: real, numOverlaps: real,
    minOverlapLength: real, overallOverlapLength: real,
    minAmpliconLength: real, overallAmpliconLength: real)

  /** The reads of the population that span [sta, sto], in population order (covering[j]). */
  function Covering(pop: seq<Read>, sta: real, sto: real): (c: seq<Read>)
    reads pop
    ensures |c| <= |pop|
    ensures forall i :: 0 <= i < |c| ==> c[i] in pop
  {
    if pop == [] then []
    else
      var c := Covering(pop[..|pop| - 1], sta, sto);
      if pop[|pop| - 1].Spans(sta, sto) then c + [pop[|pop| - 1]] else c
  }

  /** covering[j] holds exactly the reads of the population that span the window. */
  lemma {:induction false} CoveringExact(pop: seq<Read>, sta: real, sto: real)
    ensures forall i :: 0 <= i < |Covering(pop, sta, sto)| ==>
      Covering(pop, sta, sto)[i] in pop && Covering(pop, sta, sto)[i].Spans(sta, sto)
    ensures forall i :: 0 <= i < |pop| && pop[i].Spans(sta, sto) ==> pop[i] in Covering(pop, sta, sto)
  {
    if pop != [] {
      var front := pop[..|pop| - 1];
      CoveringExact(front, sta, sto);
      assert forall i :: 0 <= i < |front| ==> front[i] == pop[i];
    }
  }

  /** The read coverage of the first m windows (rcv). */
  function Coverages(pop: seq<Read>, starts: seq<real>, stops: seq<real>, m: nat): (rcv: seq<real>)
    requires m <= |starts| <= |stops|
    reads pop
    ensures |rcv| == m
  {
    if m == 0 then []
    else Coverages(pop, starts, stops, m - 1) + [|Covering(pop, starts[m - 1], stops[m - 1])| as real]
  }

  /** The reads covering window j - 1 followed by those covering window j (allOverlappingReads). */
  function OverlapReads(pop: seq<Read>, starts: seq<real>, stops: seq<real>, j: nat): seq<Read>
    requires 1 <= j < |starts| <= |stops|
    reads pop
  {
    Covering(pop, starts[j - 1], stops[j - 1]) + Covering(pop, starts[j], stops[j])
  }

  /** The number of unordered pairs among m reads, as the source computes it in doubles. */
  function Pairs(m: nat): real
  {
    (m as real) * (m as real - 1.0) / 2.0
  }

  /** Distances of read i to the reads i+1 .. k-1 inside [sta, sto]. */
  function Row(all: seq<Read>, i: nat, k: nat, sta: real, sto: real): nat
    requires i < |all| && k <= |all|
    reads all
  {
    if k <= i + 1 then 0 else Row(all, i, k - 1, sta, sto) + all[i].Distance(all[k - 1], sta, sto)
  }

  /** Distances over all pairs whose first read is among the first i. */
  function Rows(all: seq<Read>, i: nat, sta: real, sto: real): nat
    requires i <= |all|
    reads all
  {
    if i == 0 then 0 else Rows(all, i - 1, sta, sto) + Row(all, i - 1, |all|, sta, sto)
  }

  /** The sum of the distances of all unordered pairs of reads inside [sta, sto]. */
  function PairTotal(all: seq<Read>, sta: real, sto: real): nat
    reads all
  {
    Rows(all, |all|, sta, sto)
  }

  /**
   * Overlap diversity of one overlap [sta, sto] from the reads of its two
   * windows: zero unless every window is covered and there are reads; the
   * mean pairwise distance per overlap position when there are fewer than
   * 3333 pairs; the sampled estimate otherwise.  Where the source divides
   * by zero (no overlap length, or a single read) its value is not a real
   * number and is given as `degenerate`.
   */
  function Diversity(all: seq<Read>, sta: real, sto: real, mrc: real, sampled: real, degenerate: real): real
    reads all
  {
    if mrc > 0.0 && |all| > 0 then
      if Pairs(|all|) < SubSample then
        if sto != sta && |all| >= 2 then (PairTotal(all, sta, sto) as real / (sto - sta)) / Pairs(|all|)
        else degenerate
      else sampled
    else 0.0
  }

  /** The diversity of overlap j (between windows j - 1 and j). */
  function WindowDiversity(pop: seq<Read>, starts: seq<real>, stops: seq<real>, j: nat, mrc: real,
                           sampled: int -> real, degenerate: int -> real): real
    requires 1 <= j < |starts| <= |stops|
    reads pop
  {
    Diversity(OverlapReads(pop, starts, stops, j), starts[j], stops[j - 1], mrc, sampled(j), degenerate(j))
  }

  /** The diversities of the overlaps among the first m windows (modp2). */
  function Diversities(pop: seq<Read>, starts: seq<real>, stops: seq<real>, m: nat, mrc: real,
                       sampled: int -> real, degenerate: int -> real): (ds: seq<real>)
    requires 1 <= m <= |starts| <= |stops|
    reads pop
    ensures |ds| == m - 1
  {
    if m == 1 then []
    else Diversities(pop, starts, stops, m - 1, mrc, sampled, degenerate)
         + [WindowDiversity(pop, starts, stops, m - 1, mrc, sampled, degenerate)]
  }

  /** The overlap length of each window with the next (ol). */
  function OverlapLengths(starts: seq<real>, stops: seq<real>): (ol: seq<real>)
    requires 1 <= |starts| <= |stops|
  {
    seq(|starts| - 1, j requires 0 <= j < |starts| - 1 => stops[j] - starts[j + 1])
  }

  /** The length of each window (al). */
  function AmpliconLengths(starts: seq<real>, stops: seq<real>): (al: seq<real>)
    requires |starts| <= |stops|
  {
    seq(|starts|, j requires 0 <= j < |starts| => stops[j] - starts[j])
  }

  /** How many entries are strictly positive. */
  function CountPositive(s: seq<real>): (c: nat)
    ensures c <= |s|
  {
    if s == [] then 0 else CountPositive(s[..|s| - 1]) + (if s[|s| - 1] > 0.0 then 1 else 0)
  }

  /**
   * The statistics the constructor computes for a layout: minimum and mean
   * coverage, minimum and mean overlap diversity, the fraction of overlaps
   * with non-zero diversity (over the number of windows), the number of
   * windows, minimum and mean overlap length, minimum and mean window
   * length.  Functions.average and Functions.min are the parameters
   * average and minimum.
   */
  function StatsOf(pop: seq<Read>, starts: seq<real>, stops: seq<real>,
                   average: seq<real> -> real, minimum: seq<real> -> real,
                   sampled: int -> real, degenerate: int -> real): Stats
    requires 1 <= |starts| <= |stops|
    reads pop
  {
    var n := |starts|;
    var rcv := Coverages(pop, starts, stops, n);
    var mrc := Min(rcv);
    var ds := Diversities(pop, starts, stops, n, mrc, sampled, degenerate);
    var ol := OverlapLengths(starts, stops);
    var al := AmpliconLengths(starts, stops);
    Stats(mrc, average(rcv),
          if n == 1 then 0.0 else Min(ds), average(ds), CountPositive(ds) as real / n as real,
          n as real,
          if n == 1 then 0.0 else Min(ol), average(ol),
          minimum(al), average(al))
  }

  /** m is an entry of s and no entry is below it. */
  ghost predicate IsLeast(m: real, s: seq<real>)
  {
    m in s && forall i :: 0 <= i < |s| ==> m <= s[i]
  }

  /** The running minimum after one more value: the value when it is below the minimum so far. */
  lemma LeastAppend(m: real, s: seq<real>, x: real)
    requires s == [] || IsLeast(m, s)
    ensures IsLeast(if s == [] || x < m then x else m, s + [x])
  {
  }

  /** The least entry is the minimum. */
  lemma LeastIsMin(m: real, s: seq<real>)
    requires IsLeast(m, s)
    ensures m == Min(s)
  {
  }

  /** One window's coverage: the reads spanning it, counted, in population order. */
  method CoverWindow(pop: seq<Read>, sta: real, sto: real) returns (rc: real, c: seq<Read>)
    ensures c == Covering(pop, sta, sto)
    ensures rc == |c| as real
  {
    rc, c := 0.0, [];
    var i := 0;
    while i < |pop|
      invariant 0 <= i <= |pop|
      invariant c == Covering(pop[..i], sta, sto) && rc == |c| as real
    {
      assert pop[..i + 1][..i] == pop[..i];
      var r := pop[i];
      if r.Spans(sta, sto) {
        rc := rc + 1.0;
        c := c + [r];
      }
      i := i + 1;
    }
    assert pop[..|pop|] == pop;
  }

  /** covering holds, for each of its windows, the reads that span it. */
  ghost predicate Covers(pop: seq<Read>, starts: seq<real>, stops: seq<real>, covering: seq<seq<Read>>)
    requires |covering| <= |starts| <= |stops|
    reads pop
  {
    forall l :: 0 <= l < |covering| ==> covering[l] == Covering(pop, starts[l], stops[l])
  }

  lemma CoversAppend(pop: seq<Read>, starts: seq<real>, stops: seq<real>, covering: seq<seq<Read>>, c: seq<Read>)
    requires |covering| < |starts| <= |stops| && Covers(pop, starts, stops, covering)
    requires c == Covering(pop, starts[|covering|], stops[|covering|])
    ensures Covers(pop, starts, stops, covering + [c])
  {
    assert forall l :: 0 <= l < |covering| ==> (covering + [c])[l] == covering[l];
  }

  /** The coverage loop of the constructor: coverage per window and its minimum. */
  method ReadCoverage(pop: seq<Read>, starts: seq<real>, stops: seq<real>)
    returns (mrc: real, rcv: seq<real>, covering: seq<seq<Read>>)
    requires 1 <= |starts| <= |stops|
    ensures rcv == Coverages(pop, starts, stops, |starts|)
    ensures mrc == Min(rcv)
    ensures |covering| == |starts| && Covers(pop, starts, stops, covering)
  {
    mrc, rcv, covering := 0.0, [], [];
    var j := 0;
    while j < |starts|
      invariant 0 <= j <= |starts|
      invariant rcv == Coverages(pop, starts, stops, j)
      invariant j > 0 ==> IsLeast(mrc, rcv)
      invariant |covering| == j && Covers(pop, starts, stops, covering)
    {
      var rc, c := CoverWindow(pop, starts[j], stops[j]);
      CoversAppend(pop, starts, stops, covering, c);
      LeastAppend(mrc, rcv, rc);
      if j == 0 {
        mrc := rc;
      }
      if rc < mrc {
        mrc := rc;
      }
      rcv := rcv + [rc];
      covering := covering + [c];
      j := j + 1;
    }
    LeastIsMin(mrc, rcv);
  }

  /** Row, with each distance divided by the overlap length as the loop adds it. */
  function RowScaled(all: seq<Read>, i: nat, k: nat, sta: real, sto: real): real
    requires i < |all| && k <= |all| && sto != sta
    reads all
  {
    if k <= i + 1 then 0.0
    else RowScaled(all, i, k - 1, sta, sto) + all[i].Distance(all[k - 1], sta, sto) as real / (sto - sta)
  }

  /** Rows, with each distance divided by the overlap length as the loop adds it. */
  function RowsScaled(all: seq<Read>, i: nat, sta: real, sto: real): real
    requires i <= |all| && sto != sta
    reads all
  {
    if i == 0 then 0.0 else RowsScaled(all, i - 1, sta, sto) + RowScaled(all, i - 1, |all|, sta, sto)
  }

  lemma {:induction false} RowScaledIsRow(all: seq<Read>, i: nat, k: nat, sta: real, sto: real)
    requires i < |all| && k <= |all| && sto != sta
    ensures RowScaled(all, i, k, sta, sto) == Row(all, i, k, sta, sto) as real / (sto - sta)
  {
    if k > i + 1 {
      RowScaledIsRow(all, i, k - 1, sta, sto);
      SumOfQuotients(RowScaled(all, i, k - 1, sta, sto), all[i].Distance(all[k - 1], sta, sto) as real / (sto - sta),
                     Row(all, i, k - 1, sta, sto) as real, all[i].Distance(all[k - 1], sta, sto) as real, sto - sta);
    }
  }

  /** Dividing term by term sums to the total divided once. */
  lemma {:induction false} RowsScaledIsTotal(all: seq<Read>, i: nat, sta: real, sto: real)
    requires i <= |all| && sto != sta
    ensures RowsScaled(all, i, sta, sto) == Rows(all, i, sta, sto) as real / (sto - sta)
  {
    if i > 0 {
      RowsScaledIsTotal(all, i - 1, sta, sto);
      RowScaledIsRow(all, i - 1, |all|, sta, sto);
      var a, b := Rows(all, i - 1, sta, sto), Row(all, i - 1, |all|, sta, sto);
      SumOfQuotients(RowsScaled(all, i - 1, sta, sto), RowScaled(all, i - 1, |all|, sta, sto), a as real, b as real, sto - sta);
    }
  }

  /** The inner loop over read pairs: add the distances of read i to every later read. */
  method AddRow(all: seq<Read>, i: nat, sta: real, sto: real, acc: real) returns (odp: real)
    requires i < |all| && sto != sta
    ensures odp == acc + RowScaled(all, i, |all|, sta, sto)
  {
    odp := acc;
    var k := i + 1;
    while k < |all|
      invariant i + 1 <= k <= |all|
      invariant odp == acc + RowScaled(all, i, k, sta, sto)
    {
      var r1 := all[i];
      var r2 := all[k];
      var dista := r1.Distance(r2, sta, sto) as real / (sto - sta);
      assert RowScaled(all, i, k + 1, sta, sto) == RowScaled(all, i, k, sta, sto) + dista;
      odp := odp + dista;
      k := k + 1;
    }
  }

  /** The exhaustive double loop over read pairs: the sum of distance / overlap length. */
  method ExhaustiveSum(all: seq<Read>, sta: real, sto: real) returns (odp: real)
    requires sto != sta
    ensures odp == PairTotal(all, sta, sto) as real / (sto - sta)
  {
    odp := 0.0;
    var i := 0;
    while i < |all|
      invariant 0 <= i <= |all|
      invariant odp == RowsScaled(all, i, sta, sto)
    {
      odp := AddRow(all, i, sta, sto, odp);
      i := i + 1;
    }
    RowsScaledIsTotal(all, |all|, sta, sto);
  }

  /** One overlap's diversity, as the body of the constructor's overlap loop computes it. */
  method OverlapDiversity(all: seq<Read>, sta: real, sto: real, mrc: real, sampled: real, degenerate: real)
    returns (odp: real)
    ensures odp == Diversity(all, sta, sto, mrc, sampled, degenerate)
  {
    odp := 0.0;
    if mrc > 0.0 && |all| > 0 {
      if Pairs(|all|) < SubSample {
        if sto != sta && |all| >= 2 {
          odp := ExhaustiveSum(all, sta, sto);
          odp := odp / Pairs(|all|);
        } else {
          odp := degenerate;
        }
      } else {
        odp := sampled;
      }
    }
  }

  /** The overlap loop of the constructor: diversity per overlap and its minimum (modp, modp2). */
  method DiversityStats(pop: seq<Read>, starts: seq<real>, stops: seq<real>, covering: seq<seq<Read>>,
                        mrc: real, sampled: int -> real, degenerate: int -> real)
    returns (modp: real, modp2: seq<real>)
    requires 1 <= |starts| <= |stops| && |covering| == |starts|
    requires Covers(pop, starts, stops, covering)
    ensures modp2 == Diversities(pop, starts, stops, |starts|, mrc, sampled, degenerate)
    ensures modp == if |starts| == 1 then 0.0 else Min(modp2)
  {
    modp, modp2 := 0.0, [];
    var j := 1;
    while j < |starts|
      invariant 1 <= j <= |starts|
      invariant modp2 == Diversities(pop, starts, stops, j, mrc, sampled, degenerate)
      invariant if j == 1 then modp == 0.0 else IsLeast(modp, modp2)
    {
      var all := covering[j - 1] + covering[j];
      assert all == OverlapReads(pop, starts, stops, j);
      var odp := OverlapDiversity(all, starts[j], stops[j - 1], mrc, sampled(j), degenerate(j));
      assert odp == WindowDiversity(pop, starts, stops, j, mrc, sampled, degenerate);
      assert Diversities(pop, starts, stops, j + 1, mrc, sampled, degenerate) == modp2 + [odp];
      LeastAppend(modp, modp2, odp);
      if j == 1 {
        modp := odp;
      } else if odp < modp {
        modp := odp;
      }
      modp2 := modp2 + [odp];
      j := j + 1;
    }
    if j > 1 {
      LeastIsMin(modp, modp2);
    }
  }

  lemma CountPositiveAppend(s: seq<real>, x: real)
    ensures CountPositive(s + [x]) == CountPositive(s) + (if x > 0.0 then 1 else 0)
  {
    assert (s + [x])[..|s + [x]| - 1] == s;
  }

  /** Entry j adds one to the count of positive entries exactly when it is positive. */
  lemma CountPositivePrefix(s: seq<real>, j: nat)
    requires j < |s|
    ensures CountPositive(s[..j + 1]) == CountPositive(s[..j]) + (if s[j] > 0.0 then 1 else 0)
  {
    assert s[..j + 1] == s[..j] + [s[j]];
    CountPositiveAppend(s[..j], s[j]);
  }

  /** The first j overlap lengths. */
  function OverlapPrefix(starts: seq<real>, stops: seq<real>, j: nat): (ol: seq<real>)
    requires j < |starts| <= |stops|
  {
    if j == 0 then [] else OverlapPrefix(starts, stops, j - 1) + [stops[j - 1] - starts[j]]
  }

  lemma {:induction false} OverlapPrefixAll(starts: seq<real>, stops: seq<real>, j: nat)
    requires j == |starts| - 1 && 1 <= |starts| <= |stops|
    ensures OverlapPrefix(starts, stops, j) == OverlapLengths(starts, stops)
  {
    OverlapPrefixAt(starts, stops, j);
  }

  lemma {:induction false} OverlapPrefixAt(starts: seq<real>, stops: seq<real>, j: nat)
    requires j < |starts| <= |stops|
    ensures |OverlapPrefix(starts, stops, j)| == j
    ensures forall l :: 0 <= l < j ==> OverlapPrefix(starts, stops, j)[l] == stops[l] - starts[l + 1]
  {
    if j > 0 {
      OverlapPrefixAt(starts, stops, j - 1);
    }
  }

  /** The overlap-length loop: the lengths, their minimum and the non-zero diversity count. */
  method OverlapStats(starts: seq<real>, stops: seq<real>, modp2: seq<real>)
    returns (mol: real, nnz: nat, ol: seq<real>)
    requires 1 <= |starts| <= |stops| && |modp2| == |starts| - 1
    ensures ol == OverlapLengths(starts, stops)
    ensures mol == if |starts| == 1 then 0.0 else Min(ol)
    ensures nnz == CountPositive(modp2)
  {
    mol, nnz, ol := 0.0, 0, [];
    var j := 0;
    while j < |modp2|
      invariant 0 <= j <= |modp2|
      invariant ol == OverlapPrefix(starts, stops, j)
      invariant if j == 0 then mol == 0.0 else IsLeast(mol, ol)
      invariant nnz == CountPositive(modp2[..j])
    {
      var len := stops[j] - starts[j + 1];
      LeastAppend(mol, ol, len);
      if j == 0 {
        mol := len;
      }
      if len < mol {
        mol := len;
      }
      CountPositivePrefix(modp2, j);
      if modp2[j] > 0.0 {
        nnz := nnz + 1;
      }
      ol := ol + [len];
      j := j + 1;
    }
    assert modp2[..|modp2|] == modp2;
    OverlapPrefixAll(starts, stops, j);
    if j > 0 {
      LeastIsMin(mol, ol);
    }
  }

  /**
   * The statistics constructor (exhaustive branch of the diversity), as a
   * computation on values; the sampling branch's estimate for overlap j is
   * sampled(j).
   */
  method ComputeStats(pop: seq<Read>, starts: seq<real>, stops: seq<real>,
                      average: seq<real> -> real, minimum: seq<real> -> real,
                      sampled: int -> real, degenerate: int -> real) returns (s: Stats)
    requires 1 <= |starts| <= |stops|
    ensures s == StatsOf(pop, starts, stops, average, minimum, sampled, degenerate)
  {
    var n := |starts|;
    var mrc, rcv, covering := ReadCoverage(pop, starts, stops);
    var modp, modp2 := DiversityStats(pop, starts, stops, covering, mrc, sampled, degenerate);
    var mol, nnz, ol := OverlapStats(starts, stops, modp2);
    var al := AmpliconLengths(starts, stops);
    s := Stats(mrc, average(rcv), modp, average(modp2), nnz as real / n as real, n as real,
               mol, average(ol), minimum(al), average(al));
    assert rcv == Coverages(pop, starts, stops, n);
    assert modp2 == Diversities(pop, starts, stops, n, mrc, sampled, degenerate);
  }

  lemma {:induction false} CoveragesBelow(pop: seq<Read>, starts: seq<real>, stops: seq<real>, m: nat)
    requires m <= |starts| <= |stops|
    ensures forall j :: 0 <= j < m ==> Coverages(pop, starts, stops, m)[j] == |Covering(pop, starts[j], stops[j])| as real
  {
    if m > 0 {
      CoveragesBelow(pop, starts, stops, m - 1);
      var prev := Coverages(pop, starts, stops, m - 1);
      var rcv := Coverages(pop, starts, stops, m);
      assert rcv == prev + [|Covering(pop, starts[m - 1], stops[m - 1])| as real];
      forall j | 0 <= j < m - 1
        ensures rcv[j] == |Covering(pop, starts[j], stops[j])| as real
      {
        assert rcv[j] == prev[j];
      }
    }
  }

  /**
   * The minimum coverage is the number of reads spanning some window, no
   * more than any window's and no more than the population; it is zero
   * exactly when some window is spanned by no read.
   */
  lemma CoverageBounds(pop: seq<Read>, starts: seq<real>, stops: seq<real>)
    requires 1 <= |starts| <= |stops|
    ensures var mrc := Min(Coverages(pop, starts, stops, |starts|));
      && 0.0 <= mrc <= |pop| as real
      && (forall j :: 0 <= j < |starts| ==> mrc <= |Covering(pop, starts[j], stops[j])| as real)
      && (exists j :: 0 <= j < |starts| && mrc == |Covering(pop, starts[j], stops[j])| as real)
      && (mrc == 0.0 <==> exists j :: 0 <= j < |starts| && Covering(pop, starts[j], stops[j]) == [])
  {
    CoveragesBelow(pop, starts, stops, |starts|);
    var rcv := Coverages(pop, starts, stops, |starts|);
    var j :| 0 <= j < |rcv| && rcv[j] == Min(rcv);
    assert Min(rcv) == |Covering(pop, starts[j], stops[j])| as real;
    if mrc0 :| 0 <= mrc0 < |starts| && Covering(pop, starts[mrc0], stops[mrc0]) == [] {
      assert rcv[mrc0] == 0.0;
    }
  }

  lemma {:induction false} DiversitiesShape(pop: seq<Read>, starts: seq<real>, stops: seq<real>, m: nat, mrc: real,
                                            sampled: int -> real, degenerate: int -> real)
    requires 1 <= m <= |starts| <= |stops|
    ensures forall j :: 1 <= j < m ==>
      Diversities(pop, starts, stops, m, mrc, sampled, degenerate)[j - 1]
        == WindowDiversity(pop, starts, stops, j, mrc, sampled, degenerate)
  {
    if m > 1 {
      DiversitiesShape(pop, starts, stops, m - 1, mrc, sampled, degenerate);
    }
  }

  /** With a window no read spans (minimum coverage zero) every overlap diversity is zero, and none is counted as non-zero. */
  lemma UncoveredMeansNoDiversity(pop: seq<Read>, starts: seq<real>, stops: seq<real>,
                                  sampled: int -> real, degenerate: int -> real)
    requires 1 <= |starts| <= |stops|
    requires Min(Coverages(pop, starts, stops, |starts|)) == 0.0
    ensures var ds := Diversities(pop, starts, stops, |starts|, 0.0, sampled, degenerate);
      && (forall i :: 0 <= i < |ds| ==> ds[i] == 0.0)
      && CountPositive(ds) == 0
      && (|starts| > 1 ==> Min(ds) == 0.0)
  {
    var ds := Diversities(pop, starts, stops, |starts|, 0.0, sampled, degenerate);
    DiversitiesShape(pop, starts, stops, |starts|, 0.0, sampled, degenerate);
    forall i | 0 <= i < |ds| ensures ds[i] == 0.0 {
      assert ds[i] == WindowDiversity(pop, starts, stops, i + 1, 0.0, sampled, degenerate);
    }
    NoPositive(ds);
  }

  lemma {:induction false} NoPositive(s: seq<real>)
    requires forall i :: 0 <= i < |s| ==> s[i] == 0.0
    ensures CountPositive(s) == 0
  {
    if s != [] {
      NoPositive(s[..|s| - 1]);
    }
  }

  /**
   * On a consistent layout every overlap has positive length, so the
   * exhaustive diversity never divides by zero and is never negative; with
   * the minimum coverage as the constructor computes it, a covered layout
   * has at least two reads per overlap, so the degenerate value never
   * arises.  With non-negative sampled estimates every diversity and their
   * minimum are non-negative.
   */
  lemma DiversityNonNegative(pop: seq<Read>, starts: seq<real>, stops: seq<real>, mrc: real,
                             sampled: int -> real, degenerate: int -> real)
    requires 1 <= |starts| <= |stops|
    requires CheckConsistency(starts, stops)
    requires mrc == Min(Coverages(pop, starts, stops, |starts|))
    requires forall j :: 1 <= j < |starts| ==> sampled(j) >= 0.0
    ensures var ds := Diversities(pop, starts, stops, |starts|, mrc, sampled, degenerate);
      && (forall i :: 0 <= i < |ds| ==> ds[i] >= 0.0)
      && (|starts| > 1 ==> Min(ds) >= 0.0)
  {
    var ds := Diversities(pop, starts, stops, |starts|, mrc, sampled, degenerate);
    DiversitiesShape(pop, starts, stops, |starts|, mrc, sampled, degenerate);
    CoverageBounds(pop, starts, stops);
    forall i | 0 <= i < |ds| ensures ds[i] >= 0.0 {
      assert |starts| > 1;
      assert PairConsistent(starts[i], stops[i], starts[i + 1], stops[i + 1]);
      assert ds[i] == WindowDiversity(pop, starts, stops, i + 1, mrc, sampled, degenerate);
      OneDiversityNonNegative(OverlapReads(pop, starts, stops, i + 1), starts[i + 1], stops[i], mrc,
                              sampled(i + 1), degenerate(i + 1),
                              |Covering(pop, starts[i], stops[i])|, |Covering(pop, starts[i + 1], stops[i + 1])|);
    }
    if |starts| > 1 {
      assert Min(ds) in ds;
    }
  }

  lemma PairsAtLeastOne(m: nat)
    requires m >= 2
    ensures Pairs(m) >= 1.0
  {
    var x := m as real;
    assert x * (x - 1.0) >= 2.0 * (x - 1.0);
  }

  lemma OneDiversityNonNegative(all: seq<Read>, sta: real, sto: real, mrc: real, sampled: real, degenerate: real,
                                left: nat, right: nat)
    requires sta < sto && sampled >= 0.0
    requires |all| == left + right
    requires mrc > 0.0 ==> left >= 1 && right >= 1
    ensures Diversity(all, sta, sto, mrc, sampled, degenerate) >= 0.0
  {
    if mrc > 0.0 && Pairs(|all|) < SubSample {
      PairsAtLeastOne(|all|);
      var t := PairTotal(all, sta, sto) as real / (sto - sta);
      DivNonNegative(PairTotal(all, sta, sto) as real, sto - sta);
      DivNonNegative(t, Pairs(|all|));
    }
  }

  /** The overlap lengths of a consistent layout are positive, and so is their minimum. */
  lemma OverlapLengthPositive(starts: seq<real>, stops: seq<real>)
    requires 2 <= |starts| <= |stops|
    requires CheckConsistency(starts, stops)
    ensures forall j :: 0 <= j < |starts| - 1 ==> OverlapLengths(starts, stops)[j] > 0.0
    ensures Min(OverlapLengths(starts, stops)) > 0.0
  {
    var ol := OverlapLengths(starts, stops);
    forall j | 0 <= j < |ol| ensures ol[j] > 0.0 {
      assert PairConsistent(starts[j], stops[j], starts[j + 1], stops[j + 1]);
    }
  }

  /** The fraction of overlaps with non-zero diversity is below one: n windows have n - 1 overlaps. */
  lemma NonZeroFractionBelowOne(ds: seq<real>, n: nat)
    requires |ds| == n - 1 && n >= 1
    ensures 0.0 <= CountPositive(ds) as real / n as real < 1.0
  {
    FractionBounds(CountPositive(ds) as real, n as real);
  }

  /**
   * The statistics of a consistent layout: the minimum coverage is a count
   * of reads, zero exactly when a window is spanned by none; the minimum
   * diversity is non-negative; the non-zero fraction lies in [0, 1); the
   * number of windows is the length of the layout; the minimum overlap is
   * positive when there are overlaps.
   */
  lemma StatsOfBounds(pop: seq<Read>, starts: seq<real>, stops: seq<real>,
                      average: seq<real> -> real, minimum: seq<real> -> real,
                      sampled: int -> real, degenerate: int -> real)
    requires 1 <= |starts| <= |stops| && CheckConsistency(starts, stops)
    requires forall j :: 1 <= j < |starts| ==> sampled(j) >= 0.0
    ensures var st := StatsOf(pop, starts, stops, average, minimum, sampled, degenerate);
      && 0.0 <= st.minReadCoverage <= |pop| as real
      && (st.minReadCoverage == 0.0 <==> exists j :: 0 <= j < |starts| && Covering(pop, starts[j], stops[j]) == [])
      && st.minOverlapDiversity >= 0.0
      && 0.0 <= st.numNonZeroOverlapDiversity < 1.0
      && st.numOverlaps == |starts| as real
      && (|starts| > 1 ==> st.minOverlapLength > 0.0)
  {
    var n := |starts|;
    var mrc := Min(Coverages(pop, starts, stops, n));
    var ds := Diversities(pop, starts, stops, n, mrc, sampled, degenerate);
    CoverageBounds(pop, starts, stops);
    DiversityNonNegative(pop, starts, stops, mrc, sampled, degenerate);
    NonZeroFractionBelowOne(ds, n);
    if n > 1 {
      OverlapLengthPositive(starts, stops);
    }
  }

  // ---------------------------------------------------------------------
  // Tail probabilities against the other candidates (setStats)
  // ---------------------------------------------------------------------

  /** One for a hit, zero otherwise. */
  function Hit(b: bool): nat
  {
    if b then 1 else 0
  }

  /** How many of the first n entries are at most v. */
  function CountAtMost(xs: seq<real>, n: nat, v: real): nat
    requires n <= |xs|
  {
    if n == 0 then 0 else CountAtMost(xs, n - 1, v) + Hit(xs[n - 1] <= v)
  }

  /** How many of the first n entries are at least v. */
  function CountAtLeast(xs: seq<real>, n: nat, v: real): nat
    requires n <= |xs|
  {
    if n == 0 then 0 else CountAtLeast(xs, n - 1, v) + Hit(xs[n - 1] >= v)
  }

  /**
   * The tail counts are counts: at most n, at least one when v itself is
   * among the first n entries, and monotone in v (a larger statistic never
   * gets a smaller count at most it, nor a larger count at least it).
   */
  lemma {:induction false} CountBounds(xs: seq<real>, n: nat, v: real, w: real)
    requires n <= |xs|
    ensures CountAtMost(xs, n, v) <= n && CountAtLeast(xs, n, v) <= n
    ensures (exists i :: 0 <= i < n && xs[i] == v) ==> CountAtMost(xs, n, v) >= 1 && CountAtLeast(xs, n, v) >= 1
    ensures v <= w ==> CountAtMost(xs, n, v) <= CountAtMost(xs, n, w) && CountAtLeast(xs, n, w) <= CountAtLeast(xs, n, v)
  {
    if n > 0 {
      CountBounds(xs, n - 1, v, w);
      if xs[n - 1] != v && exists i :: 0 <= i < n && xs[i] == v {
        var i :| 0 <= i < n && xs[i] == v;
        assert i < n - 1;
      }
    }
  }

  /** A tail count over n candidates as a probability in [0, 1], and at least 1/n for a present value. */
  lemma TailProbability(xs: seq<real>, n: nat, v: real)
    requires 0 < n <= |xs|
    ensures 0.0 <= CountAtMost(xs, n, v) as real / n as real <= 1.0
    ensures 0.0 <= CountAtLeast(xs, n, v) as real / n as real <= 1.0
    ensures (exists i :: 0 <= i < n && xs[i] == v) ==>
      CountAtMost(xs, n, v) as real / n as real >= 1.0 / n as real
      && CountAtLeast(xs, n, v) as real / n as real >= 1.0 / n as real
  {
    CountBounds(xs, n, v, v);
    FractionBounds(CountAtMost(xs, n, v) as real, n as real);
    FractionBounds(CountAtLeast(xs, n, v) as real, n as real);
    if exists i :: 0 <= i < n && xs[i] == v {
      DivMonotone(1.0, CountAtMost(xs, n, v) as real, n as real);
      DivMonotone(1.0, CountAtLeast(xs, n, v) as real, n as real);
    }
  }

  /** The score: the sum of the logarithms of the probabilities, each raised to at least 1E-100. */
  function LogScore(log: real -> real, ps: seq<real>): (score: real)
  {
    if ps == [] then 0.0 else LogScore(log, ps[..|ps| - 1]) + log(Max2(Tiny, ps[|ps| - 1]))
  }

  /** The score adds up term by term: the score of two lists of probabilities is the sum of their scores. */
  lemma {:induction false} LogScoreConcat(log: real -> real, ps: seq<real>, qs: seq<real>)
    ensures LogScore(log, ps + qs) == LogScore(log, ps) + LogScore(log, qs)
    decreases |qs|
  {
    if qs == [] {
      assert ps + qs == ps;
    } else {
      var n := |qs| - 1;
      assert (ps + qs)[..|ps + qs| - 1] == ps + qs[..n];
      assert (ps + qs)[|ps + qs| - 1] == qs[n];
      LogScoreConcat(log, ps, qs[..n]);
    }
  }

  // ---------------------------------------------------------------------
  // Random window layouts (initialiseRandomAmpliconSet)
  // ---------------------------------------------------------------------

  /**
   * The draws behind one proposed window length: the Gaussian draws of the
   * spread, narrow and wide proposals, the uniform draw choosing the wide
   * one, the uniform draw choosing a uniform length and that length's
   * draw, and the draw replacing a length below 50.
   */
  datatype LengthDraw = LengthDraw(spread: real, narrow: real, wide: real, pickWide: real,
                                   pickUniform: real, uniform: real, floor: real)

  /** The last two adjustments of a length: a uniform replacement with probability 0.1, then the floor of 50. */
  function Adjusted(r: real, d: LengthDraw, avgReadLength: real): (len: real)
    ensures len >= 50.0
    ensures r >= 50.0 && d.pickUniform >= 0.1 ==> len == r
  {
    var r := if d.pickUniform < 0.1 then d.uniform * avgReadLength else r;
    if r < 50.0 then Max2(50.0, d.floor * avgReadLength) else r
  }

  /** A proposed window length (the loop of the chained layout and the fixed layout). */
  function ProposedLength(d: LengthDraw, avgReadLength: real, stdReadLength: real, sqrtAvg: real): (len: real)
    ensures len >= 50.0
  {
    var r := d.spread * stdReadLength + (avgReadLength - 3.0 * stdReadLength);
    var r := if stdReadLength < 5.0 then
               (if d.pickWide < 0.1 then d.wide * sqrtAvg + avgReadLength / 2.0 else d.narrow * 5.0 + (avgReadLength - 15.0))
             else r;
    Adjusted(r, d, avgReadLength)
  }

  /**
   * The first window of the chained layout: the first proposal is drawn and
   * then overwritten by gauss * sqrt(avg) + avg / 1.5 before the last two
   * adjustments.
   */
  function FirstLength(d: LengthDraw, gauss: real, avgReadLength: real, sqrtAvg: real): (len: real)
    ensures len >= 50.0
  {
    Adjusted(gauss * sqrtAvg + avgReadLength / 1.5, d, avgReadLength)
  }

  /** How far the chain's last stop is from the alignment end: 0 there, 1 beyond it. */
  function Gap(last: real, alignStop: real): nat
  {
    if last == alignStop then 0 else if last > alignStop then 1 else (alignStop - last).Floor + 2
  }

  /**
   * One step of the chained layout: the next window starts at a uniform
   * point between its earliest start and the previous stop, and ends at
   * least one past the previous stop, clamped to the alignment end.
   */
  predicate Link(prevStart: real, prevStop: real, start: real, stop: real, len: real, place: real, alignStop: real)
  {
    var m := Max2(prevStart, prevStop - len + 1.0);
    start == m + place * (prevStop - m) && stop == Min2(alignStop, Max2(prevStop + 1.0, start + len))
  }

  /** What one step guarantees about the new window. */
  lemma LinkFacts(prevStart: real, prevStop: real, start: real, stop: real, len: real, place: real, alignStop: real)
    requires Link(prevStart, prevStop, start, stop, len, place, alignStop)
    requires len >= 1.0 && 0.0 <= place < 1.0
    ensures stop <= alignStop
    ensures prevStop < alignStop ==> prevStop < stop
    ensures prevStop > alignStop ==> stop == alignStop
    ensures prevStart <= prevStop ==> prevStart <= start <= prevStop
    ensures prevStart <= prevStop <= alignStop ==> start <= stop
  {
    if prevStart <= prevStop {
      var m := Max2(prevStart, prevStop - len + 1.0);
      LinkStart(prevStart, prevStop, m, place, start);
    }
  }

  lemma LinkStart(prevStart: real, prevStop: real, m: real, place: real, start: real)
    requires prevStart <= m <= prevStop
    requires 0.0 <= place < 1.0
    requires start == m + place * (prevStop - m)
    ensures prevStart <= start <= prevStop
  {
    var span := prevStop - m;
    FractionOf(place, span);
    assert start == m + place * span;
  }

  /** A step leaves less of the alignment to cover. */
  lemma GapDecreases(prevStop: real, stop: real, alignStop: real, reach: real)
    requires prevStop != alignStop && stop == Min2(alignStop, Max2(prevStop + 1.0, reach))
    ensures Gap(stop, alignStop) < Gap(prevStop, alignStop)
  {
    if stop != alignStop && prevStop < alignStop {
      assert alignStop - stop <= (alignStop - prevStop) - 1.0;
    }
  }

  /** The chained layout built so far: the first window, then one step per further window, none yet ending at alignStop. */
  ghost predicate ChainPrefix(starts: seq<real>, stops: seq<real>, alignStart: real, alignStop: real, first: real,
                              lens: nat -> real, placement: nat -> real)
  {
    && |starts| == |stops| >= 1
    && starts[0] == alignStart && stops[0] == alignStart + first
    && (forall k :: 0 <= k < |stops| - 1 ==> stops[k] != alignStop)
    && forall k :: 1 <= k < |stops| ==>
         Link(starts[k - 1], stops[k - 1], starts[k], stops[k], lens(k - 1), placement(k - 1), alignStop)
  }

  /** The finished chained layout: its last window ends exactly at alignStop. */
  ghost predicate Chained(starts: seq<real>, stops: seq<real>, alignStart: real, alignStop: real, first: real,
                          lens: nat -> real, placement: nat -> real)
  {
    ChainPrefix(starts, stops, alignStart, alignStop, first, lens, placement) && stops[|stops| - 1] == alignStop
  }

  /**
   * The chain of windows: grow from alignStart until a stop lands exactly on
   * alignStop.  The length proposed for window k + 1 is lens(k) and its
   * start's uniform draw placement(k).
   */
  method ChainWindows(alignStart: real, alignStop: real, first: real, lens: nat -> real, placement: nat -> real)
    returns (starts: seq<real>, stops: seq<real>)
    ensures Chained(starts, stops, alignStart, alignStop, first, lens, placement)
  {
    starts, stops := [alignStart], [alignStart + first];
    while true
      invariant ChainPrefix(starts, stops, alignStart, alignStop, first, lens, placement)
      decreases Gap(stops[|stops| - 1], alignStop)
    {
      var lastStart, lastStop := starts[|starts| - 1], stops[|stops| - 1];
      if lastStop == alignStop {
        break;
      }
      var k := |stops| - 1;
      var rngA := lens(k);
      var minStart := Max2(lastStart, lastStop - rngA + 1.0);
      var actStart := minStart + placement(k) * (lastStop - minStart);
      var actStop := Max2(lastStop + 1.0, actStart + rngA);
      actStop := Min2(alignStop, actStop);
      GapDecreases(lastStop, actStop, alignStop, actStart + rngA);
      assert Link(lastStart, lastStop, actStart, actStop, lens(k), placement(k), alignStop);
      starts, stops := starts + [actStart], stops + [actStop];
    }
  }

  /** Every stop after the first lies within the alignment. */
  lemma ChainWithinAlignment(starts: seq<real>, stops: seq<real>, alignStart: real, alignStop: real,
                             first: real, lens: nat -> real, placement: nat -> real)
    requires ChainPrefix(starts, stops, alignStart, alignStop, first, lens, placement)
    requires forall k :: lens(k) >= 50.0
    requires forall k :: 0.0 <= placement(k) < 1.0
    ensures forall k :: 1 <= k < |stops| ==> stops[k] <= alignStop
    ensures forall k :: 1 <= k < |stops| && stops[k - 1] < alignStop ==> stops[k - 1] < stops[k]
  {
    forall k | 1 <= k < |stops|
      ensures stops[k] <= alignStop && (stops[k - 1] < alignStop ==> stops[k - 1] < stops[k])
    {
      LinkFacts(starts[k - 1], stops[k - 1], starts[k], stops[k], lens(k - 1), placement(k - 1), alignStop);
    }
  }

  /**
   * When the first window fits in the alignment, every window starts inside
   * the previous one, starts never move back, stops strictly advance and no
   * window is inverted.
   */
  lemma {:induction false} ChainShape(starts: seq<real>, stops: seq<real>, alignStart: real, alignStop: real,
                                      first: real, lens: nat -> real, placement: nat -> real)
    requires ChainPrefix(starts, stops, alignStart, alignStop, first, lens, placement)
    requires 0.0 <= first && alignStart + first <= alignStop
    requires forall k :: lens(k) >= 50.0
    requires forall k :: 0.0 <= placement(k) < 1.0
    ensures forall k :: 0 <= k < |starts| ==> starts[k] <= stops[k] <= alignStop
    ensures forall k :: 1 <= k < |starts| ==> starts[k - 1] <= starts[k] <= stops[k - 1] < stops[k]
    decreases |starts|
  {
    var n := |starts|;
    if n > 1 {
      var s, t := starts[..n - 1], stops[..n - 1];
      ChainShape(s, t, alignStart, alignStop, first, lens, placement);
      assert s[n - 2] == starts[n - 2] && t[n - 2] == stops[n - 2];
      assert stops[n - 2] != alignStop;
      LinkFacts(starts[n - 2], stops[n - 2], starts[n - 1], stops[n - 1], lens(n - 2), placement(n - 2), alignStop);
      forall k | 0 <= k < n - 1 ensures starts[k] <= stops[k] <= alignStop {
        assert s[k] == starts[k] && t[k] == stops[k];
      }
      forall k | 1 <= k < n - 1 ensures starts[k - 1] <= starts[k] <= stops[k - 1] < stops[k] {
        assert s[k - 1] == starts[k - 1] && t[k - 1] == stops[k - 1] && s[k] == starts[k] && t[k] == stops[k];
      }
    }
  }

  /** When the first window overshoots, the second is clamped to alignStop and starts beyond it. */
  lemma ChainOvershoot(starts: seq<real>, stops: seq<real>, alignStart: real, alignStop: real,
                       first: real, lens: nat -> real, placement: nat -> real)
    requires Chained(starts, stops, alignStart, alignStop, first, lens, placement)
    requires 0.0 <= first && alignStart + first > alignStop
    requires forall k :: lens(k) >= 50.0
    requires forall k :: 0.0 <= placement(k) < 1.0
    ensures |starts| == 2 && stops[1] == alignStop && starts[1] >= alignStart
  {
    assert |starts| >= 2;
    LinkFacts(starts[0], stops[0], starts[1], stops[1], lens(0), placement(0), alignStop);
  }

  /** The fixed-window tiling: starts advance by step, each stop is its start plus window plus step, the last clamped. */
  ghost predicate Tiled(starts: seq<real>, stops: seq<real>, alignStart: real, alignStop: real, window: real, step: real)
  {
    && |starts| == |stops| >= 1
    && starts[0] == alignStart
    && (forall i :: 1 <= i < |starts| ==> starts[i] == starts[i - 1] + step)
    && (forall i :: 0 <= i < |stops| - 1 ==> stops[i] == starts[i] + window + step && stops[i] < alignStop)
    && var last := |stops| - 1;
       if last == 0 then stops[0] == alignStart + window + step && stops[0] >= alignStop
       else stops[last] == alignStop && starts[last] + window + step >= alignStop
  }

  /** The tiling starts are alignStart + i * step. */
  lemma {:induction false} TiledStarts(starts: seq<real>, stops: seq<real>, alignStart: real, alignStop: real,
                                       window: real, step: real, i: nat)
    requires Tiled(starts, stops, alignStart, alignStop, window, step) && i < |starts|
    ensures starts[i] == alignStart + i as real * step
  {
    if i > 0 {
      TiledStarts(starts, stops, alignStart, alignStop, window, step, i - 1);
    }
  }

  /** With a positive window, a tiling passes checkConsistency and every overlap is window long. */
  lemma TiledConsistent(starts: seq<real>, stops: seq<real>, alignStart: real, alignStop: real, window: real, step: real)
    requires Tiled(starts, stops, alignStart, alignStop, window, step)
    requires window > 0.0 && step > 0.0
    ensures CheckConsistency(starts, stops)
    ensures forall i :: 0 <= i < |starts| - 1 ==> stops[i] - starts[i + 1] == window
  {
    forall i | 0 <= i < |starts| - 1
      ensures PairConsistent(starts[i], stops[i], starts[i + 1], stops[i + 1])
    {
      if i + 1 < |starts| - 1 {
        assert stops[i + 1] == starts[i + 1] + window + step;
      }
    }
  }

  /** How many steps the tiling's last stop is from alignStop. */
  function TileGap(last: real, alignStop: real, step: real): nat
    requires step > 0.0
  {
    if last < alignStop then ((alignStop - last) / step).Floor + 1 else 0
  }

  lemma TileGapDecreases(last: real, alignStop: real, step: real)
    requires step > 0.0 && last < alignStop
    ensures TileGap(last + step, alignStop, step) < TileGap(last, alignStop, step)
  {
    if last + step < alignStop {
      var a := alignStop - last;
      DivideSum(a, -step, step);
      assert -step / step == -1.0;
      assert alignStop - (last + step) == a + -step;
    }
  }

  /**
   * Tiling loop shared by the fixed random layout and the sliding-window
   * sweep: from [alignStart, alignStart + window + step] shift both ends
   * by step until the stop reaches alignStop, clamping the last stop.
   */
  method Tile(alignStart: real, alignStop: real, window: real, step: real) returns (starts: seq<real>, stops: seq<real>)
    requires step > 0.0
    ensures Tiled(starts, stops, alignStart, alignStop, window, step)
  {
    starts, stops := [alignStart], [alignStart + window + step];
    while stops[|stops| - 1] < alignStop
      invariant |starts| == |stops| >= 1
      invariant starts[0] == alignStart
      invariant forall i :: 1 <= i < |starts| ==> starts[i] == starts[i - 1] + step
      invariant forall i :: 0 <= i < |stops| - 1 ==> stops[i] == starts[i] + window + step && stops[i] < alignStop
      invariant |stops| == 1 ==> stops[0] == alignStart + window + step
      invariant |stops| > 1 ==> stops[|stops| - 1] == Min2(alignStop, starts[|stops| - 1] + window + step)
      decreases TileGap(stops[|stops| - 1], alignStop, step)
    {
      var last := stops[|stops| - 1];
      TileGapDecreases(last, alignStop, step);
      starts := starts + [starts[|starts| - 1] + step];
      stops := stops + [last + step];
      if stops[|stops| - 1] > alignStop {
        stops := stops[..|stops| - 1] + [alignStop];
      }
    }
  }

  /** The fixed layout's window: the proposed length, or a third of the alignment when that does not fit. */
  function FixedWindow(alignStart: real, alignStop: real, length: real): real
  {
    if alignStart + length > alignStop then (alignStop - alignStart) / 3.0 else length
  }

  /** The fixed layout's step: a uniform fraction of the window, at least 5. */
  function FixedStep(window: real, stepDraw: real): (step: real)
    ensures step >= 5.0
  {
    Max2(5.0, window * stepDraw)
  }

  /** The fixed layout: one proposed window, shrunk to a third of the alignment when it does not fit, and a step of at least 5. */
  method FixedWindows(alignStart: real, alignStop: real, length: real, stepDraw: real)
    returns (starts: seq<real>, stops: seq<real>)
    ensures Tiled(starts, stops, alignStart, alignStop, FixedWindow(alignStart, alignStop, length),
                  FixedStep(FixedWindow(alignStart, alignStop, length), stepDraw))
  {
    var window := FixedWindow(alignStart, alignStop, length);
    var step := FixedStep(window, stepDraw);
    starts, stops := Tile(alignStart, alignStop, window, step);
  }

  /** Every draw initialiseRandomAmpliconSet makes, in the roles the source gives them. */
  datatype LayoutDraws = LayoutDraws(
    ch: real,                    // chained layout when below 0.9
    first: LengthDraw,           // draws behind the first chained window
    firstGauss: real,            // the Gaussian draw that overwrites the first proposal
    chain: nat -> LengthDraw,    // draws behind window k + 1 of the chain
    placement: nat -> real,      // the uniform draw placing the start of window k + 1
    fixed: LengthDraw,           // draws behind the fixed layout's window length
    stepDraw: real)              // the uniform draw of the fixed layout's step

  /** The ten values of a Stats, in the order the score adds their logarithms. */
  function Values(p: Stats): (vs: seq<real>)
    ensures |vs| == 10
  {
    [p.minReadCoverage, p.overallReadCoverage, p.minOverlapDiversity, p.overallOverlapDiversity,
     p.numNonZeroOverlapDiversity, p.numOverlaps, p.minOverlapLength, p.overallOverlapLength,
     p.minAmpliconLength, p.overallAmpliconLength]
  }

  /** Every value zero. */
  const NoStats: Stats := Stats(0.0, 0.0, 0.0, 0.0, 0.0, 0.0, 0.0, 0.0, 0.0, 0.0)

  /**
   * A candidate window layout.  The source's ten statistic fields are the
   * value stats, and its ten probability fields the value probabilities,
   * whose field for each statistic holds that statistic's probability.
   */
  class AmpliconSet {
    var starts: seq<real>
    var stops: seq<real>
    var stats: Stats
    var probabilities: Stats
    var score: real

    /** The empty candidate: no windows, every statistic zero and the lowest score. */
    constructor ()
      ensures starts == [] && stops == []
      ensures stats == NoStats && probabilities == NoStats
      ensures score == Floor100
    {
      starts, stops := [], [];
      stats, probabilities := NoStats, NoStats;
      score := Floor100;
    }

    /** The candidate for a given layout, with its statistics over the population; probabilities start at zero. */
    constructor WithStats(sta: seq<real>, sto: seq<real>, population: seq<Read>,
                          average: seq<real> -> real, minimum: seq<real> -> real,
                          sampled: int -> real, degenerate: int -> real)
      requires 1 <= |sta| <= |sto|
      ensures starts == sta && stops == sto
      ensures stats == StatsOf(population, sta, sto, average, minimum, sampled, degenerate)
      ensures probabilities == NoStats
      ensures score == 0.0
    {
      var s := ComputeStats(population, sta, sto, average, minimum, sampled, degenerate);
      starts, stops, stats, probabilities, score := sta, sto, s, NoStats, 0.0;
      assert StatsOf(population, sta, sto, average, minimum, sampled, degenerate) == s;
    }

    /**
     * setStats: each probability is the fraction of the n candidates whose
     * statistic is at most this one's (at least, for the number of windows).
     * The two window-length probabilities are not reset first, so they add
     * their previous value before the division.  The score sums the
     * logarithms; log and the finiteness test are parameters.
     */
    method SetStats(avgReadCover: seq<real>, avgOverlapDiversity: seq<real>, avgOverallOverlapDiversity: seq<real>,
                    avgNumNonZeroOverlapDiversity: seq<real>, avgOverallReadCoverage: seq<real>,
                    avgNumOverlaps: seq<real>, avgMinOverlapLength: seq<real>, avgOverallOverlapLength: seq<real>,
                    avgMinAmpliconLength: seq<real>, avgOverallAmpliconLength: seq<real>,
                    log: real -> real, finite: real -> bool)
      requires |avgReadCover| > 0
      requires |avgReadCover| <= |avgOverlapDiversity| && |avgReadCover| <= |avgOverallOverlapDiversity|
      requires |avgReadCover| <= |avgNumNonZeroOverlapDiversity| && |avgReadCover| <= |avgOverallReadCoverage|
      requires |avgReadCover| <= |avgNumOverlaps| && |avgReadCover| <= |avgMinOverlapLength|
      requires |avgReadCover| <= |avgOverallOverlapLength| && |avgReadCover| <= |avgMinAmpliconLength|
      requires |avgReadCover| <= |avgOverallAmpliconLength|
      modifies this`probabilities, this`score
      ensures starts == old(starts) && stops == old(stops) && stats == old(stats)
      ensures var n, N, s, p := |avgReadCover|, |avgReadCover| as real, stats, probabilities;
        && p.minReadCoverage == CountAtMost(avgReadCover, n, s.minReadCoverage) as real / N
        && p.overallReadCoverage == CountAtMost(avgOverallReadCoverage, n, s.overallReadCoverage) as real / N
        && p.minOverlapDiversity == CountAtMost(avgOverlapDiversity, n, s.minOverlapDiversity) as real / N
        && p.overallOverlapDiversity == CountAtMost(avgOverallOverlapDiversity, n, s.overallOverlapDiversity) as real / N
        && p.numNonZeroOverlapDiversity
             == CountAtMost(avgNumNonZeroOverlapDiversity, n, s.numNonZeroOverlapDiversity) as real / N
        && p.numOverlaps == CountAtLeast(avgNumOverlaps, n, s.numOverlaps) as real / N
        && p.minOverlapLength == CountAtMost(avgMinOverlapLength, n, s.minOverlapLength) as real / N
        && p.overallOverlapLength == CountAtMost(avgOverallOverlapLength, n, s.overallOverlapLength) as real / N
        && p.minAmpliconLength
             == (old(probabilities.minAmpliconLength) + CountAtMost(avgMinAmpliconLength, n, s.minAmpliconLength) as real) / N
        && p.overallAmpliconLength
             == (old(probabilities.overallAmpliconLength)
                 + CountAtMost(avgOverallAmpliconLength, n, s.overallAmpliconLength) as real) / N
      ensures var raw := LogScore(log, Values(probabilities)); score == if finite(raw) then raw else Floor100
    {
      var n := |avgReadCover|;
      var s := stats;
      var c1, c2, c3, c4, c5, c6, c7, c8 := 0, 0, 0, 0, 0, 0, 0, 0;
      var c9, c10 := 0, 0;
      var i := 0;
      while i < n
        invariant 0 <= i <= n
        invariant c1 == CountAtMost(avgReadCover, i, s.minReadCoverage)
        invariant c2 == CountAtMost(avgOverallReadCoverage, i, s.overallReadCoverage)
        invariant c3 == CountAtMost(avgOverlapDiversity, i, s.minOverlapDiversity)
        invariant c4 == CountAtMost(avgOverallOverlapDiversity, i, s.overallOverlapDiversity)
        invariant c5 == CountAtMost(avgNumNonZeroOverlapDiversity, i, s.numNonZeroOverlapDiversity)
        invariant c6 == CountAtLeast(avgNumOverlaps, i, s.numOverlaps)
        invariant c7 == CountAtMost(avgMinOverlapLength, i, s.minOverlapLength)
        invariant c8 == CountAtMost(avgOverallOverlapLength, i, s.overallOverlapLength)
        invariant c9 == CountAtMost(avgMinAmpliconLength, i, s.minAmpliconLength)
        invariant c10 == CountAtMost(avgOverallAmpliconLength, i, s.overallAmpliconLength)
      {
        c1 := c1 + Hit(avgReadCover[i] <= s.minReadCoverage);
        c2 := c2 + Hit(avgOverallReadCoverage[i] <= s.overallReadCoverage);
        c3 := c3 + Hit(avgOverlapDiversity[i] <= s.minOverlapDiversity);
        c4 := c4 + Hit(avgOverallOverlapDiversity[i] <= s.overallOverlapDiversity);
        c5 := c5 + Hit(avgNumNonZeroOverlapDiversity[i] <= s.numNonZeroOverlapDiversity);
        c6 := c6 + Hit(avgNumOverlaps[i] >= s.numOverlaps);
        c7 := c7 + Hit(avgMinOverlapLength[i] <= s.minOverlapLength);
        c8 := c8 + Hit(avgOverallOverlapLength[i] <= s.overallOverlapLength);
        c9 := c9 + Hit(avgMinAmpliconLength[i] <= s.minAmpliconLength);
        c10 := c10 + Hit(avgOverallAmpliconLength[i] <= s.overallAmpliconLength);
        i := i + 1;
      }
      var N := n as real;
      probabilities := Stats(c1 as real / N, c2 as real / N, c3 as real / N, c4 as real / N, c5 as real / N,
                             c6 as real / N, c7 as real / N, c8 as real / N,
                             (probabilities.minAmpliconLength + c9 as real) / N,
                             (probabilities.overallAmpliconLength + c10 as real) / N);
      var raw := LogScore(log, Values(probabilities));
      score := if finite(raw) then raw else Floor100;
    }

    /** isBetter: a strictly higher score. */
    predicate IsBetter(b: AmpliconSet)
      reads this, b
    {
      score > b.score
    }

    /**
     * initialiseRandomAmpliconSet: a random layout, then the statistics of
     * that layout.
     */
    method InitialiseRandomAmpliconSet(avgReadLength: real, stdReadLength: real, sqrtAvg: real,
                                       alignStart: real, alignStop: real, pop: seq<Read>, draws: LayoutDraws,
                                       average: seq<real> -> real, minimum: seq<real> -> real,
                                       sampled: int -> real, degenerate: int -> real)
      modifies this
      ensures RandomLayout(starts, stops, avgReadLength, stdReadLength, sqrtAvg, alignStart, alignStop, draws)
      ensures stats == StatsOf(pop, starts, stops, average, minimum, sampled, degenerate)
      ensures probabilities == NoStats.(numOverlaps := old(probabilities.numOverlaps),
                                        minAmpliconLength := old(probabilities.minAmpliconLength),
                                        overallAmpliconLength := old(probabilities.overallAmpliconLength))
      ensures score == 0.0
    {
      var starts1, stops1 := DrawLayout(avgReadLength, stdReadLength, sqrtAvg, alignStart, alignStop, draws);
      Adopt(starts1, stops1, pop, average, minimum, sampled, degenerate);
    }

    /**
     * The last step of initialiseRandomAmpliconSet: build a fresh candidate
     * for the layout and copy its fields back, except numOverlapsProbability
     * and the two window-length probabilities, which keep their values; the
     * copied probabilities and score are a fresh candidate's zeros.
     */
    method Adopt(sta: seq<real>, sto: seq<real>, pop: seq<Read>,
                 average: seq<real> -> real, minimum: seq<real> -> real,
                 sampled: int -> real, degenerate: int -> real)
      requires 1 <= |sta| <= |sto|
      modifies this
      ensures starts == sta && stops == sto
      ensures stats == StatsOf(pop, sta, sto, average, minimum, sampled, degenerate)
      ensures probabilities == NoStats.(numOverlaps := old(probabilities.numOverlaps),
                                        minAmpliconLength := old(probabilities.minAmpliconLength),
                                        overallAmpliconLength := old(probabilities.overallAmpliconLength))
      ensures score == 0.0
    {
      starts, stops := sta, sto;
      probabilities := NoStats.(numOverlaps := probabilities.numOverlaps,
                                minAmpliconLength := probabilities.minAmpliconLength,
                                overallAmpliconLength := probabilities.overallAmpliconLength);
      score := 0.0;
      stats := ComputeStats(pop, sta, sto, average, minimum, sampled, degenerate);
    }
  }

  /** The proposed lengths of the chained windows after the first, from their draws. */
  function ChainLengths(chain: nat -> LengthDraw, avgReadLength: real, stdReadLength: real, sqrtAvg: real): nat -> real
  {
    (k: nat) => ProposedLength(chain(k), avgReadLength, stdReadLength, sqrtAvg)
  }

  /** The layout initialiseRandomAmpliconSet draws: chained with probability 0.9, otherwise a fixed tiling. */
  ghost predicate RandomLayout(starts: seq<real>, stops: seq<real>, avgReadLength: real, stdReadLength: real,
                               sqrtAvg: real, alignStart: real, alignStop: real, draws: LayoutDraws)
  {
    && 1 <= |starts| == |stops|
    && (draws.ch < 0.9 ==>
          Chained(starts, stops, alignStart, alignStop, FirstLength(draws.first, draws.firstGauss, avgReadLength, sqrtAvg),
                  ChainLengths(draws.chain, avgReadLength, stdReadLength, sqrtAvg), draws.placement))
    && (draws.ch >= 0.9 ==>
          var window := FixedWindow(alignStart, alignStop, ProposedLength(draws.fixed, avgReadLength, stdReadLength, sqrtAvg));
          Tiled(starts, stops, alignStart, alignStop, window, FixedStep(window, draws.stepDraw)))
  }

  /** The window layout of initialiseRandomAmpliconSet, from its draws. */
  method DrawLayout(avgReadLength: real, stdReadLength: real, sqrtAvg: real, alignStart: real, alignStop: real,
                    draws: LayoutDraws) returns (starts: seq<real>, stops: seq<real>)
    ensures RandomLayout(starts, stops, avgReadLength, stdReadLength, sqrtAvg, alignStart, alignStop, draws)
  {
    if draws.ch < 0.9 {
      var first := FirstLength(draws.first, draws.firstGauss, avgReadLength, sqrtAvg);
      starts, stops := ChainWindows(alignStart, alignStop, first,
                                    ChainLengths(draws.chain, avgReadLength, stdReadLength, sqrtAvg),
                                    draws.placement);
    } else {
      var rngA := ProposedLength(draws.fixed, avgReadLength, stdReadLength, sqrtAvg);
      starts, stops := FixedWindows(alignStart, alignStop, rngA, draws.stepDraw);
    }
  }

  /** isBetter is a strict order: irreflexive, asymmetric and transitive. */
  lemma IsBetterStrictOrder(a: AmpliconSet, b: AmpliconSet, c: AmpliconSet)
    ensures !a.IsBetter(a)
    ensures a.IsBetter(b) ==> !b.IsBetter(a)
    ensures a.IsBetter(b) && b.IsBetter(c) ==> a.IsBetter(c)
    ensures !a.IsBetter(b) && !b.IsBetter(a) ==> a.score == b.score
  {
  }

}
