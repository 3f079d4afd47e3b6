/**
 * The deterministic parts of ReadSet.estimateAmpliconsParallel: the
 * window sizes and steps of the phase 0 sliding-window sweep and its
 * tiling loop, the phase 3 candidate filter and ranking, the burn-out
 * cut of the ranked candidates and the choice of the selected set.
 */
module AmpliconSearch {
  import opened Common
  import opened Sorting
  import opened Reads
  import opened Amplicons

  // ---------------------------------------------------------------------
  // Phase 0: window sizes and steps
  // ---------------------------------------------------------------------

  /** The step fractions 1/20, 3/20, ..., 17/20 of the sweep. */
  const Steps: seq<real> := [1.0 / 20.0, 3.0 / 20.0, 5.0 / 20.0, 7.0 / 20.0, 9.0 / 20.0,
                             11.0 / 20.0, 13.0 / 20.0, 15.0 / 20.0, 17.0 / 20.0]

  /** The fourteen proposed window sizes, around the average read length. */
  function Proposed(avg: real, std: real): (ws: seq<real>)
    ensures |ws| == 14
  {
    [avg + std, avg, avg - std, avg - 2.0 * std, avg - 3.0 * std,
     avg * 5.0 / 6.0, avg * 4.0 / 5.0, avg * 3.0 / 4.0, avg * 2.0 / 3.0, avg * 1.0 / 2.0,
     avg * 1.0 / 3.0, avg * 1.0 / 4.0, avg * 1.0 / 5.0, avg * 1.0 / 6.0]
  }

  /** With a standard deviation below 5, the first four sizes step down from avg by 5. */
  function Narrowed(avg: real, std: real, i: nat): real
    requires i < 14
  {
    if std < 5.0 && i < 4 then avg - 5.0 * (i + 1) as real else Proposed(avg, std)[i]
  }

  /** A size below 50 is redrawn as the larger of 50 and a uniform fraction of half the average. */
  function Clamped(w: real, draw: real, avg: real): (c: real)
    ensures c >= 50.0
  {
    if w < 50.0 then Max2(50.0, draw * avg / 2.0) else w
  }

  /**
   * The windowSizes array: the proposals, the narrowing for a small
   * standard deviation, then the redraw of every size below 50; draw(i)
   * stands for the Math.random() drawn for size i when it is redrawn.
   */
  method WindowSizes(avg: real, std: real, draw: nat -> real) returns (windowSizes: seq<real>)
    ensures |windowSizes| == 14
    ensures forall i :: 0 <= i < 14 ==> windowSizes[i] == Clamped(Narrowed(avg, std, i), draw(i), avg)
    ensures forall i :: 0 <= i < 14 ==> windowSizes[i] >= 50.0
  {
    windowSizes := Proposed(avg, std);
    if std < 5.0 {
      for count := 0 to 4
        invariant |windowSizes| == 14
        invariant forall i :: 0 <= i < 14 ==> windowSizes[i] == if i < count then Narrowed(avg, std, i) else Proposed(avg, std)[i]
      {
        windowSizes := windowSizes[count := avg - 5.0 * (count + 1) as real];
      }
    }
    for count := 0 to 14
      invariant |windowSizes| == 14
      invariant forall i :: 0 <= i < 14 ==>
        windowSizes[i] == if i < count then Clamped(Narrowed(avg, std, i), draw(i), avg) else Narrowed(avg, std, i)
    {
      if windowSizes[count] < 50.0 {
        windowSizes := windowSizes[count := Max2(50.0, draw(count) * avg / 2.0)];
      }
    }
  }

  /** The sweep's step for a window and a fraction: window * fraction - 1, which can be 0 or negative. */
  function SweepStep(window: real, frac: real): real
  {
    window * frac - 1.0
  }

  // ---------------------------------------------------------------------
  // Phase 0: the tiling loop as written, and as evidently intended
  // ---------------------------------------------------------------------

  /**
   * The tiling loop of the sweep as written, given fuel iterations: while
   * the last stop is below alignStop, append last start + step and last
   * stop + step, clamping a stop beyond alignStop.  None means the fuel ran
   * out before the loop exited.
   */
  function SweepLoop(starts: seq<real>, stops: seq<real>, step: real, alignStop: real, fuel: nat)
    : Option<(seq<real>, seq<real>)>
    requires |starts| >= 1 && |stops| >= 1
    decreases fuel
  {
    var last := stops[|stops| - 1];
    if last >= alignStop then Some((starts, stops))
    else if fuel == 0 then None
    else
      var next := if last + step > alignStop then alignStop else last + step;
      SweepLoop(starts + [starts[|starts| - 1] + step], stops + [next], step, alignStop, fuel - 1)
  }

  /** With a step that is not positive the stops never grow: the loop does not exit on any fuel. */
  lemma {:induction false} SweepLoopDiverges(starts: seq<real>, stops: seq<real>, step: real, alignStop: real, fuel: nat)
    requires |starts| >= 1 && |stops| >= 1
    requires step <= 0.0 && stops[|stops| - 1] < alignStop
    ensures SweepLoop(starts, stops, step, alignStop, fuel) == None
    decreases fuel
  {
    if fuel > 0 {
      var last := stops[|stops| - 1];
      SweepLoopDiverges(starts + [starts[|starts| - 1] + step], stops + [last + step], step, alignStop, fuel - 1);
    }
  }

  /**
   * An alignment shorter than 50 makes every sweep window (at least 50)
   * overshoot, so the window becomes a third of the alignment; with the
   * first fraction, 1/20, the step is a sixtieth of the alignment minus 1,
   * negative, and the first stop lies inside the alignment: the sweep
   * never leaves its first tiling.
   */
  lemma ShortAlignmentHangs(alignStart: real, alignStop: real, size: real, fuel: nat)
    requires 0.0 <= alignStop - alignStart < 50.0 && size >= 50.0
    ensures var window := FixedWindow(alignStart, alignStop, size);
            var step := SweepStep(window, Steps[0]);
            SweepLoop([alignStart], [alignStart + window + step], step, alignStop, fuel) == None
  {
    var window := FixedWindow(alignStart, alignStop, size);
    assert window == (alignStop - alignStart) / 3.0;
    var step := SweepStep(window, Steps[0]);
    assert step == window / 20.0 - 1.0;
    SweepLoopDiverges([alignStart], [alignStart + window + step], step, alignStop, fuel);
  }

  /** A window layout: the starts and stops of its windows. */
  datatype Layout = Layout(starts: seq<real>, stops: seq<real>)

  /**
   * One sweep tiling, skipping the step the loop cannot advance with: no
   * layout when window * frac - 1 is not positive, otherwise the shared
   * tiling loop (which then terminates).
   */
  method SweepLayout(alignStart: real, alignStop: real, size: real, frac: real) returns (l: Option<Layout>)
    ensures SweptCell(l, alignStart, alignStop, size, frac)
  {
    var window := FixedWindow(alignStart, alignStop, size);
    var step := SweepStep(window, frac);
    if step <= 0.0 {
      return None;
    }
    var starts, stops := Tile(alignStart, alignStop, window, step);
    l := Some(Layout(starts, stops));
  }

  /** Position of (step c, size c1) in the sweep's order: steps outer, sizes inner. */
  function Cell(c: int, c1: int): int { 14 * c + c1 }

  /** What the sweep holds for one step and one size. */
  ghost predicate SweptCell(l: Option<Layout>, alignStart: real, alignStop: real, size: real, frac: real)
  {
    var window := FixedWindow(alignStart, alignStop, size);
    && (l.None? <==> SweepStep(window, frac) <= 0.0)
    && (l.Some? ==> Tiled(l.value.starts, l.value.stops, alignStart, alignStop, window, SweepStep(window, frac)))
  }

  /**
   * The phase 0 sweep over every step fraction and every window size, in
   * the source's order; a cell is empty where the step is not positive.
   */
  method Sweep(alignStart: real, alignStop: real, windowSizes: seq<real>) returns (grid: seq<Option<Layout>>)
    requires |windowSizes| == 14
    ensures |grid| == 9 * 14
    ensures forall c, c1 :: 0 <= c < 9 && 0 <= c1 < 14 ==>
      SweptCell(grid[Cell(c, c1)], alignStart, alignStop, windowSizes[c1], Steps[c])
  {
    grid := [];
    for c := 0 to 9
      invariant |grid| == 14 * c
      invariant forall x, y :: 0 <= x < c && 0 <= y < 14 ==>
        SweptCell(grid[Cell(x, y)], alignStart, alignStop, windowSizes[y], Steps[x])
    {
      for c1 := 0 to 14
        invariant |grid| == 14 * c + c1
        invariant forall x, y :: 0 <= x < 9 && 0 <= y < 14 && Cell(x, y) < |grid| ==>
          SweptCell(grid[Cell(x, y)], alignStart, alignStop, windowSizes[y], Steps[x])
      {
        var l := SweepLayout(alignStart, alignStop, windowSizes[c1], Steps[c]);
        grid := grid + [l];
      }
    }
  }

  /** Over a non-empty alignment every layout the sweep makes passes checkConsistency. */
  lemma SweptConsistent(l: Option<Layout>, alignStart: real, alignStop: real, size: real, frac: real)
    requires alignStart < alignStop && size >= 50.0
    requires SweptCell(l, alignStart, alignStop, size, frac) && l.Some?
    ensures CheckConsistency(l.value.starts, l.value.stops)
  {
    var window := FixedWindow(alignStart, alignStop, size);
    assert window > 0.0;
    TiledConsistent(l.value.starts, l.value.stops, alignStart, alignStop, window, SweepStep(window, frac));
  }

  // ---------------------------------------------------------------------
  // Phase 3: filter and ranking
  // ---------------------------------------------------------------------

  /** A candidate worth keeping: consistent, and every window has more than one read. */
  predicate Candidate(a: AmpliconSet)
    reads a
  {
    |a.starts| <= |a.stops| && CheckConsistency(a.starts, a.stops) && a.stats.minReadCoverage > 1.0
  }

  /** The candidates of a list, in list order. */
  function Candidates(list: seq<AmpliconSet>): (kept: seq<AmpliconSet>)
    reads set a | a in list
    ensures |kept| <= |list|
  {
    if list == [] then []
    else
      var kept := Candidates(list[..|list| - 1]);
      if Candidate(list[|list| - 1]) then kept + [list[|list| - 1]] else kept
  }

  /** Candidates keeps exactly the members that pass. */
  lemma {:induction false} CandidatesExact(list: seq<AmpliconSet>)
    ensures forall a :: a in Candidates(list) <==> a in list && Candidate(a)
  {
    if list != [] {
      CandidatesExact(list[..|list| - 1]);
      assert list == list[..|list| - 1] + [list[|list| - 1]];
    }
  }

  /** Candidates works block by block, so what it keeps stays in list order. */
  lemma {:induction false} CandidatesConcat(p: seq<AmpliconSet>, q: seq<AmpliconSet>)
    ensures Candidates(p + q) == Candidates(p) + Candidates(q)
  {
    if q != [] {
      CandidatesConcat(p, q[..|q| - 1]);
      assert (p + q)[..|p + q| - 1] == p + q[..|q| - 1];
    } else {
      assert p + q == p;
    }
  }

  /** The phase 3 loop: remove, in place, every member of the list that is not a candidate. */
  method KeepCandidates(ampliconList: seq<AmpliconSet>) returns (list: seq<AmpliconSet>)
    ensures list == Candidates(ampliconList)
  {
    list := ampliconList;
    var o := 0;
    ghost var gone := 0;
    while o < |list|
      invariant o <= |list| && o + gone <= |ampliconList|
      invariant list[..o] == Candidates(ampliconList[..o + gone])
      invariant list[o..] == ampliconList[o + gone..]
      decreases |list| - o
    {
      ghost var j := o + gone;
      assert ampliconList[..j + 1][..j] == ampliconList[..j];
      assert ampliconList[j] == list[o];
      if Candidate(list[o]) {
        assert list[..o + 1] == list[..o] + [list[o]];
        o := o + 1;
      } else {
        list := list[..o] + list[o + 1..];
        gone := gone + 1;
      }
    }
    assert ampliconList[..o + gone] == ampliconList;
  }

  /** The (negated score, candidate) pairs of a list, in list order. */
  function ByScore(list: seq<AmpliconSet>): (t: seq<(real, AmpliconSet)>)
    reads set a | a in list
    ensures |t| == |list|
  {
    seq(|list|, i reads set a | a in list requires 0 <= i < |list| => (-list[i].score, list[i]))
  }

  /** Collections.sort with the isBetter comparator: a stable sort by descending score. */
  function Ranked(list: seq<AmpliconSet>): seq<AmpliconSet>
    reads set a | a in list
  {
    Untag(SortBy(ByScore(list), Tag))
  }

  /** The ranking is a permutation whose scores do not increase. */
  lemma RankedOrder(list: seq<AmpliconSet>)
    ensures multiset(Ranked(list)) == multiset(list)
    ensures forall i, j :: 0 <= i < j < |list| ==> Ranked(list)[i].score >= Ranked(list)[j].score
  {
    var t := ByScore(list);
    var s := SortBy(t, Tag);
    UntagPermutation(t, s);
    assert Untag(t) == list;
    forall k | 0 <= k < |s| ensures s[k].0 == -s[k].1.score {
      assert s[k] in multiset(t);
      assert s[k] in t;
    }
    forall i, j | 0 <= i < j < |list| ensures Ranked(list)[i].score >= Ranked(list)[j].score {
      assert Tag(s[i]) <= Tag(s[j]);
    }
  }

  // ---------------------------------------------------------------------
  // Phase 3: the burn-out cut, as written and as evidently intended
  // ---------------------------------------------------------------------

  /** The cumulative weight of the first k + 1 ranked candidates. */
  function Cumulative(w: seq<real>, k: nat): real
    requires k < |w|
  {
    Sum(w[..k + 1])
  }

  /** b is the first index at which the cumulative weight reaches 0.9, or 0 when none does. */
  predicate IsBurnOut(w: seq<real>, b: nat)
  {
    && (b == 0 || b < |w|)
    && (forall j :: 0 <= j < b && j < |w| ==> Cumulative(w, j) < 0.9)
    && ((exists k :: 0 <= k < |w| && Cumulative(w, k) >= 0.9) ==> b < |w| && Cumulative(w, b) >= 0.9)
  }

  /**
   * The burn-out loop as written: the first index whose cumulative weight
   * reaches 0.9, or 0.  The first burnOut candidates are kept, so what is
   * kept always weighs less than 0.9.
   */
  method BurnOut(w: seq<real>) returns (burnOut: nat)
    ensures IsBurnOut(w, burnOut)
    ensures burnOut <= |w| && Sum(w[..burnOut]) < 0.9
  {
    burnOut := 0;
    var cumulProb := 0.0;
    var oo := 0;
    while oo < |w|
      invariant oo <= |w| && cumulProb == Sum(w[..oo])
      invariant forall j :: 0 <= j < oo ==> Cumulative(w, j) < 0.9
    {
      assert w[..oo + 1] == w[..oo] + [w[oo]];
      SumAppend(w[..oo], w[oo]);
      cumulProb := cumulProb + w[oo];
      if cumulProb >= 0.9 {
        burnOut := oo;
        if oo > 0 {
          assert Cumulative(w, oo - 1) < 0.9 && w[..oo] == w[..oo - 1 + 1];
        }
        return;
      }
      oo := oo + 1;
    }
  }

  /** When the best candidate alone carries 0.9 of the weight, the cut keeps nothing. */
  lemma BurnOutEmpty(w: seq<real>, b: nat)
    requires |w| > 0 && w[0] >= 0.9 && IsBurnOut(w, b)
    ensures b == 0
  {
    assert Cumulative(w, 0) >= 0.9 by { assert w[..1] == [w[0]]; assert Sum(w[..1]) == Sum([]) + w[0]; }
  }

  /**
   * The intended credible set: the shortest prefix of the ranking whose
   * weight reaches 0.9, or the whole ranking when no prefix does.
   */
  predicate IsCredibleCount(w: seq<real>, count: nat)
  {
    && count <= |w|
    && (|w| > 0 ==> count >= 1)
    && (forall j :: 0 <= j < count - 1 && j < |w| ==> Cumulative(w, j) < 0.9)
    && (count < |w| ==> Cumulative(w, count - 1) >= 0.9)
    && ((exists k :: 0 <= k < |w| && Cumulative(w, k) >= 0.9) ==> Sum(w[..count]) >= 0.9)
  }

  /** The corrected cut: the candidate that reaches 0.9 is kept as well. */
  method CredibleCount(w: seq<real>) returns (count: nat)
    ensures IsCredibleCount(w, count)
  {
    count := |w|;
    var cumulProb := 0.0;
    var oo := 0;
    while oo < |w|
      invariant oo <= |w| && cumulProb == Sum(w[..oo])
      invariant forall j :: 0 <= j < oo ==> Cumulative(w, j) < 0.9
    {
      assert w[..oo + 1] == w[..oo] + [w[oo]];
      SumAppend(w[..oo], w[oo]);
      cumulProb := cumulProb + w[oo];
      if cumulProb >= 0.9 {
        count := oo + 1;
        assert Cumulative(w, count - 1) >= 0.9;
        return;
      }
      oo := oo + 1;
    }
  }

  /** The corrected cut keeps one candidate more than the written one whenever the weight reaches 0.9. */
  lemma CredibleCountExtendsBurnOut(w: seq<real>, b: nat, count: nat)
    requires IsBurnOut(w, b) && IsCredibleCount(w, count)
    requires exists k :: 0 <= k < |w| && Cumulative(w, k) >= 0.9
    ensures count == b + 1
  {
  }

  // ---------------------------------------------------------------------
  // Phase 3: the selected set
  // ---------------------------------------------------------------------

  /** Every posterior probability of a candidate at least 0.5. */
  predicate Balanced(p: Stats)
  {
    && p.minReadCoverage >= 0.5 && p.overallReadCoverage >= 0.5
    && p.minOverlapDiversity >= 0.5 && p.overallOverlapDiversity >= 0.5
    && p.numNonZeroOverlapDiversity >= 0.5 && p.minOverlapLength >= 0.5
    && p.overallOverlapLength >= 0.5 && p.numOverlaps >= 0.5
    && p.minAmpliconLength >= 0.5 && p.overallAmpliconLength >= 0.5
  }

  /**
   * The altBest loop as written: its test reads bestAmplicon, which is
   * good[0], and not good[oo], so it stops at 0 or runs out leaving 0.
   */
  method AltBest(good: seq<AmpliconSet>) returns (altBest: nat)
    requires |good| > 0
    ensures altBest == 0
  {
    var bestAmplicon := good[0];
    altBest := 0;
    var oo := 0;
    while oo < |good|
      invariant altBest == 0 && (oo == 0 || !Balanced(bestAmplicon.probabilities))
    {
      if Balanced(bestAmplicon.probabilities) {
        altBest := oo;
        break;
      }
      oo := oo + 1;
    }
  }

  /** r is the first index whose candidate is balanced, or 0 when none is. */
  predicate FirstBalancedAt(ps: seq<Stats>, r: nat)
  {
    && (r == 0 || r < |ps|)
    && (forall j :: 0 <= j < r && j < |ps| ==> !Balanced(ps[j]))
    && (r > 0 ==> Balanced(ps[r]))
    && ((exists k :: 0 <= k < |ps| && Balanced(ps[k])) ==> Balanced(ps[r]))
  }

  /** The probabilities of a list of candidates. */
  function Probabilities(good: seq<AmpliconSet>): (ps: seq<Stats>)
    reads set a | a in good
    ensures |ps| == |good|
  {
    seq(|good|, i reads set a | a in good requires 0 <= i < |good| => good[i].probabilities)
  }

  /** The altBest loop as evidently intended: the test reads good[oo]. */
  method FirstBalanced(good: seq<AmpliconSet>) returns (altBest: nat)
    ensures FirstBalancedAt(Probabilities(good), altBest)
  {
    altBest := 0;
    var oo := 0;
    while oo < |good|
      invariant oo <= |good|
      invariant forall j :: 0 <= j < oo ==> !Balanced(good[j].probabilities)
    {
      if Balanced(good[oo].probabilities) {
        altBest := oo;
        return;
      }
      oo := oo + 1;
    }
  }

  /** A balanced second candidate after an unbalanced first one is where the two loops part. */
  lemma AltBestMissesBalanced(ps: seq<Stats>, r: nat)
    requires |ps| == 2 && !Balanced(ps[0]) && Balanced(ps[1])
    requires FirstBalancedAt(ps, r)
    ensures r == 1
  {
    assert Balanced(ps[r]);
  }
}
