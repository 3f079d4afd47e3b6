/**
 * The value side of ReadSet.estimateBaseSet: the per-position tally of the
 * reads' variant events with IUPAC-IUB ambiguity weights, the smoothed
 * coverage profile, the high-coverage region around its first maximum and
 * the extent of the surviving positions.
 */
module BaseSets {
  import opened Common
  import opened Snp
  import opened Patterns
  import opened Bases
  import opened Reads
  import Amplicons

  // ---------------------------------------------------------------------
  // IUPAC-IUB weights
  // ---------------------------------------------------------------------

  /**
   * The bases a symbol stands for, after the NC-IUB 1984 recommendations
   * for incompletely specified bases; '-' stands for itself.  Any other
   * symbol (N included) stands for all five channels.
   */
  function Denotes(code: char): string
  {
    match code
    case 'A' => "A"
    case 'C' => "C"
    case 'G' => "G"
    case 'T' => "T"
    case '-' => "-"
    case 'R' => "AG"
    case 'Y' => "CT"
    case 'K' => "GT"
    case 'M' => "AC"
    case 'S' => "CG"
    case 'W' => "AT"
    case 'B' => "CGT"
    case 'D' => "AGT"
    case 'H' => "ACT"
    case 'V' => "ACG"
    case _ => "ACGT-"
  }

  /** Every channel count zero. */
  const Zero: Counts := Counts(0.0, 0.0, 0.0, 0.0, 0.0)

  /** Channel-wise sum. */
  function Plus(a: Counts, b: Counts): Counts
  {
    Counts(a.A + b.A, a.C + b.C, a.G + b.G, a.T + b.T, a.del + b.del)
  }

  /** The share of one observation: 1, 0.5, 0.3333 or 0.2 per denoted channel. */
  function Share(code: char): real
  {
    match |Denotes(code)|
    case 1 => 1.0
    case 2 => 0.5
    case 3 => 0.3333
    case _ => 0.2
  }

  /**
   * What one event with observed symbol code adds to its position's counts:
   * the same share on every channel the symbol denotes, nothing elsewhere.
   */
  function Weight(code: char): (w: Counts)
    ensures forall b :: IsChannel(b) ==> Channel(w, b) == if b in Denotes(code) then Share(code) else 0.0
  {
    match code
    case 'A' => Counts(1.0, 0.0, 0.0, 0.0, 0.0)
    case 'C' => Counts(0.0, 1.0, 0.0, 0.0, 0.0)
    case 'G' => Counts(0.0, 0.0, 1.0, 0.0, 0.0)
    case 'T' => Counts(0.0, 0.0, 0.0, 1.0, 0.0)
    case '-' => Counts(0.0, 0.0, 0.0, 0.0, 1.0)
    case 'R' => Counts(0.5, 0.0, 0.5, 0.0, 0.0)
    case 'Y' => Counts(0.0, 0.5, 0.0, 0.5, 0.0)
    case 'K' => Counts(0.0, 0.0, 0.5, 0.5, 0.0)
    case 'M' => Counts(0.5, 0.5, 0.0, 0.0, 0.0)
    case 'S' => Counts(0.0, 0.5, 0.5, 0.0, 0.0)
    case 'W' => Counts(0.5, 0.0, 0.0, 0.5, 0.0)
    case 'B' => Counts(0.0, 0.3333, 0.3333, 0.3333, 0.0)
    case 'D' => Counts(0.3333, 0.0, 0.3333, 0.3333, 0.0)
    case 'H' => Counts(0.3333, 0.3333, 0.0, 0.3333, 0.0)
    case 'V' => Counts(0.3333, 0.3333, 0.3333, 0.0, 0.0)
    case _ => Counts(0.2, 0.2, 0.2, 0.2, 0.2)
  }

  /**
   * One observation weighs 1 in total, except a three-base code, whose
   * thirds are rounded down to 0.3333 and so weigh 0.9999.
   */
  lemma WeightMass(code: char)
    ensures Mass(Weight(code)) == if |Denotes(code)| == 3 then 0.9999 else 1.0
  {
  }

  lemma PlusMass(a: Counts, b: Counts)
    ensures Mass(Plus(a, b)) == Mass(a) + Mass(b)
  {
  }

  // ---------------------------------------------------------------------
  // The tally
  // ---------------------------------------------------------------------

  /** A Base record as far as the tally fills it: its reference base and its counts. */
  datatype Site = Site(reference: char, counts: Counts)

  /** The coordinate of the i-th reference base (0-based): i + 1. */
  function Coordinate(i: int): real { (i + 1) as real }

  /** Position i + 1 of the reference genome holds its base and no counts. */
  function Initial(g: string): (bs: map<real, Site>)
  {
    if g == [] then map[] else Initial(g[..|g| - 1])[Coordinate(|g| - 1) := Site(g[|g| - 1], Zero)]
  }

  /**
   * One event: its weight is added at its position; a position with no
   * record gets a new one whose reference is '-'.
   */
  function Add(bs: map<real, Site>, e: Event): map<real, Site>
  {
    if e.pos in bs then bs[e.pos := Site(bs[e.pos].reference, Plus(bs[e.pos].counts, Weight(e.base)))]
    else bs[e.pos := Site('-', Weight(e.base))]
  }

  /** The events, one after the other. */
  function AddAll(bs: map<real, Site>, es: Pattern): map<real, Site>
  {
    if es == [] then bs else Add(AddAll(bs, es[..|es| - 1]), es[|es| - 1])
  }

  /** The reads' event lists, read after read. */
  function Events(pop: seq<Read>): Pattern
    reads pop
  {
    if pop == [] then [] else Events(pop[..|pop| - 1]) + pop[|pop| - 1].snpList
  }

  /** The positions the events name. */
  function Positions(es: Pattern): set<real>
  {
    set e | e in es :: e.pos
  }

  /** The summed weights of the events at position p. */
  function WeightAt(es: Pattern, p: real): Counts
  {
    if es == [] then Zero
    else Plus(WeightAt(es[..|es| - 1], p), if es[|es| - 1].pos == p then Weight(es[|es| - 1].base) else Zero)
  }

  lemma {:induction false} AddAllConcat(bs: map<real, Site>, a: Pattern, b: Pattern)
    ensures AddAll(bs, a + b) == AddAll(AddAll(bs, a), b)
  {
    if b != [] {
      assert (a + b)[..|a + b| - 1] == a + b[..|b| - 1];
      AddAllConcat(bs, a, b[..|b| - 1]);
    } else {
      assert a + b == a;
    }
  }

  /**
   * The tally characterised position by position: its positions are the
   * reference positions and the event positions; a position's reference
   * base is the genome's, or '-' for a position off the genome; its counts
   * are the weights of the events at that position.
   */
  lemma {:induction false} AddAllAt(bs: map<real, Site>, es: Pattern, p: real)
    ensures p in AddAll(bs, es) <==> p in bs || p in Positions(es)
    ensures p in AddAll(bs, es) ==>
      AddAll(bs, es)[p] == if p in bs then Site(bs[p].reference, Plus(bs[p].counts, WeightAt(es, p)))
                           else Site('-', WeightAt(es, p))
  {
    if es != [] {
      var front, e := es[..|es| - 1], es[|es| - 1];
      AddAllAt(bs, front, p);
      var m := AddAll(bs, front);
      assert AddAll(bs, es) == Add(m, e);
      assert es == front + [e];
      assert Positions(es) == Positions(front) + {e.pos};
      var w := Weight(e.base);
      assert WeightAt(es, p) == Plus(WeightAt(front, p), if e.pos == p then w else Zero);
      if e.pos != p {
        AddOther(m, e, p);
      } else if p !in bs && p !in Positions(front) {
        assert WeightAt(front, p) == Zero by { WeightAtAbsent(front, p); }
      }
    }
  }

  /** An event leaves every other position alone. */
  lemma AddOther(m: map<real, Site>, e: Event, p: real)
    requires e.pos != p
    ensures p in Add(m, e) <==> p in m
    ensures p in m ==> Add(m, e)[p] == m[p]
  {
  }

  lemma {:induction false} WeightAtAbsent(es: Pattern, p: real)
    requires p !in Positions(es)
    ensures WeightAt(es, p) == Zero
  {
    if es != [] {
      var front := es[..|es| - 1];
      assert es == front + [es[|es| - 1]];
      assert Positions(front) <= Positions(es);
      WeightAtAbsent(front, p);
    }
  }

  /** Reference records: positions 1 .. |g| with their genome base and no counts. */
  lemma {:induction false} InitialAt(g: string, p: real)
    ensures p in Initial(g) <==> exists i :: 0 <= i < |g| && p == Coordinate(i)
    ensures forall i :: 0 <= i < |g| ==> Coordinate(i) in Initial(g) && Initial(g)[Coordinate(i)] == Site(g[i], Zero)
  {
    if g != [] {
      var front := g[..|g| - 1];
      InitialAt(front, p);
      forall i | 0 <= i < |g| - 1 ensures Coordinate(i) in Initial(g) && Initial(g)[Coordinate(i)] == Site(g[i], Zero) {
        InitialAt(front, Coordinate(i));
        assert front[i] == g[i];
      }
    }
  }

  /** The first loop of estimateBaseSet: one record per reference position. */
  method InitialRecords(g: string) returns (bs: map<real, Site>)
    ensures bs == Initial(g)
  {
    bs := map[];
    for i := 0 to |g|
      invariant bs == Initial(g[..i])
    {
      assert g[..i + 1][..i] == g[..i];
      bs := bs[Coordinate(i) := Site(g[i], Zero)];
    }
    assert g[..|g|] == g;
  }

  /** The loop over one read's events. */
  method AddEvents(bs0: map<real, Site>, es: Pattern) returns (bs: map<real, Site>)
    ensures bs == AddAll(bs0, es)
  {
    bs := bs0;
    for j := 0 to |es|
      invariant bs == AddAll(bs0, es[..j])
    {
      assert es[..j + 1][..j] == es[..j];
      bs := Add(bs, es[j]);
    }
    assert es[..|es|] == es;
  }

  /**
   * The first two loops of estimateBaseSet: one record per reference
   * position, then every event of every read added in population order.
   */
  method Tally(g: string, pop: seq<Read>) returns (bs: map<real, Site>)
    ensures bs == AddAll(Initial(g), Events(pop))
  {
    bs := InitialRecords(g);
    for i := 0 to |pop|
      invariant bs == AddAll(Initial(g), Events(pop[..i]))
    {
      assert pop[..i + 1][..i] == pop[..i];
      assert Events(pop[..i + 1]) == Events(pop[..i]) + pop[i].snpList;
      AddAllConcat(Initial(g), Events(pop[..i]), pop[i].snpList);
      bs := AddEvents(bs, pop[i].snpList);
    }
    assert pop[..|pop|] == pop;
  }

  /**
   * The coverage loop of estimateBaseSet for one record: the number of reads
   * whose span [start, stop] holds position p, which is the window coverage
   * of the one-point window [p, p].
   */
  method BaseCoverage(pop: seq<Read>, p: real) returns (coverage: real)
    ensures coverage == |Amplicons.Covering(pop, p, p)| as real
    ensures forall i :: 0 <= i < |pop| ==>
      (pop[i] in Amplicons.Covering(pop, p, p) <==> pop[i].start <= p <= pop[i].stop)
  {
    var c;
    coverage, c := Amplicons.CoverWindow(pop, p, p);
    Amplicons.CoveringExact(pop, p, p);
  }

  // ---------------------------------------------------------------------
  // The smoothed coverage profile and its first peak
  // ---------------------------------------------------------------------

  /** The first index of the window around i: i - 10, or 0. */
  function WindowLo(i: int): int { if i - 10 > 0 then i - 10 else 0 }

  /** One past the last index of the window around i: i + 10, or n. */
  function WindowHi(n: int, i: int): int { if i + 10 < n then i + 10 else n }

  /** The average coverage of the positions with index in [i - 10, i + 10) (avgCoverage[i]). */
  function WindowMean(cov: seq<real>, i: nat): real
    requires i < |cov|
  {
    Mean(cov[WindowLo(i)..WindowHi(|cov|, i)])
  }

  /** The smoothed profile, one window average per position. */
  function Smoothed(cov: seq<real>): (avg: seq<real>)
    ensures |avg| == |cov|
  {
    seq(|cov|, i requires 0 <= i < |cov| => WindowMean(cov, i))
  }

  /** The level the scan has to beat: the peak's average, or the initial 0. */
  function Level(avg: seq<real>, best: nat): real
  {
    if best < |avg| && avg[best] > 0.0 then avg[best] else 0.0
  }

  /**
   * best is where the scan settles: the first index whose average is
   * strictly above 0 and above everything before it and at least
   * everything after it, or 0 when no average is positive.
   */
  predicate FirstPeak(avg: seq<real>, best: nat)
  {
    && (if |avg| == 0 then best == 0 else best < |avg|)
    && (best > 0 ==> avg[best] > 0.0)
    && (forall j :: 0 <= j < |avg| ==> avg[j] <= Level(avg, best))
    && (forall j :: 0 <= j < best ==> avg[j] < Level(avg, best))
  }

  /** FirstPeak pins the index down: the scan's answer is the only one. */
  lemma FirstPeakUnique(avg: seq<real>, b1: nat, b2: nat)
    requires FirstPeak(avg, b1) && FirstPeak(avg, b2)
    ensures b1 == b2
  {
  }

  /** The inner loop: the sum of the window's coverages and their number. */
  method WindowSum(cov: seq<real>, lo: nat, hi: nat) returns (total: real, k: real)
    requires lo <= hi <= |cov|
    ensures total == Sum(cov[lo..hi]) && k == (hi - lo) as real
  {
    total, k := 0.0, 0.0;
    for j := lo to hi
      invariant total == Sum(cov[lo..j]) && k == (j - lo) as real
    {
      assert cov[lo..j + 1] == cov[lo..j] + [cov[j]];
      SumAppend(cov[lo..j], cov[j]);
      total := total + cov[j];
      k := k + 1.0;
    }
  }

  /** The loop over the sorted positions: each window average, and the first peak. */
  method WindowAverages(cov: seq<real>) returns (avgCoverage: seq<real>, best: nat)
    ensures avgCoverage == Smoothed(cov)
    ensures FirstPeak(avgCoverage, best)
  {
    var maxAvgCoverage := 0.0;
    best := 0;
    avgCoverage := [];
    for i := 0 to |cov|
      invariant avgCoverage == Smoothed(cov)[..i]
      invariant FirstPeak(avgCoverage, best) && maxAvgCoverage == Level(avgCoverage, best)
    {
      var total, k := WindowSum(cov, WindowLo(i), WindowHi(|cov|, i));
      var a := total / k;
      assert a == WindowMean(cov, i);
      avgCoverage := avgCoverage + [a];
      if a > maxAvgCoverage {
        maxAvgCoverage := a;
        best := i;
      }
    }
  }

  // ---------------------------------------------------------------------
  // The high-coverage region and the extent of what survives
  // ---------------------------------------------------------------------

  /**
   * pos[a..b + 1] is the run around best in which consecutive positions
   * are less than 1.1 apart, and it cannot be extended: the gaps just
   * outside it are at least 1.1 (or it reaches an end).
   */
  predicate Run(pos: seq<real>, best: nat, a: nat, b: nat)
  {
    && a <= best <= b < |pos|
    && (forall j :: a <= j < b ==> pos[j + 1] - pos[j] < 1.1)
    && (a > 0 ==> pos[a] - pos[a - 1] >= 1.1)
    && (b + 1 < |pos| ==> pos[b + 1] - pos[b] >= 1.1)
  }

  /** There is one such run around a given index. */
  lemma RunUnique(pos: seq<real>, best: nat, a1: nat, b1: nat, a2: nat, b2: nat)
    requires Run(pos, best, a1, b1) && Run(pos, best, a2, b2)
    ensures a1 == a2 && b1 == b2
  {
  }

  /** The upward scan from the peak: the last position reached through gaps below 1.1. */
  method ExtendUp(pos: seq<real>, best: nat) returns (hi: real, ghost b: nat)
    requires best < |pos|
    ensures best <= b < |pos| && hi == pos[b]
    ensures forall j :: best <= j < b ==> pos[j + 1] - pos[j] < 1.1
    ensures b + 1 < |pos| ==> pos[b + 1] - pos[b] >= 1.1
  {
    hi, b := pos[best], best;
    var i := best;
    while i < |pos|
      invariant best <= b < |pos| && hi == pos[b] && (i == b || i == b + 1) && i <= |pos|
      invariant forall j :: best <= j < b ==> pos[j + 1] - pos[j] < 1.1
    {
      if pos[i] - hi < 1.1 {
        hi, b := pos[i], i;
        i := i + 1;
      } else {
        break;
      }
    }
  }

  /** The downward scan from the peak: the first position reached through gaps below 1.1. */
  method ExtendDown(pos: seq<real>, best: nat) returns (lo: real, ghost a: nat)
    requires best < |pos|
    ensures a <= best && lo == pos[a]
    ensures forall j :: a <= j < best ==> pos[j + 1] - pos[j] < 1.1
    ensures a > 0 ==> pos[a] - pos[a - 1] >= 1.1
  {
    lo, a := pos[best], best;
    var i: int := best;
    while i >= 0
      invariant 0 <= a <= best && lo == pos[a] && (i == a || i == a - 1) && i >= -1
      invariant forall j :: a <= j < best ==> pos[j + 1] - pos[j] < 1.1
    {
      if lo - pos[i] < 1.1 {
        lo, a := pos[i], i;
        i := i - 1;
      } else {
        break;
      }
    }
  }

  /**
   * maxCoverageStart and maxCoverageStop: the ends of the run of closely
   * spaced sorted positions around the peak index.
   */
  method Region(pos: seq<real>, best: nat) returns (lo: real, hi: real, ghost a: nat, ghost b: nat)
    requires best < |pos|
    ensures Run(pos, best, a, b) && lo == pos[a] && hi == pos[b]
  {
    hi, b := ExtendUp(pos, best);
    lo, a := ExtendDown(pos, best);
  }

  /** Over strictly increasing positions, the region filter keeps exactly the run. */
  lemma RegionKeepsRun(pos: seq<real>, best: nat, a: nat, b: nat, i: nat)
    requires forall x, y :: 0 <= x < y < |pos| ==> pos[x] < pos[y]
    requires Run(pos, best, a, b) && i < |pos|
    ensures pos[a] <= pos[i] <= pos[b] <==> a <= i <= b
  {
  }

  /**
   * minStart and maxStop: the least and greatest surviving positions,
   * starting from the old alignStop and alignStart.
   */
  method Extent(ps: seq<real>, alignStart: real, alignStop: real) returns (minStart: real, maxStop: real)
    ensures minStart <= alignStop && (minStart == alignStop || minStart in ps)
    ensures maxStop >= alignStart && (maxStop == alignStart || maxStop in ps)
    ensures forall i :: 0 <= i < |ps| ==> minStart <= ps[i] <= maxStop
  {
    minStart, maxStop := alignStop, alignStart;
    for i := 0 to |ps|
      invariant minStart <= alignStop && (minStart == alignStop || minStart in ps)
      invariant maxStop >= alignStart && (maxStop == alignStart || maxStop in ps)
      invariant forall j :: 0 <= j < i ==> minStart <= ps[j] <= maxStop
    {
      if ps[i] < minStart {
        minStart := ps[i];
      }
      if ps[i] > maxStop {
        maxStop := ps[i];
      }
    }
  }

  /**
   * When positions survive and lie within the old alignment, the new
   * alignStart and alignStop are the extreme surviving positions, in order.
   */
  lemma ExtentIsExtremes(ps: seq<real>, alignStart: real, alignStop: real, minStart: real, maxStop: real)
    requires ps != [] && forall i :: 0 <= i < |ps| ==> alignStart <= ps[i] <= alignStop
    requires minStart <= alignStop && (minStart == alignStop || minStart in ps)
    requires maxStop >= alignStart && (maxStop == alignStart || maxStop in ps)
    requires forall i :: 0 <= i < |ps| ==> minStart <= ps[i] <= maxStop
    ensures minStart in ps && maxStop in ps && minStart <= maxStop
  {
    assert minStart <= ps[0] <= maxStop;
  }
}
