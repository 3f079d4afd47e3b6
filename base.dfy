/**
 * Per-position tally (class Base): the five channel counts A, C, G, T and
 * del, the coverage, the consensus call and the correction flags.
 */
module Bases {
  /** The five channel counts as a value. */
  datatype Counts = Counts(A: real, C: real, G: real, T: real, del: real)

  /** Total count over the five channels. */
  function Mass(k: Counts): real { k.A + k.C + k.G + k.T + k.del }

  /** Symbols with a channel, in the order setConsensus scans them. */
  predicate IsChannel(b: char) { b == 'A' || b == 'C' || b == 'G' || b == 'T' || b == '-' }

  function Channel(k: Counts, b: char): real
    requires IsChannel(b)
  {
    match b
    case 'A' => k.A
    case 'C' => k.C
    case 'G' => k.G
    case 'T' => k.T
    case _ => k.del
  }

  /** k with channel b set to x. */
  function SetChannel(k: Counts, b: char, x: real): (r: Counts)
    requires IsChannel(b)
    ensures Channel(r, b) == x
    ensures forall d :: IsChannel(d) && d != b ==> Channel(r, d) == Channel(k, d)
  {
    match b
    case 'A' => k.(A := x)
    case 'C' => k.(C := x)
    case 'G' => k.(G := x)
    case 'T' => k.(T := x)
    case _ => k.(del := x)
  }

  /** Overwriting one channel changes the total by the difference. */
  lemma SetChannelMass(k: Counts, b: char, x: real)
    requires IsChannel(b)
    ensures Mass(SetChannel(k, b, x)) == Mass(k) - Channel(k, b) + x
  {
  }

  /**
   * The consensus scan: the first channel, in the order A, C, G, T, '-',
   * holding the largest count (a later channel wins only if strictly larger).
   */
  function ArgMax(k: Counts): (b: char)
    ensures IsChannel(b)
    ensures k.A <= Channel(k, b) && k.C <= Channel(k, b) && k.G <= Channel(k, b) && k.T <= Channel(k, b) && k.del <= Channel(k, b)
    ensures b == 'C' ==> k.A < k.C
    ensures b == 'G' ==> k.A < k.G && k.C < k.G
    ensures b == 'T' ==> k.A < k.T && k.C < k.T && k.G < k.T
    ensures b == '-' ==> k.A < k.del && k.C < k.del && k.G < k.del && k.T < k.del
  {
    var s1 := ('A', k.A);
    var s2 := if k.C > s1.1 then ('C', k.C) else s1;
    var s3 := if k.G > s2.1 then ('G', k.G) else s2;
    var s4 := if k.T > s3.1 then ('T', k.T) else s3;
    if k.del > s4.1 then '-' else s4.0
  }

  /** The consensus holds a largest count, and every channel scanned before it holds strictly less. */
  lemma ArgMaxIsFirstMaximum(k: Counts)
    ensures forall d :: IsChannel(d) ==> Channel(k, d) <= Channel(k, ArgMax(k))
    ensures forall d :: IsChannel(d) && Rank(d) < Rank(ArgMax(k)) ==> Channel(k, d) < Channel(k, ArgMax(k))
  {
  }

  /** Scan position of a channel symbol. */
  function Rank(b: char): nat
  {
    match b
    case 'A' => 0
    case 'C' => 1
    case 'G' => 2
    case 'T' => 3
    case _ => 4
  }

  /**
   * The recount of setConsensus: coverage raised to the total, then the
   * reference channel set to coverage minus the previous total.
   */
  function Recount(k: Counts, reference: char, coverage: real): (r: Counts)
  {
    var cov := if coverage < Mass(k) then Mass(k) else coverage;
    if IsChannel(reference) then SetChannel(k, reference, cov - Mass(k)) else k
  }

  /**
   * When the reference channel was empty, the recount makes the channels
   * add up to the (raised) coverage; no other channel changes.
   */
  lemma RecountFillsCoverage(k: Counts, reference: char, coverage: real)
    requires IsChannel(reference) && Channel(k, reference) == 0.0
    ensures Mass(Recount(k, reference, coverage)) == (if coverage < Mass(k) then Mass(k) else coverage)
    ensures forall d :: IsChannel(d) && d != reference ==> Channel(Recount(k, reference, coverage), d) == Channel(k, d)
  {
    var cov := if coverage < Mass(k) then Mass(k) else coverage;
    SetChannelMass(k, reference, cov - Mass(k));
  }

  /** The channels flagged by correct: positive with error probability above the tolerance. */
  predicate Flagged(k: Counts, p: Counts, tolerance: real, b: char)
    requires IsChannel(b)
  {
    Channel(k, b) > 0.0 && Channel(p, b) > tolerance
  }

  /** Some channel is flagged. */
  predicate AnyFlagged(k: Counts, p: Counts, tolerance: real)
  {
    Flagged(k, p, tolerance, 'A') || Flagged(k, p, tolerance, 'C') || Flagged(k, p, tolerance, 'G')
    || Flagged(k, p, tolerance, 'T') || Flagged(k, p, tolerance, '-')
  }

  /** Mass removed from the flagged channels. */
  function Remainder(k: Counts, p: Counts, tolerance: real): real
  {
    (if Flagged(k, p, tolerance, 'A') then k.A else 0.0)
    + (if Flagged(k, p, tolerance, 'C') then k.C else 0.0)
    + (if Flagged(k, p, tolerance, 'G') then k.G else 0.0)
    + (if Flagged(k, p, tolerance, 'T') then k.T else 0.0)
    + (if Flagged(k, p, tolerance, '-') then k.del else 0.0)
  }

  /**
   * The counts after correct: flagged channels emptied and their mass moved
   * onto the consensus channel, so the total is unchanged.
   */
  function Corrected(k: Counts, p: Counts, tolerance: real, consensus: char): (r: Counts)
    ensures IsChannel(consensus) ==> Mass(r) == Mass(k)
  {
    var z := Emptied(k, p, tolerance);
    assert Mass(z) + Remainder(k, p, tolerance) == Mass(k);
    if IsChannel(consensus) then
      SetChannelMass(z, consensus, Channel(z, consensus) + Remainder(k, p, tolerance));
      SetChannel(z, consensus, Channel(z, consensus) + Remainder(k, p, tolerance))
    else z
  }

  /** k with its flagged channels set to 0. */
  function Emptied(k: Counts, p: Counts, tolerance: real): (z: Counts)
    ensures forall b :: IsChannel(b) ==> Channel(z, b) == (if Flagged(k, p, tolerance, b) then 0.0 else Channel(k, b))
  {
    Counts(
      if Flagged(k, p, tolerance, 'A') then 0.0 else k.A,
      if Flagged(k, p, tolerance, 'C') then 0.0 else k.C,
      if Flagged(k, p, tolerance, 'G') then 0.0 else k.G,
      if Flagged(k, p, tolerance, 'T') then 0.0 else k.T,
      if Flagged(k, p, tolerance, '-') then 0.0 else k.del)
  }

  /**
   * After correct, a channel other than the consensus is emptied exactly when
   * it was flagged, and the consensus channel receives all removed mass.
   */
  lemma CorrectedChannels(k: Counts, p: Counts, tolerance: real, consensus: char, b: char)
    requires IsChannel(consensus) && IsChannel(b)
    ensures b != consensus ==>
      Channel(Corrected(k, p, tolerance, consensus), b) == (if Flagged(k, p, tolerance, b) then 0.0 else Channel(k, b))
    ensures b == consensus ==>
      Channel(Corrected(k, p, tolerance, consensus), b)
        == (if Flagged(k, p, tolerance, b) then 0.0 else Channel(k, b)) + Remainder(k, p, tolerance)
  {
  }

  /** Shannon-entropy shape of calculateEntropy; log2 stands for Math.log(x)/Math.log(2). */
  function Entropy(k: Counts, coverage: real, log2: real -> real): (e: real)
    ensures coverage == 0.0 <==> e == -1.0
    ensures coverage != 0.0 ==> e >= 0.0
  {
    if coverage == 0.0 then -1.0
    else
      var ent := Term(k.A, coverage, log2) + Term(k.C, coverage, log2) + Term(k.G, coverage, log2)
        + Term(k.T, coverage, log2) + Term(k.del, coverage, log2);
      if ent < 0.0 then -ent else 0.0
  }

  function Term(x: real, coverage: real, log2: real -> real): real
    requires coverage != 0.0
  {
    if x > 0.0 then x / coverage * log2(x / coverage) else 0.0
  }

  /** The error-probability bound of correct: Math.min(1, p*mt). */
  function Capped(p: real, mt: real): real
  {
    if 1.0 <= p * mt then 1.0 else p * mt
  }

  class Base {
    var position: real
    var reference: char
    var consensus: char
    var A: real
    var C: real
    var G: real
    var T: real
    var del: real
    var coverage: real
    var probCoverage: real
    var corrected: bool
    var removed: bool
    var entropy: real

    /** The channel counts as a value. */
    function Tally(): Counts
      reads this`A, this`C, this`G, this`T, this`del
    {
      Counts(A, C, G, T, del)
    }

    /** Base(): position -1, bases 'X', empty counts, no entropy. */
    constructor ()
      ensures position == -1.0 && reference == 'X' && consensus == 'X'
      ensures Tally() == Counts(0.0, 0.0, 0.0, 0.0, 0.0) && coverage == 0.0
      ensures probCoverage == -1.0 && !corrected && !removed && entropy == -1.0
    {
      position, reference, consensus := -1.0, 'X', 'X';
      A, C, G, T, del := 0.0, 0.0, 0.0, 0.0, 0.0;
      coverage, probCoverage := 0.0, -1.0;
      corrected, removed := false, false;
      entropy := -1.0;
    }

    /** The ten-argument constructor. */
    constructor Init(p: real, r: char, c: char, k: Counts, cv: real, ent: real)
      ensures position == p && reference == r && consensus == c
      ensures Tally() == k && coverage == cv
      ensures probCoverage == -1.0 && !corrected && !removed && entropy == ent
    {
      position, reference, consensus := p, r, c;
      A, C, G, T, del := k.A, k.C, k.G, k.T, k.del;
      coverage, probCoverage := cv, -1.0;
      corrected, removed := false, false;
      entropy := ent;
    }

    /** calculateEntropy. */
    method CalculateEntropy(log2: real -> real)
      modifies this`entropy
      ensures entropy == Entropy(Tally(), coverage, log2)
    {
      if coverage == 0.0 {
        entropy := -1.0;
      } else {
        var ent := 0.0;
        if A > 0.0 { ent := ent + Term(A, coverage, log2); }
        if C > 0.0 { ent := ent + Term(C, coverage, log2); }
        if G > 0.0 { ent := ent + Term(G, coverage, log2); }
        if T > 0.0 { ent := ent + Term(T, coverage, log2); }
        if del > 0.0 { ent := ent + Term(del, coverage, log2); }
        if ent < 0.0 { entropy := -ent; } else { entropy := 0.0; }
      }
    }

    /**
     * setConsensus.  The probability of the standardised coverage
     * (Functions.zetaStandardProbability) is supplied as probCov.
     */
    method SetConsensus(probCov: real, threshold: real)
      modifies this
      ensures position == old(position) && reference == old(reference) && corrected == old(corrected)
      ensures entropy == old(entropy)
      ensures coverage == (if old(coverage) < Mass(old(Tally())) then Mass(old(Tally())) else old(coverage))
      ensures Tally() == Recount(old(Tally()), reference, old(coverage))
      ensures probCoverage == probCov
      ensures coverage < 30.0 || probCov < threshold ==> consensus == '?' && removed
      ensures !(coverage < 30.0 || probCov < threshold) ==> consensus == ArgMax(Tally()) && removed == old(removed)
    {
      RecountChannels();
      ScanConsensus();
      probCoverage := probCov;
      if coverage < 30.0 || probCoverage < threshold {
        consensus := '?';
        removed := true;
      }
    }

    /** First half of setConsensus: raise the coverage, refill the reference channel. */
    method RecountChannels()
      modifies this`coverage, this`A, this`C, this`G, this`T, this`del
      ensures coverage == (if old(coverage) < Mass(old(Tally())) then Mass(old(Tally())) else old(coverage))
      ensures Tally() == Recount(old(Tally()), reference, old(coverage))
    {
      if coverage < A + C + G + T + del {
        coverage := A + C + G + T + del;
      }
      var refFreq := coverage - (A + C + G + T + del);
      if reference == 'A' { A := refFreq; }
      if reference == 'C' { C := refFreq; }
      if reference == 'G' { G := refFreq; }
      if reference == 'T' { T := refFreq; }
      if reference == '-' { del := refFreq; }
    }

    /** Second half of setConsensus: the first-maximum scan. */
    method ScanConsensus()
      modifies this`consensus
      ensures consensus == ArgMax(Tally())
    {
      consensus := 'A';
      var maxFreq := A;
      if C > maxFreq { consensus := 'C'; maxFreq := C; }
      if G > maxFreq { consensus := 'G'; maxFreq := G; }
      if T > maxFreq { consensus := 'T'; maxFreq := T; }
      if del > maxFreq { consensus := '-'; maxFreq := del; }
    }

    /**
     * correct.  Functions.isHomopolymeric and Functions.poissonError are
     * supplied as functions (the genome is part of isHomopolymeric).
     */
    method Correct(tolerance: real, erNoHomopol: real, erHomopol: real, mt: real,
                   isHomopolymeric: (int, bool) -> bool, poissonError: (real, real, real) -> real)
      modifies this`A, this`C, this`G, this`T, this`del, this`corrected, this`removed
      ensures position == old(position) && reference == old(reference) && consensus == old(consensus)
      ensures coverage == old(coverage) && probCoverage == old(probCoverage) && entropy == old(entropy)
      ensures old(consensus) == '?' ==> Tally() == old(Tally()) && corrected == old(corrected) && removed == old(removed)
      ensures old(consensus) != '?' ==>
        var p := ErrorBounds(old(Tally()), coverage, ErrorRate(erNoHomopol, erHomopol, isHomopolymeric), mt, poissonError);
        && Tally() == Corrected(old(Tally()), p, tolerance, consensus)
        && corrected == (old(corrected) || AnyFlagged(old(Tally()), p, tolerance))
        && removed == (old(removed) || (consensus == '-' && A + C + G + T == 0.0 && reference == '-'))
    {
      if consensus == '?' {
        return;
      }
      var errorRate := erNoHomopol;
      var indel := false;
      if reference == '-' || consensus == '-' || position.Floor as real != position {
        indel := true;
      }
      if isHomopolymeric((position - 1.0).Floor, indel) {
        errorRate := erHomopol;
      }
      assert errorRate == ErrorRate(erNoHomopol, erHomopol, isHomopolymeric);
      var t0 := Tally();
      var p := ErrorBounds(t0, coverage, errorRate, mt, poissonError);
      Redistribute(p, tolerance);
      assert Tally() == Corrected(t0, p, tolerance, consensus);
      if consensus == '-' && A + C + G + T == 0.0 && reference == '-' {
        removed := true;
      }
    }

    /** The channel work of correct: empty the flagged channels into the consensus channel. */
    method Redistribute(p: Counts, tolerance: real)
      modifies this`A, this`C, this`G, this`T, this`del, this`corrected
      ensures Tally() == Corrected(old(Tally()), p, tolerance, consensus)
      ensures corrected == (old(corrected) || AnyFlagged(old(Tally()), p, tolerance))
    {
      var remainder := EmptyFlagged(p, tolerance);
      MoveToConsensus(remainder);
    }

    /** The clearing loop of correct: empty each flagged channel and collect its mass. */
    method EmptyFlagged(p: Counts, tolerance: real) returns (remainder: real)
      modifies this`A, this`C, this`G, this`T, this`del, this`corrected
      ensures Tally() == Emptied(old(Tally()), p, tolerance)
      ensures remainder == Remainder(old(Tally()), p, tolerance)
      ensures corrected == (old(corrected) || AnyFlagged(old(Tally()), p, tolerance))
    {
      var a, c, g, t, d, flagged;
      remainder := 0.0;
      a, flagged, remainder := ClearChannel(A, p.A, tolerance, corrected, remainder);
      c, flagged, remainder := ClearChannel(C, p.C, tolerance, flagged, remainder);
      g, flagged, remainder := ClearChannel(G, p.G, tolerance, flagged, remainder);
      t, flagged, remainder := ClearChannel(T, p.T, tolerance, flagged, remainder);
      d, flagged, remainder := ClearChannel(del, p.del, tolerance, flagged, remainder);
      A, C, G, T, del, corrected := a, c, g, t, d, flagged;
    }

    /** The last step of correct: add the collected mass to the consensus channel. */
    method MoveToConsensus(remainder: real)
      modifies this`A, this`C, this`G, this`T, this`del
      ensures Tally() == (if IsChannel(consensus) then
        SetChannel(old(Tally()), consensus, Channel(old(Tally()), consensus) + remainder) else old(Tally()))
    {
      if consensus == 'A' { A := A + remainder; }
      if consensus == 'C' { C := C + remainder; }
      if consensus == 'G' { G := G + remainder; }
      if consensus == 'T' { T := T + remainder; }
      if consensus == '-' { del := del + remainder; }
    }

    /** The error rate chosen by correct for this position. */
    function ErrorRate(erNoHomopol: real, erHomopol: real, isHomopolymeric: (int, bool) -> bool): real
      reads this`reference, this`consensus, this`position
    {
      var indel := reference == '-' || consensus == '-' || position.Floor as real != position;
      if isHomopolymeric((position - 1.0).Floor, indel) then erHomopol else erNoHomopol
    }
  }

  /** One channel of the clearing loop of correct. */
  method ClearChannel(x: real, px: real, tolerance: real, flagged: bool, remainder: real)
    returns (x': real, flagged': bool, remainder': real)
    ensures x' == (if x > 0.0 && px > tolerance then 0.0 else x)
    ensures flagged' == (flagged || (x > 0.0 && px > tolerance))
    ensures remainder' == remainder + (if x > 0.0 && px > tolerance then x else 0.0)
  {
    x', flagged', remainder' := x, flagged, remainder;
    if x > 0.0 && px > tolerance {
      flagged' := true;
      remainder' := remainder + x;
      x' := 0.0;
    }
  }

  /** The five capped error probabilities of correct. */
  function ErrorBounds(k: Counts, coverage: real, rate: real, mt: real, poissonError: (real, real, real) -> real): Counts
  {
    Counts(Capped(poissonError(k.A, coverage, rate), mt), Capped(poissonError(k.C, coverage, rate), mt),
           Capped(poissonError(k.G, coverage, rate), mt), Capped(poissonError(k.T, coverage, rate), mt),
           Capped(poissonError(k.del, coverage, rate), mt))
  }
}
