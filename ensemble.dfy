/**
 * The ensemble of window catalogues (class LocalVariantSetEnsemble) and the
 * extraction of haplotypes from it: pruning entries without a mate in the
 * next window, choosing one overlapping entry per window, subtracting the
 * smallest chosen frequency and deleting the spent entries, until a window
 * runs dry.
 */
module Ensembles {
  import opened Common
  import opened Sorting
  import opened Snp
  import opened Patterns
  import opened LocalVariants
  import opened Reads
  import opened LocalVariantSets
  import opened GlobalVariants
  import opened IndexSearch

  // ------------------------------------------------------------ mass and entries

  /** The total frequency of a catalogue, folded from the left. */
  function Mass(a: seq<LocalVariant>): real
  {
    if a == [] then 0.0 else Mass(a[..|a| - 1]) + a[|a| - 1].frequency
  }

  /** The mass is the sum of the catalogue's frequencies. */
  lemma {:induction false} MassIsSum(a: seq<LocalVariant>)
    ensures Mass(a) == Sum(Frequencies(a))
  {
    if a != [] {
      MassIsSum(a[..|a| - 1]);
      assert Frequencies(a)[..|a| - 1] == Frequencies(a[..|a| - 1]);
    }
  }

  lemma {:induction false} MassConcat(a: seq<LocalVariant>, b: seq<LocalVariant>)
    ensures Mass(a + b) == Mass(a) + Mass(b)
    decreases |b|
  {
    if b != [] {
      var ab := a + b;
      assert ab[..|ab| - 1] == a + b[..|b| - 1];
      assert ab[|ab| - 1] == b[|b| - 1];
      MassConcat(a, b[..|b| - 1]);
    } else {
      assert a + b == a;
    }
  }

  lemma MassSplit(a: seq<LocalVariant>, j: int)
    requires 0 <= j < |a|
    ensures Mass(a) == Mass(a[..j]) + a[j].frequency + Mass(a[j + 1..])
  {
    assert a == a[..j] + [a[j]] + a[j + 1..];
    MassConcat(a[..j] + [a[j]], a[j + 1..]);
    MassConcat(a[..j], [a[j]]);
  }

  /** Reordering a catalogue keeps its mass. */
  lemma {:induction false} MassPermutation(a: seq<LocalVariant>, b: seq<LocalVariant>)
    requires multiset(a) == multiset(b)
    ensures Mass(a) == Mass(b)
    decreases |a|
  {
    if a != [] {
      var x := a[|a| - 1];
      assert x in multiset(b);
      var k :| 0 <= k < |b| && b[k] == x;
      var b' := b[..k] + b[k + 1..];
      assert b == b[..k] + [x] + b[k + 1..];
      assert a == a[..|a| - 1] + [x];
      assert multiset(b) == multiset(b[..k]) + multiset{x} + multiset(b[k + 1..]);
      assert multiset(a) == multiset(a[..|a| - 1]) + multiset{x};
      assert multiset(b') == multiset(b[..k]) + multiset(b[k + 1..]);
      assert multiset(b') == multiset(b) - multiset{x};
      assert multiset(a[..|a| - 1]) == multiset(a) - multiset{x};
      MassPermutation(a[..|a| - 1], b');
      MassSplit(b, k);
      MassConcat(b[..k], b[k + 1..]);
    }
  }

  lemma {:induction false} MassNonNegative(a: seq<LocalVariant>)
    requires forall i :: 0 <= i < |a| ==> a[i].frequency >= 0.0
    ensures Mass(a) >= 0.0
  {
    if a != [] {
      MassNonNegative(a[..|a| - 1]);
    }
  }

  /** The number of entries over all windows; extraction lowers it. */
  function Entries(cs: Catalogues): nat
  {
    if cs == [] then 0 else Entries(cs[..|cs| - 1]) + |cs[|cs| - 1]|
  }

  /** Every entry of every window has a positive frequency. */
  predicate Live(cs: Catalogues)
  {
    forall i, j :: 0 <= i < |cs| && 0 <= j < |cs[i]| ==> cs[i][j].frequency > 0.0
  }

  // ------------------------------------------------------------ removing spent entries

  /** The entries with a positive frequency, in order. */
  function Positives(a: seq<LocalVariant>): (r: seq<LocalVariant>)
    ensures |r| <= |a|
  {
    if a == [] then []
    else
      var r := Positives(a[..|a| - 1]);
      if a[|a| - 1].frequency > 0.0 then r + [a[|a| - 1]] else r
  }

  /** Exactly the positive entries survive. */
  lemma {:induction false} PositivesMembers(a: seq<LocalVariant>)
    ensures forall x :: x in Positives(a) <==> x in a && x.frequency > 0.0
  {
    if a != [] {
      PositivesMembers(a[..|a| - 1]);
      assert a == a[..|a| - 1] + [a[|a| - 1]];
    }
  }

  lemma {:induction false} PositivesConcat(a: seq<LocalVariant>, b: seq<LocalVariant>)
    ensures Positives(a + b) == Positives(a) + Positives(b)
    decreases |b|
  {
    if b != [] {
      var ab := a + b;
      assert ab[..|ab| - 1] == a + b[..|b| - 1];
      assert ab[|ab| - 1] == b[|b| - 1];
      PositivesConcat(a, b[..|b| - 1]);
      var last := if b[|b| - 1].frequency > 0.0 then [b[|b| - 1]] else [];
      assert Positives(ab) == Positives(ab[..|ab| - 1]) + last;
      assert Positives(b) == Positives(b[..|b| - 1]) + last;
    } else {
      assert a + b == a;
    }
  }

  lemma {:induction false} PositivesOfLive(a: seq<LocalVariant>)
    requires forall i :: 0 <= i < |a| ==> a[i].frequency > 0.0
    ensures Positives(a) == a
  {
    if a != [] {
      PositivesOfLive(a[..|a| - 1]);
    }
  }

  /** Deleting entries of frequency 0 keeps the mass of a catalogue without negative entries. */
  lemma {:induction false} PositivesMass(a: seq<LocalVariant>)
    requires forall i :: 0 <= i < |a| ==> a[i].frequency >= 0.0
    ensures Mass(Positives(a)) == Mass(a)
  {
    if a != [] {
      var a' := a[..|a| - 1];
      PositivesMass(a');
      if a[|a| - 1].frequency > 0.0 {
        MassConcat(Positives(a'), [a[|a| - 1]]);
      }
    }
  }

  /** A catalogue with an entry that is not positive loses at least that entry. */
  lemma {:induction false} PositivesShrink(a: seq<LocalVariant>, j: int)
    requires 0 <= j < |a| && a[j].frequency <= 0.0
    ensures |Positives(a)| < |a|
  {
    if j < |a| - 1 {
      PositivesShrink(a[..|a| - 1], j);
    }
  }

  /** Removing a spent entry does not change the positive entries. */
  lemma RemoveSpentStep(b: seq<LocalVariant>, j: int)
    requires 0 <= j < |b| && b[j].frequency <= 0.0
    ensures Positives(b[..j] + b[j + 1..]) == Positives(b)
    ensures (b[..j] + b[j + 1..])[..j] == b[..j]
  {
    assert b == b[..j] + [b[j]] + b[j + 1..];
    PositivesConcat(b[..j] + [b[j]], b[j + 1..]);
    PositivesConcat(b[..j], [b[j]]);
    PositivesConcat(b[..j], b[j + 1..]);
  }

  /**
   * The removal loop (LocalVariantSetEnsemble.java lines 167-178 and
   * 468-479): entry j is removed while its frequency is not positive,
   * otherwise j moves on.
   */
  method RemoveNonPositive(a: seq<LocalVariant>) returns (b: seq<LocalVariant>)
    ensures b == Positives(a)
    ensures forall i :: 0 <= i < |b| ==> b[i].frequency > 0.0
  {
    b := a;
    var j := 0;
    while j < |b|
      invariant 0 <= j <= |b|
      invariant Positives(b) == Positives(a)
      invariant forall i :: 0 <= i < j ==> b[i].frequency > 0.0
      decreases |b| - j
    {
      if b[j].frequency <= 0.0 {
        RemoveSpentStep(b, j);
        b := b[..j] + b[j + 1..];
      } else {
        j := j + 1;
      }
    }
    PositivesOfLive(b);
  }

  /** removeNonPositive on every window. */
  method RemoveSpent(cs: Catalogues) returns (r: Catalogues)
    ensures |r| == |cs| && forall i :: 0 <= i < |cs| ==> r[i] == Positives(cs[i])
    ensures Live(r)
  {
    r := [];
    while |r| < |cs|
      invariant |r| <= |cs|
      invariant forall i :: 0 <= i < |r| ==> r[i] == Positives(cs[i])
      invariant Live(r)
    {
      var b := RemoveNonPositive(cs[|r|]);
      r := r + [b];
    }
  }

  // ------------------------------------------------------------ pruning

  /** An entry without a mate in the next window gets frequency 0. */
  function Mark(v: LocalVariant, next: seq<LocalVariant>): LocalVariant
  {
    if SearchMateFwd(v, next) == -1 then v.(frequency := 0.0) else v
  }

  /** Entry j of a has some entry of next that it overlaps. */
  predicate HasMate(v: LocalVariant, next: seq<LocalVariant>)
  {
    exists k :: 0 <= k < |next| && Overlaps(v, next[k])
  }

  /** Lines 150-163 for one window: each entry is looked up in the next window. */
  method MarkWindow(a: seq<LocalVariant>, next: seq<LocalVariant>) returns (b: seq<LocalVariant>)
    ensures b == Marked(a, next)
  {
    b := a;
    var j := 0;
    while j < |b|
      invariant j <= |b| == |a|
      invariant forall i :: 0 <= i < |a| ==> b[i] == (if i < j then Mark(a[i], next) else a[i])
    {
      b := b[j := Mark(b[j], next)];
      j := j + 1;
    }
    assert forall j :: 0 <= j < |a| ==> b[j] == Marked(a, next)[j];
  }

  /**
   * The pruning pass (lines 148-165): every window but the last is marked
   * against the next one, which has not been marked yet.
   */
  method PruneWindows(cs: Catalogues) returns (r: Catalogues)
    ensures |r| == |cs|
    ensures forall i :: 0 <= i < |cs| - 1 ==> r[i] == Marked(cs[i], cs[i + 1])
    ensures |cs| > 0 ==> r[|cs| - 1] == cs[|cs| - 1]
  {
    r := cs;
    var i := 0;
    while i < |cs| - 1
      invariant 0 <= i && (i <= |cs| - 1 || i == 0) && |r| == |cs|
      invariant forall k :: i <= k < |cs| ==> r[k] == cs[k]
      invariant forall k :: 0 <= k < i ==> r[k] == Marked(cs[k], cs[k + 1])
    {
      var b := MarkWindow(r[i], r[i + 1]);
      r := r[i := b];
      i := i + 1;
    }
  }

  /** After pruning and removal, exactly the live entries with a mate in the next window are left. */
  lemma SurvivorsOfPruning(a: seq<LocalVariant>, next: seq<LocalVariant>, b: seq<LocalVariant>)
    requires |b| == |a|
    requires forall j :: 0 <= j < |a| ==> b[j] == (if HasMate(a[j], next) then a[j] else a[j].(frequency := 0.0))
    ensures forall x :: x in Positives(b) <==> x in a && x.frequency > 0.0 && HasMate(x, next)
  {
    PositivesMembers(b);
    forall x
      ensures x in b && x.frequency > 0.0 <==> x in a && x.frequency > 0.0 && HasMate(x, next)
    {
      if x in a && x.frequency > 0.0 && HasMate(x, next) {
        var j :| 0 <= j < |a| && a[j] == x;
        assert b[j] == x;
      }
      if x in b && x.frequency > 0.0 {
        var j :| 0 <= j < |b| && b[j] == x;
        if !HasMate(a[j], next) {
          assert b[j].frequency == 0.0;
        }
      }
    }
  }

  /** Marking only lowers frequencies, so it does not raise the mass. */
  lemma {:induction false} MarkingMass(a: seq<LocalVariant>, b: seq<LocalVariant>)
    requires |b| == |a| && forall j :: 0 <= j < |a| ==> b[j] == a[j] || (b[j] == a[j].(frequency := 0.0) && a[j].frequency >= 0.0)
    ensures Mass(b) <= Mass(a)
  {
    if a != [] {
      MarkingMass(a[..|a| - 1], b[..|b| - 1]);
    }
  }

  // ------------------------------------------------------------ sizes, sorting, guide

  /** The smallest catalogue size (lines 180-185). */
  method MultinomialSize(cs: Catalogues) returns (m: int)
    requires |cs| > 0
    ensures exists i :: 0 <= i < |cs| && m == |cs[i]|
    ensures forall i :: 0 <= i < |cs| ==> m <= |cs[i]|
  {
    m := |cs[0]|;
    var k := 1;
    while k < |cs|
      invariant 1 <= k <= |cs|
      invariant exists i :: 0 <= i < k && m == |cs[i]|
      invariant forall i :: 0 <= i < k ==> m <= |cs[i]|
    {
      if |cs[k]| < m {
        m := |cs[k]|;
      }
      k := k + 1;
    }
  }

  /** sortMultinomialFrequencies on every window: each becomes the stable sort by decreasing frequency. */
  method SortAll(cs: Catalogues) returns (r: Catalogues)
    ensures |r| == |cs| && forall i :: 0 <= i < |cs| ==> r[i] == SortBy(cs[i], NegFrequency)
  {
    r := [];
    while |r| < |cs|
      invariant |r| <= |cs| && forall i {:trigger r[i]} :: 0 <= i < |r| ==> r[i] == SortBy(cs[i], NegFrequency)
    {
      var a := cs[|r|];
      r := r + [SortBy(a, NegFrequency)];
    }
  }

  /** -Double.MAX_VALUE, the starting best score of getGuideDistribution. */
  const MinusMaxDouble: real := -1.7976931348623157e308

  /** Java's (int) of a non-negative double. */
  lemma TruncOfDraw(draw: real, n: int)
    requires 0.0 <= draw < 1.0 && n >= 1
    ensures 0 <= Trunc(draw * (n - 1) as real) < n
  {
    var m := (n - 1) as real;
    FractionOf(draw, m);
    assert (draw * m).Floor <= n - 1;
  }

  /**
   * getGuideDistribution: the window whose score is largest, the first one
   * on ties; when no score beats -Double.MAX_VALUE the random start
   * (int)(draw*(n-1)) is kept.  The scores are given per window.
   */
  method GuideDistribution(draw: real, chiProb: seq<real>) returns (index: int)
    requires 0.0 <= draw < 1.0 && |chiProb| >= 1
    ensures 0 <= index < |chiProb|
    ensures (forall i :: 0 <= i < |chiProb| ==> chiProb[i] <= MinusMaxDouble) ==> index == Trunc(draw * (|chiProb| - 1) as real)
    ensures (exists i :: 0 <= i < |chiProb| && chiProb[i] > MinusMaxDouble) ==>
      (forall i :: 0 <= i < |chiProb| ==> chiProb[i] <= chiProb[index]) && (forall i :: 0 <= i < index ==> chiProb[i] < chiProb[index])
  {
    var n := |chiProb|;
    TruncOfDraw(draw, n);
    index := Trunc(draw * (n - 1) as real);
    var best := MinusMaxDouble;
    var i := 0;
    while i < n
      invariant 0 <= i <= n && 0 <= index < n
      invariant forall k :: 0 <= k < i ==> chiProb[k] <= best
      invariant best == MinusMaxDouble ==> index == Trunc(draw * (n - 1) as real)
      invariant best != MinusMaxDouble ==> best == chiProb[index] && index < i && forall k :: 0 <= k < index ==> chiProb[k] < best
      invariant best >= MinusMaxDouble
    {
      if chiProb[i] > best {
        best := chiProb[i];
        index := i;
      }
      i := i + 1;
    }
  }

  // ------------------------------------------------------------ one extraction

  /** The chosen entry of window i. */
  function Pick(cs: Catalogues, idx: seq<int>, i: int): LocalVariant
    requires InBounds(cs, idx) && 0 <= i < |cs|
  {
    cs[i][idx[i]]
  }

  /** overlSNP1 + amplSNP of the chosen entries of windows 0 .. i-1, in order. */
  function Links(cs: Catalogues, idx: seq<int>, i: int): Pattern
    requires InBounds(cs, idx) && 0 <= i <= |cs|
  {
    if i == 0 then [] else Links(cs, idx, i - 1) + Pick(cs, idx, i - 1).overlSnp1 + Pick(cs, idx, i - 1).amplSnp
  }

  /** The global pattern of a choice: every window's overlSNP1 + amplSNP, then the last overlSNP2. */
  function Chain(cs: Catalogues, idx: seq<int>): Pattern
    requires InBounds(cs, idx) && |cs| > 0
  {
    Links(cs, idx, |cs|) + Pick(cs, idx, |cs| - 1).overlSnp2
  }

  /** The three sub-patterns of the chosen entry of window i, in window order. */
  function Block(cs: Catalogues, idx: seq<int>, i: int): Pattern
    requires InBounds(cs, idx) && 0 <= i < |cs|
  {
    Pick(cs, idx, i).overlSnp1 + Pick(cs, idx, i).amplSnp + Pick(cs, idx, i).overlSnp2
  }

  /** The rest of the global pattern from window i on. */
  function Tail(cs: Catalogues, idx: seq<int>, i: int): Pattern
    requires InBounds(cs, idx) && 0 <= i <= |cs| && |cs| > 0
    decreases |cs| - i
  {
    if i == |cs| then Pick(cs, idx, |cs| - 1).overlSnp2
    else Pick(cs, idx, i).overlSnp1 + Pick(cs, idx, i).amplSnp + Tail(cs, idx, i + 1)
  }

  lemma {:induction false} LinksAndTail(cs: Catalogues, idx: seq<int>, i: int)
    requires InBounds(cs, idx) && 0 <= i <= |cs| && |cs| > 0
    ensures Chain(cs, idx) == Links(cs, idx, i) + Tail(cs, idx, i)
    decreases |cs| - i
  {
    if i < |cs| {
      LinksAndTail(cs, idx, i + 1);
      var p := Pick(cs, idx, i);
      ConcatAssoc(Links(cs, idx, i), p.overlSnp1, p.amplSnp);
      assert Links(cs, idx, i + 1) + Tail(cs, idx, i + 1)
        == Links(cs, idx, i) + ((p.overlSnp1 + p.amplSnp) + Tail(cs, idx, i + 1));
    }
  }

  /**
   * For a consistent choice, the global pattern holds each chosen entry's
   * three sub-patterns as one contiguous block, at the end of the links
   * before it: a window's right overlap is read once, as the next window's
   * left overlap.
   */
  lemma ChainHoldsWindows(cs: Catalogues, idx: seq<int>, i: int)
    requires InBounds(cs, idx) && Consistent(cs, idx) && 0 <= i < |cs|
    ensures |Links(cs, idx, i)| + |Block(cs, idx, i)| <= |Chain(cs, idx)|
    ensures Chain(cs, idx)[|Links(cs, idx, i)|..|Links(cs, idx, i)| + |Block(cs, idx, i)|] == Block(cs, idx, i)
  {
    LinksAndTail(cs, idx, i + 1);
    var p := Pick(cs, idx, i);
    var t := Tail(cs, idx, i + 1);
    var rest: Pattern;
    if i + 1 < |cs| {
      assert PairOverlaps(cs, idx, i);
      rest := Pick(cs, idx, i + 1).amplSnp + Tail(cs, idx, i + 2);
      assert t == p.overlSnp2 + rest;
    } else {
      rest := [];
      assert t == p.overlSnp2 + rest;
    }
    var pre := Links(cs, idx, i);
    assert Chain(cs, idx) == pre + Block(cs, idx, i) + rest;
  }

  /** The concatenation loop of lines 435-449, with its never-taken exit on a mismatch. */
  method BuildChain(cs: Catalogues, idx: seq<int>) returns (snp: Pattern)
    requires InBounds(cs, idx) && Consistent(cs, idx) && |cs| > 0
    ensures snp == Chain(cs, idx)
  {
    var n := |cs|;
    snp := [];
    var i := 0;
    while i < n
      invariant 0 <= i <= n && snp == Links(cs, idx, i)
    {
      assert i < n - 1 ==> PairOverlaps(cs, idx, i);
      if i < n - 1 && !Overlaps(cs[i][idx[i]], cs[i + 1][idx[i + 1]]) {
        assert false;
      }
      snp := snp + cs[i][idx[i]].overlSnp1;
      snp := snp + cs[i][idx[i]].amplSnp;
      i := i + 1;
    }
    snp := snp + cs[n - 1][idx[n - 1]].overlSnp2;
  }

  /** f is the least frequency among the chosen entries. */
  predicate LeastChosen(cs: Catalogues, idx: seq<int>, f: real)
    requires InBounds(cs, idx)
  {
    && (exists i :: 0 <= i < |cs| && f == Pick(cs, idx, i).frequency)
    && (forall i :: 0 <= i < |cs| ==> f <= Pick(cs, idx, i).frequency)
  }

  /** Lines 458-462: the guide's frequency, lowered to the least chosen frequency. */
  method MinChosen(cs: Catalogues, idx: seq<int>, g: int) returns (f: real)
    requires InBounds(cs, idx) && 0 <= g < |cs|
    ensures LeastChosen(cs, idx, f)
  {
    f := cs[g][idx[g]].frequency;
    ghost var w := g;
    var i := 0;
    while i < |cs|
      invariant 0 <= i <= |cs| && 0 <= w < |cs| && f == Pick(cs, idx, w).frequency
      invariant forall k :: 0 <= k < i ==> f <= Pick(cs, idx, k).frequency
    {
      if cs[i][idx[i]].frequency < f {
        w := i;
      }
      f := Min2(f, cs[i][idx[i]].frequency);
      i := i + 1;
    }
  }

  /** The chosen entry j of a with f taken off its frequency, floored at 0. */
  function Spend(a: seq<LocalVariant>, j: int, f: real): seq<LocalVariant>
    requires 0 <= j < |a|
  {
    a[j := a[j].(frequency := Max2(a[j].frequency - f, 0.0))]
  }

  /** Lines 463-467: every chosen entry is decreased by f. */
  method Subtract(cs: Catalogues, idx: seq<int>, f: real) returns (r: Catalogues)
    requires InBounds(cs, idx)
    ensures |r| == |cs| && forall i :: 0 <= i < |cs| ==> r[i] == Spend(cs[i], idx[i], f)
  {
    r := [];
    while |r| < |cs|
      invariant |r| <= |cs| && forall i :: 0 <= i < |r| ==> r[i] == Spend(cs[i], idx[i], f)
    {
      var i := |r|;
      var cur := cs[i][idx[i]];
      r := r + [cs[i][idx[i] := cur.(frequency := Max2(cur.frequency - f, 0.0))]];
    }
  }

  /** The catalogues after one extraction with frequency f: spent, cleaned and re-sorted. */
  function Extracted(cs: Catalogues, idx: seq<int>, f: real): (r: Catalogues)
    requires InBounds(cs, idx)
    ensures |r| == |cs|
  {
    seq(|cs|, i requires 0 <= i < |cs| => SortBy(Positives(Spend(cs[i], idx[i], f)), NegFrequency))
  }

  /** Spending f of a chosen entry that holds at least f lowers the mass by exactly f. */
  lemma SpendMass(a: seq<LocalVariant>, j: int, f: real)
    requires 0 <= j < |a| && 0.0 <= f <= a[j].frequency
    ensures Mass(Spend(a, j, f)) == Mass(a) - f
  {
    var b := Spend(a, j, f);
    MassSplit(a, j);
    MassSplit(b, j);
    assert b[..j] == a[..j] && b[j + 1..] == a[j + 1..];
  }

  /**
   * One extraction takes exactly f from the mass of every window, when f
   * is no more than any chosen frequency (MinChosen makes it so).
   */
  lemma ExtractedMass(cs: Catalogues, idx: seq<int>, f: real, i: int)
    requires InBounds(cs, idx) && Live(cs) && 0 <= i < |cs|
    requires 0.0 <= f <= Pick(cs, idx, i).frequency
    ensures Mass(Extracted(cs, idx, f)[i]) == Mass(cs[i]) - f
  {
    var b := Spend(cs[i], idx[i], f);
    SpendMass(cs[i], idx[i], f);
    assert forall j :: 0 <= j < |b| ==> b[j].frequency >= 0.0 by {
      forall j | 0 <= j < |b| ensures b[j].frequency >= 0.0 {
        if j != idx[i] {
          assert b[j] == cs[i][j];
        }
      }
    }
    PositivesMass(b);
    MassPermutation(SortBy(Positives(b), NegFrequency), Positives(b));
  }

  /** Extraction leaves only entries with a positive frequency. */
  lemma ExtractedLive(cs: Catalogues, idx: seq<int>, f: real)
    requires InBounds(cs, idx)
    ensures Live(Extracted(cs, idx, f))
  {
    var r: Catalogues := Extracted(cs, idx, f);
    forall i: int, j: int | 0 <= i < |r| && 0 <= j < |r[i]| ensures r[i][j].frequency > 0.0 {
      var p := Positives(Spend(cs[i], idx[i], f));
      assert r[i][j] in multiset(SortBy(p, NegFrequency));
      PositivesMembers(Spend(cs[i], idx[i], f));
    }
  }

  lemma {:induction false} EntriesShrink(a: Catalogues, b: Catalogues)
    requires |a| == |b| && forall i :: 0 <= i < |a| ==> |b[i]| <= |a[i]|
    ensures Entries(b) <= Entries(a)
    ensures (exists i :: 0 <= i < |a| && |b[i]| < |a[i]|) ==> Entries(b) < Entries(a)
  {
    if a != [] {
      var n := |a|;
      EntriesShrink(a[..n - 1], b[..n - 1]);
      if exists i :: 0 <= i < n && |b[i]| < |a[i]| {
        var i :| 0 <= i < n && |b[i]| < |a[i]|;
        if i < n - 1 {
          assert |b[..n - 1][i]| < |a[..n - 1][i]|;
        }
      }
    }
  }

  /**
   * An extraction whose frequency is the least chosen one empties at least
   * that entry, so the number of entries goes down: the reconstruction loop
   * cannot run forever.
   */
  lemma ExtractedEntries(cs: Catalogues, idx: seq<int>, f: real, k: int)
    requires InBounds(cs, idx) && 0 <= k < |cs| && Pick(cs, idx, k).frequency <= f
    ensures Entries(Extracted(cs, idx, f)) < Entries(cs)
  {
    var r := Extracted(cs, idx, f);
    var b := Spend(cs[k], idx[k], f);
    assert b[idx[k]].frequency <= 0.0;
    PositivesShrink(b, idx[k]);
    EntriesShrink(cs, r);
  }

  /** An extraction with the least chosen frequency removes at least one entry. */
  lemma LeastExtractionShrinks(cs: Catalogues, idx: seq<int>, f: real)
    requires InBounds(cs, idx) && LeastChosen(cs, idx, f)
    ensures Entries(Extracted(cs, idx, f)) < Entries(cs)
  {
    var k :| 0 <= k < |cs| && f == Pick(cs, idx, k).frequency;
    ExtractedEntries(cs, idx, f, k);
  }

  /** An extraction with the least chosen frequency of live catalogues takes exactly f from every window. */
  lemma LeastExtractionMass(cs: Catalogues, idx: seq<int>, f: real)
    requires InBounds(cs, idx) && Live(cs) && LeastChosen(cs, idx, f)
    ensures f > 0.0
    ensures forall i :: 0 <= i < |cs| ==> Mass(Extracted(cs, idx, f)[i]) == Mass(cs[i]) - f
  {
    var k :| 0 <= k < |cs| && f == Pick(cs, idx, k).frequency;
    assert cs[k][idx[k]].frequency > 0.0;
    forall i | 0 <= i < |cs|
      ensures Mass(Extracted(cs, idx, f)[i]) == Mass(cs[i]) - f
    {
      ExtractedMass(cs, idx, f, i);
    }
  }

  /** The outcome of one search: u is the earliest consistent choice from g, with its pattern and least frequency. */
  ghost predicate Chosen(cs: Catalogues, g: int, u: seq<int>, snp: Pattern, f: real)
    requires 0 <= g < |cs|
  {
    && InBounds(cs, u) && Consistent(cs, u) && Earliest(cs, g, u)
    && snp == Chain(cs, u) && LeastChosen(cs, u, f)
  }

  /**
   * The body of globalVariantReconstructor on the catalogues: search from
   * guide g, then chain, least frequency, subtraction, removal and sorting.
   */
  method Extraction(cs: Catalogues, g: int) returns (found: bool, snp: Pattern, f: real, next: Catalogues, ghost idx: Option<seq<int>>)
    requires 0 <= g < |cs| && forall i :: 0 <= i < |cs| ==> |cs[i]| > 0
    ensures found == idx.Some?
    ensures !found <==> forall x :: InBounds(cs, x) ==> !Consistent(cs, x)
    ensures !found ==> next == cs
    ensures idx.Some? ==> Chosen(cs, g, idx.value, snp, f) && next == Extracted(cs, idx.value, f)
  {
    var r := SearchConsistent(cs, g);
    if r.None? {
      return false, [], -1.0, cs, None;
    }
    var u := r.value;
    snp := BuildChain(cs, u);
    f := MinChosen(cs, u, g);
    var spent := Subtract(cs, u, f);
    var cleaned := RemoveSpent(spent);
    next := SortAll(cleaned);
    ExtractedSteps(cs, u, f, spent, cleaned, next);
    found, idx := true, Some(u);
  }

  lemma ExtractedSteps(cs: Catalogues, u: seq<int>, f: real, spent: Catalogues, cleaned: Catalogues, next: Catalogues)
    requires InBounds(cs, u)
    requires |spent| == |cs| && forall i :: 0 <= i < |cs| ==> spent[i] == Spend(cs[i], u[i], f)
    requires |cleaned| == |spent| && forall i :: 0 <= i < |spent| ==> cleaned[i] == Positives(spent[i])
    requires |next| == |cleaned| && forall i :: 0 <= i < |cleaned| ==> next[i] == SortBy(cleaned[i], NegFrequency)
    ensures next == Extracted(cs, u, f)
  {
  }

  // ------------------------------------------------------------ one round of the reconstruction

  /** Window a with every entry that has no mate in next set to frequency 0. */
  function Marked(a: seq<LocalVariant>, next: seq<LocalVariant>): (b: seq<LocalVariant>)
    ensures |b| == |a|
  {
    seq(|a|, j requires 0 <= j < |a| => if HasMate(a[j], next) then a[j] else a[j].(frequency := 0.0))
  }

  /** The catalogues after the pruning pass and the removal of spent entries (lines 148-178). */
  function Pruned(cs: Catalogues): (r: Catalogues)
    ensures |r| == |cs|
  {
    seq(|cs|, i requires 0 <= i < |cs| => Positives(if i < |cs| - 1 then Marked(cs[i], cs[i + 1]) else cs[i]))
  }

  /** Every window sorted by non-increasing frequency (lines 189-190). */
  function SortedAll(cs: Catalogues): (r: Catalogues)
    ensures |r| == |cs|
  {
    seq(|cs|, i requires 0 <= i < |cs| => SortBy(cs[i], NegFrequency))
  }

  /** No entry has a negative frequency. */
  predicate NonNegative(cs: Catalogues)
  {
    forall i, j :: 0 <= i < |cs| && 0 <= j < |cs[i]| ==> cs[i][j].frequency >= 0.0
  }

  /**
   * After pruning, window i keeps exactly its live entries that have a mate
   * in window i+1 as it was before pruning; the last window keeps its live
   * entries.
   */
  lemma PrunedMembers(cs: Catalogues, i: int)
    requires 0 <= i < |cs|
    ensures i < |cs| - 1 ==> forall x :: x in Pruned(cs)[i] <==> x in cs[i] && x.frequency > 0.0 && HasMate(x, cs[i + 1])
    ensures i == |cs| - 1 ==> forall x :: x in Pruned(cs)[i] <==> x in cs[i] && x.frequency > 0.0
  {
    if i < |cs| - 1 {
      SurvivorsOfPruning(cs[i], cs[i + 1], Marked(cs[i], cs[i + 1]));
    } else {
      PositivesMembers(cs[i]);
    }
  }

  lemma PrunedWindow(cs: Catalogues, i: int)
    requires NonNegative(cs) && 0 <= i < |cs|
    ensures Mass(Pruned(cs)[i]) <= Mass(cs[i]) && |Pruned(cs)[i]| <= |cs[i]|
    ensures forall j :: 0 <= j < |Pruned(cs)[i]| ==> Pruned(cs)[i][j].frequency > 0.0
  {
    var b := if i < |cs| - 1 then Marked(cs[i], cs[i + 1]) else cs[i];
    assert Pruned(cs)[i] == Positives(b);
    assert forall j :: 0 <= j < |b| ==> b[j].frequency >= 0.0;
    MarkingMass(cs[i], b);
    PositivesMass(b);
    PositivesMembers(b);
    var r := Positives(b);
    forall j | 0 <= j < |r| ensures r[j].frequency > 0.0 {
      assert r[j] in r;
    }
  }

  /** Pruning leaves live windows and never raises a window's mass or the entry count. */
  lemma PrunedShrinks(cs: Catalogues)
    requires NonNegative(cs)
    ensures Live(Pruned(cs))
    ensures forall i :: 0 <= i < |cs| ==> Mass(Pruned(cs)[i]) <= Mass(cs[i])
    ensures Entries(Pruned(cs)) <= Entries(cs)
  {
    forall i | 0 <= i < |cs|
      ensures Mass(Pruned(cs)[i]) <= Mass(cs[i]) && |Pruned(cs)[i]| <= |cs[i]|
      ensures forall j :: 0 <= j < |Pruned(cs)[i]| ==> Pruned(cs)[i][j].frequency > 0.0
    {
      PrunedWindow(cs, i);
    }
    EntriesShrink(cs, Pruned(cs));
  }

  /** Sorting every window keeps each window's entries and mass. */
  lemma SortedAllKeeps(cs: Catalogues)
    ensures forall i :: 0 <= i < |cs| ==> multiset(SortedAll(cs)[i]) == multiset(cs[i]) && Mass(SortedAll(cs)[i]) == Mass(cs[i])
    ensures Live(cs) ==> Live(SortedAll(cs))
    ensures Entries(SortedAll(cs)) == Entries(cs)
  {
    var r := SortedAll(cs);
    forall i | 0 <= i < |cs|
      ensures multiset(r[i]) == multiset(cs[i]) && Mass(r[i]) == Mass(cs[i])
    {
      MassPermutation(r[i], cs[i]);
    }
    if Live(cs) {
      forall i, j | 0 <= i < |r| && 0 <= j < |r[i]|
        ensures r[i][j].frequency > 0.0
      {
        assert r[i][j] in multiset(cs[i]);
      }
    }
    EntriesShrink(cs, r);
    EntriesShrink(r, cs);
  }

  // ------------------------------------------------------------ window bounds

  /** The end of window i's left overlap: its own start for the first window, else the previous stop. */
  function Middle1(starts: seq<real>, stops: seq<real>, i: int): real
    requires 2 <= |starts| <= |stops| && 0 <= i < |starts|
  {
    if i == 0 then starts[0] else stops[i - 1]
  }

  /** The start of window i's right overlap: its own stop for the last window, else the next start. */
  function Middle2(starts: seq<real>, stops: seq<real>, i: int): real
    requires 2 <= |starts| <= |stops| && 0 <= i < |starts|
  {
    if i == |starts| - 1 then stops[i] else starts[i + 1]
  }

  /**
   * The right overlap [middle2, stop] of window i and the left overlap
   * [start, middle1] of window i+1 are one and the same interval
   * [starts[i+1], stops[i]].
   */
  lemma SharedOverlapRange(starts: seq<real>, stops: seq<real>, i: int)
    requires 2 <= |starts| <= |stops| && 0 <= i < |starts| - 1
    ensures Middle2(starts, stops, i) == starts[i + 1] && Middle1(starts, stops, i + 1) == stops[i]
  {
  }

  /** Entries of adjacent windows taken from the same read overlap. */
  lemma SameReadOverlaps(starts: seq<real>, stops: seq<real>, i: int, r: Read, a: LocalVariant, b: LocalVariant)
    requires 2 <= |starts| <= |stops| && 0 <= i < |starts| - 1
    requires FromRead(a, r, starts[i], Middle1(starts, stops, i), Middle2(starts, stops, i), stops[i])
    requires FromRead(b, r, starts[i + 1], Middle1(starts, stops, i + 1), Middle2(starts, stops, i + 1), stops[i + 1])
    ensures Overlaps(a, b)
  {
    SharedOverlapRange(starts, stops, i);
  }

  /** A choice whose every entry comes from one read is consistent. */
  lemma OneReadConsistent(starts: seq<real>, stops: seq<real>, cs: Catalogues, idx: seq<int>, r: Read)
    requires 2 <= |starts| <= |stops| && |cs| == |starts| && InBounds(cs, idx)
    requires forall i :: 0 <= i < |cs| ==> FromRead(Pick(cs, idx, i), r, starts[i], Middle1(starts, stops, i), Middle2(starts, stops, i), stops[i])
    ensures Consistent(cs, idx)
  {
    forall i | 0 <= i < |cs| - 1
      ensures PairOverlaps(cs, idx, i)
    {
      SameReadOverlaps(starts, stops, i, r, Pick(cs, idx, i), Pick(cs, idx, i + 1));
    }
  }

  /** Window i's catalogue a, with table h, was built from population p over the window's bounds. */
  ghost predicate WindowBuilt(p: seq<Read>, starts: seq<real>, stops: seq<real>, i: int,
                              o: seq<Pattern>, h: map<Pattern, LocalVariant>, a: seq<LocalVariant>)
    reads set r | r in p
    requires 2 <= |starts| <= |stops| && 0 <= i < |starts|
  {
    && o == Observed(p, starts[i], stops[i])
    && IsCatalogue(o, h, a)
    && TakenFrom(h, p, starts[i], Middle1(starts, stops, i), Middle2(starts, stops, i), stops[i])
  }

  lemma BuiltWindow(p: seq<Read>, starts: seq<real>, stops: seq<real>, i: int, middle1: real, middle2: real,
                    o: seq<Pattern>, h: map<Pattern, LocalVariant>, a: seq<LocalVariant>)
    requires 2 <= |starts| <= |stops| && 0 <= i < |starts|
    requires middle1 == Middle1(starts, stops, i) && middle2 == Middle2(starts, stops, i)
    requires o == Observed(p, starts[i], stops[i]) && IsCatalogue(o, h, a)
    requires TakenFrom(h, p, starts[i], middle1, middle2, stops[i])
    ensures WindowBuilt(p, starts, stops, i, o, h, a)
  {
  }

  /** The first |cs| windows hold the catalogues built from population p over their bounds. */
  ghost predicate Catalogued(p: seq<Read>, starts: seq<real>, stops: seq<real>,
                             obs: seq<seq<Pattern>>, tables: seq<map<Pattern, LocalVariant>>, cs: Catalogues)
    reads set r | r in p
  {
    && 2 <= |starts| <= |stops| && |obs| == |tables| == |cs| <= |starts|
    && forall i :: 0 <= i < |cs| ==> WindowBuilt(p, starts, stops, i, obs[i], tables[i], cs[i])
  }

  lemma CataloguedStep(p: seq<Read>, starts: seq<real>, stops: seq<real>,
                       obs: seq<seq<Pattern>>, tables: seq<map<Pattern, LocalVariant>>, cs: Catalogues,
                       o: seq<Pattern>, h: map<Pattern, LocalVariant>, a: seq<LocalVariant>)
    requires Catalogued(p, starts, stops, obs, tables, cs) && |cs| < |starts|
    requires WindowBuilt(p, starts, stops, |cs|, o, h, a)
    ensures Catalogued(p, starts, stops, obs + [o], tables + [h], cs + [a])
  {
    var i := |cs|;
    forall k | 0 <= k <= i
      ensures WindowBuilt(p, starts, stops, k, (obs + [o])[k], (tables + [h])[k], (cs + [a])[k])
    {
      if k < i {
        assert (obs + [o])[k] == obs[k] && (tables + [h])[k] == tables[k] && (cs + [a])[k] == cs[k];
      }
    }
  }

  /** The catalogue of window i (one LocalVariantSet construction of lines 30-51). */
  method BuildWindow(p: seq<Read>, starts: seq<real>, stops: seq<real>, i: int)
    returns (a: seq<LocalVariant>, ghost o: seq<Pattern>, ghost h: map<Pattern, LocalVariant>)
    requires 2 <= |starts| <= |stops| && 0 <= i < |starts|
    ensures WindowBuilt(p, starts, stops, i, o, h, a)
  {
    var n := |starts|;
    var middle1 := if i == 0 then starts[0] else stops[i - 1];
    var middle2 := if i == n - 1 then stops[n - 1] else starts[i + 1];
    o := Observed(p, starts[i], stops[i]);
    var h', a' := Build(p, starts[i], middle1, middle2, stops[i]);
    assert Observed(p, starts[i], stops[i]) == o;
    BuiltWindow(p, starts, stops, i, middle1, middle2, o, h', a');
    a, h := a', h';
  }

  /** The catalogue of every window, built in window order. */
  method BuildCatalogues(p: seq<Read>, starts: seq<real>, stops: seq<real>)
    returns (cs: Catalogues, ghost obs: seq<seq<Pattern>>, ghost tbs: seq<map<Pattern, LocalVariant>>)
    requires 2 <= |starts| <= |stops|
    ensures |cs| == |starts| && Catalogued(p, starts, stops, obs, tbs, cs)
  {
    cs, obs, tbs := [], [], [];
    while |cs| < |starts|
      invariant Catalogued(p, starts, stops, obs, tbs, cs)
    {
      ghost var before := Catalogued(p, starts, stops, obs, tbs, cs);
      var a, o, h := BuildWindow(p, starts, stops, |cs|);
      assert Catalogued(p, starts, stops, obs, tbs, cs) == before;
      CataloguedStep(p, starts, stops, obs, tbs, cs, o, h, a);
      cs, obs, tbs := cs + [a], obs + [o], tbs + [h];
    }
  }

  /** The pruning pass and the removal, as the methods compute them, give Pruned. */
  lemma PrunedIs(cs: Catalogues, marked: Catalogues, pruned: Catalogues)
    requires |marked| == |cs|
    requires forall i :: 0 <= i < |cs| - 1 ==> marked[i] == Marked(cs[i], cs[i + 1])
    requires |cs| > 0 ==> marked[|cs| - 1] == cs[|cs| - 1]
    requires |pruned| == |marked| && forall i :: 0 <= i < |marked| ==> pruned[i] == Positives(marked[i])
    ensures pruned == Pruned(cs)
  {
  }

  /**
   * Lines 148-190 of one round: pruning, removal of spent entries, the
   * smallest window size and the sorting of every window.  The size is 0
   * exactly when some window is left empty, which it is whenever a window
   * was empty before.
   */
  method PrepareRound(cs: Catalogues) returns (m: int, r: Catalogues)
    requires |cs| > 0 && NonNegative(cs)
    ensures r == SortedAll(Pruned(cs)) && Live(r) && |r| == |cs|
    ensures MassBelow(r, cs)
    ensures Entries(r) <= Entries(cs)
    ensures m == 0 <==> exists i :: 0 <= i < |r| && r[i] == []
    ensures m != 0 ==> forall i :: 0 <= i < |r| ==> |r[i]| > 0
    ensures (exists i :: 0 <= i < |cs| && cs[i] == []) ==> m == 0
  {
    var pruned := PruneAndRemove(cs);
    PrunedShrinks(cs);
    PrunedSizes(cs);
    assert MassBelow(pruned, cs);
    m := MultinomialSize(pruned);
    r := SortAll(pruned);
    SortedWindows(pruned, r);
    SmallestSize(cs, pruned, r, m);
    MassBelowSorted(cs, pruned, r);
    SortedEntries(cs, pruned);
  }

  /** Sorting keeps the number of entries. */
  lemma SortedEntries(cs: Catalogues, p: Catalogues)
    requires Entries(p) <= Entries(cs)
    ensures Entries(SortedAll(p)) <= Entries(cs)
  {
    SortedAllKeeps(p);
  }

  /** Lines 148-178: the pruning pass, then removeNonPositive on every window. */
  method PruneAndRemove(cs: Catalogues) returns (pruned: Catalogues)
    ensures pruned == Pruned(cs)
  {
    var marked := PruneWindows(cs);
    pruned := RemoveSpent(marked);
    PrunedIs(cs, marked, pruned);
  }

  /** Pruning never makes a window longer. */
  lemma PrunedSizes(cs: Catalogues)
    requires NonNegative(cs)
    ensures forall i :: 0 <= i < |cs| ==> |Pruned(cs)[i]| <= |cs[i]|
  {
    forall i | 0 <= i < |cs| ensures |Pruned(cs)[i]| <= |cs[i]| {
      PrunedWindow(cs, i);
    }
  }

  /** Sorting every window keeps each window's size and mass, and keeps live windows live. */
  lemma SortedWindows(p: Catalogues, r: Catalogues)
    requires |r| == |p| && forall i :: 0 <= i < |p| ==> r[i] == SortBy(p[i], NegFrequency)
    ensures r == SortedAll(p) && (Live(p) ==> Live(r))
    ensures forall i :: 0 <= i < |p| ==> |r[i]| == |p[i]| && Mass(r[i]) == Mass(p[i])
  {
    assert r == SortedAll(p);
    SortedAllKeeps(p);
    forall i | 0 <= i < |p| ensures |r[i]| == |p[i]| {
      assert |multiset(r[i])| == |multiset(p[i])|;
    }
  }

  /** With m the smallest size of p: m is 0 exactly when a window is empty, in particular when cs had an empty window. */
  lemma SmallestSize(cs: Catalogues, p: Catalogues, r: Catalogues, m: int)
    requires |r| == |p| == |cs| && forall i :: 0 <= i < |p| ==> |r[i]| == |p[i]| <= |cs[i]|
    requires (exists i :: 0 <= i < |p| && m == |p[i]|) && (forall i :: 0 <= i < |p| ==> m <= |p[i]|)
    ensures m == 0 <==> exists i :: 0 <= i < |r| && r[i] == []
    ensures m != 0 ==> forall i :: 0 <= i < |r| ==> |r[i]| > 0
    ensures (exists i :: 0 <= i < |cs| && cs[i] == []) ==> m == 0
  {
    if exists i :: 0 <= i < |cs| && cs[i] == [] {
      var i :| 0 <= i < |cs| && cs[i] == [];
      assert |p[i]| == 0;
    }
  }

  lemma MassBelowSorted(cs: Catalogues, p: Catalogues, r: Catalogues)
    requires MassBelow(p, cs) && |r| == |p| && forall i :: 0 <= i < |p| ==> Mass(r[i]) == Mass(p[i])
    ensures MassBelow(r, cs)
  {
  }

  /** No window of r holds more mass than the same window of cs. */
  ghost predicate MassBelow(r: Catalogues, cs: Catalogues)
  {
    |r| == |cs| && forall i :: 0 <= i < |cs| ==> Mass(r[i]) <= Mass(cs[i])
  }

  /** The haplotype frequencies taken so far fit within what every window has lost since the start. */
  ghost predicate Budget(freqs: seq<real>, cs: Catalogues, start: Catalogues)
  {
    |cs| == |start| && forall i :: 0 <= i < |cs| ==> Sum(freqs) + Mass(cs[i]) <= Mass(start[i])
  }

  lemma BudgetStart(cs: Catalogues)
    ensures Budget([], cs, cs)
  {
    assert Sum([]) == 0.0;
  }

  lemma BudgetLowered(freqs: seq<real>, cs: Catalogues, r: Catalogues, start: Catalogues)
    requires Budget(freqs, cs, start)
    requires MassBelow(r, cs)
    ensures Budget(freqs, r, start)
  {
  }

  /** A step of progress moves its frequency f from every window into the budget. */
  lemma BudgetExtracted(freqs: seq<real>, cs: Catalogues, r: Catalogues, f: real, start: Catalogues)
    requires Budget(freqs, cs, start) && Extracts(cs, r, f)
    ensures Budget(freqs + [f], r, start) && Budget(freqs, r, start)
  {
    SumAppend(freqs, f);
  }

  /** From cs to r a positive frequency f was taken from every window and at least one entry went. */
  ghost predicate Extracts(cs: Catalogues, r: Catalogues, f: real)
  {
    && f > 0.0 && Entries(r) < Entries(cs) && |r| == |cs|
    && forall i :: 0 <= i < |r| ==> Mass(r[i]) + f <= Mass(cs[i])
  }

  /** An extraction of the least chosen frequency from live catalogues is a step of progress. */
  lemma ExtractionProgress(cs: Catalogues, idx: seq<int>, f: real)
    requires InBounds(cs, idx) && Live(cs) && LeastChosen(cs, idx, f)
    ensures Extracts(cs, Extracted(cs, idx, f), f) && NonNegative(Extracted(cs, idx, f))
  {
    var r := Extracted(cs, idx, f);
    LeastExtractionMass(cs, idx, f);
    LeastExtractionShrinks(cs, idx, f);
    ExtractedLive(cs, idx, f);
    forall i | 0 <= i < |r| ensures Mass(r[i]) + f <= Mass(cs[i]) {
      assert Mass(r[i]) == Mass(cs[i]) - f;
    }
    forall i, j | 0 <= i < |r| && 0 <= j < |r[i]| ensures r[i][j].frequency >= 0.0 {
      assert r[i][j].frequency > 0.0;
    }
  }

  /** The haplotypes found so far, with their frequencies: all positive. */
  ghost predicate Kept(hs: seq<GlobalVariant>, freqs: seq<real>)
    reads hs
  {
    |hs| == |freqs| && forall i :: 0 <= i < |hs| ==> hs[i].frequency == freqs[i] > 0.0
  }

  /** The reference range [start, stop] of a partition can be read off the genome (or is empty). */
  predicate InGenome(refGenome: string, start: real, stop: real)
  {
    Trunc(stop) <= Trunc(start - 1.0) || (0 <= Trunc(start - 1.0) && Trunc(stop) <= |refGenome|)
  }

  /**
   * Lines 191-207 after a successful preparation: the guide from the draw
   * and the guide scores, one extraction (the body of
   * globalVariantReconstructor), and the size check.  It stops when no
   * choice is consistent or when the extraction empties a window;
   * otherwise it hands on the earliest consistent choice from the guide,
   * its pattern and least frequency, and the catalogues with that
   * frequency spent.
   */
  method NextHaplotype(cs: Catalogues, draw: real, chiProb: (Catalogues, int) -> real)
    returns (stop: bool, g: int, snp: Pattern, f: real, next: Catalogues, ghost idx: seq<int>)
    requires Live(cs) && |cs| > 0 && forall i :: 0 <= i < |cs| ==> |cs[i]| > 0
    requires 0.0 <= draw < 1.0
    ensures 0 <= g < |cs| && NonNegative(next)
    ensures stop ==> next == cs || Extracts(cs, next, f)
    ensures stop ==> (exists i :: 0 <= i < |next| && next[i] == []) || forall x :: InBounds(next, x) ==> !Consistent(next, x)
    ensures !stop ==> Chosen(cs, g, idx, snp, f) && next == Extracted(cs, idx, f) && Extracts(cs, next, f)
    ensures !stop ==> forall i :: 0 <= i < |next| ==> next[i] != []
  {
    var scores := seq(|cs|, i requires 0 <= i < |cs| => chiProb(cs, i));
    g := GuideDistribution(draw, scores);
    var found;
    ghost var chosen;
    found, snp, f, next, chosen := Extraction(cs, g);
    if !found {
      assert forall x :: InBounds(next, x) ==> !Consistent(next, x);
      return true, g, snp, f, next, [];
    }
    idx := chosen.value;
    assert Chosen(cs, g, idx, snp, f) && next == Extracted(cs, idx, f);
    ExtractionProgress(cs, idx, f);
    assert Extracts(cs, next, f) && NonNegative(next);
    var m := MultinomialSize(next);
    stop := m == 0;
    if stop {
      var i :| 0 <= i < |next| && m == |next[i]|;
      assert next[i] == [];
    }
  }

  /**
   * One pass of the loop of quasispeciesReconstructor (lines 146-207) on
   * the catalogues: preparation, then the guide and one extraction.  It
   * stops when a window is empty after pruning, when no choice is
   * consistent, or when the extraction empties a window; otherwise the
   * extraction took its positive frequency f from every window.  Every
   * window loses mass either way.
   */
  method RoundStep(cs: Catalogues, draw: real, chiProb: (Catalogues, int) -> real)
    returns (stop: bool, snp: Pattern, f: real, next: Catalogues)
    requires |cs| > 0 && NonNegative(cs) && 0.0 <= draw < 1.0
    ensures |next| == |cs| && NonNegative(next)
    ensures stop ==> MassBelow(next, cs)
    ensures stop ==> (exists i :: 0 <= i < |next| && next[i] == []) || forall x :: InBounds(next, x) ==> !Consistent(next, x)
    ensures (exists i :: 0 <= i < |cs| && cs[i] == []) ==> stop
    ensures !stop ==> Extracts(cs, next, f)
    ensures !stop ==> Round(cs, snp, f, next)
  {
    var m, sorted := PrepareRound(cs);
    if m == 0 {
      return true, [], -1.0, sorted;
    }
    var g;
    ghost var idx;
    stop, g, snp, f, next, idx := NextHaplotype(sorted, draw, chiProb);
    if stop {
      StoppedMass(cs, sorted, next, f);
    } else {
      ExtractsAfter(cs, sorted, next, f);
    }
  }

  /**
   * One successful round from catalogues cs: after pruning, removal and
   * sorting, snp is the chain of the earliest consistent choice from some
   * guide, f its least frequency, and next the catalogues with f spent.
   */
  ghost predicate Round(cs: Catalogues, snp: Pattern, f: real, next: Catalogues)
  {
    Found(SortedAll(Pruned(cs)), snp, f, next)
  }

  /** Searched from some guide, r gives the earliest consistent choice, with pattern snp, least frequency f and remainder next. */
  ghost predicate Found(r: Catalogues, snp: Pattern, f: real, next: Catalogues)
  {
    exists g, idx :: 0 <= g < |r| && Chosen(r, g, idx, snp, f) && next == Extracted(r, idx, f)
  }

  /** A step relation between catalogues: from cs, a round finds snp at frequency f and leaves next. */
  type Step = (Catalogues, Pattern, real, Catalogues) -> bool

  /**
   * trace[k] are the catalogues at the start of round k, and round k found
   * snps[k] at frequency freqs[k] and left trace[k + 1].
   */
  ghost predicate Steps(step: Step, trace: seq<Catalogues>, snps: seq<Pattern>, freqs: seq<real>)
  {
    && |trace| == |snps| + 1 && |freqs| == |snps|
    && forall k :: 0 <= k < |snps| ==> step(trace[k], snps[k], freqs[k], trace[k + 1])
  }

  /** The rounds of the reconstruction loop, each of them a Round. */
  ghost predicate Rounds(trace: seq<Catalogues>, snps: seq<Pattern>, freqs: seq<real>)
  {
    Steps(Round, trace, snps, freqs)
  }

  lemma StepsAppend(step: Step, trace: seq<Catalogues>, snps: seq<Pattern>, freqs: seq<real>, snp: Pattern, f: real, next: Catalogues)
    requires Steps(step, trace, snps, freqs) && step(trace[|trace| - 1], snp, f, next)
    ensures Steps(step, trace + [next], snps + [snp], freqs + [f])
  {
    var n := |snps|;
    forall k | 0 <= k <= n
      ensures step((trace + [next])[k], (snps + [snp])[k], (freqs + [f])[k], (trace + [next])[k + 1])
    {
      if k < n {
        assert (trace + [next])[k] == trace[k] && (trace + [next])[k + 1] == trace[k + 1];
        assert (snps + [snp])[k] == snps[k] && (freqs + [f])[k] == freqs[k];
      }
    }
  }

  lemma RoundsAppend(trace: seq<Catalogues>, snps: seq<Pattern>, freqs: seq<real>, snp: Pattern, f: real, next: Catalogues)
    requires Rounds(trace, snps, freqs) && Round(trace[|trace| - 1], snp, f, next)
    ensures Rounds(trace + [next], snps + [snp], freqs + [f])
  {
    StepsAppend(Round, trace, snps, freqs, snp, f, next);
  }

  lemma StoppedMass(cs: Catalogues, sorted: Catalogues, next: Catalogues, f: real)
    requires MassBelow(sorted, cs) && (next == sorted || Extracts(sorted, next, f))
    ensures MassBelow(next, cs)
  {
  }

  lemma ExtractsAfter(cs: Catalogues, sorted: Catalogues, next: Catalogues, f: real)
    requires MassBelow(sorted, cs) && Entries(sorted) <= Entries(cs) && Extracts(sorted, next, f)
    ensures Extracts(cs, next, f)
  {
  }

  /**
   * Lines 209-214: a new haplotype gv with pattern snp and frequency f, its
   * sequence read off the reference over [start, stop]; appended to hs it
   * keeps the haplotypes distinct and in step with their ghost records.
   */
  method Record(hs: seq<GlobalVariant>, ghost fs: seq<real>, ghost snps: seq<Pattern>, ghost seqs: seq<string>,
                snp: Pattern, f: real, refGenome: string, start: real, stop: real)
    returns (gv: GlobalVariant)
    requires InGenome(refGenome, start, stop)
    requires Haplotypes(hs, fs, snps, seqs) && f > 0.0
    ensures fresh(gv) && gv.snp == snp && gv.frequency == f && SpelledAs(refGenome, start, stop, snp, gv.sequence)
    ensures Haplotypes(hs + [gv], fs + [f], snps + [snp], seqs + [gv.sequence])
  {
    gv := new GlobalVariant();
    gv.snp, gv.frequency := snp, f;
    ghost var keys := gv.SetSequence(refGenome, start, stop);
  }

  /** The haplotypes hs carry the patterns snps and the sequences seqs. */
  ghost predicate Recorded(hs: seq<GlobalVariant>, snps: seq<Pattern>, seqs: seq<string>)
    reads hs
  {
    |hs| == |snps| == |seqs| && forall k :: 0 <= k < |hs| ==> hs[k].snp == snps[k] && hs[k].sequence == seqs[k]
  }

  /** Each seqs[k] is the reference over [start, stop] with the events of snps[k] written in, gaps removed. */
  ghost predicate Spelled(refGenome: string, start: real, stop: real, snps: seq<Pattern>, seqs: seq<string>)
    requires InGenome(refGenome, start, stop)
  {
    |snps| == |seqs| && forall k :: 0 <= k < |snps| ==> SpelledAs(refGenome, start, stop, snps[k], seqs[k])
  }

  /** q is the sequence of haplotype snp over [start, stop], as setSequence computes it. */
  ghost predicate SpelledAs(refGenome: string, start: real, stop: real, snp: Pattern, q: string)
    requires InGenome(refGenome, start, stop)
  {
    exists keys :: Sequenced(refGenome, start, stop, snp, keys, q)
  }

  lemma SpelledAppend(refGenome: string, start: real, stop: real, snps: seq<Pattern>, seqs: seq<string>, snp: Pattern, q: string)
    requires InGenome(refGenome, start, stop)
    requires Spelled(refGenome, start, stop, snps, seqs) && SpelledAs(refGenome, start, stop, snp, q)
    ensures Spelled(refGenome, start, stop, snps + [snp], seqs + [q])
  {
    var n := |snps|;
    forall k | 0 <= k <= n
      ensures SpelledAs(refGenome, start, stop, (snps + [snp])[k], (seqs + [q])[k])
    {
      if k < n {
        assert (snps + [snp])[k] == snps[k] && (seqs + [q])[k] == seqs[k];
      }
    }
  }

  /** No haplotype object is listed twice. */
  ghost predicate Distinct(hs: seq<GlobalVariant>)
  {
    forall j, k :: 0 <= j < k < |hs| ==> hs[j] != hs[k]
  }

  /** The haplotype objects hs, all distinct, carry the frequencies freqs, the patterns snps and the sequences seqs. */
  ghost predicate Haplotypes(hs: seq<GlobalVariant>, freqs: seq<real>, snps: seq<Pattern>, seqs: seq<string>)
    reads hs
  {
    Kept(hs, freqs) && Recorded(hs, snps, seqs) && Distinct(hs)
  }

  /**
   * What a reconstruction from cs found: round k took trace[k] to
   * trace[k + 1] and found snps[k] at frequency freqs[k], whose sequence
   * over [start, stop] is seqs[k]; the final round left last, no heavier
   * than trace's end, with a window empty or no choice consistent; the
   * frequencies fit within every window's loss; and an empty window at the
   * start gives no haplotype.
   */
  ghost predicate Reconstructed(cs: Catalogues, refGenome: string, start: real, stop: real, freqs: seq<real>,
                                snps: seq<Pattern>, seqs: seq<string>, trace: seq<Catalogues>, last: Catalogues)
    requires InGenome(refGenome, start, stop)
  {
    && |last| == |cs| && NonNegative(last)
    && Spelled(refGenome, start, stop, snps, seqs)
    && Rounds(trace, snps, freqs) && trace[0] == cs && MassBelow(last, trace[|trace| - 1])
    && Budget(freqs, last, cs)
    && ((exists i :: 0 <= i < |last| && last[i] == []) || forall x :: InBounds(last, x) ==> !Consistent(last, x))
    && ((exists i :: 0 <= i < |cs| && cs[i] == []) ==> snps == [])
  }

  /**
   * The loop of quasispeciesReconstructor (lines 146-217) from catalogues
   * cs: prune, stop as soon as a window is empty, sort, choose the guide
   * window, extract one haplotype; the haplotype is kept (with its sequence
   * read off the reference over [start, stop]) only when no window has run
   * empty after its extraction.  The guide's random start is draw(k) in
   * round k and the per-window guide scores (the chi-square sums) are
   * supplied as chiProb.  Haplotype k is a fresh object with the pattern
   * snps[k] and frequency freqs[k] that round k found from trace[k], and
   * with the sequence seqs[k] of that pattern; together the haplotypes take
   * no more than any window's starting mass, and the loop ends with the
   * catalogues last, where a window is empty or no choice is consistent.
   */
  method Reconstruct(cs: Catalogues, refGenome: string, start: real, stop: real,
                     draw: nat -> real, chiProb: (Catalogues, int) -> real)
    returns (haplotypes: seq<GlobalVariant>, ghost freqs: seq<real>, ghost snps: seq<Pattern>, ghost seqs: seq<string>,
             ghost trace: seq<Catalogues>, last: Catalogues)
    requires |cs| > 0 && NonNegative(cs)
    requires forall k :: 0.0 <= draw(k) < 1.0
    requires InGenome(refGenome, start, stop)
    ensures Haplotypes(haplotypes, freqs, snps, seqs)
    ensures forall h :: h in haplotypes ==> fresh(h)
    ensures Reconstructed(cs, refGenome, start, stop, freqs, snps, seqs, trace, last)
  {
    haplotypes, freqs, snps, seqs, trace := [], [], [], [], [cs];
    var cur := cs;
    BudgetStart(cur);
    while true
      invariant Haplotypes(haplotypes, freqs, snps, seqs)
      invariant forall k :: 0 <= k < |haplotypes| ==> fresh(haplotypes[k])
      invariant Partial(cs, refGenome, start, stop, freqs, snps, seqs, trace, cur)
      decreases Entries(cur)
    {
      ghost var kept := Haplotypes(haplotypes, freqs, snps, seqs);
      var done, snp, f, next := RoundStep(cur, draw(|haplotypes|), chiProb);
      assert Haplotypes(haplotypes, freqs, snps, seqs) == kept;
      if done {
        Finished(cs, refGenome, start, stop, freqs, snps, seqs, trace, cur, next);
        forall h | h in haplotypes ensures fresh(h) {
          var k :| 0 <= k < |haplotypes| && haplotypes[k] == h;
        }
        return haplotypes, freqs, snps, seqs, trace, next;
      }
      assert forall i :: 0 <= i < |cur| ==> cur[i] != [];
      var gv := Record(haplotypes, freqs, snps, seqs, snp, f, refGenome, start, stop);
      forall k | 0 <= k <= |haplotypes| ensures fresh((haplotypes + [gv])[k]) {
        if k < |haplotypes| {
          assert (haplotypes + [gv])[k] == haplotypes[k];
        }
      }
      Continued(cs, refGenome, start, stop, freqs, snps, seqs, trace, cur, snp, f, gv.sequence, next);
      haplotypes, freqs, snps, seqs := haplotypes + [gv], freqs + [f], snps + [snp], seqs + [gv.sequence];
      trace := trace + [next];
      cur := next;
    }
  }

  /**
   * The loop invariant of Reconstruct: the rounds so far took cs to cur,
   * every round's haplotype has its sequence, the frequencies fit within
   * every window's loss, and a round was only recorded when no window of cs
   * was empty.
   */
  ghost predicate Partial(cs: Catalogues, refGenome: string, start: real, stop: real, freqs: seq<real>,
                          snps: seq<Pattern>, seqs: seq<string>, trace: seq<Catalogues>, cur: Catalogues)
    requires InGenome(refGenome, start, stop)
  {
    && |cur| == |cs| && NonNegative(cur)
    && Spelled(refGenome, start, stop, snps, seqs)
    && Rounds(trace, snps, freqs) && trace[0] == cs && trace[|trace| - 1] == cur
    && Budget(freqs, cur, cs)
    && (snps == [] ==> cur == cs)
    && (snps != [] ==> forall i :: 0 <= i < |cs| ==> cs[i] != [])
  }

  /** A recorded round keeps the invariant. */
  lemma Continued(cs: Catalogues, refGenome: string, start: real, stop: real, freqs: seq<real>,
                  snps: seq<Pattern>, seqs: seq<string>, trace: seq<Catalogues>, cur: Catalogues,
                  snp: Pattern, f: real, q: string, next: Catalogues)
    requires InGenome(refGenome, start, stop)
    requires Partial(cs, refGenome, start, stop, freqs, snps, seqs, trace, cur)
    requires forall i :: 0 <= i < |cur| ==> cur[i] != []
    requires Extracts(cur, next, f) && Round(cur, snp, f, next) && NonNegative(next) && SpelledAs(refGenome, start, stop, snp, q)
    ensures Partial(cs, refGenome, start, stop, freqs + [f], snps + [snp], seqs + [q], trace + [next], next)
  {
    BudgetExtracted(freqs, cur, next, f, cs);
    RoundsAppend(trace, snps, freqs, snp, f, next);
    SpelledAppend(refGenome, start, stop, snps, seqs, snp, q);
  }

  /** A stopping round ends the reconstruction with its outcome. */
  lemma Finished(cs: Catalogues, refGenome: string, start: real, stop: real, freqs: seq<real>,
                 snps: seq<Pattern>, seqs: seq<string>, trace: seq<Catalogues>, cur: Catalogues, next: Catalogues)
    requires InGenome(refGenome, start, stop)
    requires Partial(cs, refGenome, start, stop, freqs, snps, seqs, trace, cur)
    requires |next| == |cur| && NonNegative(next) && MassBelow(next, cur)
    requires (exists i :: 0 <= i < |next| && next[i] == []) || forall x :: InBounds(next, x) ==> !Consistent(next, x)
    ensures Reconstructed(cs, refGenome, start, stop, freqs, snps, seqs, trace, next)
  {
    BudgetLowered(freqs, cur, next, cs);
  }

  /**
   * Freshly built catalogues have no negative frequency, and each non-empty
   * window's frequencies are percentages summing to 100.
   */
  lemma CataloguedMass(p: seq<Read>, starts: seq<real>, stops: seq<real>,
                       obs: seq<seq<Pattern>>, tables: seq<map<Pattern, LocalVariant>>, cs: Catalogues)
    requires Catalogued(p, starts, stops, obs, tables, cs)
    ensures NonNegative(cs)
    ensures forall i :: 0 <= i < |cs| && cs[i] != [] ==> Mass(cs[i]) == 100.0
  {
    forall i | 0 <= i < |cs|
      ensures forall j :: 0 <= j < |cs[i]| ==> cs[i][j].frequency >= 0.0
      ensures cs[i] != [] ==> Mass(cs[i]) == 100.0
    {
      assert WindowBuilt(p, starts, stops, i, obs[i], tables[i], cs[i]);
      CatalogueFrequencyRange(obs[i], tables[i], cs[i]);
      MassIsSum(cs[i]);
      if cs[i] != [] {
        CatalogueMass(obs[i], tables[i], cs[i]);
      }
    }
  }

  /** Reconstructed from freshly built catalogues, the haplotype frequencies add up to at most 100 percent. */
  lemma ReconstructedWithinHundred(p: seq<Read>, starts: seq<real>, stops: seq<real>,
                                   obs: seq<seq<Pattern>>, tables: seq<map<Pattern, LocalVariant>>, cs: Catalogues,
                                   refGenome: string, start: real, stop: real, freqs: seq<real>, snps: seq<Pattern>,
                                   seqs: seq<string>, trace: seq<Catalogues>, last: Catalogues)
    requires Catalogued(p, starts, stops, obs, tables, cs) && InGenome(refGenome, start, stop)
    requires Reconstructed(cs, refGenome, start, stop, freqs, snps, seqs, trace, last)
    ensures Sum(freqs) <= 100.0
  {
    if snps == [] {
      assert freqs == [];
    } else {
      assert Round(trace[0], snps[0], freqs[0], trace[1]);
      assert |cs| > 0;
      CataloguedMass(p, starts, stops, obs, tables, cs);
      MassNonNegative(last[0]);
    }
  }

  // ------------------------------------------------------------ the ensemble

  class Ensemble {
    /** The entry list lvsA of every window's catalogue, in window order. */
    var cats: Catalogues
    const starts: seq<real>
    const stops: seq<real>
    const overl1: seq<real>
    const overl2: seq<real>
    /** The window patterns and the tables lvsH the catalogues were built from. */
    ghost const observed: seq<seq<Pattern>>
    ghost const tables: seq<map<Pattern, LocalVariant>>

    /** The shape every ensemble keeps: one catalogue per window, at least two windows. */
    ghost predicate Valid()
      reads this
    {
      && 2 <= |starts| && |stops| == |overl1| == |overl2| == |cats| == |starts|
      && forall i :: 0 <= i < |starts| ==> overl1[i] == Middle1(starts, stops, i) && overl2[i] == Middle2(starts, stops, i)
    }

    /**
     * The ensemble of the windows given by aStarts and aStops: window i has
     * bounds [aStarts[i], aStops[i]], a left overlap ending where the
     * previous window stops and a right overlap starting where the next one
     * starts.
     */
    constructor (p: seq<Read>, aStarts: seq<real>, aStops: seq<real>)
      requires 2 <= |aStarts| <= |aStops|
      ensures Valid() && starts == aStarts && stops == aStops[..|aStarts|]
      ensures Catalogued(p, starts, stops, observed, tables, cats)
    {
      var n := |aStarts|;
      var sts := aStops[..n];
      var cs, obs, tbs := BuildCatalogues(p, aStarts, sts);
      cats, starts, stops, observed, tables := cs, aStarts, sts, obs, tbs;
      overl1 := seq(n, k requires 0 <= k < n => Middle1(aStarts, sts, k));
      overl2 := seq(n, k requires 0 <= k < n => Middle2(aStarts, sts, k));
    }

    /**
     * globalVariantReconstructor(g): the earliest consistent choice from
     * guide g, its global pattern and least frequency, and the catalogues
     * with that frequency spent.  When no choice is consistent the default
     * object comes back, with frequency -1, and nothing changes.
     */
    method GlobalVariantReconstructor(g: int) returns (gv: GlobalVariant, ghost idx: Option<seq<int>>)
      requires Valid() && 0 <= g < |cats| && forall i :: 0 <= i < |cats| ==> |cats[i]| > 0
      modifies this`cats
      ensures Valid() && fresh(gv) && gv.sequence == [] && gv.stdevFreq == -1.0
      ensures idx.None? <==> forall x :: InBounds(old(cats), x) ==> !Consistent(old(cats), x)
      ensures idx.None? ==> gv.snp == [] && gv.frequency == -1.0 && cats == old(cats)
      ensures idx.Some? ==> Chosen(old(cats), g, idx.value, gv.snp, gv.frequency)
      ensures idx.Some? ==> cats == Extracted(old(cats), idx.value, gv.frequency)
    {
      var found, snp, f, next;
      found, snp, f, next, idx := Extraction(cats, g);
      gv := new GlobalVariant();
      if found {
        cats := next;
        gv.snp, gv.frequency := snp, f;
      }
    }

    /**
     * quasispeciesReconstructor: the reconstruction loop over the
     * ensemble's catalogues, over the whole partition
     * [starts[0], stops[|stops| - 1]].
     */
    method QuasispeciesReconstructor(refGenome: string, draw: nat -> real, chiProb: (Catalogues, int) -> real)
      returns (haplotypes: seq<GlobalVariant>, ghost freqs: seq<real>, ghost snps: seq<Pattern>, ghost seqs: seq<string>,
               ghost trace: seq<Catalogues>)
      requires Valid() && NonNegative(cats)
      requires forall k :: 0.0 <= draw(k) < 1.0
      requires InGenome(refGenome, starts[0], stops[|stops| - 1])
      modifies this`cats
      ensures Valid()
      ensures Haplotypes(haplotypes, freqs, snps, seqs)
      ensures forall h :: h in haplotypes ==> fresh(h)
      ensures Reconstructed(old(cats), refGenome, starts[0], stops[|stops| - 1], freqs, snps, seqs, trace, cats)
    {
      var last;
      haplotypes, freqs, snps, seqs, trace, last := Reconstruct(cats, refGenome, starts[0], stops[|stops| - 1], draw, chiProb);
      ghost var kept := Haplotypes(haplotypes, freqs, snps, seqs);
      ghost var c0 := cats;
      cats := last;
      assert Haplotypes(haplotypes, freqs, snps, seqs) == kept;
      assert Reconstructed(c0, refGenome, starts[0], stops[|stops| - 1], freqs, snps, seqs, trace, last);
    }
  }
}
