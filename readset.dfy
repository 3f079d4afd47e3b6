/**
 * The read population and the reference genome (class ReadSet): the
 * in-place population filters, the p-value adjustment, the k-mer dictionary
 * of the reference, FASTA parsing over the lines of a file, the per-position
 * tallies behind estimateBaseSet, and the sliding-window sweep with the
 * selection of the best window layout in estimateAmpliconsParallel.
 */
module ReadSets {
  import opened Common
  import opened Sorting
  import opened Snp
  import opened Patterns
  import opened Bases
  import opened Reads
  import opened Amplicons
  import opened BaseSets
  import opened AmpliconSearch

  // ---------------------------------------------------------------------
  // Population filters
  // ---------------------------------------------------------------------

  /** The reads whose adjusted p-value is at most alpha, in population order. */
  function Significant(p: seq<Read>, alpha: real): (r: seq<Read>)
    reads p
    ensures |r| <= |p|
  {
    if p == [] then []
    else
      var r := Significant(p[..|p| - 1], alpha);
      if p[|p| - 1].adjustedPvalue <= alpha then r + [p[|p| - 1]] else r
  }

  /** The filter over one more read. */
  lemma SignificantStep(pop: seq<Read>, j: nat, alpha: real)
    requires j < |pop|
    ensures Significant(pop[..j + 1], alpha)
      == if pop[j].adjustedPvalue <= alpha then Significant(pop[..j], alpha) + [pop[j]] else Significant(pop[..j], alpha)
  {
    assert pop[..j + 1][..j] == pop[..j];
  }

  /**
   * The loop of removeBadReads: walk the reads, removing in place each one
   * whose adjusted p-value exceeds alpha.
   */
  method FilterSignificant(population: seq<Read>, alpha: real) returns (p: seq<Read>)
    ensures p == Significant(population, alpha)
  {
    p := population;
    var i := 0;
    ghost var removed := 0;
    while i < |p|
      invariant i <= |p| && i + removed <= |population|
      invariant p[..i] == Significant(population[..i + removed], alpha)
      invariant p[i..] == population[i + removed..]
      decreases |p| - i
    {
      ghost var j := i + removed;
      SuffixStep(p, population, i, j);
      SignificantStep(population, j, alpha);
      if p[i].adjustedPvalue > alpha {
        RemoveAt(p, i);
        p := p[..i] + p[i + 1..];
        removed := removed + 1;
      } else {
        KeepAt(p, i);
        i := i + 1;
      }
    }
    assert |population[i + removed..]| == 0;
    assert population[..i + removed] == population && p[..i] == p;
  }

  /** A read that ends before the window or starts after it. */
  predicate OutsideWindow(x: Read, alignStart: real, alignStop: real)
    reads x
  {
    x.stop < alignStart || x.start > alignStop
  }

  /** The reads that reach into [alignStart, alignStop], in population order. */
  function Aligned(p: seq<Read>, alignStart: real, alignStop: real): (r: seq<Read>)
    reads p
    ensures |r| <= |p|
  {
    if p == [] then []
    else
      var r := Aligned(p[..|p| - 1], alignStart, alignStop);
      var x := p[|p| - 1];
      if OutsideWindow(x, alignStart, alignStop) then r else r + [x]
  }

  /** The filter over one more read. */
  lemma AlignedStep(pop: seq<Read>, j: nat, alignStart: real, alignStop: real)
    requires j < |pop|
    ensures Aligned(pop[..j + 1], alignStart, alignStop)
      == if OutsideWindow(pop[j], alignStart, alignStop) then Aligned(pop[..j], alignStart, alignStop)
         else Aligned(pop[..j], alignStart, alignStop) + [pop[j]]
  {
    assert pop[..j + 1][..j] == pop[..j];
  }

  /**
   * The loop of updatePopulationStats: walk the reads, removing in place
   * each one outside the window alignStart..alignStop.
   */
  method FilterAligned(population: seq<Read>, alignStart: real, alignStop: real) returns (p: seq<Read>)
    ensures p == Aligned(population, alignStart, alignStop)
  {
    p := population;
    var u := 0;
    ghost var gone := 0;
    while u < |p|
      invariant u <= |p| && u + gone <= |population|
      invariant p[..u] == Aligned(population[..u + gone], alignStart, alignStop)
      invariant p[u..] == population[u + gone..]
      decreases |p| - u
    {
      ghost var j := u + gone;
      SuffixStep(p, population, u, j);
      AlignedStep(population, j, alignStart, alignStop);
      if OutsideWindow(p[u], alignStart, alignStop) {
        RemoveAt(p, u);
        p := p[..u] + p[u + 1..];
        gone := gone + 1;
      } else {
        KeepAt(p, u);
        u := u + 1;
      }
    }
    assert |population[u + gone..]| == 0;
    assert population[..u + gone] == population && p[..u] == p;
  }

  /** Significant keeps exactly the reads with adjustedPvalue <= alpha. */
  lemma {:induction false} SignificantExact(p: seq<Read>, alpha: real)
    ensures forall x :: x in Significant(p, alpha) <==> x in p && x.adjustedPvalue <= alpha
  {
    if p != [] {
      SignificantExact(p[..|p| - 1], alpha);
      assert p == p[..|p| - 1] + [p[|p| - 1]];
    }
  }

  /** Significant works block by block, so the retained reads keep their order. */
  lemma {:induction false} SignificantConcat(p: seq<Read>, q: seq<Read>, alpha: real)
    ensures Significant(p + q, alpha) == Significant(p, alpha) + Significant(q, alpha)
  {
    if q != [] {
      SignificantConcat(p, q[..|q| - 1], alpha);
      assert (p + q)[..|p + q| - 1] == p + q[..|q| - 1];
    } else {
      assert p + q == p;
    }
  }

  /** Aligned drops exactly the reads ending before alignStart or starting after alignStop. */
  lemma {:induction false} AlignedExact(p: seq<Read>, alignStart: real, alignStop: real)
    ensures forall x :: x in Aligned(p, alignStart, alignStop) <==>
      x in p && !(x.stop < alignStart || x.start > alignStop)
  {
    if p != [] {
      AlignedExact(p[..|p| - 1], alignStart, alignStop);
      assert p == p[..|p| - 1] + [p[|p| - 1]];
    }
  }

  /** Aligned works block by block, so the retained reads keep their order. */
  lemma {:induction false} AlignedConcat(p: seq<Read>, q: seq<Read>, alignStart: real, alignStop: real)
    ensures Aligned(p + q, alignStart, alignStop) == Aligned(p, alignStart, alignStop) + Aligned(q, alignStart, alignStop)
  {
    if q != [] {
      AlignedConcat(p, q[..|q| - 1], alignStart, alignStop);
      assert (p + q)[..|p + q| - 1] == p + q[..|q| - 1];
    } else {
      assert p + q == p;
    }
  }

  /** The post-alignment length of each read: insertions plus span. */
  function ReadLengths(p: seq<Read>): (rl: seq<real>)
    reads p
    ensures |rl| == |p|
  {
    seq(|p|, i reads p requires 0 <= i < |p| => p[i].insertions as real + p[i].stop - p[i].start)
  }

  /** The loop of updatePopulationStats that fills readLengths. */
  method Lengths(p: seq<Read>) returns (readLengths: seq<real>)
    ensures readLengths == ReadLengths(p)
  {
    readLengths := [];
    for i := 0 to |p|
      invariant |readLengths| == i
      invariant forall j :: 0 <= j < i ==> readLengths[j] == p[j].insertions as real + p[j].stop - p[j].start
    {
      readLengths := readLengths + [p[i].insertions as real + p[i].stop - p[i].start];
    }
  }

  /** The (p-value, read) pairs of a population, in population order. */
  function ByPvalue(p: seq<Read>): (t: seq<(real, Read)>)
    reads p
    ensures |t| == |p|
  {
    seq(|p|, i reads p requires 0 <= i < |p| => (p[i].pvalue, p[i]))
  }

  /** Collections.sort of the population by ascending p-value (a stable sort). */
  function SortedByPvalue(p: seq<Read>): seq<Read>
    reads p
  {
    Untag(SortBy(ByPvalue(p), Tag))
  }

  /** The p-value sort is a permutation whose p-values do not decrease. */
  lemma SortedByPvalueOrder(p: seq<Read>)
    ensures multiset(SortedByPvalue(p)) == multiset(p)
    ensures forall i, j :: 0 <= i < j < |p| ==> SortedByPvalue(p)[i].pvalue <= SortedByPvalue(p)[j].pvalue
  {
    var t := ByPvalue(p);
    var s := SortBy(t, Tag);
    UntagPermutation(t, s);
    assert Untag(t) == p;
    forall k | 0 <= k < |s| ensures s[k].0 == s[k].1.pvalue {
      assert s[k] in multiset(t);
      assert s[k] in t;
    }
    forall i, j | 0 <= i < j < |p| ensures SortedByPvalue(p)[i].pvalue <= SortedByPvalue(p)[j].pvalue {
      assert Tag(s[i]) <= Tag(s[j]);
    }
  }

  /** The Benjamini-Hochberg-style value at rank i of n, with neither cap nor running minimum. */
  function StepUp(pvalue: real, n: nat, i: nat): real
  {
    pvalue * (n + 1) as real / (i + 1) as real
  }

  /** The Bonferroni value, capped at 1. */
  function Bonferroni(pvalue: real, n: nat): real
  {
    Min2(1.0, pvalue * n as real)
  }

  /** The adjusted p-value setAllPvalues gives the read at rank i of n under method s. */
  function Adjustment(s: string, pvalue: real, n: nat, i: nat): real
  {
    if s == "BH" then StepUp(pvalue, n, i) else Bonferroni(pvalue, n)
  }

  /**
   * Under BH the adjusted value is at least the raw p-value; under any other
   * method it is the raw p-value times n, capped at 1.
   */
  lemma AdjustmentRange(s: string, pvalue: real, n: nat, i: nat)
    requires 0.0 <= pvalue && i < n
    ensures s == "BH" ==> Adjustment(s, pvalue, n, i) >= pvalue
    ensures s != "BH" ==> Adjustment(s, pvalue, n, i) <= 1.0
    ensures s != "BH" ==> Adjustment(s, pvalue, n, i) == 1.0 || Adjustment(s, pvalue, n, i) == pvalue * n as real
  {
    if s == "BH" {
      if pvalue > 0.0 {
        StepUpUncapped(pvalue, n, i);
      }
    }
  }

  /** StepUp exceeds the raw p-value and is not capped: it can pass 1. */
  lemma StepUpUncapped(pvalue: real, n: nat, i: nat)
    requires pvalue > 0.0 && i < n
    ensures StepUp(pvalue, n, i) > pvalue
  {
    var a, b := (n + 1) as real, (i + 1) as real;
    assert a > b > 0.0;
    assert pvalue * a > pvalue * b;
    assert pvalue * a / b > pvalue * b / b;
  }

  // ---------------------------------------------------------------------
  // The k-mer dictionary of the reference genome
  // ---------------------------------------------------------------------

  /** The k-mer of g starting at i. */
  function Kmer(g: string, k: nat, i: int): string
    requires 0 <= i && i + k <= |g|
  {
    g[i..i + k]
  }

  /**
   * h lists, for each k-mer of g, the ascending start positions below n at
   * which it occurs, and every start below n is listed.
   */
  ghost predicate Indexes(g: string, k: nat, h: map<string, seq<int>>, n: int)
  {
    && (forall kmer :: kmer in h ==> h[kmer] != [])
    && IndexSound(g, k, h, n)
    && IndexAscending(h)
    && IndexComplete(g, k, h, n)
  }

  /** Every listed start is below n and starts its k-mer. */
  ghost predicate IndexSound(g: string, k: nat, h: map<string, seq<int>>, n: int)
  {
    forall kmer, j :: kmer in h && 0 <= j < |h[kmer]| ==>
      0 <= h[kmer][j] < n && h[kmer][j] + k <= |g| && Kmer(g, k, h[kmer][j]) == kmer
  }

  /** Every list ascends. */
  ghost predicate IndexAscending(h: map<string, seq<int>>)
  {
    forall kmer, j :: kmer in h && 0 < j < |h[kmer]| ==> h[kmer][j - 1] < h[kmer][j]
  }

  /** Every start below n is listed under its k-mer. */
  ghost predicate IndexComplete(g: string, k: nat, h: map<string, seq<int>>, n: int)
  {
    forall i :: 0 <= i < n && i + k <= |g| ==> Kmer(g, k, i) in h && i in h[Kmer(g, k, i)]
  }

  /** The number of positions buildDictionary indexes: those with index + k < |g|. */
  function Indexed(g: string, k: nat): nat
  {
    if |g| > k then |g| - k else 0
  }

  /** buildDictionary's loop over the reference genome, on values. */
  method Dictionary(g: string, k: nat) returns (h: map<string, seq<int>>)
    ensures Indexes(g, k, h, Indexed(g, k))
  {
    h := map[];
    var index := 0;
    while index + k < |g|
      invariant 0 <= index <= Indexed(g, k)
      invariant Indexes(g, k, h, index)
      decreases |g| - index
    {
      var kmer := g[index..index + k];
      IndexesStep(g, k, h, index);
      if kmer !in h {
        h := h[kmer := [index]];
      } else {
        h := h[kmer := h[kmer] + [index]];
      }
      index := index + 1;
    }
  }

  /** The dictionary after one more position has been listed. */
  function Listed(h: map<string, seq<int>>, kmer: string, index: int): map<string, seq<int>>
  {
    if kmer !in h then h[kmer := [index]] else h[kmer := h[kmer] + [index]]
  }

  lemma IndexesStep(g: string, k: nat, h: map<string, seq<int>>, index: nat)
    requires Indexes(g, k, h, index) && index + k < |g|
    ensures Indexes(g, k, Listed(h, g[index..index + k], index), index + 1)
  {
    var kmer := Kmer(g, k, index);
    IndexSoundStep(g, k, h, index, kmer);
    IndexAscendingStep(g, k, h, index, kmer);
    IndexCompleteStep(g, k, h, index, kmer);
  }

  lemma IndexSoundStep(g: string, k: nat, h: map<string, seq<int>>, index: nat, kmer: string)
    requires IndexSound(g, k, h, index) && index + k < |g| && kmer == Kmer(g, k, index)
    ensures IndexSound(g, k, Listed(h, kmer, index), index + 1)
  {
    var h' := Listed(h, kmer, index);
    var old_ := if kmer in h then h[kmer] else [];
    assert h'[kmer] == old_ + [index];
    forall w, j | w in h' && 0 <= j < |h'[w]|
      ensures 0 <= h'[w][j] < index + 1 && h'[w][j] + k <= |g| && Kmer(g, k, h'[w][j]) == w
    {
      if w != kmer {
        assert h'[w][j] == h[w][j];
      } else if j < |old_| {
        assert h'[w][j] == h[w][j];
      }
    }
  }

  lemma IndexAscendingStep(g: string, k: nat, h: map<string, seq<int>>, index: nat, kmer: string)
    requires IndexSound(g, k, h, index) && IndexAscending(h)
    ensures IndexAscending(Listed(h, kmer, index))
  {
    var h' := Listed(h, kmer, index);
    var old_ := if kmer in h then h[kmer] else [];
    assert h'[kmer] == old_ + [index];
    forall w, j | w in h' && 0 < j < |h'[w]| ensures h'[w][j - 1] < h'[w][j] {
      if w != kmer {
        assert h'[w] == h[w];
      } else if j < |old_| {
        assert h'[w][j] == h[w][j] && h'[w][j - 1] == h[w][j - 1];
      } else {
        assert h'[w][j - 1] == h[w][j - 1];
      }
    }
  }

  lemma IndexCompleteStep(g: string, k: nat, h: map<string, seq<int>>, index: nat, kmer: string)
    requires IndexComplete(g, k, h, index) && index + k < |g| && kmer == Kmer(g, k, index)
    ensures IndexComplete(g, k, Listed(h, kmer, index), index + 1)
  {
    var h' := Listed(h, kmer, index);
    var old_ := if kmer in h then h[kmer] else [];
    assert h'[kmer] == old_ + [index];
    forall i | 0 <= i < index + 1 && i + k <= |g| ensures Kmer(g, k, i) in h' && i in h'[Kmer(g, k, i)] {
      var w := Kmer(g, k, i);
      if i < index {
        assert w in h && i in h[w];
        var j :| 0 <= j < |h[w]| && h[w][j] == i;
        if w == kmer {
          assert h'[w][j] == i;
        } else {
          assert h'[w] == h[w];
        }
      } else {
        assert h'[kmer][|h'[kmer]| - 1] == index;
      }
    }
  }

  /** The k-mer starting at |g| - k, the last one, is never indexed. */
  lemma LastKmerNotIndexed(g: string, k: nat, h: map<string, seq<int>>)
    requires Indexes(g, k, h, Indexed(g, k))
    ensures forall kmer, j :: kmer in h && 0 <= j < |h[kmer]| ==> h[kmer][j] + k < |g|
    ensures forall kmer :: kmer in h ==> |g| - k !in h[kmer]
  {
  }

  /** Strictly ascending lists with the same members are equal. */
  lemma {:induction false} AscendingUnique(a: seq<int>, b: seq<int>)
    requires forall j :: 0 < j < |a| ==> a[j - 1] < a[j]
    requires forall j :: 0 < j < |b| ==> b[j - 1] < b[j]
    requires forall x :: x in a <==> x in b
    ensures a == b
  {
    Ascending(a);
    Ascending(b);
    assert a == [] <==> b == [] by {
      if a != [] { assert a[0] in a; assert a[0] in b; }
      if b != [] { assert b[0] in b; assert b[0] in a; }
    }
    if a != [] {
      assert a[0] == b[0] by {
        assert b[0] in a && a[0] in b;
      }
      forall x ensures x in a[1..] <==> x in b[1..] {
        assert x in a[1..] <==> x in a && x > a[0];
        assert x in b[1..] <==> x in b && x > b[0];
      }
      AscendingUnique(a[1..], b[1..]);
      assert a == [a[0]] + a[1..] && b == [b[0]] + b[1..];
    }
  }

  lemma Ascending(a: seq<int>)
    requires forall j :: 0 < j < |a| ==> a[j - 1] < a[j]
    ensures forall i, j :: 0 <= i < j < |a| ==> a[i] < a[j]
    ensures a != [] ==> forall x :: x in a[1..] <==> x in a && a[0] < x
  {
    forall i, j | 0 <= i < j < |a| ensures a[i] < a[j] {
      AscendingPair(a, i, j);
    }
    if a != [] {
      forall x | x in a && a[0] < x ensures x in a[1..] {
        var j :| 0 <= j < |a| && a[j] == x;
        assert j != 0;
        assert a[1..][j - 1] == x;
      }
    }
  }

  lemma {:induction false} AscendingPair(a: seq<int>, i: nat, j: nat)
    requires forall j :: 0 < j < |a| ==> a[j - 1] < a[j]
    requires i < j < |a|
    ensures a[i] < a[j]
  {
    if i + 1 < j {
      AscendingPair(a, i, j - 1);
    }
  }

  /** The dictionary is determined by the genome and k. */
  lemma DictionaryUnique(g: string, k: nat, h1: map<string, seq<int>>, h2: map<string, seq<int>>, n: int)
    requires Indexes(g, k, h1, n) && Indexes(g, k, h2, n)
    ensures h1 == h2
  {
    forall kmer | kmer in h1 ensures kmer in h2 {
      var i := h1[kmer][0];
      assert Kmer(g, k, i) == kmer;
    }
    forall kmer | kmer in h2 ensures kmer in h1 {
      var i := h2[kmer][0];
      assert Kmer(g, k, i) == kmer;
    }
    forall kmer | kmer in h1 ensures h1[kmer] == h2[kmer] {
      forall x ensures x in h1[kmer] <==> x in h2[kmer] {
        if x in h1[kmer] {
          var j :| 0 <= j < |h1[kmer]| && h1[kmer][j] == x;
          assert Kmer(g, k, x) == kmer;
        }
        if x in h2[kmer] {
          var j :| 0 <= j < |h2[kmer]| && h2[kmer][j] == x;
          assert Kmer(g, k, x) == kmer;
        }
      }
      AscendingUnique(h1[kmer], h2[kmer]);
    }
  }

  // ---------------------------------------------------------------------
  // FASTA parsing over the lines of a file
  // ---------------------------------------------------------------------

  /** The IUPAC-IUB codes a read may keep. */
  const Iupac: string := "ACGTRYKMSWBDHVN"
  /** The four bases a reference genome keeps. */
  const Nucleotides: string := "ACGT"

  /** toUpperCase on one character (ASCII letters only). */
  function Upper(c: char): char
  {
    if 'a' <= c <= 'z' then (c as int - 32) as char else c
  }

  function UpperCase(s: string): (r: string)
    ensures |r| == |s| && forall i :: 0 <= i < |s| ==> r[i] == Upper(s[i])
  {
    seq(|s|, i requires 0 <= i < |s| => Upper(s[i]))
  }

  /** replaceAll("U", "T"). */
  function UToT(s: string): (r: string)
    ensures |r| == |s| && forall i :: 0 <= i < |s| ==> r[i] == if s[i] == 'U' then 'T' else s[i]
  {
    seq(|s|, i requires 0 <= i < |s| => if s[i] == 'U' then 'T' else s[i])
  }

  /** replaceAll("[^...]+", ""): the characters of s that are in allowed, in order. */
  function KeepOnly(s: string, allowed: string): (r: string)
    ensures |r| <= |s|
  {
    if s == [] then []
    else KeepOnly(s[..|s| - 1], allowed) + (if s[|s| - 1] in allowed then [s[|s| - 1]] else [])
  }

  /** KeepOnly keeps exactly the allowed characters. */
  lemma {:induction false} KeepOnlyExact(s: string, allowed: string)
    ensures forall c :: c in KeepOnly(s, allowed) <==> c in s && c in allowed
  {
    if s != [] {
      KeepOnlyExact(s[..|s| - 1], allowed);
      assert s == s[..|s| - 1] + [s[|s| - 1]];
    }
  }

  /** KeepOnly works piece by piece. */
  lemma {:induction false} KeepOnlyConcat(a: string, b: string, allowed: string)
    ensures KeepOnly(a + b, allowed) == KeepOnly(a, allowed) + KeepOnly(b, allowed)
  {
    if b == [] {
      assert a + b == a;
    } else {
      KeepOnlyConcat(a, b[..|b| - 1], allowed);
      assert (a + b)[..|a + b| - 1] == a + b[..|b| - 1];
    }
  }

  /** A text whose characters are all allowed is kept whole. */
  lemma {:induction false} KeepOnlyAll(s: string, allowed: string)
    requires forall i :: 0 <= i < |s| ==> s[i] in allowed
    ensures KeepOnly(s, allowed) == s
  {
    if s != [] {
      KeepOnlyAll(s[..|s| - 1], allowed);
    }
  }

  /** The cleaning readFasta applies to each record: upper case, U to T, IUPAC codes only. */
  function CleanRead(s: string): string
  {
    KeepOnly(UToT(UpperCase(s)), Iupac)
  }

  /** The cleaning readReferenceGenome applies: upper case, U to T, A/C/G/T only. */
  function CleanGenome(s: string): string
  {
    KeepOnly(UToT(UpperCase(s)), Nucleotides)
  }

  /** A cleaned read holds only IUPAC codes. */
  lemma CleanReadCodes(s: string)
    ensures forall c :: c in CleanRead(s) ==> c in Iupac
  {
    KeepOnlyExact(UToT(UpperCase(s)), Iupac);
  }

  /** Cleaning a cleaned read changes nothing. */
  lemma CleanReadIdempotent(s: string)
    ensures CleanRead(CleanRead(s)) == CleanRead(s)
  {
    var c := CleanRead(s);
    CleanReadCodes(s);
    assert forall i :: 0 <= i < |c| ==> c[i] in c;
    assert UToT(UpperCase(c)) == c;
    KeepOnlyAll(c, Iupac);
  }

  /** Cleaning splits over concatenation, so text before the first header is cleaned as part of the first record. */
  lemma CleanReadConcat(s: string, t: string)
    ensures CleanRead(s + t) == CleanRead(s) + CleanRead(t)
  {
    assert UToT(UpperCase(s + t)) == UToT(UpperCase(s)) + UToT(UpperCase(t));
    KeepOnlyConcat(UToT(UpperCase(s)), UToT(UpperCase(t)), Iupac);
  }

  /** A cleaned reference holds only A, C, G and T. */
  lemma CleanGenomeBases(s: string)
    ensures forall c :: c in CleanGenome(s) ==> c in Nucleotides
  {
    KeepOnlyExact(UToT(UpperCase(s)), Nucleotides);
  }

  predicate IsHeader(line: string)
  {
    |line| > 0 && line[0] == '>'
  }

  /** The indices of the header lines among the first n, in order. */
  function Headers(lines: seq<string>, n: nat): (hs: seq<nat>)
    requires n <= |lines|
    ensures forall j :: 0 <= j < |hs| ==> hs[j] < n && IsHeader(lines[hs[j]])
    ensures forall j :: 0 < j < |hs| ==> hs[j - 1] < hs[j]
  {
    if n == 0 then []
    else Headers(lines, n - 1) + (if IsHeader(lines[n - 1]) then [n - 1] else [])
  }

  /** Every header line among the first n is listed. */
  lemma {:induction false} HeadersComplete(lines: seq<string>, n: nat)
    requires n <= |lines|
    ensures forall i :: 0 <= i < n && IsHeader(lines[i]) ==> i in Headers(lines, n)
  {
    if n > 0 {
      HeadersComplete(lines, n - 1);
    }
  }

  /** The concatenation of the non-header lines among lines[lo..hi]. */
  function Body(lines: seq<string>, lo: nat, hi: nat): string
    requires lo <= hi <= |lines|
    decreases hi
  {
    if lo == hi then ""
    else if IsHeader(lines[hi - 1]) then Body(lines, lo, hi - 1)
    else Body(lines, lo, hi - 1) + lines[hi - 1]
  }

  /** The lines of record j: from the top of the file for the first record, else from its header; up to the next header. */
  function From(hs: seq<nat>, j: nat): nat
    requires j < |hs|
  {
    if j == 0 then 0 else hs[j]
  }

  function Until(hs: seq<nat>, j: nat, end: nat): nat
    requires j < |hs|
  {
    if j + 1 < |hs| then hs[j + 1] else end
  }

  /** A record of a FASTA file as readFasta builds it (name, idx and sequence of a Read). */
  datatype FastaRecord = FastaRecord(name: Option<string>, idx: int, sequence: string)

  /** The record between header j and the next, its text not yet cleaned. */
  function RawRecord(lines: seq<string>, hs: seq<nat>, j: nat, end: nat): FastaRecord
    requires j < |hs| && hs[j] < |lines| && IsHeader(lines[hs[j]])
    requires From(hs, j) <= Until(hs, j, end) <= |lines|
  {
    FastaRecord(Some(lines[hs[j]][1..]), j, Body(lines, From(hs, j), Until(hs, j, end)))
  }

  /** The records parsed from the first i lines, all but the one still open. */
  ghost predicate Parsed(lines: seq<string>, i: nat, records: seq<FastaRecord>, s1: string, name: Option<string>, idx: int)
    requires i <= |lines|
  {
    var hs := Headers(lines, i);
    && |records| == (if hs == [] then 0 else |hs| - 1)
    && (forall j :: 0 <= j < |records| ==> records[j] == RawRecord(lines, hs, j, i))
    && (hs == [] ==> name == None && idx == -1 && s1 == Body(lines, 0, i))
    && (hs != [] ==> name == Some(lines[hs[|hs| - 1]][1..]) && idx == |hs| - 1 && s1 == Body(lines, From(hs, |hs| - 1), i))
  }

  /** The first header line names the open record and keeps the text read so far. */
  lemma ParsedFirstHeader(lines: seq<string>, i: nat, records: seq<FastaRecord>, s1: string, name: Option<string>, idx: int)
    requires i < |lines| && IsHeader(lines[i]) && Headers(lines, i) == []
    requires Parsed(lines, i, records, s1, name, idx)
    ensures Parsed(lines, i + 1, records, s1, Some(lines[i][1..]), 0)
  {
    var hs' := Headers(lines, i + 1);
    assert hs' == [i];
    assert From(hs', 0) == 0;
    assert Body(lines, 0, i + 1) == Body(lines, 0, i);
  }

  /** The records closed so far stay the same when a header is appended to the list. */
  lemma RecordsExtend(lines: seq<string>, i: nat, records: seq<FastaRecord>, last: FastaRecord)
    requires i < |lines| && IsHeader(lines[i]) && Headers(lines, i) != []
    requires |records| == |Headers(lines, i)| - 1
    requires forall j :: 0 <= j < |records| ==> records[j] == RawRecord(lines, Headers(lines, i), j, i)
    requires last == RawRecord(lines, Headers(lines, i + 1), |records|, i + 1)
    ensures forall j :: 0 <= j < |records| + 1 ==> (records + [last])[j] == RawRecord(lines, Headers(lines, i + 1), j, i + 1)
  {
    var hs := Headers(lines, i);
    var hs' := Headers(lines, i + 1);
    assert hs' == hs + [i];
    forall j | 0 <= j < |records| ensures RawRecord(lines, hs', j, i + 1) == RawRecord(lines, hs, j, i) {
      assert hs'[j] == hs[j] && hs'[j + 1] == hs[j + 1];
    }
  }

  /** A later header line closes the open record and opens a new one. */
  lemma ParsedNextHeader(lines: seq<string>, i: nat, records: seq<FastaRecord>, s1: string, name: Option<string>, idx: int)
    requires i < |lines| && IsHeader(lines[i]) && Headers(lines, i) != []
    requires Parsed(lines, i, records, s1, name, idx)
    ensures Parsed(lines, i + 1, records + [FastaRecord(name, idx, s1)], "", Some(lines[i][1..]), |Headers(lines, i)|)
  {
    var hs := Headers(lines, i);
    var hs' := Headers(lines, i + 1);
    var c := |hs|;
    assert hs' == hs + [i];
    assert RawRecord(lines, hs', c - 1, i + 1) == FastaRecord(name, idx, s1) by {
      assert Until(hs', c - 1, i + 1) == i;
      assert From(hs', c - 1) == From(hs, c - 1);
    }
    RecordsExtend(lines, i, records, FastaRecord(name, idx, s1));
    assert |records + [FastaRecord(name, idx, s1)]| == |hs'| - 1;
    assert hs'[|hs'| - 1] == i && From(hs', c) == i;
    assert Body(lines, i, i + 1) == "";
  }

  /** Any other line joins the open record's text. */
  lemma ParsedLine(lines: seq<string>, i: nat, records: seq<FastaRecord>, s1: string, name: Option<string>, idx: int)
    requires i < |lines| && !IsHeader(lines[i])
    requires Parsed(lines, i, records, s1, name, idx)
    ensures Parsed(lines, i + 1, records, s1 + lines[i], name, idx)
  {
    var hs := Headers(lines, i);
    assert Headers(lines, i + 1) == hs;
    forall j | 0 <= j < |records| ensures RawRecord(lines, hs, j, i + 1) == RawRecord(lines, hs, j, i) {
      assert j + 1 < |hs|;
    }
  }

  /** The records of the whole file before cleaning. */
  ghost predicate RawRecords(lines: seq<string>, records: seq<FastaRecord>)
  {
    var hs := Headers(lines, |lines|);
    && |records| == (if hs == [] then 1 else |hs|)
    && (hs == [] ==> records[0] == FastaRecord(None, -1, Body(lines, 0, |lines|)))
    && (forall j :: 0 <= j < |hs| ==> records[j] == RawRecord(lines, hs, j, |lines|))
  }

  /** At the end of the file the open record is added. */
  lemma ParsedEnd(lines: seq<string>, records: seq<FastaRecord>, s1: string, name: Option<string>, idx: int)
    requires Parsed(lines, |lines|, records, s1, name, idx)
    ensures RawRecords(lines, records + [FastaRecord(name, idx, s1)])
  {
    var hs := Headers(lines, |lines|);
    var r := records + [FastaRecord(name, idx, s1)];
    if hs != [] {
      forall j | 0 <= j < |hs| ensures r[j] == RawRecord(lines, hs, j, |lines|) {
        if j < |records| {
          assert r[j] == records[j];
        } else {
          assert Until(hs, j, |lines|) == |lines|;
        }
      }
    }
  }

  /**
   * readFasta over the lines of the file: a header line opens a record named
   * by the rest of the line; text before the first header joins the first
   * record; the last record is always added, so a file without headers
   * gives one unnamed record of index -1; every sequence is then cleaned.
   * avg and std, which readFasta stores in avgReadLength and stdReadLength,
   * are Functions.average and stdev (given) of the cleaned lengths.
   */
  method ReadFasta(lines: seq<string>, average: seq<real> -> real, stdev: seq<real> -> real)
    returns (records: seq<FastaRecord>, avg: real, std: real)
    ensures var hs := Headers(lines, |lines|);
      && |records| == (if hs == [] then 1 else |hs|)
      && (hs == [] ==> records[0] == FastaRecord(None, -1, CleanRead(Body(lines, 0, |lines|))))
      && (forall j :: 0 <= j < |hs| ==>
            records[j] == RawRecord(lines, hs, j, |lines|).(sequence := CleanRead(RawRecord(lines, hs, j, |lines|).sequence)))
    ensures avg == average(RecordLengths(records)) && std == stdev(RecordLengths(records))
  {
    var raw := ParseRecords(lines);
    var rl;
    records, rl := CleanAll(raw);
    avg := average(rl);
    std := stdev(rl);
  }

  /** The variables of readFasta's loop: the closed records, the open record's text, name and index, the header count. */
  datatype ScanState = ScanState(records: seq<FastaRecord>, s1: string, name: Option<string>, idx: int, count: nat)

  /** One line of the loop: a header closes the open record, when there is one, and opens a new one; other text joins the open record. */
  function Feed(st: ScanState, s: string): ScanState
  {
    if IsHeader(s) then
      var closed := if st.count > 0 then st.(records := st.records + [FastaRecord(st.name, st.idx, st.s1)], s1 := "") else st;
      closed.(name := Some(s[1..]), idx := st.count, count := st.count + 1)
    else st.(s1 := st.s1 + s)
  }

  /** The loop variables after the first i lines. */
  function Scan(lines: seq<string>, i: nat): ScanState
    requires i <= |lines|
  {
    if i == 0 then ScanState([], "", None, -1, 0) else Feed(Scan(lines, i - 1), lines[i - 1])
  }

  /** The loop variables st are a parse of the first i lines. */
  ghost predicate ParsedState(lines: seq<string>, i: nat, st: ScanState)
    requires i <= |lines|
  {
    st.count == |Headers(lines, i)| && Parsed(lines, i, st.records, st.s1, st.name, st.idx)
  }

  /** One more line keeps the loop variables a parse of the lines read. */
  lemma FeedParsed(lines: seq<string>, i: nat, st: ScanState)
    requires i < |lines| && ParsedState(lines, i, st)
    ensures ParsedState(lines, i + 1, Feed(st, lines[i]))
  {
    if IsHeader(lines[i]) {
      if st.count > 0 {
        ParsedNextHeader(lines, i, st.records, st.s1, st.name, st.idx);
      } else {
        ParsedFirstHeader(lines, i, st.records, st.s1, st.name, st.idx);
      }
    } else {
      ParsedLine(lines, i, st.records, st.s1, st.name, st.idx);
    }
  }

  /** After any number of lines the loop variables are a parse of the lines read. */
  lemma {:induction false} ScanParsed(lines: seq<string>, i: nat)
    requires i <= |lines|
    ensures ParsedState(lines, i, Scan(lines, i))
  {
    if i > 0 {
      ScanParsed(lines, i - 1);
      FeedParsed(lines, i - 1, Scan(lines, i - 1));
    }
  }

  /** The reading loop of readFasta: the records of the file, before cleaning. */
  method ParseRecords(lines: seq<string>) returns (records: seq<FastaRecord>)
    ensures RawRecords(lines, records)
  {
    records := [];
    var s1 := "";
    var name: Option<string> := None;
    var idx := -1;
    var count := 0;
    var i := 0;
    while i < |lines|
      invariant i <= |lines| && ScanState(records, s1, name, idx, count) == Scan(lines, i)
    {
      var s := lines[i];
      if IsHeader(s) {
        if count > 0 {
          records := records + [FastaRecord(name, idx, s1)];
          s1 := "";
        }
        name := Some(s[1..]);
        idx := count;
        count := count + 1;
      } else {
        s1 := s1 + s;
      }
      i := i + 1;
    }
    ScanParsed(lines, |lines|);
    assert ParsedState(lines, |lines|, ScanState(records, s1, name, idx, count));
    ParsedEnd(lines, records, s1, name, idx);
    records := records + [FastaRecord(name, idx, s1)];
  }

  /** The lengths of the record sequences, as the array rl of readFasta holds them. */
  function RecordLengths(records: seq<FastaRecord>): (rl: seq<real>)
    ensures |rl| == |records|
  {
    seq(|records|, j requires 0 <= j < |records| => |records[j].sequence| as real)
  }

  /**
   * The cleaning pass of readFasta: every record's sequence cleaned, nothing
   * else changed, and rl[j] the length of record j's cleaned sequence.
   */
  method CleanAll(raw: seq<FastaRecord>) returns (records: seq<FastaRecord>, rl: seq<real>)
    ensures |records| == |raw|
    ensures forall j :: 0 <= j < |raw| ==> records[j] == raw[j].(sequence := CleanRead(raw[j].sequence))
    ensures rl == RecordLengths(records)
  {
    records := raw;
    rl := [];
    for k := 0 to |records|
      invariant |records| == |raw| && |rl| == k
      invariant forall j :: 0 <= j < |raw| ==> records[j] == raw[j].(sequence := if j < k then CleanRead(raw[j].sequence) else raw[j].sequence)
      invariant forall j :: 0 <= j < k ==> rl[j] == |records[j].sequence| as real
    {
      records := records[k := records[k].(sequence := CleanRead(records[k].sequence))];
      rl := rl + [|records[k].sequence| as real];
    }
  }

  /** The text of the last header line, '>' included, or "" when there is none. */
  function LastHeader(lines: seq<string>, n: nat): string
    requires n <= |lines|
  {
    var hs := Headers(lines, n);
    if hs == [] then "" else lines[hs[|hs| - 1]]
  }

  /** The reference text: non-header lines joined; the name: the last header line seen. */
  ghost predicate ReferenceRead(lines: seq<string>, i: nat, rg: string, rgn: string)
    requires i <= |lines|
  {
    rg == Body(lines, 0, i) && rgn == LastHeader(lines, i)
  }

  // ---------------------------------------------------------------------
  // The read set
  // ---------------------------------------------------------------------

  class ReadSet {
    var population: seq<Read>
    var referenceGenomeName: string
    var referenceGenome: string
    var genomeDictionary: map<string, seq<int>>
    var avgReadLength: real
    var stdReadLength: real
    var alignStart: real
    var alignStop: real
    var goodAmpliconSets: seq<AmpliconSet>
    var ampliconSet: AmpliconSet?

    /** An empty read set (the scoring matrix it loads is not part of this model). */
    constructor ()
      ensures population == [] && goodAmpliconSets == [] && ampliconSet == null
      ensures referenceGenomeName == "" && referenceGenome == "" && genomeDictionary == map[]
    {
      population := [];
      referenceGenomeName, referenceGenome := "", "";
      genomeDictionary := map[];
      avgReadLength, stdReadLength, alignStart, alignStop := 0.0, 0.0, 0.0, 0.0;
      goodAmpliconSets, ampliconSet := [], null;
    }

    /**
     * removeBadReads: drop, in place, every read whose adjusted p-value
     * exceeds alpha; report how many went, and whether the population is
     * now empty (where the program exits).
     */
    method RemoveBadReads(alpha: real) returns (removed: nat, exits: bool)
      modifies this`population
      ensures population == Significant(old(population), alpha)
      ensures removed == |old(population)| - |population|
      ensures exits <==> population == []
    {
      var p := FilterSignificant(population, alpha);
      removed := |population| - |p|;
      population := p;
      exits := |population| == 0;
    }

    /**
     * The filter of updatePopulationStats: drop, in place, the reads that
     * end before alignStart or start after alignStop.
     */
    method KeepAligned()
      modifies this`population
      ensures population == Aligned(old(population), alignStart, alignStop)
    {
      population := FilterAligned(population, alignStart, alignStop);
    }

    /**
     * updatePopulationStats: the filter, then, when reads remain, the
     * average and standard deviation of their post-alignment lengths
     * (Functions.average and stdev are given); an empty population is
     * where the program exits.  The midpoint the loop stores in each read's
     * mappingPosition is not modelled: only commented-out output reads it.
     */
    method UpdatePopulationStats(average: seq<real> -> real, stdev: seq<real> -> real) returns (exits: bool)
      modifies this`population, this`avgReadLength, this`stdReadLength
      ensures population == Aligned(old(population), alignStart, alignStop)
      ensures exits <==> population == []
      ensures exits ==> avgReadLength == old(avgReadLength) && stdReadLength == old(stdReadLength)
      ensures !exits ==> avgReadLength == average(ReadLengths(population)) && stdReadLength == stdev(ReadLengths(population))
    {
      KeepAligned();
      if |population| == 0 {
        return true;
      }
      var readLengths := Lengths(population);
      avgReadLength := average(readLengths);
      stdReadLength := stdev(readLengths);
      exits := false;
    }

    /**
     * setAllPvalues with the p-values already set: under "BH" the
     * population is stably sorted by ascending p-value and the read at rank
     * i gets p * (n + 1) / (i + 1); under any other method p * n capped at 1.
     * The reads are distinct objects.
     */
    method SetAllPvalues(s: string)
      requires NoDuplicates(population)
      modifies this`population, population`adjustedPvalue
      ensures s == "BH" ==> population == old(SortedByPvalue(population))
      ensures s != "BH" ==> population == old(population)
      ensures forall i :: 0 <= i < |population| ==>
        population[i].adjustedPvalue == Adjustment(s, population[i].pvalue, |population|, i)
    {
      ghost var orig := population;
      if s == "BH" {
        var sorted := SortedByPvalue(population);
        SortedByPvalueOrder(population);
        PermutationKeepsElements(population, sorted);
        population := sorted;
      }
      assert Elements(population) == Elements(orig);
      var n := |population|;
      for i := 0 to n
        invariant population == (if s == "BH" then old(SortedByPvalue(population)) else orig)
        invariant NoDuplicates(population)
        invariant forall j :: 0 <= j < i ==> population[j].adjustedPvalue == Adjustment(s, population[j].pvalue, n, j)
      {
        assert population[i] in Elements(orig);
        var r := population[i];
        assert forall j :: 0 <= j < i ==> population[j] != r;
        r.adjustedPvalue := Adjustment(s, r.pvalue, n, i);
      }
    }

    /** buildDictionary(k): index every k-mer start of the reference with index + k < its length. */
    method BuildDictionary(k: nat)
      modifies this`genomeDictionary
      ensures Indexes(referenceGenome, k, genomeDictionary, Indexed(referenceGenome, k))
    {
      genomeDictionary := Dictionary(referenceGenome, k);
    }

    /**
     * readReferenceGenome over the lines of the file: the name is the last
     * header line ('>' kept), the genome the other lines joined and cleaned
     * to A/C/G/T; then the dictionary of kappa-mers.
     */
    method ReadReferenceGenome(lines: seq<string>, kappa: nat)
      modifies this`referenceGenomeName, this`referenceGenome, this`genomeDictionary
      ensures referenceGenomeName == LastHeader(lines, |lines|)
      ensures referenceGenome == CleanGenome(Body(lines, 0, |lines|))
      ensures Indexes(referenceGenome, kappa, genomeDictionary, Indexed(referenceGenome, kappa))
    {
      var rgn := "";
      var rg := "";
      var i := 0;
      while i < |lines|
        invariant i <= |lines| && ReferenceRead(lines, i, rg, rgn)
      {
        var s := lines[i];
        if !IsHeader(s) {
          rg := rg + s;
        } else {
          rgn := s;
        }
        i := i + 1;
      }
      referenceGenomeName := rgn;
      referenceGenome := CleanGenome(rg);
      BuildDictionary(kappa);
    }
 
    /**
     * The last loop of estimateBaseSet: alignStart and alignStop become the
     * least and greatest surviving positions, starting from the old
     * alignStop and alignStart.
     */
    method SetAlignment(ps: seq<real>)
      modifies this`alignStart, this`alignStop
      ensures alignStart <= old(alignStop) && (alignStart == old(alignStop) || alignStart in ps)
      ensures alignStop >= old(alignStart) && (alignStop == old(alignStart) || alignStop in ps)
      ensures forall i :: 0 <= i < |ps| ==> alignStart <= ps[i] <= alignStop
    {
      var minStart, maxStop := Extent(ps, alignStart, alignStop);
      alignStart, alignStop := minStart, maxStop;
    }

    /**
     * The end of phase 3 of estimateAmpliconsParallel, given the ranked
     * candidates and their normalised weights: the credible set (the
     * corrected cut) becomes goodAmpliconSets, and its first balanced
     * member (the corrected test), or its first member, the chosen set.
     */
    method SelectAmpliconSet(ranked: seq<AmpliconSet>, w: seq<real>) returns (altBest: nat)
      requires |ranked| > 0 && |w| == |ranked|
      modifies this`goodAmpliconSets, this`ampliconSet
      ensures IsCredibleCount(w, |goodAmpliconSets|) && goodAmpliconSets == ranked[..|goodAmpliconSets|]
      ensures altBest < |goodAmpliconSets| && FirstBalancedAt(Probabilities(goodAmpliconSets), altBest)
      ensures ampliconSet == goodAmpliconSets[altBest]
    {
      var count := CredibleCount(w);
      goodAmpliconSets := ranked[..count];
      altBest := FirstBalanced(goodAmpliconSets);
      ampliconSet := goodAmpliconSets[altBest];
    }
  }
}
