/**
 * The variant catalogue of one window (class LocalVariantSet): the spanning
 * reads grouped by their pattern over the window, patterns seen fewer than
 * twice dropped, frequencies rescaled to percentages, and the entries listed
 * by non-increasing frequency.
 */
module LocalVariantSets {
  import opened Common
  import opened Sorting
  import opened Patterns
  import opened LocalVariants
  import opened Reads

  /** The sort key of the descending-frequency comparator. */
  function NegFrequency(lv: LocalVariant): real { -lv.frequency }

  /** The full window patterns of the reads spanning [start, stop], in read order. */
  function Observed(p: seq<Read>, start: real, stop: real): seq<Pattern>
    reads set r | r in p
  {
    if p == [] then []
    else
      var r := p[|p| - 1];
      Observed(p[..|p| - 1], start, stop) + (if r.Spans(start, stop) then [r.GetSnpString(start, stop)] else [])
  }

  /** How many of obs lie in keys. */
  function CountIn(obs: seq<Pattern>, keys: set<Pattern>): nat
  {
    if obs == [] then 0 else CountIn(obs[..|obs| - 1], keys) + (if obs[|obs| - 1] in keys then 1 else 0)
  }

  /** The multiplicities in m of the patterns ks, added up. */
  function SumCounts(ks: seq<Pattern>, m: multiset<Pattern>): nat
  {
    if ks == [] then 0 else SumCounts(ks[..|ks| - 1], m) + m[ks[|ks| - 1]]
  }

  function Snps(a: seq<LocalVariant>): (s: seq<Pattern>)
    ensures |s| == |a| && forall i :: 0 <= i < |a| ==> s[i] == a[i].snp
  {
    seq(|a|, i requires 0 <= i < |a| => a[i].snp)
  }

  function Frequencies(a: seq<LocalVariant>): (s: seq<real>)
    ensures |s| == |a| && forall i :: 0 <= i < |a| ==> s[i] == a[i].frequency
  {
    seq(|a|, i requires 0 <= i < |a| => a[i].frequency)
  }

  /** c out of t, as a percentage (normalisation only ever divides by a positive total). */
  function Percent(c: nat, t: nat): real
  {
    if t == 0 then 0.0 else (100.0 / t as real) * c as real
  }

  lemma PercentRange(c: nat, t: nat)
    requires 0 < c <= t
    ensures 0.0 < Percent(c, t) <= 100.0
  {
    var q := 100.0 / t as real;
    assert q * t as real == 100.0;
    assert 0.0 < q * c as real <= q * t as real;
  }

  /** a lists every value of h exactly once. */
  predicate Indexes(h: map<Pattern, LocalVariant>, a: seq<LocalVariant>)
  {
    && |a| == |h|
    && (forall i :: 0 <= i < |a| ==> a[i].snp in h && h[a[i].snp] == a[i])
    && (forall i, j :: 0 <= i < j < |a| ==> a[i].snp != a[j].snp)
    && (forall k :: k in h ==> exists i :: 0 <= i < |a| && a[i].snp == k)
  }

  /**
   * What the catalogue constructor leaves behind for the observed patterns
   * obs: the patterns seen at least twice, each at 100 times its count over
   * the count of the kept reads, listed by non-increasing frequency.
   */
  ghost predicate IsCatalogue(obs: seq<Pattern>, h: map<Pattern, LocalVariant>, a: seq<LocalVariant>)
  {
    var m := multiset(obs);
    && (forall k :: k in h <==> m[k] >= 2)
    && (forall k :: k in h ==> h[k].snp == k && h[k].frequency == Percent(m[k], CountIn(obs, h.Keys)))
    && Indexes(h, a)
    && SortedBy(a, NegFrequency)
  }

  /** The sub-patterns of lv are those of read r over the three ranges of the window. */
  predicate FromRead(lv: LocalVariant, r: Read, start: real, middle1: real, middle2: real, stop: real)
    reads r
  {
    && r.Spans(start, stop)
    && lv.snp == r.GetSnpString(start, stop)
    && lv.amplSnp == r.GetSnpString(middle1 + 1.0, middle2 - 1.0)
    && lv.overlSnp1 == r.GetSnpString(start, middle1)
    && lv.overlSnp2 == r.GetSnpString(middle2, stop)
  }

  // ------------------------------------------------------------ counting lemmas

  lemma {:induction false} SumCountsAdd(ks: seq<Pattern>, m: multiset<Pattern>, x: Pattern)
    requires NoDuplicates(ks)
    ensures SumCounts(ks, m + multiset{x}) == SumCounts(ks, m) + (if x in ks then 1 else 0)
  {
    if ks != [] {
      var init := ks[..|ks| - 1];
      assert NoDuplicates(init);
      SumCountsAdd(init, m, x);
      assert ks == init + [ks[|ks| - 1]];
      if x == ks[|ks| - 1] {
        assert x !in init;
      }
    }
  }

  lemma {:induction false} SumCountsEmpty(ks: seq<Pattern>)
    ensures SumCounts(ks, multiset{}) == 0
  {
    if ks != [] {
      SumCountsEmpty(ks[..|ks| - 1]);
    }
  }

  /** Counting the kept reads key by key gives the number of kept reads. */
  lemma {:induction false} SumCountsIsCountIn(obs: seq<Pattern>, ks: seq<Pattern>)
    requires NoDuplicates(ks)
    ensures SumCounts(ks, multiset(obs)) == CountIn(obs, Elements(ks))
  {
    if obs == [] {
      SumCountsEmpty(ks);
    } else {
      var init, x := obs[..|obs| - 1], obs[|obs| - 1];
      assert obs == init + [x];
      SumCountsIsCountIn(init, ks);
      SumCountsAdd(ks, multiset(init), x);
    }
  }

  lemma {:induction false} CountInAtLeast(obs: seq<Pattern>, keys: set<Pattern>, k: Pattern)
    requires k in keys
    ensures CountIn(obs, keys) >= multiset(obs)[k]
  {
    if obs != [] {
      var init := obs[..|obs| - 1];
      assert obs == init + [obs[|obs| - 1]];
      CountInAtLeast(init, keys, k);
    }
  }

  lemma {:induction false} ScaledSum(a: seq<LocalVariant>, m: multiset<Pattern>, c: real)
    requires forall i :: 0 <= i < |a| ==> a[i].frequency == c * m[a[i].snp] as real
    ensures Sum(Frequencies(a)) == c * SumCounts(Snps(a), m) as real
  {
    WeightedSum(a, m, c);
    WeightedIsScaled(Snps(a), m, c);
  }

  /** The multiplicities in m of the patterns ks, each weighted by c, added up. */
  function SumWeighted(ks: seq<Pattern>, m: multiset<Pattern>, c: real): real
  {
    if ks == [] then 0.0 else SumWeighted(ks[..|ks| - 1], m, c) + c * m[ks[|ks| - 1]] as real
  }

  lemma {:induction false} WeightedSum(a: seq<LocalVariant>, m: multiset<Pattern>, c: real)
    requires forall i :: 0 <= i < |a| ==> a[i].frequency == c * m[a[i].snp] as real
    ensures Sum(Frequencies(a)) == SumWeighted(Snps(a), m, c)
  {
    if a != [] {
      var init := a[..|a| - 1];
      WeightedSum(init, m, c);
      assert Frequencies(a)[..|a| - 1] == Frequencies(init);
      assert Snps(a)[..|a| - 1] == Snps(init);
    }
  }

  lemma {:induction false} WeightedIsScaled(ks: seq<Pattern>, m: multiset<Pattern>, c: real)
    ensures SumWeighted(ks, m, c) == c * SumCounts(ks, m) as real
  {
    if ks != [] {
      var init := ks[..|ks| - 1];
      WeightedIsScaled(init, m, c);
      ScaledStep(SumWeighted(init, m, c), SumWeighted(ks, m, c), c * m[ks[|ks| - 1]] as real, c,
        SumCounts(init, m) as real, m[ks[|ks| - 1]] as real);
    }
  }

  lemma ScaledStep(s0: real, s: real, f: real, c: real, x: real, y: real)
    requires s == s0 + f && s0 == c * x && f == c * y
    ensures s == c * (x + y)
  {
  }

  /** Every catalogue frequency is a percentage in (0, 100]. */
  lemma CatalogueFrequencyRange(obs: seq<Pattern>, h: map<Pattern, LocalVariant>, a: seq<LocalVariant>)
    requires IsCatalogue(obs, h, a)
    ensures forall i :: 0 <= i < |a| ==> 0.0 < a[i].frequency <= 100.0
  {
    forall i | 0 <= i < |a| ensures 0.0 < a[i].frequency <= 100.0 {
      var k := a[i].snp;
      CountInAtLeast(obs, h.Keys, k);
      PercentRange(multiset(obs)[k], CountIn(obs, h.Keys));
    }
  }

  /** A non-empty catalogue's frequencies add up to 100. */
  lemma CatalogueMass(obs: seq<Pattern>, h: map<Pattern, LocalVariant>, a: seq<LocalVariant>)
    requires IsCatalogue(obs, h, a) && a != []
    ensures Sum(Frequencies(a)) == 100.0
  {
    var m := multiset(obs);
    var t := CountIn(obs, h.Keys);
    var ks := Snps(a);
    assert NoDuplicates(ks);
    assert Elements(ks) == h.Keys by {
      forall k | k in h ensures k in Elements(ks) {
        var i :| 0 <= i < |a| && a[i].snp == k;
        assert ks[i] == k;
      }
    }
    SumCountsIsCountIn(obs, ks);
    CountInAtLeast(obs, h.Keys, a[0].snp);
    assert t > 0;
    forall i | 0 <= i < |a| ensures a[i].frequency == Percent(m[a[i].snp], t) {
    }
    MassFromShares(a, m, t);
  }

  lemma MassFromShares(a: seq<LocalVariant>, m: multiset<Pattern>, t: nat)
    requires t > 0 && SumCounts(Snps(a), m) == t
    requires forall i :: 0 <= i < |a| ==> a[i].frequency == Percent(m[a[i].snp], t)
    ensures Sum(Frequencies(a)) == 100.0
  {
    var c := 100.0 / t as real;
    ScaledSum(a, m, c);
    PercentOfWhole(t);
  }

  lemma PercentOfWhole(t: nat)
    requires t > 0
    ensures (100.0 / t as real) * t as real == 100.0
  {
  }

  /** Reordering a listing keeps it a listing of the same table. */
  lemma PermutedIndexes(h: map<Pattern, LocalVariant>, a: seq<LocalVariant>, b: seq<LocalVariant>)
    requires Indexes(h, a) && multiset(a) == multiset(b)
    ensures Indexes(h, b)
  {
    assert NoDuplicates(a);
    PermutationKeepsElements(a, b);
    assert |b| == |a| by { assert |multiset(a)| == |multiset(b)|; }
    forall i | 0 <= i < |b| ensures b[i].snp in h && h[b[i].snp] == b[i] {
      assert b[i] in Elements(a);
    }
    forall k | k in h ensures exists i :: 0 <= i < |b| && b[i].snp == k {
      var j :| 0 <= j < |a| && a[j].snp == k;
      assert a[j] in Elements(b);
    }
  }

  /**
   * When the three ranges lie inside the window, each sub-pattern of an
   * entry is the restriction of its full pattern, so it is a function of
   * the catalogue key.
   */
  lemma SubKeysDetermined(lv: LocalVariant, r: Read, start: real, middle1: real, middle2: real, stop: real)
    requires FromRead(lv, r, start, middle1, middle2, stop)
    requires start <= middle1 + 1.0 && middle2 - 1.0 <= stop && middle1 <= stop && start <= middle2
    ensures lv.amplSnp == Restrict(lv.snp, middle1 + 1.0, middle2 - 1.0)
    ensures lv.overlSnp1 == Restrict(lv.snp, start, middle1)
    ensures lv.overlSnp2 == Restrict(lv.snp, middle2, stop)
  {
    RestrictNested(r.snpList, start, stop, middle1 + 1.0, middle2 - 1.0);
    RestrictNested(r.snpList, start, stop, start, middle1);
    RestrictNested(r.snpList, start, stop, middle2, stop);
  }

  /**
   * Events strictly inside (middle1, middle1+1) or (middle2-1, middle2) are
   * in no sub-pattern: the three sub-patterns rebuild the full pattern
   * exactly when there are none.
   */
  lemma SubKeysRebuildKey(lv: LocalVariant, r: Read, start: real, middle1: real, middle2: real, stop: real)
    requires FromRead(lv, r, start, middle1, middle2, stop) && SortedByPos(r.snpList)
    requires start <= middle1 && middle1 + 1.0 <= middle2 - 1.0 && middle2 <= stop
    ensures lv.overlSnp1 + lv.amplSnp + lv.overlSnp2 == lv.snp
        <==> NoneBetween(lv.snp, middle1, middle1 + 1.0) && NoneBetween(lv.snp, middle2 - 1.0, middle2)
  {
    SubKeysCoverKey(r.snpList, start, middle1, middle2, stop);
  }

  class LocalVariantSet {
    var lvsH: map<Pattern, LocalVariant>
    var lvsA: seq<LocalVariant>
    /** The window patterns of the spanning reads the catalogue was built from. */
    ghost var observed: seq<Pattern>

    /** The empty set. */
    constructor Empty()
      ensures lvsH == map[] && lvsA == [] && observed == []
    {
      lvsH, lvsA, observed := map[], [], [];
    }

    /**
     * The catalogue of window [start, stop] with overlaps [start, middle1]
     * and [middle2, stop], built from population p.
     */
    constructor (p: seq<Read>, start: real, middle1: real, middle2: real, stop: real)
      ensures observed == Observed(p, start, stop)
      ensures IsCatalogue(observed, lvsH, lvsA)
    {
      ghost var obs := Observed(p, start, stop);
      var h, a := Build(p, start, middle1, middle2, stop);
      lvsH, lvsA, observed := h, a, obs;
    }

    /** sortMultinomialFrequencies: a stable sort by non-increasing frequency. */
    method SortMultinomialFrequencies()
      modifies this`lvsA
      ensures multiset(lvsA) == multiset(old(lvsA)) && SortedBy(lvsA, NegFrequency)
      ensures forall v :: WithKey(lvsA, NegFrequency, v) == WithKey(old(lvsA), NegFrequency, v)
    {
      forall v ensures WithKey(SortBy(lvsA, NegFrequency), NegFrequency, v) == WithKey(lvsA, NegFrequency, v) {
        SortByStable(lvsA, NegFrequency, v);
      }
      lvsA := SortBy(lvsA, NegFrequency);
    }
  }

  /** The three passes of the catalogue constructor, then the sort. */
  method Build(p: seq<Read>, start: real, middle1: real, middle2: real, stop: real) returns (h: map<Pattern, LocalVariant>, a: seq<LocalVariant>)
    ensures IsCatalogue(Observed(p, start, stop), h, a)
    ensures TakenFrom(h, p, start, middle1, middle2, stop)
  {
    var kept := Select(p, start, middle1, middle2, stop);
    ghost var obs := Observed(p, start, stop);
    ghost var taken := TakenFrom(kept, p, start, middle1, middle2, stop);
    var unsorted;
    h, unsorted := Normalise(kept, obs);
    assert Observed(p, start, stop) == obs;
    assert TakenFrom(kept, p, start, middle1, middle2, stop) == taken;
    a := SortBy(unsorted, NegFrequency);
    PermutedIndexes(h, unsorted, a);
    CatalogueOfKept(obs, kept, h, a);
    TakenFromRescaled(kept, h, p, start, middle1, middle2, stop);
  }

  lemma CatalogueOfKept(obs: seq<Pattern>, kept: map<Pattern, LocalVariant>, h: map<Pattern, LocalVariant>, a: seq<LocalVariant>)
    requires KeptCounts(kept, obs) && h.Keys == kept.Keys
    requires forall k :: k in h ==> h[k] == kept[k].(frequency := Percent(multiset(obs)[k], CountIn(obs, h.Keys)))
    requires Indexes(h, a) && SortedBy(a, NegFrequency)
    ensures IsCatalogue(obs, h, a)
  {
  }

  /** The grouping and pruning passes. */
  method Select(p: seq<Read>, start: real, middle1: real, middle2: real, stop: real) returns (kept: map<Pattern, LocalVariant>)
    ensures KeptCounts(kept, Observed(p, start, stop))
    ensures TakenFrom(kept, p, start, middle1, middle2, stop)
  {
    var counted := Group(p, start, middle1, middle2, stop);
    kept := Prune(counted);
    PrunedCounts(counted, kept, Observed(p, start, stop));
    TakenFromRescaled(counted, kept, p, start, middle1, middle2, stop);
  }

  lemma PrunedCounts(counted: map<Pattern, LocalVariant>, kept: map<Pattern, LocalVariant>, obs: seq<Pattern>)
    requires Counts(counted, obs)
    requires forall k :: k in kept <==> k in counted && counted[k].frequency >= 2.0
    requires forall k :: k in kept ==> kept[k] == counted[k]
    ensures KeptCounts(kept, obs)
  {
    forall k ensures k in kept <==> multiset(obs)[k] >= 2 {
      if multiset(obs)[k] >= 2 {
        assert k in multiset(obs);
      }
    }
  }

  /** kept holds the patterns of obs seen at least twice, each with its count. */
  ghost predicate KeptCounts(kept: map<Pattern, LocalVariant>, obs: seq<Pattern>)
  {
    && (forall k :: k in kept <==> multiset(obs)[k] >= 2)
    && (forall k :: k in kept ==> kept[k].snp == k && kept[k].frequency == multiset(obs)[k] as real)
  }

  /** Changing frequencies and dropping entries keeps every entry's provenance. */
  lemma TakenFromRescaled(h0: map<Pattern, LocalVariant>, h: map<Pattern, LocalVariant>, p: seq<Read>, start: real, middle1: real, middle2: real, stop: real)
    requires TakenFrom(h0, p, start, middle1, middle2, stop)
    requires forall k :: k in h ==> k in h0 && h[k].(frequency := 0.0) == h0[k].(frequency := 0.0)
    ensures TakenFrom(h, p, start, middle1, middle2, stop)
  {
    forall k | k in h ensures exists j :: 0 <= j < |p| && FromRead(h[k], p[j], start, middle1, middle2, stop) {
      var j :| 0 <= j < |p| && FromRead(h0[k], p[j], start, middle1, middle2, stop);
      assert FromRead(h[k], p[j], start, middle1, middle2, stop);
    }
  }

  /** The grouping pass: spanning reads counted by full pattern. */
  method Group(p: seq<Read>, start: real, middle1: real, middle2: real, stop: real) returns (h: map<Pattern, LocalVariant>)
    ensures Counts(h, Observed(p, start, stop))
    ensures TakenFrom(h, p, start, middle1, middle2, stop)
  {
    h := map[];
    ghost var obs: seq<Pattern> := [];
    var i := 0;
    while i < |p|
      invariant 0 <= i <= |p| && obs == Observed(p[..i], start, stop)
      invariant Counts(h, obs)
      invariant TakenFrom(h, p[..i], start, middle1, middle2, stop)
    {
      h, obs := GroupStep(h, obs, p, i, start, middle1, middle2, stop);
      i := i + 1;
    }
    assert p[..i] == p;
  }

  /** The grouping pass after read i. */
  method GroupStep(h: map<Pattern, LocalVariant>, ghost obs: seq<Pattern>, p: seq<Read>, i: nat, start: real, middle1: real, middle2: real, stop: real)
    returns (h': map<Pattern, LocalVariant>, ghost obs': seq<Pattern>)
    requires i < |p| && obs == Observed(p[..i], start, stop)
    requires Counts(h, obs) && TakenFrom(h, p[..i], start, middle1, middle2, stop)
    ensures obs' == Observed(p[..i + 1], start, stop)
    ensures Counts(h', obs') && TakenFrom(h', p[..i + 1], start, middle1, middle2, stop)
  {
    ObservedStep(p, i, start, stop);
    h', obs' := AddRead(h, obs, p[i], start, middle1, middle2, stop);
    TakenFromStep(h, h', p, i, start, middle1, middle2, stop);
  }

  /** Every entry of h has the sub-patterns of some read of p. */
  ghost predicate TakenFrom(h: map<Pattern, LocalVariant>, p: seq<Read>, start: real, middle1: real, middle2: real, stop: real)
    reads set r | r in p
  {
    forall k :: k in h ==> exists j :: 0 <= j < |p| && FromRead(h[k], p[j], start, middle1, middle2, stop)
  }

  /** Every entry of h' comes from r or keeps the sub-patterns it had in h. */
  ghost predicate SameOrFrom(h: map<Pattern, LocalVariant>, h': map<Pattern, LocalVariant>, r: Read, start: real, middle1: real, middle2: real, stop: real)
    reads r
  {
    forall k :: k in h' ==>
      FromRead(h'[k], r, start, middle1, middle2, stop) || (k in h && h'[k].(frequency := 0.0) == h[k].(frequency := 0.0))
  }

  lemma TakenFromStep(h0: map<Pattern, LocalVariant>, h: map<Pattern, LocalVariant>, p: seq<Read>, i: nat, start: real, middle1: real, middle2: real, stop: real)
    requires i < |p|
    requires TakenFrom(h0, p[..i], start, middle1, middle2, stop)
    requires SameOrFrom(h0, h, p[i], start, middle1, middle2, stop)
    ensures TakenFrom(h, p[..i + 1], start, middle1, middle2, stop)
  {
    var q, q0 := p[..i + 1], p[..i];
    forall k | k in h ensures exists j :: 0 <= j < |q| && FromRead(h[k], q[j], start, middle1, middle2, stop) {
      if FromRead(h[k], p[i], start, middle1, middle2, stop) {
        assert q[i] == p[i];
      } else {
        var j :| 0 <= j < |q0| && FromRead(h0[k], q0[j], start, middle1, middle2, stop);
        assert q[j] == q0[j];
      }
    }
  }

  lemma ObservedStep(p: seq<Read>, i: nat, start: real, stop: real)
    requires i < |p|
    ensures Observed(p[..i + 1], start, stop)
        == Observed(p[..i], start, stop) + (if p[i].Spans(start, stop) then [p[i].GetSnpString(start, stop)] else [])
  {
    assert p[..i + 1][..i] == p[..i];
  }

  /** h holds the patterns of obs, each with its count. */
  ghost predicate Counts(h: map<Pattern, LocalVariant>, obs: seq<Pattern>)
  {
    && (forall k :: k in h <==> k in multiset(obs))
    && (forall k :: k in h ==> h[k].snp == k && h[k].frequency == multiset(obs)[k] as real)
  }

  /** One step of the grouping pass: a spanning read opens or bumps the entry of its pattern. */
  method AddRead(h: map<Pattern, LocalVariant>, ghost obs: seq<Pattern>, r: Read, start: real, middle1: real, middle2: real, stop: real)
    returns (h': map<Pattern, LocalVariant>, ghost obs': seq<Pattern>)
    requires Counts(h, obs)
    ensures obs' == obs + (if r.Spans(start, stop) then [r.GetSnpString(start, stop)] else [])
    ensures Counts(h', obs')
    ensures SameOrFrom(h, h', r, start, middle1, middle2, stop)
  {
    h', obs' := h, obs;
    if r.Spans(start, stop) {
      var snpA := r.GetSnpString(middle1 + 1.0, middle2 - 1.0);
      var snpO1 := r.GetSnpString(start, middle1);
      var snpO2 := r.GetSnpString(middle2, stop);
      var snp := r.GetSnpString(start, stop);
      ghost var m := multiset(obs);
      obs' := obs + [snp];
      assert multiset(obs') == m + multiset{snp};
      ghost var c := m[snp];
      if snp !in h {
        var lv := LocalVariant(snpA, snpO1, snpO2, snp, 1.0);
        assert FromRead(lv, r, start, middle1, middle2, stop);
        h' := h[snp := lv];
      } else {
        var lv := h[snp];
        h' := h[snp := lv.(frequency := lv.frequency + 1.0)];
      }
      assert h'[snp].frequency == (c + 1) as real;
      forall k | k in h' ensures h'[k].snp == k && h'[k].frequency == multiset(obs')[k] as real {
        if k != snp {
          assert h'[k] == h[k] && multiset(obs')[k] == m[k];
        }
      }
    }
  }

  /** The pruning pass: patterns counted fewer than twice are dropped. */
  method Prune(counted: map<Pattern, LocalVariant>) returns (h: map<Pattern, LocalVariant>)
    ensures forall k :: k in h <==> k in counted && counted[k].frequency >= 2.0
    ensures forall k :: k in h ==> h[k] == counted[k]
  {
    h := counted;
    var keys := Enumerate(counted.Keys);
    var i := 0;
    while i < |keys|
      invariant 0 <= i <= |keys|
      invariant forall k :: k in h <==> k in counted && (k in keys[..i] ==> counted[k].frequency >= 2.0)
      invariant forall k :: k in h ==> h[k] == counted[k]
    {
      var lv := h[keys[i]];
      if lv.frequency < 2.0 {
        h := h - {keys[i]};
      }
      assert keys[..i + 1] == keys[..i] + [keys[i]];
      i := i + 1;
    }
    assert keys[..i] == keys;
  }

  /** The normalising pass: counts become percentages of the kept reads. */
  method Normalise(kept: map<Pattern, LocalVariant>, ghost obs: seq<Pattern>) returns (h: map<Pattern, LocalVariant>, a: seq<LocalVariant>)
    requires KeptCounts(kept, obs)
    ensures h.Keys == kept.Keys && Indexes(h, a)
    ensures forall k :: k in h ==> h[k] == kept[k].(frequency := Percent(multiset(obs)[k], CountIn(obs, h.Keys)))
  {
    var keys := Enumerate(kept.Keys);
    var tot := Total(kept, keys, obs);
    h, a := Rescale(kept, keys, tot, obs);
  }

  /** The total count of the kept entries. */
  method Total(kept: map<Pattern, LocalVariant>, keys: seq<Pattern>, ghost obs: seq<Pattern>) returns (tot: real)
    requires NoDuplicates(keys) && forall k :: k in kept <==> k in keys
    requires forall k :: k in kept ==> kept[k].frequency == multiset(obs)[k] as real
    ensures tot == CountIn(obs, kept.Keys) as real
  {
    ghost var m := multiset(obs);
    tot := 0.0;
    var i := 0;
    while i < |keys|
      invariant 0 <= i <= |keys|
      invariant tot == SumCounts(keys[..i], m) as real
    {
      assert keys[..i + 1][..i] == keys[..i];
      tot := tot + kept[keys[i]].frequency;
      i := i + 1;
    }
    assert keys[..i] == keys;
    assert Elements(keys) == kept.Keys;
    SumCountsIsCountIn(obs, keys);
  }

  /** Each kept entry, in key order, rescaled to a percentage of tot. */
  method Rescale(kept: map<Pattern, LocalVariant>, keys: seq<Pattern>, tot: real, ghost obs: seq<Pattern>)
    returns (h: map<Pattern, LocalVariant>, a: seq<LocalVariant>)
    requires NoDuplicates(keys) && |keys| == |kept| && forall k :: k in kept <==> k in keys
    requires forall k :: k in kept <==> multiset(obs)[k] >= 2
    requires forall k :: k in kept ==> kept[k].snp == k && kept[k].frequency == multiset(obs)[k] as real
    requires tot == CountIn(obs, kept.Keys) as real
    ensures h.Keys == kept.Keys && Indexes(h, a)
    ensures forall k :: k in h ==> h[k] == kept[k].(frequency := Percent(multiset(obs)[k], CountIn(obs, kept.Keys)))
  {
    h := kept;
    a := [];
    var i := 0;
    while i < |keys|
      invariant 0 <= i <= |keys| && RescaledPrefix(kept, keys, i, h, a, obs)
    {
      h, a := RescaleStep(kept, keys, i, h, a, tot, obs);
      i := i + 1;
    }
    RescaledAll(kept, keys, h, a, obs);
  }

  /** The first i keys of keys are rescaled in h and listed in a; the rest are as kept. */
  ghost predicate RescaledPrefix(kept: map<Pattern, LocalVariant>, keys: seq<Pattern>, i: nat, h: map<Pattern, LocalVariant>, a: seq<LocalVariant>, obs: seq<Pattern>)
    requires i <= |keys|
  {
    var m, t := multiset(obs), CountIn(obs, kept.Keys);
    && h.Keys == kept.Keys
    && |a| == i && (forall j :: 0 <= j < i ==> keys[j] in h && a[j] == h[keys[j]])
    && forall k :: k in h ==> h[k] == if k in keys[..i] then kept[k].(frequency := Percent(m[k], t)) else kept[k]
  }

  /** One turn of the rescaling loop. */
  method RescaleStep(kept: map<Pattern, LocalVariant>, keys: seq<Pattern>, i: nat, h: map<Pattern, LocalVariant>, a: seq<LocalVariant>, tot: real, ghost obs: seq<Pattern>)
    returns (h': map<Pattern, LocalVariant>, a': seq<LocalVariant>)
    requires i < |keys| && NoDuplicates(keys) && forall k :: k in kept <==> k in keys
    requires forall k :: k in kept <==> multiset(obs)[k] >= 2
    requires forall k :: k in kept ==> kept[k].frequency == multiset(obs)[k] as real
    requires tot == CountIn(obs, kept.Keys) as real
    requires RescaledPrefix(kept, keys, i, h, a, obs)
    ensures RescaledPrefix(kept, keys, i + 1, h', a', obs)
  {
    ghost var m, t := multiset(obs), CountIn(obs, kept.Keys);
    var k := keys[i];
    assert k !in keys[..i];
    var lv := h[k];
    CountInAtLeast(obs, kept.Keys, k);
    PercentQuotient(m[k], t);
    lv := lv.(frequency := 100.0 * lv.frequency / tot);
    h' := h[k := lv];
    a' := a + [lv];
    assert keys[..i + 1] == keys[..i] + [k];
    forall j | 0 <= j < i ensures a'[j] == h'[keys[j]] {
      assert keys[j] in keys[..i];
    }
  }

  lemma RescaledAll(kept: map<Pattern, LocalVariant>, keys: seq<Pattern>, h: map<Pattern, LocalVariant>, a: seq<LocalVariant>, obs: seq<Pattern>)
    requires NoDuplicates(keys) && |keys| == |kept| && forall k :: k in kept <==> k in keys
    requires forall k :: k in kept ==> kept[k].snp == k
    requires RescaledPrefix(kept, keys, |keys|, h, a, obs)
    ensures h.Keys == kept.Keys && Indexes(h, a)
    ensures forall k :: k in h ==> h[k] == kept[k].(frequency := Percent(multiset(obs)[k], CountIn(obs, kept.Keys)))
  {
    assert keys[..|keys|] == keys;
    forall k | k in h ensures h[k] == kept[k].(frequency := Percent(multiset(obs)[k], CountIn(obs, kept.Keys))) {
      assert k in keys;
    }
    forall j | 0 <= j < |a| ensures a[j].snp == keys[j] {
      assert keys[j] in keys;
    }
    ListedByKeys(h, a, keys);
  }

  /** A listing of h in the order of its distinct keys indexes h. */
  lemma ListedByKeys(h: map<Pattern, LocalVariant>, a: seq<LocalVariant>, keys: seq<Pattern>)
    requires NoDuplicates(keys) && |keys| == |h| && forall k :: k in h <==> k in keys
    requires |a| == |keys| && forall j :: 0 <= j < |a| ==> keys[j] in h && a[j] == h[keys[j]] && a[j].snp == keys[j]
    ensures Indexes(h, a)
  {
    forall k | k in h ensures exists j :: 0 <= j < |a| && a[j].snp == k {
      var j :| 0 <= j < |keys| && keys[j] == k;
      assert a[j].snp == k;
    }
  }

  lemma PercentQuotient(c: nat, t: nat)
    requires t > 0
    ensures 100.0 * c as real / t as real == Percent(c, t)
  {
  }
}
