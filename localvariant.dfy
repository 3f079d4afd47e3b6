/**
 * One entry of a window's variant catalogue (class LocalVariant): the full
 * pattern of the window, its left-overlap, core and right-overlap
 * sub-patterns, and its percentage frequency.
 */
module LocalVariants {
  import opened Common
  import opened Snp
  import opened Patterns

  datatype LocalVariant = LocalVariant(
    amplSnp: Pattern,    // events in the window core
    overlSnp1: Pattern,  // events in the overlap with the previous window
    overlSnp2: Pattern,  // events in the overlap with the next window
    snp: Pattern,        // all events of the window (the catalogue key)
    frequency: real)

  /** a.overlaps(b): a's right overlap reads the same as b's left overlap. */
  predicate Overlaps(a: LocalVariant, b: LocalVariant)
  {
    a.overlSnp2 == b.overlSnp1
  }

  /** The relation is directional: it can hold one way and fail the other. */
  lemma OverlapsIsDirectional()
    ensures exists a, b :: Overlaps(a, b) && !Overlaps(b, a)
  {
    var e := Event('A', 1.0, 'C');
    var a := LocalVariant([], [Event('G', 2.0, 'T')], [e], [e], 50.0);
    var b := LocalVariant([], [e], [], [e], 50.0);
    assert Overlaps(a, b) && !Overlaps(b, a);
  }

  /** The first index at or after i whose entry is a mate, or -1. */
  function MateFrom(v: LocalVariant, lvs: seq<LocalVariant>, i: nat, forward: bool): (j: int)
    requires i <= |lvs|
    ensures j == -1 || i <= j < |lvs|
    ensures j == -1 <==> forall k :: i <= k < |lvs| ==> !IsMate(v, lvs[k], forward)
    ensures j >= 0 ==> IsMate(v, lvs[j], forward) && forall k :: i <= k < j ==> !IsMate(v, lvs[k], forward)
    decreases |lvs| - i
  {
    if i == |lvs| then -1
    else if IsMate(v, lvs[i], forward) then i
    else MateFrom(v, lvs, i + 1, forward)
  }

  predicate IsMate(v: LocalVariant, w: LocalVariant, forward: bool)
  {
    if forward then Overlaps(v, w) else Overlaps(w, v)
  }

  /** searchMateFwd: the smallest j with v.overlaps(lvs[j]), or -1. */
  function SearchMateFwd(v: LocalVariant, lvs: seq<LocalVariant>): (j: int)
    ensures -1 <= j < |lvs|
    ensures j == -1 <==> forall k :: 0 <= k < |lvs| ==> !Overlaps(v, lvs[k])
    ensures j >= 0 ==> Overlaps(v, lvs[j]) && forall k :: 0 <= k < j ==> !Overlaps(v, lvs[k])
  {
    MateFrom(v, lvs, 0, true)
  }

  /** searchMateRwd: the smallest j with lvs[j].overlaps(v), or -1. */
  function SearchMateRwd(v: LocalVariant, lvs: seq<LocalVariant>): (j: int)
    ensures -1 <= j < |lvs|
    ensures j == -1 <==> forall k :: 0 <= k < |lvs| ==> !Overlaps(lvs[k], v)
    ensures j >= 0 ==> Overlaps(lvs[j], v) && forall k :: 0 <= k < j ==> !Overlaps(lvs[k], v)
  {
    MateFrom(v, lvs, 0, false)
  }

  /** LocalVariant.distance: the token distance of the two full patterns. */
  function VariantDistance(a: LocalVariant, b: LocalVariant): nat
  {
    Distance(a.snp, b.snp)
  }

  /** LocalVariant.snpDifferences: the differing tokens of the two full patterns. */
  function SnpDifferences(a: LocalVariant, b: LocalVariant): (d: seq<Token>)
    ensures |d| == VariantDistance(a, b)
  {
    DifferencesMatchDistance(a.snp, b.snp);
    Differences(a.snp, b.snp)
  }

  /**
   * classify: the first cluster at the least distance, or -1 when there are
   * none.  The loop keeps an index only when its distance is strictly below
   * the best so far; Double.MAX_VALUE as the first best is "no index yet".
   */
  method Classify(v: LocalVariant, cs: seq<LocalVariant>) returns (ind: int)
    ensures -1 <= ind < |cs|
    ensures ind == -1 <==> cs == []
    ensures ind >= 0 ==> (forall j :: 0 <= j < |cs| ==> VariantDistance(v, cs[ind]) <= VariantDistance(v, cs[j]))
    ensures ind >= 0 ==> (forall j :: 0 <= j < ind ==> VariantDistance(v, cs[j]) > VariantDistance(v, cs[ind]))
  {
    ind := -1;
    var dist := 0;
    for i := 0 to |cs|
      invariant -1 <= ind < i
      invariant ind == -1 <==> i == 0
      invariant ind >= 0 ==> dist == VariantDistance(v, cs[ind])
      invariant ind >= 0 ==> (forall j :: 0 <= j < i ==> dist <= VariantDistance(v, cs[j]))
      invariant ind >= 0 ==> (forall j :: 0 <= j < ind ==> VariantDistance(v, cs[j]) > dist)
    {
      var d := VariantDistance(v, cs[i]);
      if ind == -1 || d < dist {
        ind, dist := i, d;
      }
    }
  }

  // ------------------------------------------------------------ lengthUpdate

  /** A token whose text contains "-_": the reference side is a gap. */
  predicate IsInsertion(t: Token) { t.Tok? && t.event.ref == '-' }

  /** A token whose text contains "_-": the read side is a gap. */
  predicate IsDeletion(t: Token) { t.Tok? && t.event.base == '-' }

  /** Appends each selected token of xs that acc does not hold yet (the list-building loops). */
  function Gather(xs: seq<Token>, select: Token -> bool, acc: seq<Token>): seq<Token>
  {
    if xs == [] then acc
    else Gather(xs[1..], select, if select(xs[0]) && xs[0] !in acc then acc + [xs[0]] else acc)
  }

  /** How many tokens of ds occur in both token lists (the indexOf tests). */
  function CountShared(ds: seq<Token>, ta: seq<Token>, tb: seq<Token>): nat
  {
    if ds == [] then 0 else (if ds[0] in ta && ds[0] in tb then 1 else 0) + CountShared(ds[1..], ta, tb)
  }

  /** LocalVariant.lengthUpdate, on the split token lists of the two patterns. */
  function TokenLengthUpdate(ta: seq<Token>, tb: seq<Token>): int
  {
    var dels := Gather(tb, IsDeletion, Gather(ta, IsDeletion, []));
    var inss := Gather(tb, IsInsertion, Gather(ta, IsInsertion, []));
    |inss| - CountShared(dels, ta, tb)
  }

  /** LocalVariant.lengthUpdate. */
  function LengthUpdate(a: LocalVariant, b: LocalVariant): int
  {
    TokenLengthUpdate(Tokens(a.snp), Tokens(b.snp))
  }

  function Selected(ts: seq<Token>, select: Token -> bool): set<Token>
  {
    set t | t in ts && select(t)
  }

  lemma {:induction false} GatherDistinct(xs: seq<Token>, select: Token -> bool, acc: seq<Token>)
    requires NoDuplicates(acc)
    ensures NoDuplicates(Gather(xs, select, acc))
    ensures Elements(Gather(xs, select, acc)) == Elements(acc) + Selected(xs, select)
  {
    if xs != [] {
      var acc' := if select(xs[0]) && xs[0] !in acc then acc + [xs[0]] else acc;
      assert Elements(acc') == Elements(acc) + (if select(xs[0]) then {xs[0]} else {});
      GatherDistinct(xs[1..], select, acc');
      assert xs == [xs[0]] + xs[1..];
      assert Selected(xs, select) == (if select(xs[0]) then {xs[0]} else {}) + Selected(xs[1..], select);
    }
  }

  lemma {:induction false} CountSharedCard(ds: seq<Token>, ta: seq<Token>, tb: seq<Token>)
    requires NoDuplicates(ds)
    ensures CountShared(ds, ta, tb) == |Elements(ds) * (Elements(ta) * Elements(tb))|
  {
    if ds != [] {
      var d, t := ds[0], ds[1..];
      var both := Elements(ta) * Elements(tb);
      assert NoDuplicates(t);
      CountSharedCard(t, ta, tb);
      ElementsCons(ds);
      var rest := Elements(t) * both;
      assert d !in rest;
      if d in both {
        assert Elements(ds) * both == {d} + rest;
        CardAddOne(d, rest);
      } else {
        assert Elements(ds) * both == rest;
      }
    }
  }

  /**
   * lengthUpdate is the number of distinct insertion tokens of the two
   * patterns minus the number of deletion tokens they share.
   */
  lemma {:induction false} LengthUpdateCounts(a: LocalVariant, b: LocalVariant)
    ensures LengthUpdate(a, b)
      == |Selected(Tokens(a.snp), IsInsertion) + Selected(Tokens(b.snp), IsInsertion)|
       - |Selected(Tokens(a.snp), IsDeletion) * Selected(Tokens(b.snp), IsDeletion)|
  {
    TokenLengthUpdateCounts(Tokens(a.snp), Tokens(b.snp));
  }

  lemma {:induction false} TokenLengthUpdateCounts(ta: seq<Token>, tb: seq<Token>)
    ensures TokenLengthUpdate(ta, tb)
      == |Selected(ta, IsInsertion) + Selected(tb, IsInsertion)| - |Selected(ta, IsDeletion) * Selected(tb, IsDeletion)|
  {
    InsertionsGathered(ta, tb);
    DeletionsShared(ta, tb);
  }

  lemma InsertionsGathered(ta: seq<Token>, tb: seq<Token>)
    ensures |Gather(tb, IsInsertion, Gather(ta, IsInsertion, []))| == |Selected(ta, IsInsertion) + Selected(tb, IsInsertion)|
  {
    GatherDistinct(ta, IsInsertion, []);
    GatherDistinct(tb, IsInsertion, Gather(ta, IsInsertion, []));
    DistinctCard(Gather(tb, IsInsertion, Gather(ta, IsInsertion, [])));
  }

  lemma DeletionsShared(ta: seq<Token>, tb: seq<Token>)
    ensures CountShared(Gather(tb, IsDeletion, Gather(ta, IsDeletion, [])), ta, tb) == |Selected(ta, IsDeletion) * Selected(tb, IsDeletion)|
  {
    var dels := Gather(tb, IsDeletion, Gather(ta, IsDeletion, []));
    GatherDistinct(ta, IsDeletion, []);
    GatherDistinct(tb, IsDeletion, Gather(ta, IsDeletion, []));
    CountSharedCard(dels, ta, tb);
    SharedDeletions(Elements(dels), Elements(ta), Elements(tb), Selected(ta, IsDeletion), Selected(tb, IsDeletion));
  }

  lemma SharedDeletions(ds: set<Token>, ea: set<Token>, eb: set<Token>, da: set<Token>, db: set<Token>)
    requires ds == da + db && da <= ea && db <= eb
    requires forall t :: t in da ==> IsDeletion(t)
    requires forall t :: t in db ==> IsDeletion(t)
    requires forall t :: t in ea && IsDeletion(t) ==> t in da
    requires forall t :: t in eb && IsDeletion(t) ==> t in db
    ensures ds * (ea * eb) == da * db
  {
  }

  lemma {:induction false} DistinctCard(s: seq<Token>)
    requires NoDuplicates(s)
    ensures |Elements(s)| == |s|
  {
    if s != [] {
      assert NoDuplicates(s[1..]);
      DistinctCard(s[1..]);
      assert s[0] !in s[1..];
      assert Elements(s) == {s[0]} + Elements(s[1..]) by { assert s == [s[0]] + s[1..]; }
    }
  }
}
