/**
 * An aligned read (class Read): its reference span, its variant events as
 * a list, a hash keyed by (reference base, position) and a pattern string.
 */
module Reads {
  import opened Common
  import opened Snp
  import opened Patterns
  import opened Sorting
  import opened Bases

  /** The hash key "ref_pos" of an event, as a value. */
  datatype Key = Key(ref: char, pos: real)

  function KeyOf(e: Event): Key { Key(e.ref, e.pos) }

  /** The float 0.000000001f that setSNP uses as its insertion step. */
  const Eps: real := 9.9999997171806853657471947371959686279296875e-10

  // ------------------------------------------------------------ setSNP, declaratively

  predicate IsInsertionColumn(q: string, r: string, i: nat)
    requires i < |q| == |r|
  {
    q[i] != r[i] && r[i] == '-'
  }

  /** Insertion columns among the first n. */
  function InsBefore(q: string, r: string, n: nat): (c: nat)
    requires n <= |q| == |r|
    ensures c <= n
  {
    if n == 0 then 0 else InsBefore(q, r, n - 1) + (if IsInsertionColumn(q, r, n - 1) then 1 else 0)
  }

  /** Length of the run of insertion columns that ends the first n columns. */
  function RunLength(q: string, r: string, n: nat): (k: nat)
    requires n <= |q| == |r|
    ensures k <= n
  {
    if n == 0 || !IsInsertionColumn(q, r, n - 1) then 0 else RunLength(q, r, n - 1) + 1
  }

  /** The reference coordinate of column i: start + i minus the insertions before it. */
  function ColumnPos(start: real, q: string, r: string, i: nat): real
    requires i < |q| == |r|
  {
    start + i as real - InsBefore(q, r, i) as real
  }

  /**
   * The coordinate an insertion run hangs from: that of the column before
   * the run, or 0 when the run opens the alignment.
   */
  function Anchor(start: real, q: string, r: string, n: nat): real
    requires n <= |q| == |r|
  {
    var c := n - RunLength(q, r, n);
    if c == 0 then 0.0 else ColumnPos(start, q, r, c - 1)
  }

  /** 1 + 2 + ... + k. */
  function Tri(k: nat): nat
  {
    if k == 0 then 0 else Tri(k - 1) + k
  }

  lemma {:induction false} TriClosedForm(k: nat)
    ensures 2 * Tri(k) == k * (k + 1)
  {
    if k > 0 {
      TriClosedForm(k - 1);
    }
  }

  /** The event of a mismatching column. */
  function ColumnEvent(start: real, q: string, r: string, i: nat): Event
    requires i < |q| == |r|
  {
    if r[i] != '-' then Event(r[i], ColumnPos(start, q, r, i), q[i])
    else Event('-', Anchor(start, q, r, i + 1) + Eps * Tri(RunLength(q, r, i + 1)) as real, q[i])
  }

  /** The events of the first n columns: one per column where query and reference differ. */
  function AlignmentEvents(start: real, q: string, r: string, n: nat): (es: Pattern)
    requires n <= |q| == |r|
  {
    if n == 0 then []
    else AlignmentEvents(start, q, r, n - 1) + (if q[n - 1] != r[n - 1] then [ColumnEvent(start, q, r, n - 1)] else [])
  }

  /** Mismatching columns among the first n. */
  function Mismatches(q: string, r: string, n: nat): nat
    requires n <= |q| == |r|
  {
    if n == 0 then 0 else Mismatches(q, r, n - 1) + (if q[n - 1] != r[n - 1] then 1 else 0)
  }

  /** The hash setSNP fills: each event's key mapped to its base, later puts overwriting. */
  function HashOf(es: Pattern): map<Key, char>
  {
    if es == [] then map[] else HashOf(es[..|es| - 1])[KeyOf(es[|es| - 1]) := es[|es| - 1].base]
  }

  /** setSNP emits exactly one event per mismatching column. */
  lemma {:induction false} OneEventPerMismatch(start: real, q: string, r: string, n: nat)
    requires n <= |q| == |r|
    ensures |AlignmentEvents(start, q, r, n)| == Mismatches(q, r, n)
  {
    if n > 0 {
      OneEventPerMismatch(start, q, r, n - 1);
    }
  }

  /**
   * An insertion after k consecutive insertion columns sits k(k+1)/2 steps
   * of Eps after its anchor, hence strictly between the anchor and the
   * anchor plus one while k(k+1) stays below 2*10^9.
   */
  lemma InsertionBetweenAnchors(start: real, q: string, r: string, i: nat)
    requires i < |q| == |r| && IsInsertionColumn(q, r, i)
    requires RunLength(q, r, i + 1) * (RunLength(q, r, i + 1) + 1) < 2000000000
    ensures Anchor(start, q, r, i + 1) < ColumnEvent(start, q, r, i).pos < Anchor(start, q, r, i + 1) + 1.0
  {
    var k := RunLength(q, r, i + 1);
    TriClosedForm(k);
    assert 1 <= Tri(k) < 1000000000;
  }

  /** Within a run the gap between consecutive insertions grows by Eps each time. */
  lemma InsertionStepGrows(start: real, q: string, r: string, i: nat)
    requires i + 1 < |q| == |r| && IsInsertionColumn(q, r, i) && IsInsertionColumn(q, r, i + 1)
    ensures ColumnEvent(start, q, r, i + 1).pos == ColumnEvent(start, q, r, i).pos + Eps * RunLength(q, r, i + 2) as real
    ensures RunLength(q, r, i + 2) == RunLength(q, r, i + 1) + 1
  {
  }

  // ------------------------------------------------------------ correct, declaratively

  /** What correct does with the entry of base b: keep or add it (Some) or drop it (None). */
  function Decision(h: map<Key, char>, start: real, stop: real, b: Base): Option<char>
    reads b
  {
    var k := Key(b.reference, b.position);
    if k in h then
      (if IsChannel(h[k]) && Channel(b.Tally(), h[k]) > 0.0 then Some(h[k]) else None)
    else if start <= b.position <= stop && b.reference != b.consensus
      && IsChannel(b.reference) && Channel(b.Tally(), b.reference) == 0.0
    then Some(b.consensus)
    else None
  }

  /** Every base is filed under its own position. */
  predicate FiledByPosition(baseSet: map<real, Base>)
    reads baseSet.Values
  {
    forall p :: p in baseSet ==> baseSet[p].position == p
  }

  lemma CorrectedOverStep(h: map<Key, char>, start: real, stop: real, baseSet: map<real, Base>, done: set<real>, p: real)
    requires FiledByPosition(baseSet) && p in baseSet && p !in done
    ensures var d := Decision(h, start, stop, baseSet[p]);
      var old_ := CorrectedOver(h, start, stop, baseSet, done);
      CorrectedOver(h, start, stop, baseSet, done + {p})
        == if d.Some? then old_[Key(baseSet[p].reference, p) := d.value] else old_
  {
  }

  /** One base more: the partial hash gains the entry its decision asks for. */
  lemma RebuildStep(h: map<Key, char>, start: real, stop: real, baseSet: map<real, Base>, done: set<real>, p: real,
                    nh: map<Key, char>, entry: Option<char>)
    requires FiledByPosition(baseSet) && p in baseSet && p !in done
    requires nh == CorrectedOver(h, start, stop, baseSet, done)
    requires entry == Decision(h, start, stop, baseSet[p])
    ensures CorrectedOver(h, start, stop, baseSet, done + {p})
      == if entry.Some? then nh[Key(baseSet[p].reference, baseSet[p].position) := entry.value] else nh
  {
    CorrectedOverStep(h, start, stop, baseSet, done, p);
  }

  /** The keys of the bases at positions ps. */
  function BaseKeys(baseSet: map<real, Base>, ps: set<real>): (ks: set<Key>)
    requires FiledByPosition(baseSet)
    reads baseSet.Values
    ensures forall k :: k in ks <==> k.pos in ps && k.pos in baseSet && k.ref == baseSet[k.pos].reference
  {
    set p | p in ps && p in baseSet :: Key(baseSet[p].reference, p)
  }

  /** The new hash correct builds from the bases at positions ps. */
  function CorrectedOver(h: map<Key, char>, start: real, stop: real, baseSet: map<real, Base>, ps: set<real>): map<Key, char>
    requires FiledByPosition(baseSet)
    reads baseSet.Values
  {
    map k | k in BaseKeys(baseSet, ps) && Decision(h, start, stop, baseSet[k.pos]).Some?
      :: Decision(h, start, stop, baseSet[k.pos]).value
  }

  /**
   * The hash after correct: kept entries carry a base whose channel count is
   * positive, added entries carry the consensus of an in-span base whose
   * reference channel is empty, and every key comes from a base.
   */
  function CorrectedHash(h: map<Key, char>, start: real, stop: real, baseSet: map<real, Base>): (nh: map<Key, char>)
    requires FiledByPosition(baseSet)
    reads baseSet.Values
    ensures forall k :: k in nh ==> k.pos in baseSet && k == Key(baseSet[k.pos].reference, k.pos)
    ensures forall k :: k in nh && k in h ==> nh[k] == h[k] && IsChannel(h[k]) && Channel(baseSet[k.pos].Tally(), h[k]) > 0.0
    ensures forall k :: k in nh && k !in h ==>
      var b := baseSet[k.pos];
      && nh[k] == b.consensus && start <= k.pos <= stop && b.reference != b.consensus
      && IsChannel(b.reference) && Channel(b.Tally(), b.reference) == 0.0
  {
    CorrectedOver(h, start, stop, baseSet, baseSet.Keys)
  }

  /** The events a hash stands for. */
  function HashEvents(h: map<Key, char>): set<Event>
  {
    set k | k in h :: Event(k.ref, k.pos, h[k])
  }

  function Position(e: Event): real { e.pos }

  /** The per-base test of correct, as the source spells it out channel by channel. */
  function Decide(snpHash: map<Key, char>, start: real, stop: real, b: Base): (entry: Option<char>)
    reads b
    ensures entry == Decision(snpHash, start, stop, b)
  {
    var key := Key(b.reference, b.position);
    if key in snpHash then
      var c := snpHash[key];
      if (c == 'A' && b.A > 0.0) || (c == 'C' && b.C > 0.0) || (c == 'G' && b.G > 0.0)
        || (c == 'T' && b.T > 0.0) || (c == '-' && b.del > 0.0)
      then Some(c)
      else None
    else if start <= b.position && stop >= b.position && b.reference != b.consensus
      && ((b.A == 0.0 && b.reference == 'A') || (b.C == 0.0 && b.reference == 'C') || (b.G == 0.0 && b.reference == 'G')
          || (b.T == 0.0 && b.reference == 'T') || (b.del == 0.0 && b.reference == '-'))
    then Some(b.consensus)
    else None
  }

  /** The new hash of correct, base by base in keySet order. */
  method Rebuild(h: map<Key, char>, start: real, stop: real, baseSet: map<real, Base>) returns (nh: map<Key, char>)
    requires FiledByPosition(baseSet)
    ensures nh == CorrectedHash(h, start, stop, baseSet)
  {
    nh := map[];
    var rest := baseSet.Keys;
    ghost var done: set<real> := {};
    while rest != {}
      invariant done + rest == baseSet.Keys && done !! rest
      invariant nh == CorrectedOver(h, start, stop, baseSet, done)
      decreases |rest|
    {
      var p := Choose(rest);
      var b := baseSet[p];
      var entry := Decide(h, start, stop, b);
      RebuildStep(h, start, stop, baseSet, done, p, nh, entry);
      if entry.Some? {
        nh := nh[Key(b.reference, b.position) := entry.value];
      }
      done := done + {p};
      rest := rest - {p};
    }
  }

  /** The events a hash stands for, listed in keySet order. */
  method ListEvents(h: map<Key, char>) returns (list: Pattern)
    ensures NoDuplicates(list) && Elements(list) == HashEvents(h)
  {
    var keys := Enumerate(h.Keys);
    list := [];
    ghost var done: set<Key> := {};
    var i := 0;
    while i < |keys|
      invariant 0 <= i <= |keys|
      invariant forall k :: k in done <==> k in keys[..i]
      invariant NoDuplicates(list)
      invariant Elements(list) == set k | k in done :: Event(k.ref, k.pos, h[k])
    {
      var k := keys[i];
      assert k !in done;
      var e := Event(k.ref, k.pos, h[k]);
      forall k' | k' in done ensures Event(k'.ref, k'.pos, h[k']) != e {
      }
      assert e !in Elements(list);
      list := list + [e];
      assert Elements(list) == Elements(list[..|list| - 1]) + {e};
      done := done + {k};
      assert keys[..i + 1] == keys[..i] + [k];
      i := i + 1;
    }
    assert keys[..i] == keys;
    assert forall x :: x in done <==> x in h.Keys;
    assert done == h.Keys;
  }

  /** The loop state of setSNP after the first i columns. */
  predicate ScanState(start: real, q: string, r: string, i: nat, sl: Pattern, sh: map<Key, char>, insCount: nat, ins: real, frac: real)
    requires i <= |q| == |r|
  {
    && sl == AlignmentEvents(start, q, r, i)
    && sh == HashOf(sl)
    && insCount == InsBefore(q, r, i)
    && ins == Anchor(start, q, r, i) + Eps * Tri(RunLength(q, r, i)) as real
    && frac == Eps * (RunLength(q, r, i) + 1) as real
  }

  /** One column of the setSNP loop: a substitution or deletion, an insertion, or a match. */
  method ScanColumn(start: real, q: string, r: string, i: nat, sl: Pattern, sh: map<Key, char>, insCount: nat, ins: real, frac: real)
    returns (sl': Pattern, sh': map<Key, char>, insCount': nat, ins': real, frac': real)
    requires i < |q| == |r| && ScanState(start, q, r, i, sl, sh, insCount, ins, frac)
    ensures ScanState(start, q, r, i + 1, sl', sh', insCount', ins', frac')
  {
    var pos := (start + i as real) - insCount as real;
    sl', sh', insCount' := sl, sh, insCount;
    if q[i] != r[i] && r[i] != '-' {
      var snp := Event(r[i], pos, q[i]);
      sl' := sl + [snp];
      sh' := sh[Key(r[i], pos) := q[i]];
      ins' := pos;
      frac' := Eps;
      ScanSubstitution(start, q, r, i, sl, sh, insCount, ins, frac);
    } else if q[i] != r[i] && r[i] == '-' {
      ins' := ins + frac;
      var snp := Event(r[i], ins', q[i]);
      sl' := sl + [snp];
      sh' := sh[Key(r[i], ins') := q[i]];
      insCount' := insCount + 1;
      frac' := frac + Eps;
      ScanInsertion(start, q, r, i, sl, sh, insCount, ins, frac);
    } else {
      ins' := pos;
      frac' := Eps;
      ScanMatch(start, q, r, i, sl, sh, insCount, ins, frac);
    }
  }

  lemma ScanSubstitution(start: real, q: string, r: string, i: nat, sl: Pattern, sh: map<Key, char>, insCount: nat, ins: real, frac: real)
    requires i < |q| == |r| && ScanState(start, q, r, i, sl, sh, insCount, ins, frac)
    requires q[i] != r[i] && r[i] != '-'
    ensures var pos := (start + i as real) - insCount as real;
      ScanState(start, q, r, i + 1, sl + [Event(r[i], pos, q[i])], sh[Key(r[i], pos) := q[i]], insCount, pos, Eps)
  {
    var pos := (start + i as real) - insCount as real;
    assert HashOf(sl + [Event(r[i], pos, q[i])]) == HashOf(sl)[Key(r[i], pos) := q[i]] by {
      assert (sl + [Event(r[i], pos, q[i])])[..|sl|] == sl;
    }
  }

  lemma ScanInsertion(start: real, q: string, r: string, i: nat, sl: Pattern, sh: map<Key, char>, insCount: nat, ins: real, frac: real)
    requires i < |q| == |r| && ScanState(start, q, r, i, sl, sh, insCount, ins, frac)
    requires q[i] != r[i] && r[i] == '-'
    ensures ScanState(start, q, r, i + 1, sl + [Event(r[i], ins + frac, q[i])], sh[Key(r[i], ins + frac) := q[i]],
      insCount + 1, ins + frac, frac + Eps)
  {
    var e := Event(r[i], ins + frac, q[i]);
    assert HashOf(sl + [e]) == HashOf(sl)[Key(r[i], ins + frac) := q[i]] by {
      assert (sl + [e])[..|sl|] == sl;
    }
    assert RunLength(q, r, i + 1) == RunLength(q, r, i) + 1;
    assert Anchor(start, q, r, i + 1) == Anchor(start, q, r, i);
    var k := RunLength(q, r, i);
    assert Tri(k + 1) == Tri(k) + k + 1;
    assert Eps * Tri(k) as real + Eps * (k + 1) as real == Eps * Tri(k + 1) as real;
  }

  lemma ScanMatch(start: real, q: string, r: string, i: nat, sl: Pattern, sh: map<Key, char>, insCount: nat, ins: real, frac: real)
    requires i < |q| == |r| && ScanState(start, q, r, i, sl, sh, insCount, ins, frac)
    requires !(q[i] != r[i])
    ensures ScanState(start, q, r, i + 1, sl, sh, insCount, (start + i as real) - insCount as real, Eps)
  {
  }

  class Read {
    var start: real
    var stop: real
    var snpList: Pattern
    var snpHash: map<Key, char>
    var snpString: Pattern   // the events whose texts make up SNP_string, in order
    var insertions: int
    var pvalue: real
    var adjustedPvalue: real

    /** A read placed at [start, stop] by its alignment, with no events yet. */
    constructor (start: real, stop: real)
      ensures this.start == start && this.stop == stop
      ensures snpList == [] && snpHash == map[] && snpString == []
      ensures insertions == 0 && pvalue == -1.0 && adjustedPvalue == -1.0
    {
      this.start, this.stop := start, stop;
      snpList, snpHash, snpString := [], map[], [];
      insertions, pvalue, adjustedPvalue := 0, -1.0, -1.0;
    }

    /** spans: the read covers [sta, sto]. */
    predicate Spans(sta: real, sto: real)
      reads this
    {
      start <= sta && stop >= sto
    }

    /** overlaps: each read sticks out of the other on one side. */
    predicate Overlaps(r: Read)
      reads this, r
    {
      (start < r.start && stop < r.stop && stop > r.start) || (r.start < start && r.stop < stop && r.stop > start)
    }

    /** getSNPString: the events of the list inside [sta, sto]. */
    function GetSnpString(sta: real, sto: real): Pattern
      reads this
    {
      Restrict(snpList, sta, sto)
    }

    /** distance: token distance of the two reads' events inside [sta, sto]. */
    function Distance(r: Read, sta: real, sto: real): nat
      reads this, r
    {
      Patterns.Distance(GetSnpString(sta, sto), r.GetSnpString(sta, sto))
    }

    /**
     * setSNP over the two aligned rows (query first, reference second,
     * '-' for a gap).
     */
    method SetSnp(query: string, refer: string)
      requires |query| == |refer|
      modifies this
      ensures start == old(start) && pvalue == old(pvalue) && adjustedPvalue == old(adjustedPvalue)
      ensures snpList == AlignmentEvents(start, query, refer, |query|)
      ensures snpHash == HashOf(snpList)
      ensures snpString == snpList
      ensures stop == start + |query| as real - InsBefore(query, refer, |query|) as real
      ensures insertions == InsBefore(query, refer, |query|)
    {
      var sl: Pattern := [];
      var sh: map<Key, char> := map[];
      var ss: Pattern := [];
      var ins := 0.0;
      var frac := Eps;
      var insCount: nat := 0;
      var i := 0;
      while i < |query|
        invariant 0 <= i <= |query| && ss == sl
        invariant start == old(start) && pvalue == old(pvalue) && adjustedPvalue == old(adjustedPvalue)
        invariant ScanState(start, query, refer, i, sl, sh, insCount, ins, frac)
      {
        sl, sh, insCount, ins, frac := ScanColumn(start, query, refer, i, sl, sh, insCount, ins, frac);
        ss := sl;
        i := i + 1;
      }
      snpList := sl;
      snpHash := sh;
      snpString := ss;
      stop := start + |query| as real - insCount as real;
      insertions := insCount;
    }

    /**
     * updateSNPFromHash: the list becomes the hash's events, sorted by
     * non-decreasing position (keySet order among equal positions).
     */
    method UpdateSnpFromHash()
      modifies this`snpList, this`snpString
      ensures NoDuplicates(snpList) && Elements(snpList) == HashEvents(snpHash)
      ensures SortedBy(snpList, Position)
      ensures snpString == snpList
    {
      var list := ListEvents(snpHash);
      var sorted := SortBy(list, Position);
      PermutationKeepsElements(list, sorted);
      snpList := sorted;
      snpString := snpList;
    }

    /** correct: rebuild the hash against the corrected bases, then the list and string from it. */
    method Correct(baseSet: map<real, Base>)
      requires FiledByPosition(baseSet)
      modifies this`snpHash, this`snpList, this`snpString
      ensures snpHash == old(CorrectedHash(snpHash, start, stop, baseSet))
      ensures NoDuplicates(snpList) && Elements(snpList) == HashEvents(snpHash)
      ensures SortedBy(snpList, Position) && snpString == snpList
    {
      var newHash := Rebuild(snpHash, start, stop, baseSet);
      snpHash := newHash;
      UpdateSnpFromHash();
    }
  }

  /** getSNPString keeps exactly the events inside [sta, sto], in list order. */
  lemma SnpStringInWindow(r: Read, sta: real, sto: real)
    ensures forall e :: e in r.GetSnpString(sta, sto) <==> e in r.snpList && sta <= e.pos <= sto
    ensures IsSubsequence(r.GetSnpString(sta, sto), r.snpList)
  {
    RestrictMembers(r.snpList, sta, sto);
    RestrictIsSubsequence(r.snpList, sta, sto);
  }

  /** overlaps is symmetric. */
  lemma OverlapsSymmetric(a: Read, b: Read)
    ensures a.Overlaps(b) <==> b.Overlaps(a)
  {
  }

  /** A read never overlaps itself, nor a read it contains or is contained in. */
  lemma OverlapsIsStrict(a: Read, b: Read)
    ensures !a.Overlaps(a)
    ensures a.start <= b.start && b.stop <= a.stop ==> !a.Overlaps(b) && !b.Overlaps(a)
  {
  }

  /** The read distance is symmetric and vanishes against itself. */
  lemma ReadDistanceProperties(a: Read, b: Read, sta: real, sto: real)
    ensures a.Distance(b, sta, sto) == b.Distance(a, sta, sto)
    ensures a.Distance(a, sta, sto) == 0
  {
    DistanceSelf(a.GetSnpString(sta, sto));
  }
}
