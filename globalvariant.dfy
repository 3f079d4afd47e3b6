/**
 * A reconstructed haplotype (class GlobalVariant): the chain of variant
 * events picked across the windows, its frequency, and the sequence obtained
 * by patching those events into the reference genome.
 */
module GlobalVariants {
  import opened Common
  import opened Sorting
  import opened Snp
  import opened Patterns

  /** Java's (int) cast of a double: truncation toward zero. */
  function Trunc(x: real): int
  {
    if x >= 0.0 then x.Floor else -((-x).Floor)
  }

  /** The reference letter of every 1-based position lo+1 .. hi, keyed by position. */
  function RefMap(ref: string, lo: int, hi: int): map<real, char>
    requires hi <= lo || (0 <= lo && hi <= |ref|)
    decreases hi - lo
  {
    if hi <= lo then map[] else RefMap(ref, lo, hi - 1)[hi as real := ref[hi - 1]]
  }

  /** The keys of RefMap(ref, lo, hi) are the whole numbers lo+1 .. hi. */
  lemma {:induction false} RefMapKeys(ref: string, lo: int, hi: int)
    requires hi <= lo || (0 <= lo && hi <= |ref|)
    ensures forall k :: k in RefMap(ref, lo, hi) <==> IsPositionIn(k, lo, hi)
    decreases hi - lo
  {
    if hi > lo {
      RefMapKeys(ref, lo, hi - 1);
      assert (hi as real).Floor == hi;
    }
  }

  /** k is a whole number in lo+1 .. hi. */
  predicate IsPositionIn(k: real, lo: int, hi: int)
  {
    k == k.Floor as real && lo < k.Floor <= hi
  }

  /** The events put into m in list order: a later event overwrites an earlier one. */
  function Overlay(m: map<real, char>, es: Pattern): map<real, char>
  {
    if es == [] then m
    else
      var e := es[|es| - 1];
      Overlay(m, es[..|es| - 1])[e.pos := e.base]
  }

  /** The base of the last event of es at position k, if there is one. */
  function LastAt(es: Pattern, k: real): Option<char>
  {
    if es == [] then None
    else if es[|es| - 1].pos == k then Some(es[|es| - 1].base)
    else LastAt(es[..|es| - 1], k)
  }

  /** The table setSequence builds: reference letters over [start, stop], overlaid by the events. */
  function BaseMap(ref: string, start: real, stop: real, snp: Pattern): map<real, char>
    requires Trunc(stop) <= Trunc(start - 1.0) || (0 <= Trunc(start - 1.0) && Trunc(stop) <= |ref|)
  {
    Overlay(RefMap(ref, Trunc(start - 1.0), Trunc(stop)), snp)
  }

  /** keys lists exactly the keys of m. */
  predicate Lists(keys: seq<real>, m: map<real, char>)
  {
    && (forall i :: 0 <= i < |keys| ==> keys[i] in m)
    && (forall k :: k in m ==> k in keys)
  }

  predicate StrictlyIncreasing(keys: seq<real>)
  {
    forall i, j :: 0 <= i < j < |keys| ==> keys[i] < keys[j]
  }

  function Identity(x: real): real { x }

  /** The letters of m read in the order of keys. */
  function Spell(m: map<real, char>, keys: seq<real>): (s: string)
    requires forall i :: 0 <= i < |keys| ==> keys[i] in m
    ensures |s| == |keys|
  {
    if keys == [] then [] else Spell(m, keys[..|keys| - 1]) + [m[keys[|keys| - 1]]]
  }

  /** String.replaceAll("-", ""): the letters other than '-', in order. */
  function RemoveGaps(s: string): (r: string)
    ensures '-' !in r
    ensures |r| <= |s|
  {
    if s == [] then [] else RemoveGaps(s[..|s| - 1]) + (if s[|s| - 1] == '-' then [] else [s[|s| - 1]])
  }

  /**
   * s is the sequence of the haplotype snp over [start, stop]: the letters of
   * its table read in ascending position order (keys), without '-'.
   */
  predicate Sequenced(ref: string, start: real, stop: real, snp: Pattern, keys: seq<real>, s: string)
    requires Trunc(stop) <= Trunc(start - 1.0) || (0 <= Trunc(start - 1.0) && Trunc(stop) <= |ref|)
  {
    && StrictlyIncreasing(keys) && Lists(keys, BaseMap(ref, start, stop, snp))
    && s == RemoveGaps(Spell(BaseMap(ref, start, stop, snp), keys))
  }

  class GlobalVariant {
    var snp: Pattern
    var sequence: string
    var frequency: real
    var stdevFreq: real

    /** The default object: no events, no sequence, frequency and deviation -1. */
    constructor ()
      ensures snp == [] && sequence == [] && frequency == -1.0 && stdevFreq == -1.0
    {
      snp, sequence, frequency, stdevFreq := [], [], -1.0, -1.0;
    }

    /**
     * setSequence: the letters of the table (reference over [start, stop],
     * events patched in) in ascending position order, with '-' removed.
     */
    method SetSequence(refGenome: string, start: real, stop: real) returns (ghost keys: seq<real>)
      requires Trunc(stop) <= Trunc(start - 1.0) || (0 <= Trunc(start - 1.0) && Trunc(stop) <= |refGenome|)
      modifies this`sequence
      ensures Sequenced(refGenome, start, stop, snp, keys, sequence)
    {
      var bs := FillReference(refGenome, Trunc(start - 1.0), Trunc(stop));
      bs := PutEvents(bs, snp);
      var s;
      s, keys := ReadInOrder(bs);
      sequence := RemoveGaps(s);
    }
  }

  /** The first loop of setSequence: one entry per reference position lo+1 .. hi. */
  method FillReference(ref: string, lo: int, hi: int) returns (bs: map<real, char>)
    requires hi <= lo || (0 <= lo && hi <= |ref|)
    ensures bs == RefMap(ref, lo, hi)
  {
    bs := map[];
    var i := lo;
    while i < hi
      invariant lo <= i && (i <= hi || i == lo)
      invariant bs == RefMap(ref, lo, i)
    {
      bs := bs[(i + 1) as real := ref[i]];
      i := i + 1;
    }
  }

  /** The second loop: each event, in list order, puts its base at its position. */
  method PutEvents(bs: map<real, char>, snp: Pattern) returns (r: map<real, char>)
    ensures r == Overlay(bs, snp)
  {
    r := bs;
    var j := 0;
    while j < |snp|
      invariant 0 <= j <= |snp|
      invariant r == Overlay(bs, snp[..j])
    {
      assert snp[..j + 1][..j] == snp[..j];
      r := r[snp[j].pos := snp[j].base];
      j := j + 1;
    }
    assert snp[..|snp|] == snp;
  }

  /** Arrays.sort over the key set: the keys of bs in ascending order. */
  method SortedKeysOf(bs: map<real, char>) returns (keys: seq<real>)
    ensures StrictlyIncreasing(keys) && Lists(keys, bs)
  {
    var ks := Enumerate(bs.Keys);
    keys := SortBy(ks, Identity);
    SortedKeys(ks, keys);
  }

  /** The sorted key array and the final loop: the letters in ascending position order. */
  method ReadInOrder(bs: map<real, char>) returns (s: string, ghost keys: seq<real>)
    ensures StrictlyIncreasing(keys) && Lists(keys, bs)
    ensures s == Spell(bs, keys)
  {
    var sorted := SortedKeysOf(bs);
    s := "";
    var k := 0;
    while k < |sorted|
      invariant 0 <= k <= |sorted|
      invariant s == Spell(bs, sorted[..k])
    {
      assert sorted[..k + 1][..k] == sorted[..k];
      s := s + [bs[sorted[k]]];
      k := k + 1;
    }
    assert sorted[..|sorted|] == sorted;
    keys := sorted;
  }

  /** A later event at the same position overwrites an earlier one; other positions keep the table's letter. */
  lemma {:induction false} OverlayLastWins(m: map<real, char>, es: Pattern, k: real)
    ensures k in Overlay(m, es) <==> k in m || LastAt(es, k).Some?
    ensures LastAt(es, k).Some? ==> Overlay(m, es)[k] == LastAt(es, k).value
    ensures LastAt(es, k).None? && k in m ==> Overlay(m, es)[k] == m[k]
  {
    if es != [] {
      OverlayLastWins(m, es[..|es| - 1], k);
    }
  }

  /** An event shows up in LastAt at its own position, whatever range it lies in. */
  lemma {:induction false} EventIsKeyed(es: Pattern, j: nat)
    requires j < |es|
    ensures LastAt(es, es[j].pos).Some?
  {
    if j < |es| - 1 && es[|es| - 1].pos != es[j].pos {
      EventIsKeyed(es[..|es| - 1], j);
    }
  }

  /** Without events, the patched sequence is the reference slice [lo, hi), read in order. */
  lemma {:induction false} ReferenceSpelled(ref: string, lo: int, hi: int, keys: seq<real>)
    requires 0 <= lo <= hi <= |ref|
    requires StrictlyIncreasing(keys) && Lists(keys, RefMap(ref, lo, hi))
    ensures Spell(RefMap(ref, lo, hi), keys) == ref[lo..hi]
    decreases hi - lo
  {
    if hi == lo {
      assert RefMap(ref, lo, hi) == map[];
      assert |keys| == 0;
    } else {
      ReferenceStep(ref, lo, hi, keys);
      ReferenceSpelled(ref, lo, hi - 1, keys[..|keys| - 1]);
      SliceSnoc(ref, lo, hi);
    }
  }

  /** setSequence without events: the table's letters spell the reference slice. */
  lemma ReferenceOnly(ref: string, start: real, stop: real, keys: seq<real>)
    requires 0 <= Trunc(start - 1.0) <= Trunc(stop) <= |ref|
    requires StrictlyIncreasing(keys) && Lists(keys, BaseMap(ref, start, stop, []))
    ensures Spell(BaseMap(ref, start, stop, []), keys) == ref[Trunc(start - 1.0)..Trunc(stop)]
  {
    ReferenceSpelled(ref, Trunc(start - 1.0), Trunc(stop), keys);
  }

  lemma SliceSnoc(s: string, lo: int, hi: int)
    requires 0 <= lo < hi <= |s|
    ensures s[lo..hi] == s[lo..hi - 1] + [s[hi - 1]]
  {
  }

  /** The last key is hi, and the keys before it list the table of lo+1 .. hi-1. */
  lemma ReferenceStep(ref: string, lo: int, hi: int, keys: seq<real>)
    requires 0 <= lo < hi <= |ref|
    requires StrictlyIncreasing(keys) && Lists(keys, RefMap(ref, lo, hi))
    ensures keys != [] && StrictlyIncreasing(keys[..|keys| - 1])
    ensures Lists(keys[..|keys| - 1], RefMap(ref, lo, hi - 1))
    ensures Spell(RefMap(ref, lo, hi), keys) == Spell(RefMap(ref, lo, hi - 1), keys[..|keys| - 1]) + [ref[hi - 1]]
  {
    var m := RefMap(ref, lo, hi);
    var m' := RefMap(ref, lo, hi - 1);
    var top := hi as real;
    assert m == m'[top := ref[hi - 1]];
    RefMapTop(ref, lo, hi);
    MaxIsLast(keys, m, top);
    var front := keys[..|keys| - 1];
    FrontKeys(keys, m, m', top, ref[hi - 1]);
    SpellAgrees(m, m', front);
  }

  /** The keys before the last one list the table without its top entry. */
  lemma FrontKeys(keys: seq<real>, m: map<real, char>, m': map<real, char>, top: real, c: char)
    requires StrictlyIncreasing(keys) && keys != [] && keys[|keys| - 1] == top
    requires Lists(keys, m) && top !in m' && m == m'[top := c]
    ensures Lists(keys[..|keys| - 1], m')
    ensures forall i :: 0 <= i < |keys| - 1 ==> keys[i] in m && keys[i] in m' && m[keys[i]] == m'[keys[i]]
  {
    var n := |keys|;
    var front := keys[..n - 1];
    forall i | 0 <= i < n - 1 ensures keys[i] in m && keys[i] in m' && m[keys[i]] == m'[keys[i]] {
      assert keys[i] < top;
    }
    forall k | k in m' ensures k in front {
      assert k in m;
      var a :| 0 <= a < n && keys[a] == k;
      assert a != n - 1 && front[a] == k;
    }
  }

  /** Every key of RefMap(ref, lo, hi) is at most hi, and hi is not a key of RefMap(ref, lo, hi - 1). */
  lemma RefMapTop(ref: string, lo: int, hi: int)
    requires 0 <= lo < hi <= |ref|
    ensures forall k :: k in RefMap(ref, lo, hi) ==> k <= hi as real
    ensures hi as real !in RefMap(ref, lo, hi - 1)
  {
    RefMapKeys(ref, lo, hi);
    RefMapKeys(ref, lo, hi - 1);
    assert (hi as real).Floor == hi;
    forall k | k in RefMap(ref, lo, hi) ensures k <= hi as real {
      assert IsPositionIn(k, lo, hi);
    }
  }

  /** In a strictly increasing listing of m, a key no smaller than every key is the last one. */
  lemma MaxIsLast(keys: seq<real>, m: map<real, char>, top: real)
    requires StrictlyIncreasing(keys) && Lists(keys, m) && top in m
    requires forall k :: k in m ==> k <= top
    ensures keys != [] && keys[|keys| - 1] == top
  {
    var t :| 0 <= t < |keys| && keys[t] == top;
    assert keys[|keys| - 1] in m;
  }

  /** Spelling only looks at the keys it is given. */
  lemma {:induction false} SpellAgrees(m: map<real, char>, m': map<real, char>, keys: seq<real>)
    requires forall i :: 0 <= i < |keys| ==> keys[i] in m && keys[i] in m' && m[keys[i]] == m'[keys[i]]
    ensures Spell(m, keys) == Spell(m', keys)
  {
    if keys != [] {
      SpellAgrees(m, m', keys[..|keys| - 1]);
    }
  }

  /** Removing gaps from a gap-free string leaves it as it is. */
  lemma {:induction false} RemoveGapsOfPlain(s: string)
    requires '-' !in s
    ensures RemoveGaps(s) == s
  {
    if s != [] {
      assert '-' !in s[..|s| - 1];
      RemoveGapsOfPlain(s[..|s| - 1]);
    }
  }

  /** Sorting distinct keys gives a strictly increasing listing of the same keys. */
  lemma SortedKeys(ks: seq<real>, sorted: seq<real>)
    requires NoDuplicates(ks) && multiset(ks) == multiset(sorted) && SortedBy(sorted, Identity)
    ensures StrictlyIncreasing(sorted)
    ensures forall x :: x in sorted <==> x in ks
  {
    PermutationKeepsElements(ks, sorted);
    forall i, j | 0 <= i < j < |sorted| ensures sorted[i] < sorted[j] {
      assert Identity(sorted[i]) <= Identity(sorted[j]);
    }
    forall x ensures x in sorted <==> x in ks {
      assert x in sorted <==> x in multiset(sorted);
      assert x in ks <==> x in multiset(ks);
    }
  }
}
